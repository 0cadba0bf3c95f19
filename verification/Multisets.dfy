module Multisets {

  lemma Regroup<T>(a: multiset<T>, b: multiset<T>, c: multiset<T>)
    ensures (a + b) + c == a + (b + c)
    ensures (a + b) + c == (a + c) + b
  {
  }

  lemma Cancel<T>(a: multiset<T>, b: multiset<T>, c: multiset<T>)
    requires a + c == b + c
    ensures a == b
  {
    forall x: T ensures a[x] == b[x] {
      assert (a + c)[x] == (b + c)[x];
    }
  }
}
