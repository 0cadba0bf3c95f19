/**
 Sequences of lookups on the bucket array, as an in-order indication makes them.
 All definitions grow at the end, like the loop that runs them.
 */
module RxLookups {
  import opened Nbufs
  import opened PaddrMap

  function Init<T>(s: seq<T>): (r: seq<T>)
    requires s != []
    ensures |r| == |s| - 1
  {
    s[..|s| - 1]
  }

  function Last<T>(s: seq<T>): (x: T)
    requires s != []
  {
    s[|s| - 1]
  }

  function RemoveAll(t: Table, ps: seq<Paddr>): (r: Table) {
    if ps == [] then t else Remove(RemoveAll(t, Init(ps)), Last(ps))
  }

  /** What the lookups return, up to the first one that finds nothing. */
  function Taken(t: Table, ps: seq<Paddr>): (r: seq<Nbuf>)
    ensures |r| <= |ps|
  {
    if ps == [] then [] else
    var before := Taken(t, Init(ps));
    var q := Queue(RemoveAll(t, Init(ps)), Last(ps));
    if |before| < |ps| - 1 || q == [] then before else before + [q[0]]
  }

  /** How often `p` is looked up. */
  function Asked(ps: seq<Paddr>, p: Paddr): (n: nat)
    ensures n <= |ps| && n == multiset(ps)[p]
  {
    if ps == [] then 0 else
    assert ps == Init(ps) + [Last(ps)];
    Asked(Init(ps), p) + if Last(ps) == p then 1 else 0
  }

  /** Lookups pop each address's queue from the front, as often as it is asked for. */
  lemma {:induction false} QueueAfterRemoveAll(t: Table, ps: seq<Paddr>, q: Paddr)
    ensures var n := Asked(ps, q);
            Queue(RemoveAll(t, ps), q) == if n <= |Queue(t, q)| then Queue(t, q)[n..] else []
  {
    if ps != [] {
      QueueAfterRemoveAll(t, Init(ps), q);
      QueueAfterRemove(RemoveAll(t, Init(ps)), Last(ps), q);
    }
  }

  lemma {:induction false} TakenPrefix(t: Table, ps: seq<Paddr>, i: nat)
    requires i <= |ps|
    ensures |Taken(t, ps[..i])| < i ==> Taken(t, ps) == Taken(t, ps[..i])
    ensures |Taken(t, ps)| == |ps| ==> |Taken(t, ps[..i])| == i
    decreases |ps| - i
  {
    if i < |ps| {
      assert Init(ps[..i + 1]) == ps[..i];
      TakenPrefix(t, ps, i + 1);
    } else {
      assert ps[..i] == ps;
    }
  }

  /** One more lookup after `i` successful ones. */
  lemma TakenStep(t: Table, ps: seq<Paddr>, i: nat)
    requires i < |ps| && |Taken(t, ps[..i])| == i
    ensures RemoveAll(t, ps[..i + 1]) == Remove(RemoveAll(t, ps[..i]), ps[i])
    ensures var b := Head(Queue(RemoveAll(t, ps[..i]), ps[i]));
            if b == null then Taken(t, ps) == Taken(t, ps[..i])
            else Taken(t, ps[..i + 1]) == Taken(t, ps[..i]) + [b]
  {
    assert Init(ps[..i + 1]) == ps[..i];
    TakenPrefix(t, ps, i + 1);
  }

  /** It was taken before the last lookup, or by it. */
  lemma TakenSplits(t: Table, ps: seq<Paddr>, j: nat)
    requires j < |Taken(t, ps)|
    ensures ps != []
    ensures j < |Taken(t, Init(ps))| ==> Taken(t, ps)[j] == Taken(t, Init(ps))[j]
    ensures |Taken(t, Init(ps))| <= j ==>
              && j == |ps| - 1 && Queue(RemoveAll(t, Init(ps)), Last(ps)) != []
              && Taken(t, ps)[j] == Queue(RemoveAll(t, Init(ps)), Last(ps))[0]
  {
    hide RemoveAll, Queue;
  }

  /** The j-th buffer taken is the oldest one not yet taken of the j-th address. */
  lemma {:induction false} TakenIsFifo(t: Table, ps: seq<Paddr>, j: nat)
    requires j < |Taken(t, ps)|
    ensures Asked(ps[..j], ps[j]) < |Queue(t, ps[j])|
    ensures Taken(t, ps)[j] == Queue(t, ps[j])[Asked(ps[..j], ps[j])]
    decreases |ps|
  {
    hide Taken, Asked, RemoveAll, Queue;
    TakenSplits(t, ps, j);
    if j < |Taken(t, Init(ps))| {
      TakenIsFifo(t, Init(ps), j);
      assert Init(ps)[..j] == ps[..j] && Init(ps)[j] == ps[j];
    } else {
      QueueAfterRemoveAll(t, Init(ps), Last(ps));
      assert Init(ps) == ps[..j];
    }
  }

  lemma TakenWhole(t: Table, ps: seq<Paddr>)
    requires ps != []
    ensures |Taken(t, ps)| == |ps| <==>
              |Taken(t, Init(ps))| == |ps| - 1 && Queue(RemoveAll(t, Init(ps)), Last(ps)) != []
  {
    hide RemoveAll, Queue;
  }

  lemma AskedLast(ps: seq<Paddr>, p: Paddr)
    requires ps != []
    ensures Asked(ps, p) == Asked(Init(ps), p) + if Last(ps) == p then 1 else 0
    ensures p in ps <==> p in Init(ps) || p == Last(ps)
  {
    assert ps == Init(ps) + [Last(ps)];
  }

  /** Every lookup succeeds exactly when no address is asked for more often than it is posted. */
  lemma {:induction false} AllFound(t: Table, ps: seq<Paddr>)
    ensures |Taken(t, ps)| == |ps| <==> forall p :: p in ps ==> Asked(ps, p) <= |Queue(t, p)|
  {
    if ps != [] {
      hide Taken, RemoveAll, Queue, Asked;
      var front, p := Init(ps), Last(ps);
      AllFound(t, front);
      QueueAfterRemoveAll(t, front, p);
      TakenWhole(t, ps);
      AskedNone(front, p);
      AskedLast(ps, p);
      forall x ensures (x in ps ==> Asked(ps, x) <= |Queue(t, x)|) <==>
                       && (x in front ==> Asked(front, x) <= |Queue(t, x)|)
                       && (x == p ==> Asked(front, p) < |Queue(t, p)|) {
        AskedLast(ps, x);
      }
      assert p in ps;
    }
  }

  lemma {:induction false} AskedNone(ps: seq<Paddr>, p: Paddr)
    ensures Asked(ps, p) == 0 <==> p !in ps
  {
    if ps != [] {
      AskedNone(Init(ps), p);
      assert ps == Init(ps) + [Last(ps)];
    }
  }

  /** Nothing is lost: what was posted is what is still posted plus what was taken. */
  lemma {:induction false} TakenConserves(t: Table, ps: seq<Paddr>)
    requires |Taken(t, ps)| == |ps|
    ensures AllBufs(t) == AllBufs(RemoveAll(t, ps)) + multiset(Taken(t, ps))
    ensures Count(RemoveAll(t, ps)) == Count(t) - |ps|
  {
    if ps != [] {
      var front, p := Init(ps), Last(ps);
      var m := RemoveAll(t, front);
      TakenConserves(t, front);
      AllBufsAfterRemove(m, p);
      CountAfterRemove(m, p);
      assert Taken(t, ps) == Taken(t, front) + [Queue(m, p)[0]];
    }
  }

  /*--- posted buffers are distinct objects ---*/

  ghost predicate OnceEach(m: multiset<Nbuf>) {
    forall b :: b in m ==> m[b] == 1
  }

  lemma OnceEachParts(m: multiset<Nbuf>, a: multiset<Nbuf>, s: seq<Nbuf>)
    requires OnceEach(m) && m == a + multiset(s)
    ensures OnceEach(a) && Distinct(s)
    ensures forall b :: b in s ==> b in m && b !in a
  {
    forall b | b in a ensures a[b] == 1 {
      assert b in m && m[b] == a[b] + multiset(s)[b];
    }
    forall b | b in s ensures b in m && b !in a {
      assert b in multiset(s);
      assert m[b] == a[b] + multiset(s)[b];
    }
    forall i, j | 0 <= i < j < |s| ensures s[i] != s[j] {
      TwiceCounts(s, i, j);
      assert s[i] in m && m[s[i]] == a[s[i]] + multiset(s)[s[i]];
    }
  }

  lemma TwiceCounts(s: seq<Nbuf>, i: nat, j: nat)
    requires i < j < |s|
    ensures s[i] == s[j] ==> multiset(s)[s[i]] >= 2
  {
    assert s == s[..j] + [s[j]] + s[j + 1..];
    assert s[..j][i] == s[i] && s[i] in multiset(s[..j]);
  }

  lemma OnceEachTaken(t: Table, ps: seq<Paddr>)
    requires OnceEach(AllBufs(t)) && |Taken(t, ps)| == |ps|
    ensures OnceEach(AllBufs(RemoveAll(t, ps))) && Distinct(Taken(t, ps))
    ensures forall b :: b in Taken(t, ps) ==> b in AllBufs(t) && b !in AllBufs(RemoveAll(t, ps))
  {
    TakenConserves(t, ps);
    OnceEachParts(AllBufs(t), AllBufs(RemoveAll(t, ps)), Taken(t, ps));
  }
}
