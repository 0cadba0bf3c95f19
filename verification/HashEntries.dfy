/**
 Where the entries of one hash bucket are over its whole life: posted, in the free pool, or on
 the heap as well.
 */
module HashEntries {
  import opened Nbufs
  import opened HttList
  import opened Multisets

  /** The entries linked in listhead, those in freepool, and those allocated on the heap. */
  datatype Use = Use(live: seq<ListNode>, free: seq<ListNode>, heap: set<ListNode>)

  /** An insert takes the oldest entry of the pool; only from an empty pool one from the heap, or none. */
  ghost predicate Inserted(a: Use, b: Use) {
    if a.free != [] then b == Use(a.live + [a.free[0]], a.free[1..], a.heap)
    else
      || b == a
      || exists e :: e in b.heap && Allocated(a, b, e)
  }

  predicate Allocated(a: Use, b: Use, e: ListNode) {
    !e.fromlist && e !in a.live && e !in a.heap && b == Use(a.live + [e], [], a.heap + {e})
  }

  /** A lookup gives one entry back to where it came from. */
  predicate Released(a: Use, b: Use, k: nat) {
    && k < |a.live| && b.live == a.live[..k] + a.live[k + 1..]
    && if a.live[k].fromlist then b.free == a.free + [a.live[k]] && b.heap == a.heap
       else b.free == a.free && b.heap == a.heap - {a.live[k]}
  }

  ghost predicate LookedUp(a: Use, b: Use) {
    b == a || exists k: nat :: Released(a, b, k)
  }

  ghost predicate Begin(u: Use) {
    u.live == [] && u.heap == {} && |u.free| == 10 && Distinct(u.free) && forall e :: e in u.free ==> e.fromlist
  }

  ghost predicate Step(a: Use, b: Use) {
    Inserted(a, b) || LookedUp(a, b)
  }

  /** Every state of a bucket, from the first on. */
  ghost predicate Run(us: seq<Use>) {
    && us != [] && Begin(us[0])
    && forall i :: 0 <= i < |us| - 1 ==> Step(us[i], us[i + 1])
  }

  /** What is posted and what is free are the ten entries and those of the heap. */
  ghost predicate Placed(entries: seq<ListNode>, u: Use) {
    && multiset(u.live) + multiset(u.free) == multiset(entries) + multiset(u.heap)
    && (forall e :: e in u.free ==> e.fromlist)
    && (forall e :: e in u.heap ==> !e.fromlist)
  }

  lemma InsertKeepsPlaced(entries: seq<ListNode>, a: Use, b: Use)
    requires Placed(entries, a) && Inserted(a, b)
    ensures Placed(entries, b)
  {
    if a.free != [] {
      assert a.free == [a.free[0]] + a.free[1..];
      assert multiset(b.live) == multiset(a.live) + multiset{a.free[0]};
      assert multiset(a.free) == multiset{a.free[0]} + multiset(b.free);
      Regroup(multiset(a.live), multiset{a.free[0]}, multiset(b.free));
    } else if b != a {
      var e :| e in b.heap && Allocated(a, b, e);
      AllocKeepsPlaced(entries, a, b, e);
    }
  }

  lemma AllocKeepsPlaced(entries: seq<ListNode>, a: Use, b: Use, e: ListNode)
    requires Placed(entries, a) && a.free == [] && Allocated(a, b, e)
    ensures Placed(entries, b)
  {
    HeapOneMore(a.heap, e);
    assert b.free == a.free && multiset(b.live) == multiset(a.live) + multiset{e};
    Regroup(multiset(a.live), multiset{e}, multiset(a.free));
    Regroup(multiset(entries), multiset(a.heap), multiset{e});
  }

  lemma HeapOneMore(heap: set<ListNode>, e: ListNode)
    requires e !in heap
    ensures multiset(heap + {e}) == multiset(heap) + multiset{e}
  {
  }

  lemma ReleaseKeepsPlaced(entries: seq<ListNode>, a: Use, b: Use, k: nat)
    requires Placed(entries, a) && Released(a, b, k) && forall e :: e in entries ==> e.fromlist
    ensures Placed(entries, b)
  {
    var e := a.live[k];
    assert a.live == a.live[..k] + [e] + a.live[k + 1..];
    assert multiset(a.live) == multiset(b.live) + multiset{e};
    if e.fromlist {
      assert multiset(b.free) == multiset(a.free) + multiset{e};
    } else {
      assert e in multiset(a.live) + multiset(a.free);
      assert e in a.heap;
      HeapOneMore(b.heap, e);
      assert a.heap == b.heap + {e};
      Regroup(multiset(b.live), multiset{e}, multiset(a.free));
      Regroup(multiset(entries), multiset(b.heap), multiset{e});
      Cancel(multiset(b.live) + multiset(b.free), multiset(entries) + multiset(b.heap), multiset{e});
    }
  }

  lemma StepKeepsPlaced(entries: seq<ListNode>, a: Use, b: Use)
    requires Placed(entries, a) && Step(a, b) && forall e :: e in entries ==> e.fromlist
    ensures Placed(entries, b)
  {
    hide Placed;
    if Inserted(a, b) {
      InsertKeepsPlaced(entries, a, b);
    } else if b != a {
      var k: nat :| Released(a, b, k);
      ReleaseKeepsPlaced(entries, a, b, k);
    }
  }

  lemma {:induction false} RunPlaced(us: seq<Use>, i: nat)
    requires Run(us) && i < |us|
    ensures Placed(us[0].free, us[i])
  {
    hide Step;
    if i > 0 {
      hide Placed;
      RunPlaced(us, i - 1);
      assert us[i - 1 + 1] == us[i];
      StepKeepsPlaced(us[0].free, us[i - 1], us[i]);
    }
  }

  /** Over every run each of the ten entries is in exactly one of the two lists, once. */
  lemma EachInOneList(us: seq<Use>, i: nat, e: ListNode)
    requires Run(us) && i < |us| && e in us[0].free
    ensures multiset(us[i].live)[e] + multiset(us[i].free)[e] == 1
    ensures e in us[i].live <==> e !in us[i].free
  {
    RunPlaced(us, i);
    CountsOnce(us[0].free, e);
    assert (multiset(us[i].live) + multiset(us[i].free))[e] == (multiset(us[0].free) + multiset(us[i].heap))[e];
    assert e in us[i].live <==> e in multiset(us[i].live);
    assert e in us[i].free <==> e in multiset(us[i].free);
  }

  lemma {:induction false} CountsOnce(s: seq<ListNode>, e: ListNode)
    requires Distinct(s)
    ensures multiset(s)[e] == if e in s then 1 else 0
  {
    if s != [] {
      CountsOnce(s[1..], e);
      assert s == [s[0]] + s[1..];
      assert s[0] !in s[1..];
    }
  }

  /** Over every run the heap is drawn on only in a step that finds all ten entries posted. */
  lemma HeapGrowsOnlyWhenFull(us: seq<Use>, i: nat)
    requires Run(us) && i + 1 < |us| && !(us[i + 1].heap <= us[i].heap)
    ensures us[i].free == [] && forall e :: e in us[0].free ==> e in us[i].live
    ensures us[i + 1].free == []
  {
    hide Placed;
    RunPlaced(us, i);
    forall e | e in us[0].free ensures e in us[i].live {
      EachInOneList(us, i, e);
    }
  }

  /** So it is ever used if and only if more than ten buffers are ever posted in the bucket at once. */
  lemma HeapUsedIff(us: seq<Use>)
    requires Run(us)
    ensures (exists i :: 0 <= i < |us| && us[i].heap != {}) <==> (exists i :: 0 <= i < |us| && 10 < |us[i].live|)
  {
    if i :| 0 <= i < |us| && us[i].heap != {} {
      FirstUse(us, i);
    }
    if i :| 0 <= i < |us| && 10 < |us[i].live| {
      Sizes(us, i);
    }
  }

  lemma Sizes(us: seq<Use>, i: nat)
    requires Run(us) && i < |us|
    ensures |us[i].live| + |us[i].free| == 10 + |us[i].heap|
  {
    hide Step;
    RunPlaced(us, i);
    var entries, u := us[0].free, us[i];
    assert |multiset(u.live) + multiset(u.free)| == |u.live| + |u.free|;
    assert |multiset(entries) + multiset(u.heap)| == |entries| + |multiset(u.heap)|;
  }

  lemma {:induction false} FirstUse(us: seq<Use>, i: nat)
    requires Run(us) && i < |us| && us[i].heap != {}
    ensures exists j :: 0 <= j < |us| && 10 < |us[j].live|
  {
    hide Step;
    if us[i - 1].heap != {} {
      FirstUse(us, i - 1);
    } else {
      HeapGrowsOnlyWhenFull(us, i - 1);
      Sizes(us, i - 1);
      Sizes(us, i);
    }
  }
}
