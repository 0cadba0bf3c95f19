/** The two lists of HTC packets that the HTT layer keeps: spare ones, and sent ones not yet freed. */
module HtcPkts {
  import opened Nbufs
  import opened MinMax

  const HTT_HTC_PKT_MISCLIST_SIZE: nat := 6

  /** struct htt_htc_pkt_union.  `next` shares its memory with pdev_ctxt. */
  class Pkt {
    var next: Pkt?
    const netbuf: int

    constructor (netbuf: int)
      ensures next == null && this.netbuf == netbuf
    {
      this.next, this.netbuf := null, netbuf;
    }
  }

  /** A null-terminated list. */
  ghost predicate Listed(head: Pkt?, ps: seq<Pkt>)
    reads (set p | p in ps)`next
  {
    && head == (if ps == [] then null else ps[0])
    && forall i {:trigger ps[i].next} :: 0 <= i < |ps| ==> ps[i].next == if i + 1 < |ps| then ps[i + 1] else null
  }

  function Netbufs(ps: seq<Pkt>): (bs: seq<int>)
    ensures |bs| == |ps| && forall i :: 0 <= i < |ps| ==> bs[i] == ps[i].netbuf
  {
    seq(|ps|, i requires 0 <= i < |ps| => ps[i].netbuf)
  }

  /** How many of `n` packets stay. */
  function Kept(level: int, n: nat): (k: nat)
    ensures k <= n
  {
    Min(Max(level, 0), n)
  }

  lemma KeptIs(level: int, n: nat)
    ensures if 0 < level <= n then Kept(level, n) == level else Kept(level, n) == if level <= 0 then 0 else n
  {
  }

  /** The packets are linked in order, except that the list ends after `k` of them. */
  ghost predicate Linked(ps: seq<Pkt>, k: nat)
    reads (set p | p in ps)`next
  {
    forall j {:trigger ps[j].next} :: 0 <= j < |ps| ==>
      ps[j].next == if j + 1 < |ps| && j + 1 != k then ps[j + 1] else null
  }

  lemma AllLinked(head: Pkt?, ps: seq<Pkt>)
    requires Listed(head, ps)
    ensures Linked(ps, |ps|) && head == if 0 < |ps| then ps[0] else null
  {
  }

  lemma LinkedAt(ps: seq<Pkt>, k: nat, j: nat)
    requires Linked(ps, k) && j < |ps|
    ensures ps[j].next == if j + 1 < |ps| && j + 1 != k then ps[j + 1] else null
  {
  }

  lemma KeptListed(head: Pkt?, ps: seq<Pkt>, k: nat)
    requires k <= |ps| && Linked(ps, k) && (ps != [] ==> 0 < k && head == ps[0]) && (ps == [] ==> head == null)
    ensures Listed(head, ps[..k])
  {
  }

  lemma Others(ps: seq<Pkt>, k: nat)
    requires k < |ps| && Distinct(ps)
    ensures forall j :: 0 <= j < |ps| && j != k ==> ps[j] != ps[k]
  {
  }

  lemma Cut(ps: seq<Pkt>, k: nat)
    requires k <= |ps| && Distinct(ps)
    ensures Distinct(ps[..k]) && forall p <- ps[..k] :: p in ps
  {
  }

  class PktLists {
    var misclist: Pkt?
    var freelist: Pkt?
    ghost var misc: seq<Pkt>
    ghost var spare: seq<Pkt>
    ghost var freed: seq<Pkt>        // sent packets freed, in order
    ghost var freedBufs: seq<int>    // and their network buffers
    ghost var freedSpare: seq<Pkt>   // spare packets freed

    ghost predicate Valid()
      reads this, (set p | p in misc)`next, (set p | p in spare)`next
    {
      && Listed(misclist, misc) && Distinct(misc)
      && Listed(freelist, spare) && Distinct(spare)
      && (forall p <- misc :: p !in spare)
      && freedBufs == Netbufs(freed)
    }

    constructor ()
      ensures Valid() && misc == [] && spare == [] && freed == [] && freedSpare == []
    {
      misclist, freelist, misc, spare, freed, freedBufs, freedSpare := null, null, [], [], [], [], [];
    }

    /** One packet with its network buffer. */
    method FreeWithBuf(p: Pkt)
      modifies this`freed, this`freedBufs
      ensures freed == old(freed) + [p] && freedBufs == old(freedBufs) + [p.netbuf]
      ensures old(freedBufs == Netbufs(freed)) ==> freedBufs == Netbufs(freed)
    {
      freedBufs := freedBufs + [p.netbuf];
      freed := freed + [p];
    }

    /** The store that ends the list at the last packet kept. */
    method EndList(prev: Pkt, ghost all: seq<Pkt>, ghost k: nat)
      requires Linked(all, |all|) && Distinct(all) && 0 < k < |all| && prev == all[k - 1]
      requires Listed(freelist, spare) && prev !in spare
      modifies prev`next
      ensures Linked(all, k) && Listed(freelist, spare)
    {
      hide Distinct;
      Others(all, k - 1);
      prev.next := null;
    }

    /** Below level 1 the head of the list stays, although everything on it is freed. */
    method MiscTrim(level: int)
      requires Valid()
      modifies this`misc, this`freed, this`freedBufs, (set p | p in misc)`next
      ensures (0 < level || misclist == null ==> Valid()) && misclist == old(misclist)
      ensures misc == old(misc)[..Kept(level, |old(misc)|)]
      ensures |misc| == if level <= 0 then 0 else Min(level, |old(misc)|)
      ensures freed == old(freed) + old(misc)[|misc|..] && freedBufs == Netbufs(freed)
    {
      hide Netbufs, Distinct, Kept, Linked, Listed;
      ghost var all, freed0, kept := misc, freed, Kept(level, |misc|);
      KeptIs(level, |all|);
      AllLinked(misclist, all);
      var pkt, prev: Pkt? := misclist, null;
      var i := 0;
      while pkt != null
        invariant i <= |all| && pkt == if i < |all| then all[i] else null
        invariant prev == if 0 < i <= level then all[i - 1] else null
        invariant Linked(all, if i <= kept || kept == 0 then |all| else kept) && Listed(freelist, spare)
        invariant freed == freed0 + if i <= kept then [] else all[kept..i]
        invariant freedBufs == Netbufs(freed)
        decreases |all| - i
      {
        LinkedAt(all, if i <= kept || kept == 0 then |all| else kept, i);
        var next := pkt.next;
        i := i + 1;
        if i > level {
          FreeWithBuf(pkt);
          assert all[kept..i] == (if i - 1 <= kept then [] else all[kept..i - 1]) + [pkt];
          pkt := null;
          if prev != null {
            EndList(prev, all, kept);
          }
        }
        prev := pkt;
        pkt := next;
      }
      misc := all[..kept];
      Cut(all, kept);
      if 0 < level {
        KeptListed(misclist, all, kept);
      }
    }

    method MiscAdd(pkt: Pkt)
      requires Valid() && pkt !in misc && pkt !in spare
      requires misclist == null ==> pkt.next == null
      modifies this`misclist, this`misc, this`freed, this`freedBufs, (set p | p in misc)`next, pkt`next
      ensures Valid()
      ensures Misc(misc, freed) == Add(old(Misc(misc, freed)), pkt)
      ensures misc == ([pkt] + old(misc))[..Min(6, |old(misc)| + 1)]
      ensures freed == old(freed) + ([pkt] + old(misc))[|misc|..] && freedBufs == Netbufs(freed)
    {
      if misclist != null {
        pkt.next := misclist;
        misclist := pkt;
      } else {
        misclist := pkt;
      }
      misc := [pkt] + misc;
      MiscTrim(HTT_HTC_PKT_MISCLIST_SIZE);
    }

    method MiscPoolFree()
      requires Valid()
      modifies this`misclist, this`misc, this`freed, this`freedBufs
      ensures Valid() && misc == [] && freed == old(freed) + old(misc) && freedBufs == Netbufs(freed)
    {
      ghost var i := 0;
      var pkt := misclist;
      while pkt != null
        invariant misc == old(misc) && misclist == old(misclist) && Listed(misclist, misc)
        invariant i <= |misc| && pkt == if i < |misc| then misc[i] else null
        invariant freed == old(freed) + misc[..i] && freedBufs == Netbufs(freed)
        decreases |misc| - i
      {
        var next := pkt.next;
        FreeWithBuf(pkt);
        pkt := next;
        i := i + 1;
      }
      assert misc[..|misc|] == misc;
      misclist := null;
      misc := [];
    }

    /** A spare packet, or a new one when there is none; null when that cannot be had either. */
    method Alloc(netbuf: int, allocOk: bool) returns (pkt: Pkt?)
      requires Valid()
      modifies this`freelist, this`spare
      ensures Valid()
      ensures old(spare) != [] ==> pkt != null && [pkt] + spare == old(spare) && pkt !in spare
      ensures old(spare) == [] ==> spare == [] && (if allocOk then pkt != null && fresh(pkt) else pkt == null)
    {
      pkt := null;
      if freelist != null {
        pkt := freelist;
        freelist := freelist.next;
        spare := spare[1..];
      }
      if pkt == null && allocOk {
        pkt := new Pkt(netbuf);
      }
    }

    method Free(pkt: Pkt)
      requires Valid() && pkt !in spare && pkt !in misc
      modifies this`freelist, this`spare, pkt`next
      ensures Valid() && spare == [pkt] + old(spare)
    {
      pkt.next := freelist;
      freelist := pkt;
      spare := [pkt] + spare;
    }

    method PoolFree()
      requires Valid()
      modifies this`freelist, this`spare, this`freedSpare
      ensures Valid() && spare == [] && freelist == null
      ensures freedSpare == old(freedSpare) + old(spare)
    {
      ghost var i := 0;
      var pkt := freelist;
      while pkt != null
        invariant spare == old(spare) && freelist == old(freelist) && Listed(freelist, spare)
        invariant i <= |spare| && pkt == if i < |spare| then spare[i] else null
        invariant freedSpare == old(freedSpare) + spare[..i]
        decreases |spare| - i
      {
        var next := pkt.next;
        freedSpare := freedSpare + [pkt];
        pkt := next;
        i := i + 1;
      }
      assert spare[..|spare|] == spare;
      freelist := null;
      spare := [];
    }
  }

  // ---- runs of additions to the misc list ----

  datatype Misc = Misc(items: seq<Pkt>, freed: seq<Pkt>)

  function Add(m: Misc, pkt: Pkt): Misc {
    var items := [pkt] + m.items;
    var kept := Kept(HTT_HTC_PKT_MISCLIST_SIZE, |items|);
    Misc(items[..kept], m.freed + items[kept..])
  }

  function AddAll(m: Misc, pkts: seq<Pkt>): Misc
    decreases |pkts|
  {
    if pkts == [] then m else Add(AddAll(m, pkts[..|pkts| - 1]), pkts[|pkts| - 1])
  }

  function Reversed(ps: seq<Pkt>): (r: seq<Pkt>)
    ensures |r| == |ps| && forall i :: 0 <= i < |ps| ==> r[i] == ps[|ps| - 1 - i]
  {
    seq(|ps|, i requires 0 <= i < |ps| => ps[|ps| - 1 - i])
  }

  /** After any run the list is the newest six, newest first, and the older ones are freed in order. */
  lemma {:induction false} NewestSixAreKept(pkts: seq<Pkt>)
    ensures var k := Max(0, |pkts| - 6);
            AddAll(Misc([], []), pkts) == Misc(Reversed(pkts[k..]), pkts[..k])
    decreases |pkts|
  {
    if pkts != [] {
      var n, front := |pkts| - 1, pkts[..|pkts| - 1];
      NewestSixAreKept(front);
      var k0 := n - Kept(HTT_HTC_PKT_MISCLIST_SIZE, n);
      OneMore(pkts, k0);
    }
  }

  lemma OneMore(pkts: seq<Pkt>, k0: nat)
    requires pkts != [] && k0 == |pkts| - 1 - Kept(HTT_HTC_PKT_MISCLIST_SIZE, |pkts| - 1)
    ensures var n, k := |pkts| - 1, |pkts| - Kept(HTT_HTC_PKT_MISCLIST_SIZE, |pkts|);
            Add(Misc(Reversed(pkts[..n][k0..]), pkts[..n][..k0]), pkts[n]) == Misc(Reversed(pkts[k..]), pkts[..k])
  {
    var n, k := |pkts| - 1, |pkts| - Kept(HTT_HTC_PKT_MISCLIST_SIZE, |pkts|);
    var items := [pkts[n]] + Reversed(pkts[..n][k0..]);
    assert items == Reversed(pkts[k0..]);
    var kept := Kept(HTT_HTC_PKT_MISCLIST_SIZE, |items|);
    assert items[..kept] == Reversed(pkts[k..]);
    assert items[kept..] == pkts[k0..k];
    assert pkts[..n][..k0] + pkts[k0..k] == pkts[..k];
  }

  /** Freeing the pool after any run of additions has freed every packet exactly once. */
  lemma EachFreedOnce(pkts: seq<Pkt>)
    ensures var m := AddAll(Misc([], []), pkts); multiset(m.freed + m.items) == multiset(pkts)
  {
    var k := |pkts| - Kept(HTT_HTC_PKT_MISCLIST_SIZE, |pkts|);
    NewestSixAreKept(pkts);
    ReversedIsPermutation(pkts[k..]);
    assert pkts == pkts[..k] + pkts[k..];
  }

  lemma {:induction false} ReversedIsPermutation(ps: seq<Pkt>)
    ensures multiset(Reversed(ps)) == multiset(ps)
  {
    if ps != [] {
      ReversedIsPermutation(ps[1..]);
      assert Reversed(ps) == Reversed(ps[1..]) + [ps[0]];
      assert ps == [ps[0]] + ps[1..];
    }
  }
}
