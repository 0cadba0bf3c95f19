/** The rx ring without reorder offload: buffers are posted and popped in ring order. */
module RxRing {
  import opened Nbufs
  import opened RingIndex

  /** What the refill posts: everything up to the first failure. */
  function Supplied(env: seq<Supply>): (r: seq<Posting>)
    ensures |r| <= |env|
  {
    if env == [] || !env[0].Mapped? then [] else [env[0].posting] + Supplied(env[1..])
  }

  /** The buffer of the first iteration that fails, if it got one. */
  function Wasted(env: seq<Supply>): (r: seq<Nbuf>)
    ensures |r| <= 1
  {
    if env == [] then [] else if env[0].Mapped? then Wasted(env[1..])
    else if env[0].MapFailed? then [env[0].unmapped] else []
  }

  /** Every buffer the allocator hands out before the refill ends is either posted or freed. */
  lemma {:induction false} PostedOrFreed(env: seq<Supply>)
    ensures var n := |Supplied(env)|;
            && (forall i :: 0 <= i < n ==> env[i].Mapped? && env[i].posting == Supplied(env)[i])
            && (n < |env| ==> !env[n].Mapped? && Wasted(env) == if env[n].MapFailed? then [env[n].unmapped] else [])
            && (n == |env| ==> Wasted(env) == [])
  {
    if env != [] && env[0].Mapped? {
      PostedOrFreed(env[1..]);
    }
  }

  lemma SuppliedStep(env: seq<Supply>, i: nat, num: nat, all: seq<Posting>)
    requires i < num <= |env| && i <= |all| && all[i..] == Supplied(env[i..num])
    ensures !env[i].Mapped? ==> i == |all|
    ensures env[i].Mapped? ==> i < |all| && all[i] == env[i].posting
    ensures env[i].Mapped? ==> all[i + 1..] == Supplied(env[i + 1..num]) && all[..i + 1] == all[..i] + [all[i]]
    ensures Wasted(env[i..num]) == if env[i].Mapped? then Wasted(env[i + 1..num])
                                     else if env[i].MapFailed? then [env[i].unmapped] else []
  {
    assert env[i..num][0] == env[i] && env[i..num][1..] == env[i + 1..num];
  }

  lemma NothingWasted()
    ensures Wasted([]) == []
  {
  }

  ghost predicate DistinctBufs(s: seq<Posting>) {
    forall i, j :: 0 <= i < j < |s| ==> s[i].buf != s[j].buf
  }

  class Ring {
    const size: nat
    const fillLevel: nat
    const descSize: nat
    const netbufsRing: array<Nbuf?>
    const paddrsRing: array<Paddr>
    var allocIdx: nat
    var rdPayld: nat                 // sw_rd_idx.msdu_payld
    var rdDesc: nat                  // sw_rd_idx.msdu_desc
    var fillCnt: int
    var msduByteIdx: nat             // rx_ind_msdu_byte_idx
    ghost var posted: seq<Posting>   // posted and not popped, oldest first
    ghost var freed: seq<Nbuf>

    ghost predicate Valid()
      reads this, netbufsRing, paddrsRing
    {
      && Shape() && Holds(rdPayld, posted)
      && fillCnt == |posted| <= fillLevel
      && allocIdx == Wrap(rdPayld + |posted|, size)
      && DistinctBufs(posted)
    }

    ghost predicate Shape()
      reads this
    {
      && netbufsRing.Length == paddrsRing.Length == size
      && fillLevel < size && rdPayld < size && rdDesc < size && allocIdx < size
    }

    /** The slots from `rd` on hold exactly `s`. */
    ghost predicate Holds(rd: nat, s: seq<Posting>)
      requires netbufsRing.Length == paddrsRing.Length == size && rd < size
      reads netbufsRing, paddrsRing
    {
      && |s| < size
      && forall k :: 0 <= k < |s| ==>
           netbufsRing[Wrap(rd + k, size)] == s[k].buf && paddrsRing[Wrap(rd + k, size)] == s[k].paddr
    }

    lemma HoldsTail(rd: nat, s: seq<Posting>)
      requires netbufsRing.Length == paddrsRing.Length == size && rd < size
      requires Holds(rd, s) && s != []
      ensures netbufsRing[rd] == s[0].buf && Holds(Wrap(rd + 1, size), s[1..])
    {
      assert netbufsRing[Wrap(rd + 0, size)] == s[0].buf;
      var t, base := s[1..], Wrap(rd + 1, size);
      forall k | 0 <= k < |t|
        ensures netbufsRing[Wrap(base + k, size)] == t[k].buf && paddrsRing[Wrap(base + k, size)] == t[k].paddr
      {
        assert Wrap(base + k, size) == Wrap(rd + (k + 1), size) && t[k] == s[k + 1];
      }
    }

    constructor (mbps: nat, descSize: nat)
      ensures Valid() && fresh(this) && fresh(netbufsRing) && fresh(paddrsRing)
      ensures posted == [] && size == RingSize(mbps) && fillLevel == FillLevel(mbps)
    {
      size, fillLevel := RingSize(mbps), FillLevel(mbps);
      this.descSize := descSize;
      netbufsRing := new Nbuf?[RingSize(mbps)](_ => null);
      paddrsRing := new Paddr[RingSize(mbps)](_ => 0);
      allocIdx, rdPayld, rdDesc, fillCnt, msduByteIdx := 0, 0, 0, 0, 0;
      posted, freed := [], [];
    }

    /** htt_rx_ring_elems: the masked index difference counts what is posted. */
    method RingElems() returns (n: nat)
      requires Valid()
      ensures n == |posted| == fillCnt
    {
      Distance(rdPayld, |posted|, size);
      n := (allocIdx - rdPayld) % size;
    }

    /** Both rings and the count, for one buffer at the write index. */
    method PostAt(idx: nat, p: Posting)
      requires Shape() && Holds(rdPayld, posted) && |posted| + 1 < size && idx == Wrap(rdPayld + |posted|, size)
      modifies this`fillCnt, this`posted, netbufsRing, paddrsRing
      ensures Shape() && Holds(rdPayld, posted) && posted == old(posted) + [p] && fillCnt == old(fillCnt) + 1
      ensures Next(idx, size) == Wrap(rdPayld + |posted|, size)
    {
      WrapIsMod(rdPayld + |posted|, size);
      NextOf(rdPayld + |posted|, size);
      WrapIsMod(rdPayld + |posted| + 1, size);
      netbufsRing[idx] := p.buf;
      paddrsRing[idx] := p.paddr;
      fillCnt := fillCnt + 1;
      posted := posted + [p];
    }

    /** htt_rx_ring_fill_n: appends what the allocator supplies before its first failure. */
    method FillN(num: int, env: seq<Supply>)
      requires Valid() && num <= fillLevel - fillCnt && num <= |env|
      requires 0 <= num ==> DistinctBufs(posted + Supplied(env[..num]))
      modifies this`allocIdx, this`fillCnt, this`posted, this`freed, netbufsRing, paddrsRing
      ensures Valid()
      ensures posted == old(posted) + if num <= 0 then [] else Supplied(env[..num])
      ensures freed == old(freed) + if num <= 0 then [] else Wasted(env[..num])
    {
      hide Holds, Supplied, Wasted, DistinctBufs;
      NothingWasted();
      assert 0 < num ==> env[0..num] == env[..num] && env[num..num] == [];
      var idx := allocIdx;
      if num > size {
        return;
      }
      var left, i := num, 0;
      ghost var all := if num <= 0 then [] else Supplied(env[..num]);
      while left > 0
        invariant Shape() && allocIdx == old(allocIdx) && left == num - i
        invariant i <= |all| && (0 < num ==> i <= num && all[i..] == Supplied(env[i..num]))
        invariant posted == old(posted) + all[..i]
        invariant fillCnt == |posted| < size && idx == Wrap(rdPayld + |posted|, size)
        invariant Holds(rdPayld, posted)
        invariant freed == old(freed) && (0 < num ==> Wasted(env[i..num]) == Wasted(env[..num]))
      {
        SuppliedStep(env, i, num, all);
        match env[i] {
          case NoBuffer =>
            break;
          case MapFailed(b) =>
            freed := freed + [b];
            break;
          case Mapped(p, _) =>
            PostAt(idx, p);
            left, i, idx := left - 1, i + 1, Next(idx, size);
        }
      }
      assert all[..i] == all;
      assert num <= 0 ==> posted == old(posted);
      allocIdx := idx;
    }

    /** htt_rx_msdu_buff_replenish, by the thread that holds the refill guard. */
    method Replenish(env: seq<Supply>)
      requires Valid() && fillLevel - fillCnt <= |env|
      requires DistinctBufs(posted + Supplied(env[..fillLevel - fillCnt]))
      modifies this`allocIdx, this`fillCnt, this`posted, this`freed, netbufsRing, paddrsRing
      ensures Valid()
      ensures posted == old(posted) + Supplied(env[..fillLevel - old(fillCnt)])
      ensures freed == old(freed) + Wasted(env[..fillLevel - old(fillCnt)])
    {
      FillN(fillLevel - fillCnt, env);
      assert fillLevel == old(fillCnt) ==> Supplied(env[..0]) == [] && Wasted(env[..0]) == [];
    }

    /** htt_rx_netbuf_pop: the buffer posted longest ago, whose slot is left as it is.  On an empty
        ring, against which the source only asserts, it is whatever the slot still holds, and the
        count goes below zero. */
    method NetbufPop() returns (msdu: Nbuf?)
      requires Shape()
      modifies this`rdPayld, this`fillCnt, this`posted
      ensures Shape() && msdu == netbufsRing[old(rdPayld)]
      ensures rdPayld == Next(old(rdPayld), size) && fillCnt == old(fillCnt) - 1
      ensures old(Valid() && posted != []) ==>
                Valid() && msdu == old(posted)[0].buf && posted == old(posted)[1..]
      ensures old(Valid() && posted == []) ==> fillCnt == -1 && !Valid()
    {
      hide Holds;
      WrapNext(rdPayld, size);
      if posted != [] && Holds(rdPayld, posted) {
        HoldsTail(rdPayld, posted);
      }
      var idx := rdPayld;
      msdu := netbufsRing[idx];
      idx := Next(idx, size);
      rdPayld := idx;
      fillCnt := fillCnt - 1;
      posted := if posted == [] then [] else posted[1..];
    }

    /** htt_rx_mpdu_desc_list_next_ll: the buffer in the descriptor slot; realigns the indices. */
    method MpduDescListNext() returns (netbuf: Nbuf?)
      requires Shape()
      modifies this`rdDesc
      ensures netbuf == netbufsRing[old(rdDesc)] && rdDesc == rdPayld
      ensures old(Valid()) ==> Valid()
    {
      netbuf := netbufsRing[rdDesc];
      rdDesc := rdPayld;
    }

    /** The ring part of htt_rx_detach: everything still posted is freed, oldest first. */
    method Detach()
      requires Valid()
      modifies this`freed
      ensures |freed| == |old(freed)| + |posted|
      ensures forall k :: 0 <= k < |freed| ==>
        freed[k] == if k < |old(freed)| then old(freed)[k] else posted[k - |old(freed)|].buf
    {
      var rd := rdPayld;
      ghost var k := 0;
      while rd != allocIdx
        invariant k <= |posted| && rd == Wrap(rdPayld + k, size)
        invariant |freed| == |old(freed)| + k
        invariant forall j :: 0 <= j < |freed| ==>
          freed[j] == if j < |old(freed)| then old(freed)[j] else posted[j - |old(freed)|].buf
        decreases |posted| - k
      {
        OneLap(rdPayld, k, |posted|, size);
        assert netbufsRing[Wrap(rdPayld + k, size)] == posted[k].buf;
        var b: Nbuf := netbufsRing[rd];
        freed := freed + [b];
        WrapNext(rdPayld + k, size);
        rd, k := Next(rd, size), k + 1;
      }
      OneLap(rdPayld, k, |posted|, size);
    }
  }
}
