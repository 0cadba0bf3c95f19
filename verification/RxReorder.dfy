/**
 The rx buffer store in full-reorder mode: the ring hands addresses to the target, the
 hash table finds the buffer again, and in-order indications take buffers out.
 */
module RxReorder {
  import opened Nbufs
  import opened PaddrMap
  import opened RxLookups
  import opened RingIndex
  import opened Division
  import opened Multisets
  import RxHash

  function PostAll(t: Table, e: seq<Supply>): (r: Table)
    requires forall i :: 0 <= i < |e| ==> e[i].Mapped?
  {
    if e == [] then t else Insert(PostAll(t, Init(e)), Last(e).posting.paddr, Last(e).posting.buf)
  }

  function SuppliedBufs(e: seq<Supply>): (r: seq<Nbuf>)
    requires forall i :: 0 <= i < |e| ==> e[i].Mapped?
    ensures |r| == |e|
  {
    seq(|e|, i requires 0 <= i < |e| => e[i].posting.buf)
  }

  lemma Snoc(s: seq<Nbuf>, front: seq<Nbuf>, b: Nbuf)
    requires s == front + [b]
    ensures multiset(s) == multiset(front) + multiset{b}
  {
  }

  lemma PostOneConserves(m: Table, p: Paddr, b: Nbuf, all: multiset<Nbuf>, done: seq<Nbuf>)
    requires AllBufs(m) == all + multiset(done)
    ensures AllBufs(Insert(m, p, b)) == all + multiset(done + [b])
  {
    AllBufsAfterInsert(m, p, b);
    Snoc(done + [b], done, b);
    Regroup(all, multiset(done), multiset{b});
  }

  lemma {:induction false} PostAllConserves(t: Table, e: seq<Supply>)
    requires forall i :: 0 <= i < |e| ==> e[i].Mapped?
    ensures AllBufs(PostAll(t, e)) == AllBufs(t) + multiset(SuppliedBufs(e))
    ensures Count(PostAll(t, e)) == Count(t) + |e|
  {
    if e == [] {
      assert SuppliedBufs(e) == [];
    } else {
      var x := Last(e);
      PostAllConserves(t, Init(e));
      PostOneConserves(PostAll(t, Init(e)), x.posting.paddr, x.posting.buf, AllBufs(t), SuppliedBufs(Init(e)));
      CountAfterInsert(PostAll(t, Init(e)), x.posting.paddr, x.posting.buf);
      assert SuppliedBufs(e) == SuppliedBufs(Init(e)) + [x.posting.buf];
    }
  }

  function Postings(e: seq<Supply>): (r: seq<Posting>)
    requires forall i :: 0 <= i < |e| ==> e[i].Mapped?
    ensures |r| == |e| && forall i :: 0 <= i < |e| ==> r[i] == e[i].posting
  {
    seq(|e|, i requires 0 <= i < |e| => e[i].posting)
  }

  /** And each address's queue gets its own ones behind those it had, in the order supplied. */
  lemma {:induction false} PostAllQueue(t: Table, e: seq<Supply>, p: Paddr)
    requires forall i :: 0 <= i < |e| ==> e[i].Mapped?
    ensures Queue(PostAll(t, e), p) == Queue(t, p) + Fifo(Postings(e), p)
  {
    hide Queue, Fifo;
    if e == [] {
      FifoOf(Postings(e), p);
    } else {
      var x, front := Last(e).posting, Postings(Init(e));
      PostAllQueue(t, Init(e), p);
      QueueAfterInsert(PostAll(t, Init(e)), x.paddr, x.buf, p);
      assert Postings(e) == front + [x];
      FifoConcat(front, [x], p);
      FifoOf([x], p);
    }
  }

  lemma FifoOf(s: seq<Posting>, p: Paddr)
    ensures s == [] ==> Fifo(s, p) == []
    ensures |s| == 1 ==> Fifo(s, p) == if s[0].paddr == p then [s[0].buf] else []
  {
  }

  lemma EmptyPost(t: Table)
    ensures PostAll(t, []) == t && SuppliedBufs([]) == []
  {
  }

  /** The allocator never hands out a buffer that is already posted, nor one twice. */
  ghost predicate FreshSupply(posted: multiset<Nbuf>, env: seq<Supply>) {
    && (forall i :: 0 <= i < |env| && env[i].Mapped? ==> env[i].posting.buf !in posted)
    && (forall i, j :: 0 <= i < j < |env| && env[i].Mapped? && env[j].Mapped? ==>
          env[i].posting.buf != env[j].posting.buf)
  }

  /** One step of the refill loop on the specification side. */
  lemma PostStep(t: Table, env: seq<Supply>, n: nat)
    requires n < |env| && forall i :: 0 <= i <= n ==> env[i].Mapped?
    requires FreshSupply(AllBufs(t), env)
    requires AllBufs(PostAll(t, env[..n])) == AllBufs(t) + multiset(SuppliedBufs(env[..n]))
    ensures env[n].posting.buf !in AllBufs(PostAll(t, env[..n]))
    ensures PostAll(t, env[..n + 1]) == Insert(PostAll(t, env[..n]), env[n].posting.paddr, env[n].posting.buf)
    ensures AllBufs(PostAll(t, env[..n + 1])) == AllBufs(t) + multiset(SuppliedBufs(env[..n + 1]))
  {
    var x := env[n];
    assert Init(env[..n + 1]) == env[..n];
    assert SuppliedBufs(env[..n + 1]) == SuppliedBufs(env[..n]) + [x.posting.buf];
    assert x.posting.buf !in SuppliedBufs(env[..n]);
    PostOneConserves(PostAll(t, env[..n]), x.posting.paddr, x.posting.buf, AllBufs(t), SuppliedBufs(env[..n]));
  }

  /** The address ring after the slots from `h` on have been written. */
  function Written(ring: seq<Paddr>, h: nat, e: seq<Supply>): (r: seq<Paddr>)
    requires 0 < |ring| && forall i :: 0 <= i < |e| ==> e[i].Mapped?
    ensures |r| == |ring|
  {
    if e == [] then ring else Written(ring, h, Init(e))[(h + |e| - 1) % |ring| := Last(e).posting.paddr]
  }

  /** As long as no slot is written twice, each has its own address, and the others are as before. */
  lemma {:induction false} WrittenAt(ring: seq<Paddr>, h: nat, e: seq<Supply>, i: nat)
    requires 0 < |ring| && h < |ring| && |e| <= |ring| && i < |ring|
    requires forall j :: 0 <= j < |e| ==> e[j].Mapped?
    ensures Written(ring, h, e)[Wrap(h + i, |ring|)] ==
              if i < |e| then e[i].posting.paddr else ring[Wrap(h + i, |ring|)]
  {
    if e != [] {
      WrittenAt(ring, h, Init(e), i);
      WrapIsMod(h + |e| - 1, |ring|);
      OneLap(h, i, |e| - 1, |ring|);
    }
  }

  lemma WrittenStep(ring: seq<Paddr>, h: nat, env: seq<Supply>, n: nat)
    requires 0 < |ring| && n < |env| && forall j :: 0 <= j <= n ==> env[j].Mapped?
    ensures Written(ring, h, env[..n + 1]) == Written(ring, h, env[..n])[(h + n) % |ring| := env[n].posting.paddr]
  {
    assert Init(env[..n + 1]) == env[..n];
  }

  lemma NothingWritten(ring: seq<Paddr>, h: nat)
    requires 0 < |ring|
    ensures Written(ring, h, []) == ring
  {
  }

  class RxStore {
    const size: nat        // ring elements, a power of two
    const fillLevel: nat
    const descSize: nat    // RX_STD_DESC_SIZE
    const table: RxHash.HashTable
    const paddrsRing: array<Paddr>
    var allocIdx: nat
    var fillCnt: int
    ghost var misses: nat          // lookups that found nothing, each of which still lowered fillCnt
    ghost var freed: seq<Nbuf>     // buffers given to adf_nbuf_free, in order

    ghost predicate Valid()
      reads this, table, table.Repr, paddrsRing
    {
      Sound() && allocIdx < size && fillLevel < size && fillCnt <= fillLevel
    }

    /** The part of Valid that also holds inside the refill loop. */
    ghost predicate Sound()
      reads this, table, table.Repr, paddrsRing
    {
      && table.Valid() && this !in table.Repr && paddrsRing !in table.Repr
      && paddrsRing.Length == size
      && OnceEach(AllBufs(table.model))
      && fillCnt + misses == Count(table.model)
    }

    /** The state htt_rx_attach sets up before its first fill. */
    constructor (size: nat, fillLevel: nat, descSize: nat)
      requires fillLevel < size
      ensures Valid() && fresh(this) && fresh(table) && fresh(table.Repr) && fresh(paddrsRing)
      ensures table.model == EmptyTable() && allocIdx == 0 && fillCnt == 0 && misses == 0 && freed == []
      ensures this.size == size && this.fillLevel == fillLevel && this.descSize == descSize
    {
      hide RxHash.HashTable.Valid, AllBufs, Count;
      this.size, this.fillLevel, this.descSize := size, fillLevel, descSize;
      table := new RxHash.HashTable(true);
      paddrsRing := new Paddr[size](_ => 0);
      allocIdx, fillCnt, misses, freed := 0, 0, 0, [];
      new;
      EmptyRefines();
      NothingPosted();
    }

    /** One mapped buffer of the refill loop: into the hash table, the ring slot and the count. */
    method PostOne(b: Nbuf, paddr: Paddr, entryOk: bool, idx: nat) returns (failed: bool)
      requires Sound() && idx < size && b !in AllBufs(table.model)
      modifies this`fillCnt, this`freed, table.Repr, paddrsRing
      ensures Sound() && fresh(table.Repr - old(table.Repr))
      ensures entryOk ==> !failed
      ensures if failed then table.model == old(table.model) && fillCnt == old(fillCnt)
              else table.model == Insert(old(table.model), paddr, b) && fillCnt == old(fillCnt) + 1
      ensures freed == if failed then old(freed) + [b] else old(freed)
      ensures paddrsRing.Length == size
      ensures paddrsRing[..] == if failed then old(paddrsRing[..]) else old(paddrsRing[..])[idx := paddr]
    {
      hide RxHash.HashTable.Valid, AllBufs, Count, Insert, Queue;
      AllBufsAfterInsert(table.model, paddr, b);
      CountAfterInsert(table.model, paddr, b);
      failed := table.Insert(paddr, b, entryOk);
      if failed {
        freed := freed + [b];
      } else {
        paddrsRing[idx] := paddr;
        fillCnt := fillCnt + 1;
      }
    }

    /** htt_rx_ring_fill_n.  `n` buffers get posted before the first failure; the store holds
        them in addition to what it held, and the refill stops for no other reason. */
    method FillN(num: int, env: seq<Supply>) returns (n: nat)
      requires Valid() && num <= fillLevel - fillCnt
      requires num <= |env| && FreshSupply(AllBufs(table.model), env)
      modifies this, table.Repr, paddrsRing
      ensures Valid() && fresh(table.Repr - old(table.Repr)) && misses == old(misses)
      ensures n <= |env| && forall i :: 0 <= i < n ==> env[i].Mapped?
      ensures table.model == PostAll(old(table.model), env[..n])
      ensures fillCnt == old(fillCnt) + n && allocIdx == (old(allocIdx) + n) % size
      ensures num > size || num <= 0 ==> n == 0
      ensures 0 < num <= size ==> n == num || (n < num && (env[n].Mapped? ==> !env[n].entryOk))
      // the buffer of the failing iteration, mapped or not, is freed
      ensures num > size || num <= n ==> freed == old(freed)
      ensures 0 < num <= size && n < num ==>
        freed == old(freed) + match env[n] case NoBuffer => [] case MapFailed(b) => [b] case Mapped(p, _) => [p.buf]
      ensures paddrsRing[..] == Written(old(paddrsRing[..]), old(allocIdx), env[..n])
    {
      hide RxHash.HashTable.Valid, AllBufs, Count, Insert, PostAll, SuppliedBufs, FreshSupply, Written, OnceEach;
      assert PostAll(table.model, []) == table.model && SuppliedBufs([]) == [] by { EmptyPost(table.model); }
      NothingWritten(paddrsRing[..], allocIdx);
      n := 0;
      var idx := allocIdx;
      QuotientIs(allocIdx, size, 0, allocIdx);
      if num > size {
        return;
      }
      var left := num;
      ghost var m0, all := table.model, AllBufs(table.model);
      while left > 0
        invariant Sound() && fresh(table.Repr - old(table.Repr))
        invariant n <= |env| && left == num - n && (n == 0 || n <= num)
        invariant forall i :: 0 <= i < n ==> env[i].Mapped?
        invariant table.model == PostAll(m0, env[..n])
        invariant AllBufs(table.model) == all + multiset(SuppliedBufs(env[..n]))
        invariant fillCnt == old(fillCnt) + n && misses == old(misses) && allocIdx == old(allocIdx)
        invariant idx == (allocIdx + n) % size
        invariant freed == old(freed) && paddrsRing[..] == Written(old(paddrsRing[..]), old(allocIdx), env[..n])
      {
        match env[n] {
          case NoBuffer =>
            break;
          case MapFailed(b) =>
            freed := freed + [b];
            break;
          case Mapped(p, entryOk) =>
            PostStep(m0, env, n);
            WrittenStep(old(paddrsRing[..]), allocIdx, env, n);
            var failed := PostOne(p.buf, p.paddr, entryOk, idx);
            if failed {
              break;
            }
            NextOf(allocIdx + n, size);
            left, n, idx := left - 1, n + 1, Next(idx, size);
        }
      }
      allocIdx := idx;
    }

    /** htt_rx_msdu_buff_replenish, by the thread that holds the refill guard. */
    method Replenish(env: seq<Supply>) returns (n: nat)
      requires Valid()
      requires fillLevel - fillCnt <= |env| && FreshSupply(AllBufs(table.model), env)
      modifies this, table.Repr, paddrsRing
      ensures Valid() && fresh(table.Repr - old(table.Repr)) && misses == old(misses)
      ensures n <= |env| && forall i :: 0 <= i < n ==> env[i].Mapped?
      ensures table.model == PostAll(old(table.model), env[..n]) && fillCnt == old(fillCnt) + n
      ensures allocIdx == (old(allocIdx) + n) % size
      ensures n == 0 || n <= fillLevel - old(fillCnt) <= size
      ensures var num := fillLevel - old(fillCnt);
        && (0 < num <= size ==> n == num || (n < num && (env[n].Mapped? ==> !env[n].entryOk)))
        && (num > size || num <= n ==> freed == old(freed))
        && (0 < num <= size && n < num ==>
              freed == old(freed) +
              match env[n] case NoBuffer => [] case MapFailed(b) => [b] case Mapped(p, _) => [p.buf])
      ensures paddrsRing[..] == Written(old(paddrsRing[..]), old(allocIdx), env[..n])
      // an unhindered refill reaches the fill level, unless so many lookups missed that
      // the request exceeds the ring: then it is refused, and stays refused
      ensures (forall i :: 0 <= i < |env| ==> env[i].Mapped? && env[i].entryOk) ==>
                if fillLevel - old(fillCnt) <= size
                then fillCnt == fillLevel && Count(table.model) == fillLevel + misses
                else fillCnt == old(fillCnt) && table.model == old(table.model)
    {
      n := FillN(fillLevel - fillCnt, env);
    }

    /** htt_rx_in_order_netbuf_pop: the count drops even when nothing is found. */
    method PopByPaddr(paddr: Paddr) returns (msdu: Nbuf?)
      requires Valid()
      modifies this`fillCnt, this`misses, table.Repr
      ensures Valid() && table.Repr == old(table.Repr)
      ensures msdu == Head(Queue(old(table.model), paddr))
      ensures table.model == Remove(old(table.model), paddr)
      ensures fillCnt == old(fillCnt) - 1
      ensures misses == if msdu == null then old(misses) + 1 else old(misses)
    {
      hide RxHash.HashTable.Valid, AllBufs, Count, Remove, Queue, Hash;
      ghost var m := table.model;
      RemoveKeepsOnce(m, paddr);
      fillCnt := fillCnt - 1;
      msdu := table.Lookup(paddr);
      misses := if msdu == null then misses + 1 else misses;
    }

    /** The hash-table part of htt_rx_detach: every posted buffer is freed exactly once and
        no heap entry stays allocated. */
    method Detach() returns (given: seq<Nbuf>)
      requires Valid()
      modifies this`freed, table, table.Repr
      ensures freed == old(freed) + given
      ensures multiset(given) == AllBufs(old(table.model)) && Distinct(given)
      ensures table.buckets == [] && forall b :: b in old(table.buckets) ==> b.heap == {}
    {
      ghost var m := table.model;
      FlattenBufs(m);
      OnceEachParts(AllBufs(m), multiset{}, Bufs(Flatten(m)));
      given := table.Deinit();
      freed := freed + given;
    }
  }

  lemma NothingPosted()
    ensures OnceEach(AllBufs(EmptyTable()))
  {
    EmptyRefines();
    FlattenBufs(EmptyTable());
    assert Flatten(EmptyTable()) == [];
  }

  lemma RemoveKeepsOnce(m: Table, paddr: Paddr)
    requires OnceEach(AllBufs(m))
    ensures OnceEach(AllBufs(Remove(m, paddr)))
    ensures Count(Remove(m, paddr)) == if Head(Queue(m, paddr)) == null then Count(m) else Count(m) - 1
  {
    var q := Queue(m, paddr);
    AllBufsAfterRemove(m, paddr);
    CountAfterRemove(m, paddr);
    if q != [] {
      OnceEachParts(AllBufs(m), AllBufs(Remove(m, paddr)), [q[0]]);
    } else {
      assert AllBufs(m) == AllBufs(Remove(m, paddr));
    }
  }
}
