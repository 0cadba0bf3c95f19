/** The rx buffer hash table of htt_rx.c, on linked nodes in the heap. */
module RxHash {
  import opened Nbufs
  import opened HttList
  import opened PaddrMap
  import opened HashEntries

  /** Each pre-allocated entry is in exactly one of the two lists; entries from the heap
      are in `live` only, and every one that is allocated is there. */
  ghost predicate Partition(entries: seq<ListNode>, live: seq<ListNode>, free: seq<ListNode>, heap: set<ListNode>) {
    && Distinct(entries) && |entries| == ENTRIES_SIZE
    && (forall n :: n in entries ==> n.fromlist && (n in live <==> n !in free))
    && (forall n :: n in free ==> n in entries)
    && (forall n :: n in live && n.fromlist ==> n in entries)
    && heap == set n | n in live && !n.fromlist
  }

  lemma PartitionTake(entries: seq<ListNode>, live: seq<ListNode>, free: seq<ListNode>, heap: set<ListNode>)
    requires Partition(entries, live, free, heap) && free != [] && Distinct(free)
    ensures Partition(entries, live + [free[0]], free[1..], heap)
    ensures free[0] !in live && free[0] !in free[1..]
  {
    var e := free[0];
    assert free == [e] + free[1..];
    assert forall n :: n in free <==> n == e || n in free[1..];
    assert forall n :: n in live + [e] <==> n == e || n in live;
  }

  lemma PartitionHeap(entries: seq<ListNode>, live: seq<ListNode>, free: seq<ListNode>,
                      heap: set<ListNode>, e: ListNode)
    requires Partition(entries, live, free, heap) && !e.fromlist
    ensures Partition(entries, live + [e], free, heap + {e})
  {
    assert forall n :: n in live + [e] <==> n == e || n in live;
  }

  lemma PartitionRelease(entries: seq<ListNode>, live: seq<ListNode>, free: seq<ListNode>, heap: set<ListNode>, k: nat)
    requires Partition(entries, live, free, heap) && k < |live| && Distinct(live)
    ensures live[k] !in free && (live[k].fromlist || live[k] in heap)
    ensures if live[k].fromlist then Partition(entries, live[..k] + live[k + 1..], free + [live[k]], heap)
            else Partition(entries, live[..k] + live[k + 1..], free, heap - {live[k]})
  {
    var e, rest := live[k], live[..k] + live[k + 1..];
    assert live == live[..k] + [e] + live[k + 1..];
    assert forall n :: n in live <==> n == e || n in rest;
    assert e !in rest;
    assert forall n :: n in free + [e] <==> n == e || n in free;
  }

  lemma ApartMore(head: ListNode, live: seq<ListNode>, e: ListNode, pool: ListNode, free: seq<ListNode>)
    requires Apart(head, live, pool, free) && e != pool && e !in free
    ensures Apart(head, live + [e], pool, free)
  {
    assert forall n :: n in live + [e] <==> n in live || n == e;
  }

  /** The neighbours of a linked entry are linked too. */
  lemma RingAt(head: ListNode, s: seq<ListNode>, k: nat)
    requires IsRing(head, s)
    ensures Distinct(s) && (head.prev == head || head.prev in s)
    ensures (head.next == head <==> s == []) && (s != [] ==> head.next == s[0])
    ensures k < |s| ==> (s[k].prev == head || s[k].prev in s) && (s[k].next == head || s[k].next in s)
  {
  }

  /** The payload of the linked entries. */
  ghost predicate Stored(live: seq<ListNode>, slots: seq<Posting>)
    reads (set n | n in live)`paddr, (set n | n in live)`netbuf
  {
    && |slots| == |live|
    && forall i {:trigger live[i]} {:trigger slots[i]} :: 0 <= i < |live| ==>
         live[i].paddr == slots[i].paddr && live[i].netbuf == slots[i].buf
  }

  lemma StoredWithout(live: seq<ListNode>, slots: seq<Posting>, k: nat)
    requires Stored(live, slots) && k < |live|
    ensures Stored(live[..k] + live[k + 1..], slots[..k] + slots[k + 1..])
  {
    var rest, rs := live[..k] + live[k + 1..], slots[..k] + slots[k + 1..];
    forall i | 0 <= i < |rest| ensures rest[i].paddr == rs[i].paddr && rest[i].netbuf == rs[i].buf {
      var j := if i < k then i else i + 1;
      assert rest[i] == live[j] && rs[i] == slots[j];
    }
  }

  lemma Without(live: seq<ListNode>, k: nat)
    requires k < |live| && Distinct(live)
    ensures live[k] !in live[..k] + live[k + 1..]
    ensures forall n :: n in live[..k] + live[k + 1..] ==> n in live
  {
  }

  /** Fill in an entry and append it to `head`. */
  method LinkEntry(head: ListNode, e: ListNode, paddr: Paddr, netbuf: Nbuf, ghost live: seq<ListNode>,
                   ghost slots: seq<Posting>, ghost otherHead: ListNode, ghost other: seq<ListNode>)
    requires IsRing(head, live) && IsRing(otherHead, other) && Apart(head, live, otherHead, other)
    requires e != head && e !in live && e != otherHead && e !in other && Stored(live, slots)
    modifies e, head`prev, head.prev`next
    ensures IsRing(head, live + [e]) && IsRing(otherHead, other)
    ensures Stored(live + [e], slots + [Posting(paddr, netbuf)])
  {
    e.netbuf := netbuf;
    e.paddr := paddr;
    ListAddTail(head, e, live, otherHead, other);
  }

  /** Unlink the entry at position `k` of `head`. */
  method UnlinkEntry(e: ListNode, ghost k: nat, ghost head: ListNode, ghost live: seq<ListNode>,
                     ghost slots: seq<Posting>, ghost otherHead: ListNode, ghost other: seq<ListNode>)
    requires IsRing(head, live) && IsRing(otherHead, other) && Apart(head, live, otherHead, other)
    requires k < |live| && e == live[k] && Stored(live, slots)
    modifies e.prev`next, e.next`prev
    ensures IsRing(head, live[..k] + live[k + 1..]) && IsRing(otherHead, other)
    ensures Stored(live[..k] + live[k + 1..], slots[..k] + slots[k + 1..])
    ensures Apart(head, live[..k] + live[k + 1..], otherHead, other)
    ensures e !in live[..k] + live[k + 1..] && forall n :: n in live[..k] + live[k + 1..] ==> n in live
  {
    hide Stored, Distinct;
    RingAt(head, live, k);
    Without(live, k);
    StoredWithout(live, slots, k);
    ListRemove(e, head, live, k, otherHead, other);
  }

  /** Append a released entry to the free pool; the posted entries keep their payload. */
  method PoolEntry(e: ListNode, pool: ListNode, ghost free: seq<ListNode>, ghost head: ListNode,
                   ghost live: seq<ListNode>, ghost slots: seq<Posting>)
    requires IsRing(pool, free) && IsRing(head, live) && Apart(head, live, pool, free) && Stored(live, slots)
    requires e != pool && e !in free && e != head && e !in live
    modifies pool`prev, pool.prev`next, e`prev, e`next
    ensures IsRing(pool, free + [e]) && IsRing(head, live) && Stored(live, slots)
    ensures Apart(head, live, pool, free + [e])
  {
    ListAddTail(pool, e, free, head, live);
    assert forall n :: n in free + [e] <==> n in free || n == e;
  }

  /** Unlink the entry at position `k` of `head`; a pre-allocated one goes back to `pool`. */
  method RecycleEntry(e: ListNode, ghost k: nat, ghost head: ListNode, ghost live: seq<ListNode>,
                      ghost slots: seq<Posting>, pool: ListNode, ghost free: seq<ListNode>)
    requires IsRing(head, live) && IsRing(pool, free) && Apart(head, live, pool, free)
    requires k < |live| && e == live[k] && Stored(live, slots)
    modifies e`prev, e`next, e.prev`next, e.next`prev, pool`prev, pool.prev`next
    ensures IsRing(head, live[..k] + live[k + 1..])
    ensures IsRing(pool, if e.fromlist then free + [e] else free)
    ensures Stored(live[..k] + live[k + 1..], slots[..k] + slots[k + 1..])
    ensures Apart(head, live[..k] + live[k + 1..], pool, if e.fromlist then free + [e] else free)
    ensures forall n :: n in live[..k] + live[k + 1..] ==> n in live
  {
    UnlinkEntry(e, k, head, live, slots, pool, free);
    if e.fromlist {
      PoolEntry(e, pool, free, head, live[..k] + live[k + 1..], slots[..k] + slots[k + 1..]);
    }
  }

  /** A list head with its RX_ENTRIES_SIZE pre-allocated entries linked in order. */
  method NewPool(listhead: ListNode) returns (pool: ListNode, entries: seq<ListNode>)
    requires IsRing(listhead, [])
    ensures IsRing(pool, entries) && |entries| == ENTRIES_SIZE
    ensures fresh(pool) && forall n :: n in entries ==> fresh(n) && n.fromlist
  {
    pool := new ListNode(false);
    entries := [];
    for j := 0 to ENTRIES_SIZE
      invariant IsRing(pool, entries) && |entries| == j && fresh(pool)
      invariant listhead != pool && listhead !in entries
      invariant forall n :: n in entries ==> fresh(n) && n.fromlist
    {
      var e := new ListNode(true);
      assert pool.prev in entries || pool.prev == pool;
      ListAddTail(pool, e, entries, listhead, []);
      entries := entries + [e];
    }
  }

  class Bucket {
    const listhead: ListNode
    const freepool: ListNode
    var entries: seq<ListNode>      // the entries allocated together with the bucket
    ghost var live: seq<ListNode>   // what `listhead` links
    ghost var free: seq<ListNode>   // what `freepool` links
    ghost var heap: set<ListNode>   // entries obtained from adf_os_mem_alloc and not yet freed
    ghost var slots: seq<Posting>      // the (address, buffer) pairs of `live`
    ghost var Repr: set<object>

    ghost predicate Valid()
      reads this, Repr
      ensures Valid() ==> this in Repr && forall o :: o in Repr ==> !(o is Nbuf)
    {
      && this in Repr && listhead in Repr && freepool in Repr
      && (forall o :: o in Repr ==> !(o is Nbuf))
      && (forall n :: n in live ==> n in Repr)
      && (forall n :: n in free ==> n in Repr)
      && IsRing(listhead, live)
      && IsRing(freepool, free)
      && Apart(listhead, live, freepool, free)
      && Partition(entries, live, free, heap)
      && Stored(live, slots)
    }

    /** Where the entries of the bucket are. */
    ghost function Entries(): Use
      reads this
    {
      Use(live, free, heap)
    }

    constructor ()
      ensures Valid() && fresh(Repr)
      ensures slots == [] && heap == {} && live == [] && free == entries && |free| == 10
      ensures Begin(Entries())
    {
      var head := new ListNode(false);
      var pool, es := NewPool(head);
      listhead, freepool, entries := head, pool, es;
      live, free, heap, slots := [], es, {}, [];
      Repr := {this, head, pool} + set n | n in es;
      new;
    }

    /** adf_os_mem_free: only an entry that is still allocated may be freed. */
    ghost method HeapFree(e: ListNode)
      requires e in heap
      modifies this`heap
      ensures heap == old(heap) - {e}
    {
      heap := heap - {e};
    }

    /** `e` has been taken for an insert and is in neither list. */
    ghost predicate Holding(e: ListNode)
      reads this, Repr
    {
      && (forall o :: o in Repr ==> !(o is Nbuf))
      && this in Repr && listhead in Repr && freepool in Repr
      && (forall n :: n in live ==> n in Repr)
      && (forall n :: n in free ==> n in Repr)
      && e in Repr && e != listhead && e != freepool && e !in live && e !in free
      && IsRing(listhead, live)
      && IsRing(freepool, free)
      && Apart(listhead, live, freepool, free)
      && Partition(entries, live + [e], free, heap)
      && Stored(live, slots)
    }

    /** The entry an insert uses: the oldest free pre-allocated one, else one from the heap
        (`allocOk` says whether that allocation succeeds). */
    method TakeEntry(allocOk: bool) returns (e: ListNode?)
      requires Valid()
      modifies Repr
      ensures e == null <==> old(free) == [] && !allocOk
      ensures e == null ==> Valid() && Repr == old(Repr)
      ensures e != null ==> Holding(e) && fresh(Repr - old(Repr)) && old(Repr) <= Repr
      ensures slots == old(slots) && live == old(live)
      ensures old(free) != [] ==> e == old(free)[0] && free == old(free)[1..] && heap == old(heap)
      ensures old(free) == [] && allocOk ==> fresh(e) && !e.fromlist && free == [] && heap == old(heap) + {e}
      ensures old(free) == [] && !allocOk ==> free == [] && heap == old(heap)
    {
      hide Partition, IsRing, Stored, Distinct;
      RingAt(freepool, free, 0);
      if freepool.next != freepool {
        e := freepool.next;
        PartitionTake(entries, live, free, heap);
        ghost var free0 := free;
        free := free[1..];
        assert free == free0[..0] + free0[1..];
        ListRemove(e, freepool, free0, 0, listhead, live);
      } else if allocOk {
        e := new ListNode(false);
        PartitionHeap(entries, live, free, heap, e);
        heap, Repr := heap + {e}, Repr + {e};
      } else {
        e := null;
      }
    }

    method Insert(paddr: Paddr, netbuf: Nbuf, allocOk: bool) returns (failed: bool)
      requires Valid()
      modifies Repr
      ensures Valid() && fresh(Repr - old(Repr)) && old(Repr) <= Repr
      ensures failed <==> old(free) == [] && !allocOk
      ensures slots == if failed then old(slots) else old(slots) + [Posting(paddr, netbuf)]
      ensures old(free) != [] ==>
                live == old(live) + [old(free)[0]] && free == old(free)[1..] && heap == old(heap)
      ensures old(free) == [] ==> free == []
      ensures old(free) == [] && !failed ==>
                && |live| == |old(live)| + 1 && live[..|old(live)|] == old(live)
                && fresh(live[|old(live)|]) && heap == old(heap) + {live[|old(live)|]}
      ensures failed ==> live == old(live) && heap == old(heap)
      ensures Inserted(old(Entries()), Entries())
    {
      hide Partition, IsRing, Stored, Apart;
      var e := TakeEntry(allocOk);
      if e == null {
        return true;
      }
      ApartMore(listhead, live, e, freepool, free);
      RingAt(listhead, live, 0);
      failed := false;
      ghost var live0, slots0 := live, slots;
      live, slots := live + [e], slots + [Posting(paddr, netbuf)];
      LinkEntry(listhead, e, paddr, netbuf, live0, slots0, freepool, free);
    }

    /** Unlink the entry at position `k` and give it back to where it came from. */
    method ReleaseEntry(e: ListNode, ghost k: nat)
      requires Valid() && k < |live| && e == live[k]
      modifies Repr
      ensures Valid() && Repr == old(Repr)
      ensures slots == old(slots)[..k] + old(slots)[k + 1..]
      ensures live == old(live)[..k] + old(live)[k + 1..]
      ensures if e.fromlist then free == old(free) + [e] && heap == old(heap)
              else free == old(free) && heap == old(heap) - {e}
    {
      hide Partition, IsRing, Apart, Distinct;
      ghost var live0, slots0, free0 := live, slots, free;
      RingAt(listhead, live, k);
      RingAt(freepool, free, 0);
      PartitionRelease(entries, live, free, heap, k);
      live, slots := live[..k] + live[k + 1..], slots[..k] + slots[k + 1..];
      if e.fromlist {
        free := free + [e];
      } else {
        HeapFree(e);
      }
      RecycleEntry(e, k, listhead, live0, slots0, freepool, free0);
    }

    /** The first entry with the address, or the list head when there is none. */
    method Find(paddr: Paddr) returns (iter: ListNode, ghost k: nat)
      requires Valid()
      ensures k == FirstMatch(slots, paddr)
      ensures if k < |slots| then iter == live[k] && iter.netbuf == slots[k].buf && iter != listhead
              else iter == listhead
    {
      iter, k := listhead.next, 0;
      while iter != listhead
        invariant k <= |live| && iter == (if k < |live| then live[k] else listhead)
        invariant k <= FirstMatch(slots, paddr)
        decreases |live| - k
      {
        if iter.paddr == paddr {
          return;
        }
        iter, k := iter.next, k + 1;
      }
    }

    method Lookup(paddr: Paddr) returns (netbuf: Nbuf?)
      requires Valid()
      modifies Repr
      ensures Valid() && Repr == old(Repr)
      ensures netbuf == Head(Fifo(old(slots), paddr))
      ensures slots == RemoveFirst(old(slots), paddr)
      ensures var k := FirstMatch(old(slots), paddr);
              if k < |old(slots)| then netbuf == old(slots)[k].buf && Released(old(Entries()), Entries(), k)
              else netbuf == null && Entries() == old(Entries())
      ensures LookedUp(old(Entries()), Entries())
    {
      hide Partition, IsRing, Apart, Distinct;
      FifoRemoveFirst(slots, paddr, paddr);
      netbuf := null;
      var iter, k := Find(paddr);
      if iter != listhead {
        netbuf := iter.netbuf;
        ReleaseEntry(iter, k);
        assert Released(old(Entries()), Entries(), k);
      }
    }

    /** Bucket part of deinit: hand every posted buffer to adf_nbuf_free, return heap entries. */
    method Drain() returns (freed: seq<Nbuf>)
      requires Valid()
      modifies Repr
      ensures freed == Bufs(old(slots)) && heap == {}
    {
      freed := [];
      var iter := listhead.next;
      ghost var k := 0;
      while iter != listhead
        invariant k <= |live| && iter == (if k < |live| then live[k] else listhead)
        invariant freed == Bufs(slots[..k])
        invariant heap == set n | n in live[k..] && !n.fromlist
        modifies this`heap, live`paddr
        decreases |live| - k
      {
        var e := iter;
        if e.netbuf != null {
          freed := freed + [e.netbuf];
          e.paddr := 0;
        }
        iter := iter.next;
        assert live[k..] == [e] + live[k + 1..];
        if !e.fromlist {
          HeapFree(e);
        }
        k := k + 1;
      }
      assert slots[..k] == slots;
    }
  }

  /** hash_table: one bucket per hash value; the empty sequence is the NULL pointer. */
  class HashTable {
    var buckets: seq<Bucket>
    ghost var model: Table
    ghost var Repr: set<object>

    ghost predicate Valid()
      reads this, Repr
      ensures Valid() ==> this in Repr && forall o :: o in Repr ==> !(o is Nbuf)
    {
      && this in Repr
      && (forall o :: o in Repr ==> !(o is Nbuf))
      && |buckets| == NUM_BUCKETS
      && (forall i :: 0 <= i < |buckets| ==>
            && buckets[i] in Repr && buckets[i].Repr <= Repr && this !in buckets[i].Repr
            && buckets[i].Valid() && buckets[i].slots == model[i])
      && (forall i, j :: 0 <= i < j < |buckets| ==> buckets[i].Repr !! buckets[j].Repr)
      && PaddrMap.Placed(model)
    }

    /** htt_rx_hash_init.  `memory` says whether the array of buckets can be had; without it the
        pointer stays null, which is the failure return.  (A bucket that cannot be had is not
        noticed: the address tested is that of its entries, which lies behind its own.) */
    constructor (memory: bool)
      ensures if memory then Valid() && model == EmptyTable() && |buckets| == 1024 else buckets == []
      ensures forall b :: b in buckets ==> Begin(b.Entries())
      ensures fresh(Repr)
    {
      hide Bucket.Valid;
      buckets, model := [], EmptyTable();
      Repr := {};
      new;
      if !memory {
        return;
      }
      Repr := {this};
      for i := 0 to NUM_BUCKETS
        invariant |buckets| == i && fresh(Repr) && this in Repr && model == EmptyTable()
        invariant forall o :: o in Repr ==> !(o is Nbuf)
        invariant forall j :: 0 <= j < i ==>
            && buckets[j] in Repr && buckets[j].Repr <= Repr && this !in buckets[j].Repr
            && buckets[j].Valid() && buckets[j].slots == [] && Begin(buckets[j].Entries())
        invariant forall j, k :: 0 <= j < k < i ==> buckets[j].Repr !! buckets[k].Repr
      {
        var b := new Bucket();
        buckets, Repr := buckets + [b], Repr + {b} + b.Repr;
      }
    }

    /** htt_rx_hash_list_insert */
    method Insert(paddr: Paddr, netbuf: Nbuf, allocOk: bool) returns (failed: bool)
      requires Valid()
      modifies Repr
      ensures Valid() && fresh(Repr - old(Repr)) && old(Repr) <= Repr
      ensures failed <==> !allocOk && old(buckets[Hash(paddr)].free) == []
      ensures buckets == old(buckets)
      ensures Inserted(old(buckets[Hash(paddr)].Entries()), buckets[Hash(paddr)].Entries())
      ensures old(buckets[Hash(paddr)].free) != [] ==> buckets[Hash(paddr)].heap == old(buckets[Hash(paddr)].heap)
      ensures forall i :: 0 <= i < |buckets| && i != Hash(paddr) ==> buckets[i].Entries() == old(buckets[i].Entries())
      ensures model == if failed then old(model) else PaddrMap.Insert(old(model), paddr, netbuf)
    {
      hide Bucket.Valid, Hash, PaddrMap.Placed, Inserted;
      var i := Hash(paddr);
      failed := buckets[i].Insert(paddr, netbuf, allocOk);
      PlacedAfterInsert(model, paddr, netbuf);
      Repr, model := Repr + buckets[i].Repr, if failed then model else PaddrMap.Insert(model, paddr, netbuf);
    }

    /** htt_rx_hash_list_lookup: null when nothing is posted with this address. */
    method Lookup(paddr: Paddr) returns (netbuf: Nbuf?)
      requires Valid()
      modifies Repr
      ensures Valid() && Repr == old(Repr)
      ensures netbuf == Head(Queue(old(model), paddr))
      ensures model == Remove(old(model), paddr)
      ensures buckets == old(buckets)
      ensures LookedUp(old(buckets[Hash(paddr)].Entries()), buckets[Hash(paddr)].Entries())
      ensures forall i :: 0 <= i < |buckets| && i != Hash(paddr) ==> buckets[i].Entries() == old(buckets[i].Entries())
    {
      hide Bucket.Valid, Hash, Fifo, FirstMatch, RemoveFirst, PaddrMap.Placed, LookedUp;
      var i := Hash(paddr);
      netbuf := buckets[i].Lookup(paddr);
      PlacedAfterRemove(model, paddr);
      model := Remove(model, paddr);
    }

    /** htt_rx_hash_deinit: every posted buffer is freed once, in bucket order, and no heap
        entry of any bucket is left allocated. */
    method Deinit() returns (freed: seq<Nbuf>)
      requires |buckets| == 0 || Valid()
      modifies Repr, this
      ensures buckets == []
      ensures freed == if old(|buckets|) == 0 then [] else Bufs(Flatten(old(model)))
      ensures forall b :: b in old(buckets) ==> b.heap == {}
    {
      hide Bucket.Valid;
      freed := [];
      if |buckets| == 0 {
        return;
      }
      for i := 0 to NUM_BUCKETS
        invariant freed == Bufs(Flatten(model[..i]))
        invariant buckets == old(buckets) && model == old(model)
        invariant forall j :: i <= j < |buckets| ==> buckets[j].Valid() && buckets[j].slots == model[j]
        invariant forall j :: i <= j < |buckets| ==> buckets[j].Repr == old(buckets[j].Repr)
        invariant forall j :: 0 <= j < i ==> buckets[j].heap == {}
      {
        var f := buckets[i].Drain();
        FlattenStep(model, i);
        freed := freed + f;
      }
      assert model[..NUM_BUCKETS] == model;
      buckets := [];
    }
  }

  lemma {:induction false} FlattenConcat(s: seq<seq<Posting>>, t: seq<seq<Posting>>)
    ensures Flatten(s + t) == Flatten(s) + Flatten(t)
  {
    if s == [] {
      assert s + t == t;
    } else {
      assert (s + t)[1..] == s[1..] + t;
      FlattenConcat(s[1..], t);
    }
  }

  lemma FlattenStep(t: seq<seq<Posting>>, i: nat)
    requires i < |t|
    ensures Bufs(Flatten(t[..i + 1])) == Bufs(Flatten(t[..i])) + Bufs(t[i])
  {
    assert t[..i + 1] == t[..i] + [t[i]];
    FlattenConcat(t[..i], [t[i]]);
    assert Flatten([t[i]]) == t[i];
  }
}
