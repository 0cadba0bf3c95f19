/**
 The other end of the address ring in full-reorder mode: the target copies addresses from the
 slot at target_idx on, and indicates buffers whose addresses it has copied.
 */
module RxTarget {
  import opened Nbufs
  import opened PaddrMap
  import opened RxLookups
  import opened RxReorder
  import opened RingIndex
  import opened Division

  /** Counts over a whole run: addresses written, addresses the target has copied, buffers found
      by lookups, and lookups that found none. */
  datatype Counts = Counts(posted: nat, read: nat, found: nat, missed: nat) {
    function FillCnt(): int { posted - found - missed }

    function Unread(): int { posted - read }
  }

  datatype Step =
    | Fill(k: nat)    // a refill that posts `k` buffers
    | Copy            // the target takes the next address
    | Found
    | Miss

  /** A refill asks for what the level is short of, and is refused when that exceeds the ring; the
      target stops where the indices meet; a buffer is indicated once its address has been copied. */
  predicate Enabled(c: Counts, e: Step, size: nat, level: nat)
    requires 0 < size
  {
    match e
    case Fill(k) => k == 0 || (k <= level - c.FillCnt() && level - c.FillCnt() <= size)
    case Copy => c.posted % size != c.read % size
    case Found => c.found < c.read
    case Miss => true
  }

  function After(c: Counts, e: Step): Counts {
    match e
    case Fill(k) => c.(posted := c.posted + k)
    case Copy => c.(read := c.read + 1)
    case Found => c.(found := c.found + 1)
    case Miss => c.(missed := c.missed + 1)
  }

  ghost predicate Inv(c: Counts) { c.found <= c.read <= c.posted }

  lemma StepKeepsInv(c: Counts, e: Step, size: nat, level: nat)
    requires 0 < size && Inv(c) && Enabled(c, e, size, level)
    ensures Inv(After(c, e))
  {
  }

  /** The refill writes a slot whose address the target has not copied. */
  ghost predicate Overwrites(c: Counts, e: Step, size: nat)
    requires 0 < size
  {
    e.Fill? && exists i: nat, j: nat :: c.read <= i < c.posted <= j < c.posted + e.k && Slot(i, size) == Slot(j, size)
  }

  function Slot(i: nat, size: nat): (s: nat)
    requires 0 < size
    ensures s < size
  {
    i % size
  }

  lemma SameSlot(i: nat, j: nat, size: nat)
    requires 0 < size && i < j
    ensures Slot(i, size) == Slot(j, size) ==> size <= j - i
    ensures j == i + size ==> Slot(i, size) == Slot(j, size)
  {
    var q, r := i / size, i % size;
    assert i == q * size + r;
    if j == i + size {
      assert (q + 1) * size == q * size + size;
      QuotientIs(j, size, q + 1, r);
    } else if j - i < size {
      var p, t := j / size, j % size;
      assert j == p * size + t;
      if t == r {
        assert (p - q) * size == j - i;
        Multiple(p - q, size);
      }
    }
  }

  /** Exactly when the unread and the new addresses together are more than the ring holds. */
  lemma OverwritesIff(c: Counts, k: nat, size: nat)
    requires 0 < size && Inv(c) && k <= size
    ensures Overwrites(c, Fill(k), size) <==> 0 < k && size < c.Unread() + k
  {
    if i: nat, j: nat :| c.read <= i < c.posted <= j < c.posted + k && Slot(i, size) == Slot(j, size) {
      SameSlot(i, j, size);
    }
    if 0 < k && size < c.Unread() + k {
      var j := if size <= c.Unread() then c.posted else c.read + size;
      SameSlot(j - size, j, size);
      assert c.read <= j - size < c.posted <= j < c.posted + k;
    }
  }

  // ---- whole runs ----

  ghost predicate Run(c: Counts, es: seq<Step>, size: nat, level: nat)
    requires 0 < size
    decreases |es|
  {
    es == [] || (Enabled(c, es[0], size, level) && Run(After(c, es[0]), es[1..], size, level))
  }

  ghost function Final(c: Counts, es: seq<Step>): Counts
    decreases |es|
  {
    if es == [] then c else Final(After(c, es[0]), es[1..])
  }

  ghost predicate NeverOverwrites(c: Counts, es: seq<Step>, size: nat)
    requires 0 < size
    decreases |es|
  {
    es == [] || (!Overwrites(c, es[0], size) && NeverOverwrites(After(c, es[0]), es[1..], size))
  }

  /** At each refill, the unread and the new addresses fit in the ring. */
  ghost predicate AlwaysFits(c: Counts, es: seq<Step>, size: nat)
    decreases |es|
  {
    || es == []
    || (&& (es[0].Fill? && 0 < es[0].k ==> c.Unread() + es[0].k <= size)
        && AlwaysFits(After(c, es[0]), es[1..], size))
  }

  function Misses(es: seq<Step>): nat {
    if es == [] then 0 else (if es[0].Miss? then 1 else 0) + Misses(es[1..])
  }

  lemma {:induction false} NeverOverwritesIff(c: Counts, es: seq<Step>, size: nat, level: nat)
    requires 0 < size && Inv(c) && Run(c, es, size, level)
    ensures NeverOverwrites(c, es, size) <==> AlwaysFits(c, es, size)
    decreases |es|
  {
    if es != [] {
      StepKeepsInv(c, es[0], size, level);
      if es[0].Fill? {
        OverwritesIff(c, es[0].k, size);
      }
      NeverOverwritesIff(After(c, es[0]), es[1..], size, level);
    }
  }

  lemma {:induction false} FewMisses(c: Counts, es: seq<Step>, size: nat, level: nat)
    requires 0 < size && Inv(c) && Run(c, es, size, level) && level + c.missed + Misses(es) <= size
    ensures NeverOverwrites(c, es, size)
    decreases |es|
  {
    if es != [] {
      StepKeepsInv(c, es[0], size, level);
      if es[0].Fill? {
        OverwritesIff(c, es[0].k, size);
      }
      FewMisses(After(c, es[0]), es[1..], size, level);
    }
  }

  /** A failed lookup and the refill it causes, `n` times. */
  function MissAndFill(n: nat): seq<Step> {
    if n == 0 then [] else [Miss, Fill(1)] + MissAndFill(n - 1)
  }

  lemma {:induction false} ManyMisses(c: Counts, n: nat, size: nat, level: nat)
    requires 0 < size && Inv(c) && c.FillCnt() == level && c.Unread() <= size < c.Unread() + n
    ensures Run(c, MissAndFill(n), size, level) && Misses(MissAndFill(n)) == n
    ensures !NeverOverwrites(c, MissAndFill(n), size)
    decreases n
  {
    var es := MissAndFill(n);
    var c1 := After(c, Miss);
    var c2 := After(c1, Fill(1));
    assert es[0] == Miss && es[1..] == [Fill(1)] + MissAndFill(n - 1);
    assert es[1..][0] == Fill(1) && es[1..][1..] == MissAndFill(n - 1);
    OverwritesIff(c1, 1, size);
    if c.Unread() < size {
      ManyMisses(c2, n - 1, size, level);
    } else {
      RunsAnyway(c2, n - 1, size, level);
    }
  }

  lemma {:induction false} RunsAnyway(c: Counts, n: nat, size: nat, level: nat)
    requires 0 < size && c.FillCnt() == level
    ensures Run(c, MissAndFill(n), size, level) && Misses(MissAndFill(n)) == n
    decreases n
  {
    if n != 0 {
      var es := MissAndFill(n);
      assert es[0] == Miss && es[1..] == [Fill(1)] + MissAndFill(n - 1);
      assert es[1..][0] == Fill(1) && es[1..][1..] == MissAndFill(n - 1);
      RunsAnyway(After(After(c, Miss), Fill(1)), n - 1, size, level);
    }
  }

  /**
   How many failed lookups the ring bears: no run with `m` of them, or fewer, ever overwrites an
   address the target has not copied, if and only if level and `m` together fit in the ring.
   Without any, the level always does.
   */
  lemma MissesBorne(size: nat, level: nat, m: nat)
    requires level < size
    ensures var c := Counts(0, 0, 0, 0);
      && ((forall es :: Run(c, es, size, level) && Misses(es) <= m ==> NeverOverwrites(c, es, size))
          <==> level + m <= size)
      && (forall es :: Run(c, es, size, level) && Misses(es) == 0 ==> NeverOverwrites(c, es, size))
  {
    var c := Counts(0, 0, 0, 0);
    forall es | Run(c, es, size, level) && Misses(es) <= size - level ensures NeverOverwrites(c, es, size) {
      FewMisses(c, es, size, level);
    }
    if size < level + m {
      var n := size - level + 1;
      var es := [Fill(level)] + MissAndFill(n);
      assert es[0] == Fill(level) && es[1..] == MissAndFill(n);
      ManyMisses(After(c, Fill(level)), n, size, level);
      assert Run(c, es, size, level) && Misses(es) == n && !NeverOverwrites(c, es, size);
    }
  }

  // ---- the ring itself ----

  /** The slots from the read index on hold the addresses that the target has not copied. */
  ghost predicate Intact(ring: seq<Paddr>, log: seq<Paddr>, read: nat) {
    0 < |ring| && read <= |log| && forall i :: read <= i < |log| ==> ring[Slot(i, |ring|)] == log[i]
  }

  function Addresses(e: seq<Supply>): (r: seq<Paddr>)
    requires forall i :: 0 <= i < |e| ==> e[i].Mapped?
    ensures |r| == |e| && forall i :: 0 <= i < |e| ==> r[i] == e[i].posting.paddr
  {
    seq(|e|, i requires 0 <= i < |e| => e[i].posting.paddr)
  }

  /** The slot `t` places on from that of address `n`. */
  lemma SlotOn(n: nat, t: nat, size: nat)
    requires t < size
    ensures Wrap(Slot(n, size) + t, size) == Slot(n + t, size)
    ensures size <= n + t ==> Slot(n + t, size) == Slot(n + t - size, size)
  {
    var q, r := n / size, n % size;
    assert n == q * size + r;
    if r + t < size {
      QuotientIs(n + t, size, q, r + t);
    } else {
      assert (q + 1) * size == q * size + size;
      QuotientIs(n + t, size, q + 1, r + t - size);
    }
    if size <= n + t {
      SameSlot(n + t - size, n + t, size);
    }
  }

  /** What the slot of address `i` holds after a refill of at most a lap. */
  lemma WrittenSlot(ring: seq<Paddr>, n: nat, e: seq<Supply>, i: nat)
    requires 0 < |ring| && n + |e| <= i + |ring| && i < n + |e| && |e| <= |ring|
    requires forall j :: 0 <= j < |e| ==> e[j].Mapped?
    ensures Written(ring, Slot(n, |ring|), e)[Slot(i, |ring|)] ==
              if i < n then ring[Slot(i, |ring|)] else e[i - n].posting.paddr
  {
    hide Written, Slot, Wrap;
    var t := SlotFrom(n, i, |ring|);
    WrittenAt(ring, Slot(n, |ring|), e, t);
  }

  /** How many places on from the slot of address `n` that of address `i` is. */
  lemma SlotFrom(n: nat, i: nat, size: nat) returns (t: nat)
    requires 0 < size && n <= i + size && i < n + size
    ensures t < size && t == (if n <= i then i - n else i + size - n)
    ensures Wrap(Slot(n, size) + t, size) == Slot(i, size)
  {
    hide Slot, Wrap;
    t := if n <= i then i - n else i + size - n;
    SlotOn(n, t, size);
    if i < n {
      assert n + t - size == i;
    } else {
      assert n + t == i;
    }
  }

  /** A refill that fits leaves the addresses before it alone, and its own are there too. */
  lemma WrittenIntact(ring: seq<Paddr>, log: seq<Paddr>, read: nat, e: seq<Supply>)
    requires Intact(ring, log, read) && forall i :: 0 <= i < |e| ==> e[i].Mapped?
    requires |log| - read + |e| <= |ring|
    ensures Intact(Written(ring, Slot(|log|, |ring|), e), log + Addresses(e), read)
  {
    hide Written, Slot;
    var n, all := |log|, log + Addresses(e);
    var after := Written(ring, Slot(n, |ring|), e);
    forall i | read <= i < |all| ensures after[Slot(i, |ring|)] == all[i] {
      WrittenSlot(ring, n, e, i);
    }
  }

  /** The masked difference of the indices counts what is unread as long as that is less than the ring. */
  lemma ElemsIsUnreadIff(c: Counts, size: nat)
    requires 0 < size && Inv(c)
    ensures (Slot(c.posted, size) - Slot(c.read, size)) % size == c.Unread() <==> c.Unread() < size
  {
    var p, q := c.posted / size, c.read / size;
    assert c.posted == p * size + Slot(c.posted, size) && c.read == q * size + Slot(c.read, size);
    if c.Unread() < size {
      assert (q - p) * size == q * size - p * size;
      QuotientIs(Slot(c.posted, size) - Slot(c.read, size), size, q - p, c.Unread());
    }
  }

  /** A store with the index the target keeps. */
  class SharedRing {
    const store: RxStore
    var targetIdx: nat
    ghost var log: seq<Paddr>    // every address written so far
    ghost var read: nat
    ghost var found: nat

    ghost predicate Valid()
      reads this, store, store.table, store.table.Repr, store.paddrsRing
    {
      && store.Valid() && this !in store.table.Repr
      && found <= read <= |log| && store.fillCnt == |log| - found - store.misses
      && store.allocIdx == Slot(|log|, store.size) && targetIdx == Slot(read, store.size)
    }

    ghost function Value(): Counts
      requires Valid()
      reads this, store, store.table, store.table.Repr, store.paddrsRing
    {
      Counts(|log|, read, found, store.misses)
    }

    lemma StoreIs()
      requires store.Valid()
      ensures 0 < store.size == store.paddrsRing.Length && store.allocIdx < store.size
      ensures store !in store.table.Repr && store.paddrsRing !in store.table.Repr
    {
    }

    constructor (size: nat, fillLevel: nat, descSize: nat)
      requires fillLevel < size
      ensures Valid() && Value() == Counts(0, 0, 0, 0) && Intact(store.paddrsRing[..], log, read)
      ensures store.size == size && store.fillLevel == fillLevel
    {
      hide RxStore.Valid, EmptyTable;
      store := new RxStore(size, fillLevel, descSize);
      targetIdx, log, read, found := 0, [], 0, 0;
      new;
      StoreIs();
    }

    /** htt_rx_in_order_ring_elems */
    method InOrderRingElems() returns (n: nat)
      requires Valid()
      ensures n == |log| - read <==> |log| - read < store.size
    {
      ElemsIsUnreadIff(Value(), store.size);
      n := (store.allocIdx - targetIdx) % store.size;
    }

    method Replenish(env: seq<Supply>) returns (n: nat)
      requires Valid()
      requires store.fillLevel - store.fillCnt <= |env| && FreshSupply(AllBufs(store.table.model), env)
      modifies this`log, store, store.table.Repr, store.paddrsRing
      ensures Valid() && n <= |env| && forall i :: 0 <= i < n ==> env[i].Mapped?
      ensures log == old(log) + Addresses(env[..n])
      ensures Value() == After(old(Value()), Fill(n))
      ensures Enabled(old(Value()), Fill(n), store.size, store.fillLevel)
      ensures old(Intact(store.paddrsRing[..], log, read)) && old(|log|) - old(read) + n <= store.size ==>
                Intact(store.paddrsRing[..], log, read)
    {
      hide RxStore.Valid, AllBufs, FreshSupply, Written, Intact, PostAll, Count, Slot;
      StoreIs();
      ghost var ring, log0 := store.paddrsRing[..], log;
      n := store.Replenish(env);
      StoreIs();
      log := log + Addresses(env[..n]);
      SlotAfter(|log0|, n, store.size);
      if Intact(ring, log0, read) && |log0| - read + n <= store.size {
        WrittenIntact(ring, log0, read, env[..n]);
      }
    }

    /** The target copies the next address. */
    method Copy() returns (paddr: Paddr)
      requires Valid() && store.allocIdx != targetIdx
      modifies this`targetIdx, this`read
      ensures Valid() && Value() == After(old(Value()), Step.Copy)
      ensures read == old(read) + 1 && log == old(log) && targetIdx == (old(targetIdx) + 1) % store.size
      ensures Enabled(old(Value()), Step.Copy, store.size, store.fillLevel)
      ensures old(Intact(store.paddrsRing[..], log, read)) ==>
                paddr == log[old(read)] && Intact(store.paddrsRing[..], log, read)
    {
      hide RxStore.Valid;
      StoreIs();
      assert read < |log|;
      paddr := store.paddrsRing[targetIdx];
      NextOf(read, store.size);
      targetIdx := RingIndex.Next(targetIdx, store.size);
      read := read + 1;
    }

    /** A lookup for an indication, which names a buffer only after its address has been copied. */
    method Pop(paddr: Paddr) returns (msdu: Nbuf?)
      requires Valid() && (Queue(store.table.model, paddr) != [] ==> found < read)
      modifies this`found, store, store.table.Repr
      ensures Valid() && msdu == Head(Queue(old(store.table.model), paddr)) && log == old(log)
      ensures Value() == After(old(Value()), if msdu == null then Miss else Found)
      ensures found == old(found) + (if msdu == null then 0 else 1)
      ensures store.misses == old(store.misses) + (if msdu == null then 1 else 0)
      ensures Enabled(old(Value()), if msdu == null then Miss else Found, store.size, store.fillLevel)
      ensures old(Intact(store.paddrsRing[..], log, read)) ==> Intact(store.paddrsRing[..], log, read)
    {
      hide RxStore.Valid, Queue, Remove, Intact, Slot;
      StoreIs();
      ghost var ring := store.paddrsRing[..];
      msdu := store.PopByPaddr(paddr);
      assert store.paddrsRing[..] == ring;
      found := if msdu == null then found else found + 1;
    }
  }

  lemma SlotAfter(i: nat, n: nat, size: nat)
    requires 0 < size
    ensures (Slot(i, size) + n) % size == Slot(i + n, size)
  {
    var q, r := i / size, i % size;
    var p, t := (r + n) / size, (r + n) % size;
    assert i == q * size + r && r + n == p * size + t;
    assert (q + p) * size == q * size + p * size;
    QuotientIs(i + n, size, q + p, t);
  }
}
