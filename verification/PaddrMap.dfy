/**
 What the rx hash table is for: a multimap from a buffer's physical address to the
 buffers posted with it, oldest first.  The bucket array is the concrete side.
 */
module PaddrMap {
  import opened Nbufs
  import opened Division
  import opened Multisets

  const NUM_BUCKETS: nat := 1024
  const ENTRIES_SIZE: nat := 10

  /** Bitwise exclusive or. */
  function Xor(x: nat, y: nat): (r: nat)
    decreases x + y
  {
    if x == 0 && y == 0 then 0 else (if x % 2 == y % 2 then 0 else 1) + 2 * Xor(x / 2, y / 2)
  }

  function Bit(x: nat, k: nat): (b: nat) {
    if k == 0 then x % 2 else Bit(x / 2, k - 1)
  }

  lemma BitOfZero(k: nat)
    ensures Bit(0, k) == 0
  {
    if k > 0 {
      BitOfZero(k - 1);
    }
  }

  lemma {:induction false} XorIsBitwise(x: nat, y: nat, k: nat)
    ensures Bit(Xor(x, y), k) == if Bit(x, k) == Bit(y, k) then 0 else 1
    decreases k
  {
    var r := Xor(x, y);
    if x == 0 && y == 0 {
      BitOfZero(k);
    } else if k > 0 {
      assert r / 2 == Xor(x / 2, y / 2);
      XorIsBitwise(x / 2, y / 2, k - 1);
    }
  }

  /** RX_HASH_FUNCTION */
  function Hash(a: Paddr): (i: nat)
    ensures i < NUM_BUCKETS
  {
    Xor(a / 0x4000, a / 0x10) % NUM_BUCKETS
  }

  function Pow2(n: nat): (p: nat)
    ensures 0 < p
  {
    if n == 0 then 1 else 2 * Pow2(n - 1)
  }

  /** Dividing by 2p is halving first. */
  lemma Halve(x: nat, p: nat)
    requires 0 < p
    ensures 0 <= x / (2 * p) == x / 2 / p
    ensures x % (2 * p) % 2 == x % 2 && x % (2 * p) / 2 == x / 2 % p
  {
    var q, r := x / 2 / p, x / 2 % p;
    assert x / 2 == q * p + r;
    assert q * (2 * p) == 2 * (q * p);
    QuotientIs(x, 2 * p, q, 2 * r + x % 2);
  }

  lemma {:induction false} BitOfQuotient(x: nat, n: nat, k: nat)
    ensures 0 <= x / Pow2(n)
    ensures Bit(x / Pow2(n), k) == Bit(x, n + k)
    decreases n
  {
    if n > 0 {
      BitOfQuotient(x / 2, n - 1, k);
      Halve(x, Pow2(n - 1));
    }
  }

  lemma {:induction false} BitOfRemainder(x: nat, n: nat, k: nat)
    requires k < n
    ensures Bit(x % Pow2(n), k) == Bit(x, k)
    decreases n
  {
    Halve(x, Pow2(n - 1));
    if k > 0 {
      BitOfRemainder(x / 2, n - 1, k - 1);
    }
  }

  /** Bit `k` of the bucket number mixes bits k + 4 and k + 14 of the address, and nothing else. */
  lemma HashBits(a: Paddr, k: nat)
    requires k < 10
    ensures Bit(Hash(a), k) == if Bit(a, 14 + k) == Bit(a, 4 + k) then 0 else 1
  {
    assert Pow2(14) == 0x4000 && Pow2(4) == 0x10 && Pow2(10) == NUM_BUCKETS;
    BitOfRemainder(Xor(a / 0x4000, a / 0x10), 10, k);
    XorIsBitwise(a / 0x4000, a / 0x10, k);
    BitOfQuotient(a, 14, k);
    BitOfQuotient(a, 4, k);
  }

  /*--- one bucket ---*/

  function FirstMatch(s: seq<Posting>, p: Paddr): (k: nat)
    ensures k <= |s|
    ensures forall i :: 0 <= i < k ==> s[i].paddr != p
    ensures k < |s| ==> s[k].paddr == p
  {
    if s == [] || s[0].paddr == p then 0 else 1 + FirstMatch(s[1..], p)
  }

  function RemoveFirst(s: seq<Posting>, p: Paddr): (r: seq<Posting>)
    ensures forall x :: x in r ==> x in s
  {
    var k := FirstMatch(s, p);
    if k < |s| then s[..k] + s[k + 1..] else s
  }

  /** The buffers posted with address `p`, oldest first. */
  function Fifo(s: seq<Posting>, p: Paddr): (r: seq<Nbuf>)
    ensures |r| <= |s|
  {
    if s == [] then []
    else if s[0].paddr == p then [s[0].buf] + Fifo(s[1..], p)
    else Fifo(s[1..], p)
  }

  function Head(q: seq<Nbuf>): (r: Nbuf?) {
    if q == [] then null else q[0]
  }

  lemma {:induction false} FifoConcat(s: seq<Posting>, t: seq<Posting>, p: Paddr)
    ensures Fifo(s + t, p) == Fifo(s, p) + Fifo(t, p)
  {
    if s == [] {
      assert s + t == t;
    } else {
      assert (s + t)[0] == s[0] && (s + t)[1..] == s[1..] + t;
      FifoConcat(s[1..], t, p);
    }
  }

  lemma {:induction false} FifoNone(s: seq<Posting>, p: Paddr)
    requires forall i :: 0 <= i < |s| ==> s[i].paddr != p
    ensures Fifo(s, p) == []
  {
    if s != [] {
      FifoNone(s[1..], p);
    }
  }

  /** Removing the first match pops the queue of `p` and touches no other queue. */
  lemma {:induction false} FifoRemoveFirst(s: seq<Posting>, p: Paddr, q: Paddr)
    ensures FirstMatch(s, p) < |s| <==> Fifo(s, p) != []
    ensures FirstMatch(s, p) < |s| ==> s[FirstMatch(s, p)].buf == Fifo(s, p)[0]
    ensures Fifo(RemoveFirst(s, p), q) ==
            if q == p && Fifo(s, p) != [] then Fifo(s, p)[1..] else Fifo(s, q)
  {
    var k := FirstMatch(s, p);
    FifoNone(s[..k], p);
    if k < |s| {
      var rest := s[k + 1..];
      assert s == s[..k] + ([s[k]] + rest);
      FifoConcat(s[..k], [s[k]] + rest, p);
      FifoConcat(s[..k], [s[k]] + rest, q);
      FifoConcat(s[..k], rest, q);
      assert ([s[k]] + rest)[1..] == rest;
    } else {
      assert s[..k] == s;
    }
  }

  /*--- the bucket array ---*/

  type Table = t: seq<seq<Posting>> | |t| == NUM_BUCKETS
    witness seq(NUM_BUCKETS, i => [])

  function EmptyTable(): (t: Table)
    ensures forall i :: 0 <= i < NUM_BUCKETS ==> t[i] == []
  {
    seq(NUM_BUCKETS, i => [])
  }

  /** Every entry sits in the bucket its address hashes to. */
  ghost predicate Placed(t: Table) {
    forall i, j :: 0 <= i < |t| && 0 <= j < |t[i]| ==> Hash(t[i][j].paddr) == i
  }

  function Insert(t: Table, p: Paddr, b: Nbuf): (r: Table) {
    t[Hash(p) := t[Hash(p)] + [Posting(p, b)]]
  }

  function Remove(t: Table, p: Paddr): (r: Table) {
    t[Hash(p) := RemoveFirst(t[Hash(p)], p)]
  }

  function Queue(t: Table, p: Paddr): (r: seq<Nbuf>) {
    Fifo(t[Hash(p)], p)
  }

  lemma PlacedAfterInsert(t: Table, p: Paddr, b: Nbuf)
    requires Placed(t)
    ensures Placed(Insert(t, p, b))
  {
  }

  lemma PlacedAfterRemove(t: Table, p: Paddr)
    requires Placed(t)
    ensures Placed(Remove(t, p))
  {
    var r := Remove(t, p);
    forall i, j | 0 <= i < |r| && 0 <= j < |r[i]| ensures Hash(r[i][j].paddr) == i {
      assert r[i][j] in t[i];
    }
  }

  lemma QueueAfterInsert(t: Table, p: Paddr, b: Nbuf, q: Paddr)
    ensures Queue(Insert(t, p, b), q) == if q == p then Queue(t, p) + [b] else Queue(t, q)
  {
    FifoConcat(t[Hash(p)], [Posting(p, b)], q);
  }

  lemma QueueAfterRemove(t: Table, p: Paddr, q: Paddr)
    ensures Queue(Remove(t, p), q) ==
            if q == p && Queue(t, p) != [] then Queue(t, p)[1..] else Queue(t, q)
  {
    FifoRemoveFirst(t[Hash(p)], p, q);
  }

  /** Number of entries over all buckets. */
  function Count(t: seq<seq<Posting>>): (n: nat) {
    if t == [] then 0 else |t[0]| + Count(t[1..])
  }

  /** All entries, in the order deinit walks them. */
  function Flatten(t: seq<seq<Posting>>): (r: seq<Posting>)
    ensures |r| == Count(t)
  {
    if t == [] then [] else t[0] + Flatten(t[1..])
  }

  lemma {:induction false} CountUpdate(t: seq<seq<Posting>>, i: nat, b: seq<Posting>)
    requires i < |t|
    ensures Count(t[i := b]) == Count(t) - |t[i]| + |b|
  {
    if i == 0 {
      assert t[0 := b][1..] == t[1..];
    } else {
      assert t[i := b][1..] == t[1..][i - 1 := b];
      CountUpdate(t[1..], i - 1, b);
    }
  }

  /** An insert adds one entry; a lookup takes one away exactly when it finds a buffer. */
  lemma CountAfterInsert(t: Table, p: Paddr, b: Nbuf)
    ensures Count(Insert(t, p, b)) == Count(t) + 1
  {
    CountUpdate(t, Hash(p), t[Hash(p)] + [Posting(p, b)]);
  }

  lemma CountAfterRemove(t: Table, p: Paddr)
    ensures Count(Remove(t, p)) == if Queue(t, p) == [] then Count(t) else Count(t) - 1
  {
    CountUpdate(t, Hash(p), RemoveFirst(t[Hash(p)], p));
    FifoRemoveFirst(t[Hash(p)], p, p);
  }

  /** The buffers posted anywhere in the table, with multiplicity. */
  function AllBufs(t: seq<seq<Posting>>): (m: multiset<Nbuf>) {
    if t == [] then multiset{} else multiset(Bufs(t[0])) + AllBufs(t[1..])
  }

  lemma {:induction false} AllBufsUpdate(t: seq<seq<Posting>>, i: nat, b: seq<Posting>)
    requires i < |t|
    ensures AllBufs(t[i := b]) + multiset(Bufs(t[i])) == AllBufs(t) + multiset(Bufs(b))
  {
    if i == 0 {
      assert t[0 := b][1..] == t[1..];
    } else {
      assert t[i := b][1..] == t[1..][i - 1 := b];
      AllBufsUpdate(t[1..], i - 1, b);
      var m, x := multiset(Bufs(t[0])), t[1..][i - 1 := b];
      assert AllBufs(t[i := b]) == m + AllBufs(x);
      assert (m + AllBufs(x)) + multiset(Bufs(t[i])) == m + (AllBufs(x) + multiset(Bufs(t[i])));
    }
  }

  lemma AllBufsAfterInsert(t: Table, p: Paddr, b: Nbuf)
    ensures AllBufs(Insert(t, p, b)) == AllBufs(t) + multiset{b}
  {
    var s := t[Hash(p)];
    AllBufsUpdate(t, Hash(p), s + [Posting(p, b)]);
    MoreBufs(s, Posting(p, b));
    Cancel(AllBufs(Insert(t, p, b)), AllBufs(t) + multiset{b}, multiset(Bufs(s)));
  }

  /** A lookup that finds a buffer takes out exactly that one. */
  lemma AllBufsAfterRemove(t: Table, p: Paddr)
    ensures AllBufs(t) == AllBufs(Remove(t, p)) +
              if Queue(t, p) == [] then multiset{} else multiset{Queue(t, p)[0]}
  {
    var s := t[Hash(p)];
    var k := FirstMatch(s, p);
    AllBufsUpdate(t, Hash(p), RemoveFirst(s, p));
    FifoRemoveFirst(s, p, p);
    if k < |s| {
      FewerBufs(s, k);
      Cancel(AllBufs(t), AllBufs(Remove(t, p)) + multiset{s[k].buf}, multiset(Bufs(RemoveFirst(s, p))));
    } else {
      Cancel(AllBufs(t), AllBufs(Remove(t, p)), multiset(Bufs(s)));
    }
  }

  lemma MoreBufs(s: seq<Posting>, x: Posting)
    ensures multiset(Bufs(s + [x])) == multiset(Bufs(s)) + multiset{x.buf}
  {
    assert Bufs(s + [x]) == Bufs(s) + [x.buf];
  }

  lemma FewerBufs(s: seq<Posting>, k: nat)
    requires k < |s|
    ensures multiset(Bufs(s)) == multiset(Bufs(s[..k] + s[k + 1..])) + multiset{s[k].buf}
  {
    assert Bufs(s) == Bufs(s[..k]) + [s[k].buf] + Bufs(s[k + 1..]);
    assert Bufs(s[..k] + s[k + 1..]) == Bufs(s[..k]) + Bufs(s[k + 1..]);
  }

  lemma {:induction false} FlattenBufs(t: seq<seq<Posting>>)
    ensures multiset(Bufs(Flatten(t))) == AllBufs(t)
  {
    if t != [] {
      FlattenBufs(t[1..]);
      assert Bufs(Flatten(t)) == Bufs(t[0]) + Bufs(Flatten(t[1..]));
    }
  }

  lemma {:induction false} CountEmpty(t: seq<seq<Posting>>)
    requires forall i :: 0 <= i < |t| ==> t[i] == []
    ensures Count(t) == 0
  {
    if t != [] {
      CountEmpty(t[1..]);
    }
  }

  /*--- whole runs ---*/

  datatype Op = InsertOp(paddr: Paddr, buf: Nbuf) | LookupOp(paddr: Paddr)

  /** The bucket array run: its final state and what each lookup returned. */
  function RunTable(t: Table, ops: seq<Op>): (r: (Table, seq<Nbuf?>))
    decreases |ops|
  {
    if ops == [] then (t, []) else
    match ops[0]
    case InsertOp(p, b) => RunTable(Insert(t, p, b), ops[1..])
    case LookupOp(p) =>
      var (t', out) := RunTable(Remove(t, p), ops[1..]);
      (t', [Head(Queue(t, p))] + out)
  }

  /** The plain multimap: an address that is absent has the empty queue. */
  type Multimap = map<Paddr, seq<Nbuf>>

  function Get(m: Multimap, p: Paddr): seq<Nbuf> {
    if p in m then m[p] else []
  }

  function RunMultimap(m: Multimap, ops: seq<Op>): (r: (Multimap, seq<Nbuf?>))
    decreases |ops|
  {
    if ops == [] then (m, []) else
    match ops[0]
    case InsertOp(p, b) => RunMultimap(m[p := Get(m, p) + [b]], ops[1..])
    case LookupOp(p) =>
      var q := Get(m, p);
      var (m', out) := RunMultimap(if q == [] then m else m[p := q[1..]], ops[1..]);
      (m', [if q == [] then null else q[0]] + out)
  }

  ghost predicate Refines(t: Table, m: Multimap) {
    forall p :: Queue(t, p) == Get(m, p)
  }

  /** Every run of inserts and lookups on the buckets gives the answers of the multimap. */
  lemma {:induction false} TableRefinesMultimap(t: Table, m: Multimap, ops: seq<Op>)
    requires Refines(t, m) && Placed(t)
    ensures RunTable(t, ops).1 == RunMultimap(m, ops).1
    ensures Refines(RunTable(t, ops).0, RunMultimap(m, ops).0)
    ensures Placed(RunTable(t, ops).0)
    decreases |ops|
  {
    if ops != [] {
      match ops[0]
      case InsertOp(p, b) =>
        var m' := m[p := Get(m, p) + [b]];
        PlacedAfterInsert(t, p, b);
        forall q ensures Queue(Insert(t, p, b), q) == Get(m', q) {
          QueueAfterInsert(t, p, b, q);
          assert Queue(t, q) == Get(m, q) && Queue(t, p) == Get(m, p);
        }
        TableRefinesMultimap(Insert(t, p, b), m', ops[1..]);
      case LookupOp(p) =>
        var q := Get(m, p);
        var m' := if q == [] then m else m[p := q[1..]];
        PlacedAfterRemove(t, p);
        forall x ensures Queue(Remove(t, p), x) == Get(m', x) {
          QueueAfterRemove(t, p, x);
          assert Queue(t, x) == Get(m, x) && Queue(t, p) == Get(m, p);
        }
        TableRefinesMultimap(Remove(t, p), m', ops[1..]);
    }
  }

  lemma EmptyRefines()
    ensures Refines(EmptyTable(), map[]) && Placed(EmptyTable()) && Count(EmptyTable()) == 0
  {
    CountEmpty(EmptyTable());
  }
}
