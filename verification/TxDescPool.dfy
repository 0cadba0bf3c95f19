/**
 The pool of tx descriptors: a freelist threaded through the first word of the descriptors,
 which lie several to a page on pages that are not adjacent.
 */
module TxDescPool {
  import opened Nbufs
  import opened Division

  datatype Option<T> = None | Some(value: T)

  datatype Addr = Addr(page: nat, slot: nat) | Wild(word: nat)

  /** The descriptor with index `j`, when `k` of them fit on a page. */
  function Nth(j: nat, k: nat): Addr
    requires 0 < k
  {
    Addr(j / k, j % k)
  }

  /** The first `n` descriptors, page after page. */
  function Pool(n: nat, k: nat): (ds: seq<Addr>)
    requires 0 < k
    ensures |ds| == n
  {
    seq(n, j requires 0 <= j < n => Nth(j, k))
  }

  lemma NthIs(page: nat, slot: nat, k: nat)
    requires slot < k
    ensures 0 <= page * k
    ensures Nth(page * k + slot, k) == Addr(page, slot)
  {
    QuotientIs(page * k + slot, k, page, slot);
  }

  lemma NthDiffer(i: nat, j: nat, k: nat)
    requires 0 < k && i != j
    ensures Nth(i, k) != Nth(j, k)
  {
    assert i == i / k * k + i % k;
    assert j == j / k * k + j % k;
  }

  ghost function Members(ds: seq<Addr>): set<Addr> { set d | d in ds }

  lemma PoolDistinct(n: nat, k: nat)
    requires 0 < k
    ensures Distinct(Pool(n, k))
  {
    forall i, j | 0 <= i < j < n ensures Pool(n, k)[i] != Pool(n, k)[j] {
      NthDiffer(i, j, k);
    }
  }

  /** Following the words from `head` visits `ds`, and then meets a null. */
  ghost predicate Threads(link: map<Addr, Option<Addr>>, head: Option<Addr>, ds: seq<Addr>) {
    && head == Front(ds)
    && forall i :: 0 <= i < |ds| ==> ds[i] in link && link[ds[i]] == Front(ds[i + 1..])
  }

  lemma ThreadsTail(link: map<Addr, Option<Addr>>, ds: seq<Addr>)
    requires ds != [] && Threads(link, Some(ds[0]), ds) && Distinct(ds)
    ensures Threads(link, link[ds[0]], ds[1..]) && Distinct(ds[1..])
  {
    forall i | 0 <= i < |ds[1..]|
      ensures ds[1..][i] in link && link[ds[1..][i]] == Front(ds[1..][i + 1..]) {
      assert ds[1..][i] == ds[i + 1] && ds[1..][i + 1..] == ds[i + 1 + 1..];
    }
  }

  lemma ThreadsPush(link: map<Addr, Option<Addr>>, head: Option<Addr>, ds: seq<Addr>, d: Addr)
    requires Threads(link, head, ds) && Distinct(ds) && d !in ds
    ensures Threads(link[d := head], Some(d), [d] + ds) && Distinct([d] + ds)
  {
    var es := [d] + ds;
    assert es[1..] == ds;
    forall i | 0 <= i < |es| ensures es[i] in link[d := head] && link[d := head][es[i]] == Front(es[i + 1..]) {
      if 0 < i {
        assert es[i] == ds[i - 1] && es[i + 1..] == ds[i - 1 + 1..];
      }
    }
  }

  /** Following the words from `d` visits `ds` and then comes back to `d`, for ever. */
  ghost predicate Circle(link: map<Addr, Option<Addr>>, d: Addr, ds: seq<Addr>) {
    && d in link && link[d] == Front(ds + [d])
    && forall i :: 0 <= i < |ds| ==> ds[i] in link && link[ds[i]] == Front(ds[i + 1..] + [d])
  }

  function Index(ds: seq<Addr>, d: Addr): (i: nat)
    requires d in ds
    ensures i < |ds| && ds[i] == d
    ensures d !in ds[..i]
  {
    if ds[0] == d then 0 else 1 + Index(ds[1..], d)
  }

  lemma PushClosesCircle(link: map<Addr, Option<Addr>>, head: Option<Addr>, ds: seq<Addr>, d: Addr)
    requires Threads(link, head, ds) && d in ds
    ensures Circle(link[d := head], d, ds[..Index(ds, d)])
  {
    var k := Index(ds, d);
    var cs, after := ds[..k], link[d := head];
    forall i | 0 <= i < |cs| ensures cs[i] in after && after[cs[i]] == Front(cs[i + 1..] + [d]) {
      assert cs[i] == ds[i] && cs[i] != d;
      assert ds[i + 1..][0] == ds[i + 1];
    }
  }

  function Front(ds: seq<Addr>): Option<Addr> { if ds == [] then None else Some(ds[0]) }

  lemma NthSplit(j: nat, k: nat)
    requires 0 < k
    ensures var d := Nth(j, k); d.Addr? && d.slot < k && d.page * k + d.slot == j
  {
  }

  predicate InPool(n: nat, k: nat, d: Addr) { d.Addr? && d.slot < k && d.page * k + d.slot < n }

  /** The pool is all slots of all pages before the n-th, in page order. */
  lemma PoolIs(n: nat, k: nat, d: Addr)
    requires 0 < k
    ensures d in Pool(n, k) <==> d.Addr? && d.slot < k && d.page * k + d.slot < n
    ensures forall j :: 0 <= j < n ==> Pool(n, k)[j] == Addr(j / k, j % k)
  {
    assert forall j :: 0 <= j < n ==> Pool(n, k)[j] == Nth(j, k);
    hide Nth;
    if d.Addr? && d.slot < k && d.page * k + d.slot < n {
      NthIs(d.page, d.slot, k);
      assert Pool(n, k)[d.page * k + d.slot] == d;
    }
    if d in Pool(n, k) {
      var j :| 0 <= j < n && Pool(n, k)[j] == d;
      NthSplit(j, k);
    }
  }

  /** Otherwise the list is one page too long: all of it past the pool, and one word beyond. */
  lemma OverrunByOnePage(n: nat, k: nat)
    requires 0 < k && 0 < n && !Sound(n, k)
    ensures |Pool(Pages(n, k) * k, k) + [Wild(0)]| == n + k
  {
    PagesCover(n, k);
    var np, q := Pages(n, k), (n - 1) / k;
    hide Pages, Nth;
    assert n - 1 == q * k;
    assert (np - 1) * k == np * k - k;
    assert (np - q) * k == np * k - q * k;
    assert (np - 1 - q) * k == (np - 1) * k - q * k;
    Sign(np - q, k);
    Sign(np - 1 - q, k);
  }

  lemma Sign(x: int, k: nat)
    requires 0 < k
    ensures x * k > 0 <==> x > 0
    ensures x * k <= 0 <==> x <= 0
    ensures x == 1 ==> x * k == k
  {
  }

  /** The words of the first `m` descriptors are written, and the last of them leads to `end`. */
  ghost predicate Built(link: map<Addr, Option<Addr>>, m: nat, k: nat, end: Addr)
    requires 0 < k
  {
    && link.Keys == Members(Pool(m, k))
    && forall j {:trigger link[Nth(j, k)]} {:trigger Nth(j, k) in link} :: 0 <= j < m ==>
         Nth(j, k) in link && link[Nth(j, k)] == Some(if j + 1 < m then Nth(j + 1, k) else end)
  }

  lemma Extend(link: map<Addr, Option<Addr>>, m: nat, k: nat, end: Addr)
    requires 0 < k && Built(link, m, k, Nth(m, k))
    ensures Built(link[Nth(m, k) := Some(end)], m + 1, k, end)
  {
    hide Nth;
    forall j | 0 <= j < m ensures Nth(j, k) != Nth(m, k) {
      NthDiffer(j, m, k);
    }
    assert Pool(m + 1, k) == Pool(m, k) + [Nth(m, k)];
  }

  lemma Close(link: map<Addr, Option<Addr>>, m: nat, k: nat, end: Addr)
    requires 0 < k && 0 < m && Built(link, m, k, end) && end !in Pool(m, k)
    ensures Threads(link[end := None], Some(Nth(0, k)), Pool(m, k) + [end])
    ensures Distinct(Pool(m, k) + [end])
  {
    hide Nth, Front, Built;
    var ds, cut := Pool(m, k) + [end], link[end := None];
    PoolDistinct(m, k);
    assert ds[0] == Nth(0, k);
    assert Front(ds) == Some(Nth(0, k)) by { FrontIs(ds, 0); }
    forall i | 0 <= i < |ds| ensures ds[i] in cut && cut[ds[i]] == Front(ds[i + 1..]) {
      FrontIs(ds, i + 1);
      if i < m {
        BuiltAt(link, m, k, end, i);
        assert ds[i] == Nth(i, k) && ds[i] in Pool(m, k);
        assert ds[i + 1] == if i + 1 < m then Nth(i + 1, k) else end;
      }
    }
  }

  lemma FrontIs(ds: seq<Addr>, i: nat)
    requires i <= |ds|
    ensures Front(ds[i..]) == if i < |ds| then Some(ds[i]) else None
    ensures i == 0 ==> Front(ds) == Front(ds[i..])
  {
    assert i == 0 ==> ds[i..] == ds;
  }

  lemma BuiltAt(link: map<Addr, Option<Addr>>, m: nat, k: nat, end: Addr, j: nat)
    requires 0 < k && Built(link, m, k, end) && j < m
    ensures Nth(j, k) in link && link[Nth(j, k)] == Some(if j + 1 < m then Nth(j + 1, k) else end)
  {
    hide Nth;
  }

  /** The list from the first descriptor on when the m-th one leads to `b`, where it ends. */
  function Overrun(m: nat, k: nat, b: Addr): seq<Addr>
    requires 0 < k
  {
    if InPool(m, k, b) then Pool(b.page * k + b.slot + 1, k) else Pool(m, k) + [b]
  }

  lemma CloseOverrun(link: map<Addr, Option<Addr>>, m: nat, k: nat, b: Addr)
    requires 0 < k && 0 < m && Built(link, m, k, b)
    ensures Threads(link[b := None], Some(Nth(0, k)), Overrun(m, k, b)) && Distinct(Overrun(m, k, b))
    ensures b in link[b := None]
  {
    hide Nth, Pool, Built, Threads, Distinct;
    PoolIs(m, k, b);
    if InPool(m, k, b) {
      NthIs(b.page, b.slot, k);
      CloseEarly(link, m, k, b, b.page * k + b.slot);
    } else {
      Close(link, m, k, b);
    }
  }

  /** Ending the list at descriptor `j`. */
  lemma CloseEarly(link: map<Addr, Option<Addr>>, m: nat, k: nat, end: Addr, j: nat)
    requires 0 < k && j < m && Built(link, m, k, end)
    ensures Threads(link[Nth(j, k) := None], Some(Nth(0, k)), Pool(j + 1, k)) && Distinct(Pool(j + 1, k))
  {
    hide Nth, Front, Built;
    var ds, cut := Pool(j + 1, k), link[Nth(j, k) := None];
    PoolDistinct(j + 1, k);
    assert Front(ds) == Some(Nth(0, k)) by { FrontIs(ds, 0); }
    forall i | 0 <= i < |ds| ensures ds[i] in cut && cut[ds[i]] == Front(ds[i + 1..]) {
      FrontIs(ds, i + 1);
      BuiltAt(link, m, k, end, i);
      assert ds[i] == Nth(i, k);
      if i < j {
        NthDiffer(i, j, k);
        assert ds[i + 1] == Nth(i + 1, k);
      }
    }
  }

  /** An overrun list is the pool by chance only: when the word behind the page array is the
      address of the last descriptor. */
  lemma OverrunIsPoolIff(n: nat, k: nat, b: Addr)
    requires 0 < k && 0 < n
    ensures Overrun(Pages(n, k) * k, k, b) == Pool(n, k) <==> b == Nth(n - 1, k)
  {
    hide Pages, Nth, Pool;
    var m := Pages(n, k) * k;
    PagesCover(n, k);
    NthSplit(n - 1, k);
    if InPool(m, k, b) {
      NthIs(b.page, b.slot, k);
    }
  }

  lemma CloseInPool(link: map<Addr, Option<Addr>>, m: nat, k: nat)
    requires 0 < k && 0 < m && Built(link, m, k, Nth(m, k))
    ensures Threads(link[Nth(m, k) := None], Some(Nth(0, k)), Pool(m + 1, k))
    ensures Distinct(Pool(m + 1, k))
    ensures link[Nth(m, k) := None].Keys == Members(Pool(m + 1, k))
  {
    hide Nth;
    forall j | 0 <= j < m ensures Pool(m, k)[j] != Nth(m, k) {
      NthDiffer(j, m, k);
    }
    assert Pool(m + 1, k) == Pool(m, k) + [Nth(m, k)];
    Close(link, m, k, Nth(m, k));
  }

  /** Where the inner loop breaks off in the middle of a page. */
  lemma BreaksOnLastPage(n: nat, k: nat, page: nat, slot: nat)
    requires slot + 1 < k && page < Pages(n, k) && n - 1 == page * k + slot + 1
    ensures page + 1 == Pages(n, k) && Sound(n, k)
  {
    var np := Pages(n, k);
    assert page + 1 <= np;
    assert (page + 1) * k == page * k + k;
    assert page + 1 < np ==> (page + 1) * k <= (np - 1) * k;
    PagesCover(n, k);
    QuotientIs(n - 1, k, page, slot + 1);
  }

  lemma PagesCover(n: nat, k: nat)
    requires 0 < k
    ensures n <= Pages(n, k) * k && (0 < n ==> 0 < Pages(n, k) && (Pages(n, k) - 1) * k < n)
  {
    assert n == n / k * k + n % k;
    assert (n / k + 1) * k == n / k * k + k;
    assert (n / k - 1) * k == n / k * k - k;
  }

  /** For a sound size, the inner loop does break off. */
  lemma SoundBreaks(n: nat, k: nat)
    requires 0 < k && Sound(n, k)
    ensures n - 1 < Pages(n, k) * k
    ensures forall i: nat :: i < Pages(n, k) ==> n - 1 != i * k
  {
    PagesCover(n, k);
    forall i: nat | i < Pages(n, k) ensures n - 1 != i * k {
      if n - 1 == i * k {
        QuotientIs(n - 1, k, i, 0);
      }
    }
  }

  /** At the end of the last page with links still to make. */
  lemma NotSound(n: nat, k: nat, numLink: nat)
    requires 0 < k && numLink + 1 == Pages(n, k) * k
    requires Sound(n, k) ==> numLink < n - 1
    ensures !Sound(n, k)
  {
    if Sound(n, k) {
      SoundBreaks(n, k);
    }
  }

  lemma PageEnd(n: nat, k: nat, page: nat)
    requires 0 < k && n - 1 == (page + 1) * k
    ensures !Sound(n, k)
  {
    QuotientIs(n - 1, k, page + 1, 0);
  }

  lemma Times(page: nat, np: nat, k: nat)
    requires page < np && 0 < k
    ensures (page + 1) * k == page * k + k <= np * k
    ensures page + 1 < np ==> page * k + k < np * k
  {
    assert (page + 1) * k == page * k + k;
    var rest := np - page - 1;
    assert np * k == (page + 1 + rest) * k == (page + 1) * k + rest * k;
    assert 0 < rest ==> k <= rest * k;
  }

  /** Inside a page, the next descriptor is the next slot; after it, the next page. */
  lemma InPage(page: nat, slot: nat, np: nat, k: nat)
    requires slot < k && page < np
    ensures 0 <= page * k && page * k + slot < np * k
    ensures Nth(page * k + slot, k) == Addr(page, slot)
    ensures slot + 1 < k ==> page * k + slot + 1 < np * k && Nth(page * k + slot + 1, k) == Addr(page, slot + 1)
    ensures slot + 1 == k ==> page * k + slot + 1 == (page + 1) * k && Nth((page + 1) * k, k) == Addr(page + 1, 0)
    ensures page + 1 < np ==> (page + 1) * k < np * k
    ensures page + 1 == np ==> page * k + k == np * k
  {
    hide Nth;
    NthIs(page, slot, k);
    Times(page, np, k);
    if slot + 1 < k { NthIs(page, slot + 1, k); } else { NthIs(page + 1, 0, k); }
  }

  /** What a 16-bit field holds of `x`. */
  function U16(x: int): (r: nat)
    ensures r < 0x10000 && (0 <= x < 0x10000 ==> r == x)
  {
    x % 0x10000
  }

  /** The pages that adf_os_mem_multi_pages_alloc gets for `n` elements. */
  function Pages(n: nat, k: nat): nat {
    if k == 0 then 0 else n / k + (if n % k != 0 then 1 else 0)
  }

  /** The pool sizes for which the outer loop of htt_tx_attach ends with the inner one. */
  predicate Sound(n: nat, k: nat)
    requires 0 < k
  {
    0 < n && (n - 1) % k != 0
  }

  /** Where the loops stand after `m` links. */
  function Cursor(m: nat, np: nat, k: nat, beyond: Option<Addr>): Addr
    requires 0 < k
  {
    if m < np * k then Nth(m, k) else if beyond.Some? then beyond.value else Wild(0)
  }

  ghost predicate PageDone(n: nat, k: nat, i: nat, beyond: Option<Addr>, p: Addr, m: nat)
    requires 0 < k
  {
    var np := Pages(n, k);
    || (m == i * k && p == Cursor(m, np, k, beyond) && (beyond.None? ==> i < np) && (Sound(n, k) ==> m < n - 1))
    || (i == np && Sound(n, k) && m == n - 1 && p == Nth(m, k))
  }

  lemma AtStart(n: nat, k: nat, beyond: Option<Addr>)
    ensures 0 < k && Sound(n, k) ==> 0 < Pages(n, k)
    ensures 0 < Pages(n, k) ==>
              && 0 < k && Nth(0, k) == Addr(0, 0)
              && Built(map[], 0, k, Nth(0, k)) && PageDone(n, k, 0, beyond, Nth(0, k), 0)
  {
    if 0 < k {
      PagesCover(n, k);
      NthIs(0, 0, k);
      if 0 < Pages(n, k) {
        Times(0, Pages(n, k), k);
      }
    }
  }

  lemma SomePages(n: nat, k: nat)
    ensures 0 < Pages(n, k) <==> 0 < n && 0 < k
  {
    if 0 < k {
      PagesCover(n, k);
    }
  }

  class TxDescs {
    var poolElems: nat                   // these two have 16 bits
    var allocCnt: nat
    var freelist: Option<Addr>
    var link: map<Addr, Option<Addr>>    // the first word of each descriptor
    ghost var free: seq<Addr>
    ghost var out: set<Addr>             // handed to callers

    ghost predicate Valid()
      reads this
    {
      Threads(link, freelist, free) && Distinct(free)
    }

    ghost function Value(): State
      reads this
    {
      State(free, out, allocCnt)
    }

    constructor ()
      ensures link == map[] && freelist == None && Value() == State([], {}, 0) && Valid()
    {
      poolElems, allocCnt, freelist, link, free, out := 0, 0, None, map[], [], {};
    }

    method Alloc() returns (desc: Option<Addr>)
      requires Valid()
      modifies this`freelist, this`allocCnt, this`free, this`out
      ensures Valid()
      ensures Value() == Step(old(Value()), Take)
      ensures old(free) == [] ==> desc == None && Value() == old(Value())
      ensures old(free) != [] ==>
                && desc == Some(old(free)[0]) && free == old(free)[1..] && out == old(out) + {old(free)[0]}
                && allocCnt == (old(allocCnt) + 1) % 0x10000
    {
      desc := freelist;
      if desc == None {
        return None;
      }
      freelist := link[freelist.value];
      allocCnt := U16(allocCnt + 1);
      out := out + {desc.value};
      ThreadsTail(link, free);
      free := free[1..];
    }

    /** Freeing a descriptor that is on the freelist already closes the list into a circle. */
    method Free(d: Addr)
      requires Valid()
      modifies this`freelist, this`allocCnt, this`link, this`free, this`out
      ensures d !in old(free) ==> Valid()
      ensures d in old(free) ==> Circle(link, d, old(free)[..Index(old(free), d)])
      ensures Value() == Step(old(Value()), Give(d))
      ensures free == [d] + old(free) && out == old(out) - {d} && allocCnt == (old(allocCnt) - 1) % 0x10000
      ensures link == old(link)[d := old(freelist)]
    {
      link := link[d := freelist];
      freelist := Some(d);
      allocCnt := U16(allocCnt - 1);
      out := out - {d};
      if d !in free {
        ThreadsPush(old(link), old(freelist), free, d);
      } else {
        PushClosesCircle(old(link), old(freelist), free, d);
      }
      free := [d] + free;
    }

    /** cacheable_pages[i]: past the end of the array, it is what the memory there happens to hold. */
    function PageStart(i: nat, np: nat, beyond: Option<Addr>): Option<Addr> {
      if i < np then Some(Addr(i, 0)) else beyond
    }

    function After(p: Addr): Addr {
      match p
      case Addr(page, slot) => Addr(page, slot + 1)
      case Wild(word) => Wild(word + 1)
    }

    /** htt_tx_attach for `elems` descriptors, of which the 16-bit field keeps what it can hold. */
    method Attach(elems: int, k: nat, memory: bool, beyond: Option<Addr>) returns (ok: bool)
      requires link == map[] && out == {}
      modifies this
      ensures poolElems == elems % 0x10000 && allocCnt == 0 && out == {}
      ensures ok ==> memory && 0 < k && 0 < poolElems
      ensures memory && 0 < k && 0 < poolElems && (poolElems - 1) % k != 0 ==>
                ok && Valid() && free == Pool(poolElems, k) && link.Keys == Members(Pool(poolElems, k))
      ensures memory && 0 < k && 0 < poolElems && (poolElems - 1) % k == 0 ==> ok == beyond.Some?
      ensures ok && (poolElems - 1) % k == 0 ==>
                && Valid() && free == Overrun(Pages(poolElems, k) * k, k, beyond.value)
                && beyond.value in link
      // the list is right if and only if the size is sound, or by chance
      ensures memory && 0 < k && 0 < poolElems ==>
                (ok && free == Pool(poolElems, k)
                 <==> (poolElems - 1) % k != 0 || beyond == Some(Nth(poolElems - 1, k)))
    {
      hide Pool, Built, Threads, Distinct, Pages, Nth, Members, Overrun;
      poolElems := U16(elems);
      allocCnt := 0;
      var n := poolElems;
      var np := if memory then Pages(n, k) else 0;
      AtStart(n, k, beyond);
      SomePages(n, k);
      if np == 0 {
        return false;
      }
      freelist := PageStart(0, np, beyond);
      var p := freelist.value;
      var numLink := 0;
      for i := 0 to np
        invariant poolElems == n && allocCnt == 0 && out == {} && freelist == Some(Nth(0, k))
        invariant PageDone(n, k, i, beyond, p, numLink)
        invariant Built(link, numLink, k, p)
      {
        for slot := 0 to k
          invariant poolElems == n && allocCnt == 0 && out == {} && freelist == Some(Nth(0, k))
          invariant numLink == i * k + slot && p == Cursor(numLink, np, k, beyond)
          invariant slot < k || beyond.Some? || i + 1 < np
          invariant Sound(n, k) ==> numLink < n - 1
          invariant Built(link, numLink, k, p)
        {
          InPage(i, slot, np, k);
          ghost var was := link;
          if slot == k - 1 {
            var start := PageStart(i + 1, np, beyond);
            if start.None? {
              NotSound(n, k, numLink);
              return false;
            }
            link := link[p := start];
          } else {
            link := link[p := Some(After(p))];
          }
          Extend(was, numLink, k, link[p].value);
          numLink := numLink + 1;
          p := link[p].value;
          if numLink == n - 1 {
            if slot + 1 < k { BreaksOnLastPage(n, k, i, slot); } else { PageEnd(n, k, i); }
            break;
          }
        }
      }
      if numLink == n - 1 && Sound(n, k) {
        CloseInPool(link, numLink, k);
        free := Pool(n, k);
      } else {
        if Sound(n, k) { SoundBreaks(n, k); }
        CloseOverrun(link, numLink, k, p);
        OverrunIsPoolIff(n, k, p);
        free := Overrun(numLink, k, p);
      }
      link := link[p := None];
      return true;
    }
  }

  // ---- runs of allocations and frees ----

  datatype State = State(free: seq<Addr>, out: set<Addr>, allocCnt: nat)

  datatype Op = Take | Give(d: Addr)

  /** The freelist is a stack. */
  function Step(s: State, op: Op): State {
    match op
    case Take => if s.free == [] then s else State(s.free[1..], s.out + {s.free[0]}, U16(s.allocCnt + 1))
    case Give(d) => State([d] + s.free, s.out - {d}, U16(s.allocCnt - 1))
  }

  function Run(s: State, ops: seq<Op>): State
    decreases |ops|
  {
    if ops == [] then s else Step(Run(s, ops[..|ops| - 1]), ops[|ops| - 1])
  }

  /** Every descriptor is on the freelist or out, not both, and the counter knows how many are out. */
  ghost predicate Partition(s: State, pool: seq<Addr>) {
    && Distinct(s.free)
    && (forall d :: d in s.free ==> d !in s.out)
    && (forall d :: d in pool <==> d in s.free || d in s.out)
    && s.allocCnt == |s.out| && |pool| < 0x10000
    && s.allocCnt + |s.free| == |pool|
  }

  /** Each free returns a descriptor that is out at that moment. */
  ghost predicate FreesAreOwed(s: State, ops: seq<Op>) {
    forall i :: 0 <= i < |ops| && ops[i].Give? ==> ops[i].d in Run(s, ops[..i]).out
  }

  lemma TakeKeepsPartition(s: State, pool: seq<Addr>)
    requires Partition(s, pool)
    ensures Partition(Step(s, Take), pool)
  {
    if s.free != [] {
      var d, rest := s.free[0], s.free[1..];
      assert s.free == [d] + rest;
      assert forall i :: 0 <= i < |rest| ==> rest[i] == s.free[i + 1];
      assert d !in rest && d !in s.out;
    }
  }

  lemma GiveKeepsPartitionIff(s: State, pool: seq<Addr>, d: Addr)
    requires Partition(s, pool)
    ensures Partition(Step(s, Give(d)), pool) <==> d in s.out
  {
    var free := [d] + s.free;
    assert forall i :: 0 <= i < |s.free| ==> free[i + 1] == s.free[i];
    assert forall e :: e in free <==> e == d || e in s.free;
    if d in s.out {
      assert |s.out - {d}| == |s.out| - 1;
    } else {
      assert s.out - {d} == s.out;
    }
  }

  /** Over every run: the partition holds throughout exactly when no free is of a descriptor not out. */
  lemma {:induction false} RunPartitionIff(s: State, pool: seq<Addr>, ops: seq<Op>)
    requires Partition(s, pool)
    ensures (forall i :: 0 <= i <= |ops| ==> Partition(Run(s, ops[..i]), pool)) <==> FreesAreOwed(s, ops)
    decreases |ops|
  {
    hide Partition, Step;
    assert ops[..|ops|] == ops;
    if ops != [] {
      var m := |ops| - 1;
      RunPartitionIff(s, pool, ops[..m]);
      assert forall i :: 0 <= i <= m ==> ops[..m][..i] == ops[..i];
      assert FreesAreOwed(s, ops) <==>
        FreesAreOwed(s, ops[..m]) && (ops[m].Give? ==> ops[m].d in Run(s, ops[..m]).out);
      if FreesAreOwed(s, ops[..m]) {
        var t := Run(s, ops[..m]);
        assert Partition(t, pool) by { assert ops[..m][..m] == ops[..m]; }
        match ops[m] {
          case Take => TakeKeepsPartition(t, pool);
          case Give(d) => GiveKeepsPartitionIff(t, pool, d);
        }
      }
    }
  }

  /** What attach leaves is a partition, so all of the above holds from there on. */
  lemma AttachedIsPartition(n: nat, k: nat)
    requires 0 < k && n < 0x10000
    ensures Partition(State(Pool(n, k), {}, 0), Pool(n, k))
  {
    PoolDistinct(n, k);
  }
}
