/** Popping one A-MSDU from the ring (htt_rx_amsdu_pop_ll). */
module RxAmsdu {
  import opened Nbufs
  import opened RxRing
  import opened MinMax

  /** The rx indication: the FW descriptor bytes it carries, and whether it is RX_FRAG_IND,
      whose single descriptor sits at a fixed offset. */
  datatype RxInd = RxInd(frag: bool, fwBytes: seq<Byte>)

  /** The FW descriptor of MSDU number `k` of the indication; 0 once the bytes run out. */
  function FwByte(ind: RxInd, k: nat): (b: Byte) {
    if k < |ind.fwBytes| then ind.fwBytes[if ind.frag then 0 else k] else 0
  }

  /** The MSDUs of the A-MSDU at the front of `q`: each one its first buffer and the buffers
      chained to it, up to the first MSDU marked last.  Empty when `q` ends before that. */
  function Split(q: seq<Nbuf>): (gs: seq<seq<Nbuf>>)
    decreases |q|
  {
    if q == [] then [] else
    var m := 1 + q[0].rxDesc.chained;
    if |q| < m then []
    else if q[0].rxDesc.last then [q[..m]]
    else
      var rest := Split(q[m..]);
      if rest == [] then [] else [q[..m]] + rest
  }

  function Total(gs: seq<seq<Nbuf>>): (n: nat) {
    if gs == [] then 0 else |gs[0]| + Total(gs[1..])
  }

  function Concat(gs: seq<seq<Nbuf>>): (r: seq<Nbuf>)
    ensures |r| == Total(gs)
  {
    if gs == [] then [] else gs[0] + Concat(gs[1..])
  }

  /** The MSDUs are the front of the queue, cut into pieces. */
  lemma {:induction false} SplitIsPrefix(q: seq<Nbuf>)
    ensures Total(Split(q)) <= |q| && Concat(Split(q)) == q[..Total(Split(q))]
    decreases |q|
  {
    if q != [] && 1 + q[0].rxDesc.chained <= |q| {
      var m := 1 + q[0].rxDesc.chained;
      var rest := if q[0].rxDesc.last then [] else Split(q[m..]);
      SplitIsPrefix(q[m..]);
      if Split(q) != [] {
        assert Split(q)[0] == q[..m] && Split(q)[1..] == rest;
        assert q[..m] + q[m..][..Total(rest)] == q[..m + Total(rest)];
      }
    }
  }

  /** Each piece is one MSDU, and only the last piece is marked last. */
  lemma {:induction false} SplitPieces(q: seq<Nbuf>, i: nat)
    requires i < |Split(q)|
    ensures var g := Split(q)[i];
            g != [] && |g| == 1 + g[0].rxDesc.chained && (g[0].rxDesc.last <==> i == |Split(q)| - 1)
    decreases i
  {
    var m := 1 + q[0].rxDesc.chained;
    if !q[0].rxDesc.last {
      var rest := Split(q[m..]);
      assert Split(q) == [q[..m]] + rest && rest != [];
      if i > 0 {
        SplitPieces(q[m..], i - 1);
      }
    }
  }

  /** There is no other way to cut the front of the queue like that. */
  lemma {:induction false} SplitIsOnly(q: seq<Nbuf>, gs: seq<seq<Nbuf>>)
    requires gs != [] && Concat(gs) <= q
    requires forall i :: 0 <= i < |gs| ==>
      gs[i] != [] && |gs[i]| == 1 + gs[i][0].rxDesc.chained && (gs[i][0].rxDesc.last <==> i == |gs| - 1)
    ensures Split(q) == gs
    decreases |gs|
  {
    var m, rest := |gs[0]|, gs[1..];
    assert gs == [gs[0]] + rest;
    assert Concat(gs) == gs[0] + Concat(rest);
    assert q[..|Concat(gs)|][..m] == q[..m] == gs[0];
    if rest != [] {
      assert Concat(gs)[m..] == Concat(rest) && q[m..][..|Concat(rest)|] == q[..|Concat(gs)|][m..];
      SplitIsOnly(q[m..], rest);
    }
  }

  /*--- the bytes each buffer ends up with ---*/

  /** First buffer of an MSDU.  A length above 0x3000 (a phy error) is not used for trimming. */
  function HeadData(dma: seq<Byte>, d: RxDesc, desc: nat): (r: seq<Byte>) {
    var data := PullHead(dma, desc);
    if !d.lenErr && d.chained == 0 && d.msduLen <= 0x3000
    then TrimTail(data, HTT_RX_BUF_SIZE - (desc + d.msduLen)) else data
  }

  /** The bytes of `n` whole buffers. */
  function Whole(n: nat): (bytes: nat) {
    HTT_RX_BUF_SIZE * n
  }

  /** What is left of the reported length for the last chained buffer.  The difference is
      compared as unsigned, so a negative one counts as too long. */
  function LastLen(d: RxDesc, desc: nat): (l: int) {
    var left := d.msduLen - Whole(d.chained);
    if 0 <= left <= HTT_RX_BUF_SIZE - desc then left else HTT_RX_BUF_SIZE - desc
  }

  /** Chained buffer number `o` (from 1): whole, except that the last one is trimmed. */
  function ChunkData(dma: seq<Byte>, o: nat, d: RxDesc, desc: nat): (r: seq<Byte>) {
    if o < d.chained then dma else TrimTail(dma, HTT_RX_BUF_SIZE - (desc + LastLen(d, desc)))
  }

  /** The first buffer holds the bytes behind the rx descriptor: cut to the reported length if it
      stands alone, without length error, and the length is at most 0x3000 and fits; else all. */
  lemma HeadDataIs(dma: seq<Byte>, d: RxDesc, desc: nat)
    requires |dma| == 1920 && desc <= 1920
    ensures HeadData(dma, d, desc) ==
            if d.lenErr || d.chained > 0 || d.msduLen > 0x3000 || desc + d.msduLen > 1920 then dma[desc..]
            else dma[desc..desc + d.msduLen]
  {
    PayloadIsMsdu(dma, desc, d.msduLen);
  }

  /** A chained buffer stays whole, except that the last one is cut to the descriptor size and what
      the buffers before it leave of the reported length, when that fits. */
  lemma ChunkDataIs(dma: seq<Byte>, o: nat, d: RxDesc, desc: nat)
    requires |dma| == 1920 && desc <= 1920 && 1 <= o <= d.chained
    ensures var left := d.msduLen - 1920 * d.chained;
            ChunkData(dma, o, d, desc) == if o == d.chained && 0 <= left <= 1920 - desc then dma[..desc + left] else dma
  {
  }

  ghost predicate OneMsdu(g: seq<Nbuf>, desc: nat, fw: Byte)
    reads (set b | b in g)`data, (set b | b in g)`fwDesc
  {
    && g != [] && |g| == 1 + g[0].rxDesc.chained
    && g[0].fwDesc == fw && g[0].data == HeadData(g[0].dma, g[0].rxDesc, desc)
    && Chunks(g, |g|, desc)
  }

  /** The chained buffers of `g` up to number `n` have their bytes. */
  ghost predicate Chunks(g: seq<Nbuf>, n: nat, desc: nat)
    requires 0 < n <= |g|
    reads (set b | b in g)`data
  {
    forall o {:trigger g[o].data} :: 1 <= o < n ==> g[o].data == ChunkData(g[o].dma, o, g[0].rxDesc, desc)
  }

  ghost predicate Within(gs: seq<seq<Nbuf>>, region: seq<Nbuf>) {
    forall i, b :: 0 <= i < |gs| && b in gs[i] ==> b in region
  }

  /** Every MSDU of `gs`, all within `region`, has its bytes and its FW descriptor. */
  ghost predicate Msdus(gs: seq<seq<Nbuf>>, region: seq<Nbuf>, desc: nat, ind: RxInd, b0: nat)
    requires Within(gs, region)
    reads (set b | b in region)`data, (set b | b in region)`fwDesc
  {
    forall i :: 0 <= i < |gs| ==>
      assert forall b :: b in gs[i] ==> b in region;
      OneMsdu(gs[i], desc, FwByte(ind, b0 + i))
  }

  lemma WithinMore(gs: seq<seq<Nbuf>>, q: seq<Nbuf>, s: nat, m: nat)
    requires s <= m <= |q| && Within(gs, q[..s])
    ensures Within(gs + [q[s..m]], q[..m])
  {
    forall i, b | 0 <= i <= |gs| && b in (gs + [q[s..m]])[i] ensures b in q[..m] {
      if i < |gs| {
        assert b in gs[i] && b in q[..s];
      } else {
        assert b in q[s..m];
      }
    }
  }

  lemma MsdusMore(gs: seq<seq<Nbuf>>, q: seq<Nbuf>, s: nat, m: nat, desc: nat, ind: RxInd, b0: nat)
    requires s <= m <= |q| && Within(gs, q[..s]) && Msdus(gs, q[..s], desc, ind, b0)
    requires OneMsdu(q[s..m], desc, FwByte(ind, b0 + |gs|))
    ensures Within(gs + [q[s..m]], q[..m]) && Msdus(gs + [q[s..m]], q[..m], desc, ind, b0)
  {
    WithinMore(gs, q, s, m);
  }

  lemma {:induction false} TotalMore(gs: seq<seq<Nbuf>>, g: seq<Nbuf>)
    ensures Total(gs + [g]) == Total(gs) + |g|
  {
    if gs == [] {
      assert [g][1..] == [];
    } else {
      assert (gs + [g])[1..] == gs[1..] + [g];
      TotalMore(gs[1..], g);
    }
  }

  lemma SplitStep(q: seq<Nbuf>)
    requires Split(q) != []
    ensures q != [] && 1 + q[0].rxDesc.chained <= |q|
    ensures var m := 1 + q[0].rxDesc.chained;
            if q[0].rxDesc.last then Split(q) == [q[..m]]
            else Split(q[m..]) != [] && Split(q) == [q[..m]] + Split(q[m..])
  {
  }

  /** After the MSDUs `done`, the next one starts at `s`; where it ends and what follows. */
  lemma SplitAt(q: seq<Nbuf>, s: nat, done: seq<seq<Nbuf>>)
    requires s <= |q| && Split(q[s..]) != [] && Split(q) == done + Split(q[s..])
    ensures s < |q| && s + 1 + q[s].rxDesc.chained <= |q|
    ensures q[s].rxDesc.last ==> Split(q) == done + [q[s..s + 1 + q[s].rxDesc.chained]]
    ensures !q[s].rxDesc.last ==>
      var m := s + 1 + q[s].rxDesc.chained;
      Split(q[m..]) != [] && Split(q) == (done + [q[s..m]]) + Split(q[m..])
  {
    hide Split;
    var rest := q[s..];
    SplitStep(rest);
    var m := s + 1 + q[s].rxDesc.chained;
    var g := q[s..m];
    assert rest[..m - s] == g;
    assert rest[m - s..] == q[m..];
    if !q[s].rxDesc.last {
      AppendOne(done, g, Split(q[m..]));
    }
  }

  lemma AppendOne<T>(a: seq<T>, x: T, b: seq<T>)
    ensures a + ([x] + b) == (a + [x]) + b
  {
  }

  /** The FW descriptor index after `j` MSDUs of an indication with `n` descriptor bytes. */
  function IdxAfter(b0: nat, j: nat, n: nat): (r: nat)
    ensures forall ind: RxInd :: |ind.fwBytes| == n ==> FwByte(ind, r) == FwByte(ind, b0 + j)
  {
    if n <= b0 then b0 else if b0 + j <= n then b0 + j else n
  }

  /** Ring `r` has given up the first `n` of the postings `p0`. */
  ghost predicate Popped(r: Ring, p0: seq<Posting>, n: nat)
    reads r, r.netbufsRing, r.paddrsRing
  {
    r.Valid() && n <= |p0| && r.posted == p0[n..]
  }

  method PopNext(r: Ring, ghost p0: seq<Posting>, ghost n: nat) returns (b: Nbuf)
    requires Popped(r, p0, n) && n < |p0|
    modifies r`rdPayld, r`fillCnt, r`posted
    ensures Popped(r, p0, n + 1) && b == Bufs(p0)[n]
  {
    b := r.NetbufPop();
  }

  /** adf_nbuf_set_next on the last buffer of the list so far. */
  method SetNext(b: Nbuf, next: Nbuf?, ghost q: seq<Nbuf>, ghost j: nat)
    requires Distinct(q) && j < |q| && b == q[j] && Chained(q[..j], b)
    requires next == if j + 1 < |q| then q[j + 1] else null
    modifies b`next
    ensures Chained(q[..j + 1], next)
  {
    assert forall i :: 0 <= i < j ==> q[..j][i] == q[i] && q[..j + 1][i] == q[i];
    b.next := next;
  }

  /** The first buffer of an MSDU: its bytes, its FW descriptor, and its length if it stands alone. */
  method StartMsdu(r: Ring, msdu: Nbuf, ind: RxInd, ghost p0: seq<Posting>, ghost n: nat)
    requires Popped(r, p0, n)
    modifies r`msduByteIdx, msdu`data, msdu`fwDesc
    ensures Popped(r, p0, n)
    ensures msdu.fwDesc == FwByte(ind, old(r.msduByteIdx))
    ensures old(r.msduByteIdx) < |ind.fwBytes| ==>
              msdu.fwDesc == if ind.frag then ind.fwBytes[0] else ind.fwBytes[old(r.msduByteIdx)]
    ensures |ind.fwBytes| <= old(r.msduByteIdx) ==> msdu.fwDesc == 0
    ensures msdu.data == HeadData(msdu.dma, msdu.rxDesc, r.descSize)
    ensures r.msduByteIdx == old(r.msduByteIdx) + if old(r.msduByteIdx) < |ind.fwBytes| then 1 else 0
  {
    msdu.data := msdu.dma;
    msdu.data := PullHead(msdu.data, r.descSize);
    if r.msduByteIdx < |ind.fwBytes| {
      var offset := if ind.frag then 0 else r.msduByteIdx;
      msdu.fwDesc := ind.fwBytes[offset];
      r.msduByteIdx := r.msduByteIdx + 1;
    } else {
      msdu.fwDesc := 0;
    }
    if !msdu.rxDesc.lenErr && msdu.rxDesc.chained == 0 {
      if msdu.rxDesc.msduLen > 0x3000 {
        // length not to be trusted
      } else {
        msdu.data := TrimTail(msdu.data, HTT_RX_BUF_SIZE - (r.descSize + msdu.rxDesc.msduLen));
      }
    }
  }

  /** The bytes of chained buffer number `k + 1`; `rest` is the length still to be accounted for. */
  method SetChunk(next: Nbuf, d: RxDesc, desc: nat, rest: int, left: nat, ghost g: seq<Nbuf>, ghost k: nat)
    requires Distinct(g) && k + 1 < |g| && next == g[k + 1] && d == g[0].rxDesc && |g| == 1 + d.chained
    requires left == d.chained - k - 1 && rest == d.msduLen - Whole(k + 1) && Chunks(g, k + 1, desc)
    modifies next`data
    ensures Chunks(g, k + 2, desc)
  {
    next.data := next.dma;
    if left == 0 {
      var len := rest;
      if !(0 <= len <= HTT_RX_BUF_SIZE - desc) {
        len := HTT_RX_BUF_SIZE - desc;
      }
      next.data := TrimTail(next.data, HTT_RX_BUF_SIZE - (desc + len));
    }
  }

  /** One more chained buffer of the MSDU `g`, whose first `k + 1` buffers are in place. */
  method PopChunk(r: Ring, last: Nbuf, d: RxDesc, msduLen: int, left: nat,
                  ghost p0: seq<Posting>, ghost s: nat, ghost g: seq<Nbuf>, ghost k: nat, ghost n: nat,
                  ghost after: Nbuf)
    returns (next: Nbuf, rest: int)
    requires n == s + k + 1 && Popped(r, p0, n) && s + |g| <= |p0| && g == Bufs(p0)[s..s + |g|]
    requires Distinct(Bufs(p0)) && Distinct(g) && k + 1 < |g| && d == g[0].rxDesc && |g| == 1 + d.chained
    requires last == g[k] && after == g[k + 1] && left == d.chained - k - 1 && msduLen == d.msduLen - Whole(k)
    requires Chained(Bufs(p0)[..n - 1], last) && Chunks(g, k + 1, r.descSize)
    modifies r`rdPayld, r`fillCnt, r`posted, last`next, after`data
    ensures Popped(r, p0, n + 1) && next == g[k + 1] && rest == d.msduLen - Whole(k + 1)
    ensures Chained(Bufs(p0)[..n], next) && Chunks(g, k + 2, r.descSize)
  {
    hide Bufs, Popped, Chained, Chunks, Distinct, ChunkData;
    ghost var q := Bufs(p0);
    assert q[n - 1] == g[k] && q[n] == g[k + 1];
    next := PopNext(r, p0, n);
    rest := msduLen - HTT_RX_BUF_SIZE;
    SetNext(last, next, q, n - 1);
    assert q[..n - 1 + 1] == q[..n];
    SetChunk(next, d, r.descSize, rest, left, g, k);
  }

  lemma NoChunks(g: seq<Nbuf>, desc: nat)
    requires g != []
    ensures Chunks(g, 1, desc) && Whole(0) == 0
  {
  }

  lemma NotTheFirst(g: seq<Nbuf>, k: nat)
    requires Distinct(g) && 0 < k < |g|
    ensures g[0] != g[k]
  {
  }

  lemma AllChunks(g: seq<Nbuf>, desc: nat, fw: Byte)
    requires g != [] && |g| == 1 + g[0].rxDesc.chained && Chunks(g, |g|, desc)
    requires g[0].fwDesc == fw && g[0].data == HeadData(g[0].dma, g[0].rxDesc, desc)
    ensures OneMsdu(g, desc, fw)
  {
  }

  /** The first `k + 1` buffers of the MSDU `g`, which starts at number `s`, are in place. */
  ghost predicate Partway(r: Ring, p0: seq<Posting>, s: nat, g: seq<Nbuf>, k: nat, last: Nbuf, fw: Byte)
    reads r, r.netbufsRing, r.paddrsRing, set b | b in Bufs(p0), set b | b in g
  {
    var q := Bufs(p0);
    && s + |g| <= |p0| && g == q[s..s + |g|] && k < |g| == 1 + g[0].rxDesc.chained && Distinct(q) && Distinct(g)
    && Popped(r, p0, s + k + 1) && last == g[k] && Chained(q[..s + k], last)
    && g[0].fwDesc == fw && g[0].data == HeadData(g[0].dma, g[0].rxDesc, r.descSize)
    && Chunks(g, k + 1, r.descSize)
  }

  /** One more of them. */
  method NextChunk(r: Ring, last: Nbuf, d: RxDesc, msduLen: int, left: nat, ghost p0: seq<Posting>, ghost s: nat,
                   ghost g: seq<Nbuf>, ghost k: nat, ghost fw: Byte)
    returns (next: Nbuf, rest: int)
    requires Partway(r, p0, s, g, k, last, fw) && d == g[0].rxDesc
    requires k + 1 < |g| && left == d.chained - k - 1 && msduLen == d.msduLen - Whole(k)
    modifies r`rdPayld, r`fillCnt, r`posted, set b | b in g
    ensures Partway(r, p0, s, g, k + 1, next, fw) && rest == d.msduLen - Whole(k + 1)
    ensures r.msduByteIdx == old(r.msduByteIdx)
  {
    hide Popped, Chained, HeadData, ChunkData, Bufs, Chunks, Whole, Distinct;
    NotTheFirst(g, k + 1);
    ghost var n := s + k + 1;
    assert Bufs(p0)[..n - 1] == Bufs(p0)[..s + k];
    next, rest := PopChunk(r, last, d, msduLen, left, p0, s, g, k, n, g[k + 1]);
    assert Bufs(p0)[..n] == Bufs(p0)[..s + (k + 1)];
  }

  lemma PartwayStart(r: Ring, p0: seq<Posting>, s: nat, g: seq<Nbuf>, first: Nbuf)
    requires Popped(r, p0, s + 1) && s + |g| <= |p0| && g == Bufs(p0)[s..s + |g|]
    requires |g| == 1 + first.rxDesc.chained && first == g[0]
    requires Distinct(Bufs(p0)) && Distinct(g) && Chained(Bufs(p0)[..s], first)
    requires first.data == HeadData(first.dma, first.rxDesc, r.descSize)
    ensures Partway(r, p0, s, g, 0, first, first.fwDesc) && Whole(0) == 0
  {
    hide Popped, Distinct, HeadData, Bufs;
    NoChunks(g, r.descSize);
    assert Bufs(p0)[..s + 0] == Bufs(p0)[..s];
  }

  lemma PartwayEnds(r: Ring, p0: seq<Posting>, s: nat, g: seq<Nbuf>, last: Nbuf, fw: Byte)
    requires g != [] && Partway(r, p0, s, g, |g| - 1, last, fw)
    ensures Popped(r, p0, s + |g|) && last == g[|g| - 1] && s + |g| <= |p0|
    ensures Chained(Bufs(p0)[..s + |g| - 1], last) && OneMsdu(g, r.descSize, fw)
  {
    hide Popped, Distinct, HeadData, Bufs, Chained, Chunks, OneMsdu;
    AllChunks(g, r.descSize, fw);
    assert Bufs(p0)[..s + (|g| - 1)] == Bufs(p0)[..s + |g| - 1];
  }

  /** One MSDU `g` whose first buffer has just been popped: pop and link its chained ones. */
  method PopMsdu(r: Ring, first: Nbuf, ind: RxInd, ghost p0: seq<Posting>, ghost s: nat, ghost g: seq<Nbuf>)
    returns (last: Nbuf, chaining: bool, ghost m: nat)
    requires Popped(r, p0, s + 1) && s + |g| <= |p0| && g == Bufs(p0)[s..s + |g|]
    requires |g| == 1 + first.rxDesc.chained && first == g[0]
    requires Distinct(Bufs(p0)) && Distinct(g) && Chained(Bufs(p0)[..s], first)
    modifies r`rdPayld, r`fillCnt, r`posted, r`msduByteIdx, set b | b in g
    ensures m == s + |g| && Popped(r, p0, m) && last == g[|g| - 1]
    ensures Chained(Bufs(p0)[..m - 1], last)
    ensures OneMsdu(g, r.descSize, FwByte(ind, old(r.msduByteIdx)))
    ensures chaining == (1 < |g|)
    ensures r.msduByteIdx == old(r.msduByteIdx) + if old(r.msduByteIdx) < |ind.fwBytes| then 1 else 0
  {
    hide Popped, Chained, HeadData, FwByte, Bufs, OneMsdu, Whole, Distinct, Partway;
    StartMsdu(r, first, ind, p0, s + 1);
    ghost var fw, k := first.fwDesc, 0;
    PartwayStart(r, p0, s, g, first);
    var msduLen, left := first.rxDesc.msduLen, first.rxDesc.chained;
    last, chaining := first, false;
    while left > 0
      invariant left + k == first.rxDesc.chained && Partway(r, p0, s, g, k, last, fw)
      invariant msduLen == first.rxDesc.msduLen - Whole(k) && chaining == (k > 0)
      invariant r.msduByteIdx == old(r.msduByteIdx) + if old(r.msduByteIdx) < |ind.fwBytes| then 1 else 0
    {
      left := left - 1;
      last, msduLen := NextChunk(r, last, first.rxDesc, msduLen, left, p0, s, g, k, fw);
      chaining, k := true, k + 1;
    }
    m := s + |g|;
    PartwayEnds(r, p0, s, g, last, fw);
  }

  lemma IdxStep(b0: nat, j: nat, ind: RxInd)
    ensures var x, n := IdxAfter(b0, j, |ind.fwBytes|), |ind.fwBytes|;
      FwByte(ind, x) == FwByte(ind, b0 + j) && IdxAfter(b0, j + 1, n) == x + if x < n then 1 else 0
  {
  }

  /** Some MSDU takes more than one buffer. */
  ghost predicate Long(gs: seq<seq<Nbuf>>) {
    exists i :: 0 <= i < |gs| && 1 < |gs[i]|
  }

  lemma LongMore(gs: seq<seq<Nbuf>>, g: seq<Nbuf>)
    ensures Long(gs + [g]) <==> Long(gs) || 1 < |g|
  {
    var t := gs + [g];
    assert t[|gs|] == g && forall i :: 0 <= i < |gs| ==> t[i] == gs[i];
  }

  lemma SliceDistinct(q: seq<Nbuf>, s: nat, m: nat)
    requires s <= m <= |q| && Distinct(q)
    ensures Distinct(q[s..m]) && Distinct(q[..m])
    ensures forall b :: b in q[s..m] ==> b !in q[..s] && b in q
  {
    forall b | b in q[s..m] ensures b !in q[..s] && b in q {
      var i :| 0 <= i < m - s && q[s..m][i] == b;
      assert q[s + i] == b;
    }
  }

  lemma NothingYet(q: seq<Nbuf>, desc: nat, ind: RxInd, b0: nat, b: Nbuf)
    ensures Within([], q[..0]) && Msdus([], q[..0], desc, ind, b0) && Chained(q[..0], b)
    ensures Total([]) == 0 && !Long([]) && [] + Split(q) == Split(q) && q[0..] == q
    ensures b0 == IdxAfter(b0, 0, |ind.fwBytes|)
  {
  }

  /** What one pop leaves: the A-MSDU's buffers, and no others, are gone from the ring and
      linked in ring order; each MSDU has its bytes and its FW descriptor. */
  ghost predicate Outcome(r: Ring, p0: seq<Posting>, ind: RxInd, b0: nat,
                          chaining: bool, head: Nbuf, tail: Nbuf)
    reads r, r.netbufsRing, r.paddrsRing, set b | b in Bufs(p0)
  {
    var q := Bufs(p0);
    var gs := Split(q);
    var n := Total(gs);
    && 0 < n <= |q| && Popped(r, p0, n)
    && head == q[0] && tail == q[n - 1] && Chained(q[..n], null)
    && Within(gs, q[..n]) && Msdus(gs, q[..n], r.descSize, ind, b0)
    && r.msduByteIdx == IdxAfter(b0, |gs|, |ind.fwBytes|)
    && (chaining <==> Long(gs))
  }

  /** The FW descriptor bytes go to the MSDUs in order, the one of a fragment indication to all of
      them while the index is below the count; those left get 0. */
  lemma FwBytesAre(r: Ring, p0: seq<Posting>, ind: RxInd, b0: nat, chaining: bool, head: Nbuf, tail: Nbuf,
                   gs: seq<seq<Nbuf>>)
    requires Outcome(r, p0, ind, b0, chaining, head, tail) && gs == Split(Bufs(p0))
    ensures forall i :: 0 <= i < |gs| ==>
      && gs[i] != []
      && (!ind.frag && b0 + i < |ind.fwBytes| ==> gs[i][0].fwDesc == ind.fwBytes[b0 + i])
      && (ind.frag && b0 + i < |ind.fwBytes| ==> gs[i][0].fwDesc == ind.fwBytes[0])
      && (|ind.fwBytes| <= b0 + i ==> gs[i][0].fwDesc == 0)
  {
    hide Split, Chained, Popped, HeadData, Chunks, Bufs, Total;
  }

  /** The byte index then stands behind the last one used; chaining is reported exactly when
      some MSDU takes more than one buffer. */
  lemma IndexIs(r: Ring, p0: seq<Posting>, ind: RxInd, b0: nat, chaining: bool, head: Nbuf, tail: Nbuf,
                gs: seq<seq<Nbuf>>)
    requires Outcome(r, p0, ind, b0, chaining, head, tail) && gs == Split(Bufs(p0))
    ensures r.msduByteIdx == if b0 + |gs| <= |ind.fwBytes| then b0 + |gs| else Max(b0, |ind.fwBytes|)
    ensures chaining <==> exists i :: 0 <= i < |gs| && 1 < |gs[i]|
  {
    hide Split, Chained, Popped, HeadData, Chunks, Bufs, Total, Msdus;
  }

  /** The bytes of each of its buffers. */
  lemma BytesAre(r: Ring, p0: seq<Posting>, ind: RxInd, b0: nat, chaining: bool, head: Nbuf, tail: Nbuf,
                 g: seq<Nbuf>, o: nat)
    requires Outcome(r, p0, ind, b0, chaining, head, tail) && g in Split(Bufs(p0)) && o < |g|
    requires |g[o].dma| == 1920 && r.descSize <= 1920
    ensures |g| == 1 + g[0].rxDesc.chained
    ensures var d, desc, dma := g[0].rxDesc, r.descSize, g[o].dma;
      var left := d.msduLen - 1920 * d.chained;
      g[o].data ==
        if o > 0 then (if o == d.chained && 0 <= left <= 1920 - desc then dma[..desc + left] else dma)
        else if d.lenErr || d.chained > 0 || d.msduLen > 0x3000 || desc + d.msduLen > 1920 then dma[desc..]
        else dma[desc..desc + d.msduLen]
  {
    hide Split, Chained, Popped, HeadData, ChunkData, Bufs, Total, FwByte, IdxAfter;
    var i :| 0 <= i < |Split(Bufs(p0))| && Split(Bufs(p0))[i] == g;
    if o == 0 {
      HeadDataIs(g[0].dma, g[0].rxDesc, r.descSize);
    } else {
      ChunkDataIs(g[o].dma, o, g[0].rxDesc, r.descSize);
    }
  }

  /** `msdu`, buffer number `s`, starts the MSDU after `done` and has just been popped. */
  ghost predicate At(r: Ring, p0: seq<Posting>, ind: RxInd, b0: nat, done: seq<seq<Nbuf>>, s: nat, msdu: Nbuf)
    reads r, r.netbufsRing, r.paddrsRing, set b | b in Bufs(p0)
  {
    var q := Bufs(p0);
    && Distinct(q) && s < |q| && msdu == q[s] && Popped(r, p0, s + 1)
    && Split(q[s..]) != [] && Split(q) == done + Split(q[s..]) && Total(done) == s
    && Within(done, q[..s]) && Msdus(done, q[..s], r.descSize, ind, b0)
    && Chained(q[..s], msdu) && r.msduByteIdx == IdxAfter(b0, |done|, |ind.fwBytes|)
  }

  /** The MSDUs `done` are in place up to `last`, buffer number `m - 1`. */
  ghost predicate After(r: Ring, p0: seq<Posting>, ind: RxInd, b0: nat, done: seq<seq<Nbuf>>, m: nat,
                        last: Nbuf, complete: bool)
    reads r, r.netbufsRing, r.paddrsRing, set b | b in Bufs(p0)
  {
    var q := Bufs(p0);
    && Distinct(q) && 0 < m <= |q| && last == q[m - 1] && Popped(r, p0, m) && Total(done) == m
    && (if complete then Split(q) == done else Split(q[m..]) != [] && Split(q) == done + Split(q[m..]))
    && Within(done, q[..m]) && Msdus(done, q[..m], r.descSize, ind, b0)
    && Chained(q[..m - 1], last) && r.msduByteIdx == IdxAfter(b0, |done|, |ind.fwBytes|)
  }

  lemma GroupAt(q: seq<Nbuf>, s: nat, g: seq<Nbuf>)
    requires Distinct(q) && s + |g| <= |q| && g != [] && g == q[s..s + |g|]
    ensures Distinct(g) && g[0] == q[s] && g[|g| - 1] == q[s + |g| - 1]
    ensures forall b :: b in g ==> b in q && b !in q[..s]
  {
    SliceDistinct(q, s, s + |g|);
  }

  /** The body of the outer loop up to the last-MSDU test. */
  method TakeMsdu(r: Ring, msdu: Nbuf, ind: RxInd, ghost p0: seq<Posting>, ghost b0: nat,
                  ghost done: seq<seq<Nbuf>>, ghost s: nat, ghost g: seq<Nbuf>)
    returns (last: Nbuf, chaining: bool, ghost m: nat)
    requires At(r, p0, ind, b0, done, s, msdu)
    requires |g| == 1 + msdu.rxDesc.chained && s + |g| <= |p0| && g == Bufs(p0)[s..s + |g|]
    modifies r`rdPayld, r`fillCnt, r`posted, r`msduByteIdx, set b | b in Bufs(p0)
    ensures After(r, p0, ind, b0, done + [g], m, last, msdu.rxDesc.last) && chaining == (1 < |g|)
    ensures last in Bufs(p0) && m == s + |g|
  {
    hide Popped, Chained, Msdus, Within, Split, Total, OneMsdu, FwByte, IdxAfter, Bufs, Distinct;
    ghost var q := Bufs(p0);
    GroupAt(q, s, g);
    SplitAt(q, s, done);
    IdxStep(b0, |done|, ind);
    last, chaining, m := PopMsdu(r, msdu, ind, p0, s, g);
    MsdusMore(done, q, s, m, r.descSize, ind, b0);
    TotalMore(done, g);
  }

  /** Not the last MSDU: pop the first buffer of the next one and link it. */
  method NextMsdu(r: Ring, last: Nbuf, ind: RxInd, ghost p0: seq<Posting>, ghost b0: nat,
                  ghost done: seq<seq<Nbuf>>, ghost m: nat) returns (next: Nbuf)
    requires After(r, p0, ind, b0, done, m, last, false)
    modifies r`rdPayld, r`fillCnt, r`posted, last`next
    ensures At(r, p0, ind, b0, done, m, next) && next in Bufs(p0)
  {
    hide Popped, Chained, Msdus, Within, Split, Total, FwByte, IdxAfter, Bufs, Distinct;
    ghost var q := Bufs(p0);
    SplitStep(q[m..]);
    next := PopNext(r, p0, m);
    SetNext(last, next, q, m - 1);
    assert q[..m - 1 + 1] == q[..m];
  }

  /** The last MSDU: end the list. */
  method EndAmsdu(r: Ring, last: Nbuf, ind: RxInd, ghost p0: seq<Posting>, ghost b0: nat,
                  ghost done: seq<seq<Nbuf>>, ghost m: nat)
    requires After(r, p0, ind, b0, done, m, last, true)
    modifies last`next
    ensures Outcome(r, p0, ind, b0, Long(done), Bufs(p0)[0], last)
  {
    hide Popped, Msdus, Within, Split, Total, FwByte, IdxAfter, Bufs, Chained;
    ghost var q := Bufs(p0);
    assert Distinct(q[..m]);
    assert q[..m][..m - 1] == q[..m - 1] && q[..m][..m - 1 + 1] == q[..m];
    SetNext(last, null, q[..m], m - 1);
  }

  lemma RingStart(r: Ring)
    requires r.Valid()
    ensures Distinct(Bufs(r.posted)) && Popped(r, r.posted, 0)
  {
  }

  lemma AtStart(r: Ring, p0: seq<Posting>, ind: RxInd, msdu: Nbuf)
    requires Popped(r, p0, 1) && p0 != [] && msdu == Bufs(p0)[0]
    requires Split(Bufs(p0)) != [] && Distinct(Bufs(p0))
    ensures At(r, p0, ind, r.msduByteIdx, [], 0, msdu) && !Long([])
  {
    NothingYet(Bufs(p0), r.descSize, ind, r.msduByteIdx, msdu);
  }

  lemma AtGroup(r: Ring, p0: seq<Posting>, ind: RxInd, b0: nat, done: seq<seq<Nbuf>>, s: nat, msdu: Nbuf)
    requires At(r, p0, ind, b0, done, s, msdu)
    ensures s + 1 + msdu.rxDesc.chained <= |p0|
  {
    SplitStep(Bufs(p0)[s..]);
  }

  /** htt_rx_amsdu_pop_ll, when the A-MSDU at the read index has been posted whole. */
  method AmsduPop(r: Ring, ind: RxInd) returns (chaining: bool, head: Nbuf, tail: Nbuf)
    requires r.Valid() && Split(Bufs(r.posted)) != []
    modifies r`rdPayld, r`fillCnt, r`posted, r`msduByteIdx, set b | b in Bufs(r.posted)
    ensures Outcome(r, old(r.posted), ind, old(r.msduByteIdx), chaining, head, tail)
    ensures var gs, b0 := Split(Bufs(old(r.posted))), old(r.msduByteIdx);
      forall i :: 0 <= i < |gs| ==>
        && gs[i] != []
        && (!ind.frag && b0 + i < |ind.fwBytes| ==> gs[i][0].fwDesc == ind.fwBytes[b0 + i])
        && (ind.frag && b0 + i < |ind.fwBytes| ==> gs[i][0].fwDesc == ind.fwBytes[0])
        && (|ind.fwBytes| <= b0 + i ==> gs[i][0].fwDesc == 0)
  {
    hide At, After, Outcome, Popped, Split, Bufs, Distinct, Long, Ring.Valid;
    ghost var p0, b0 := r.posted, r.msduByteIdx;
    RingStart(r);
    SplitStep(Bufs(p0));
    var msdu := PopNext(r, p0, 0);
    head, chaining := msdu, false;
    ghost var s, done: seq<seq<Nbuf>> := 0, [];
    AtStart(r, p0, ind, msdu);
    while true
      invariant At(r, p0, ind, b0, done, s, msdu) && s < |p0| && msdu in Bufs(p0)
      invariant chaining == Long(done) && head == Bufs(p0)[0]
      decreases |p0| - s
    {
      var first := msdu;
      AtGroup(r, p0, ind, b0, done, s, msdu);
      ghost var g := Bufs(p0)[s..s + 1 + first.rxDesc.chained];
      var chained: bool;
      ghost var m: nat;
      msdu, chained, m := TakeMsdu(r, first, ind, p0, b0, done, s, g);
      LongMore(done, g);
      chaining, done := chaining || chained, done + [g];
      if first.rxDesc.last {
        EndAmsdu(r, msdu, ind, p0, b0, done, m);
        tail := msdu;
        break;
      } else {
        msdu := NextMsdu(r, msdu, ind, p0, b0, done, m);
        s := m;
        AtGroup(r, p0, ind, b0, done, s, msdu);
      }
    }
    FwBytesAre(r, p0, ind, b0, chaining, head, tail, Split(Bufs(p0)));
  }

  /** A pop and the descriptor-list step that belongs to it, with no refill in between: the
      step returns the head of what was popped and brings the two read indices together again. */
  method PopThenDesc(r: Ring, ind: RxInd) returns (head: Nbuf, desc: Nbuf?)
    requires r.Valid() && Split(Bufs(r.posted)) != [] && r.rdDesc == r.rdPayld
    modifies r`rdPayld, r`fillCnt, r`posted, r`msduByteIdx, r`rdDesc, set b | b in Bufs(r.posted)
    ensures desc == head == Bufs(old(r.posted))[0]
    ensures r.Valid() && r.rdDesc == r.rdPayld
    ensures Popped(r, old(r.posted), Total(Split(Bufs(old(r.posted)))))
  {
    hide Split, Chained, Msdus, Within, IdxAfter, Total, Long;
    SplitStep(Bufs(r.posted));
    r.HoldsTail(r.rdPayld, r.posted);
    var chaining, tail;
    chaining, head, tail := AmsduPop(r, ind);
    desc := r.MpduDescListNext();
  }
}
