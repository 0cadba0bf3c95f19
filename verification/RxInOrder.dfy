/** In-order indications of full-reorder mode (htt_rx_amsdu_rx_in_order_pop_ll). */
module RxInOrder {
  import opened Nbufs
  import opened PaddrMap
  import opened RxLookups
  import opened RxReorder
  import opened Multisets
  import RxHash

  datatype InOrdMsdu = InOrdMsdu(paddr: Paddr, len: nat, fwDesc: Byte)

  /** FW_RX_DESC_MIC_ERR_M, 0x04, is bit 2 of the FW descriptor byte. */
  predicate MicError(m: InOrdMsdu) {
    m.fwDesc / 4 % 2 == 1
  }

  function Paddrs(ms: seq<InOrdMsdu>): (r: seq<Paddr>)
    ensures |r| == |ms|
    ensures forall i :: 0 <= i < |ms| ==> r[i] == ms[i].paddr
  {
    seq(|ms|, i requires 0 <= i < |ms| => ms[i].paddr)
  }

  /** The buffers whose message entry does (or does not) report a MIC error, in order. */
  function Select(bufs: seq<Nbuf>, ms: seq<InOrdMsdu>, mic: bool): (r: seq<Nbuf>)
    requires |bufs| <= |ms|
    ensures |r| <= |bufs|
    ensures forall b :: b in r ==> b in bufs
  {
    if bufs == [] then [] else
    Select(Init(bufs), ms, mic) + if MicError(ms[|bufs| - 1]) == mic then [Last(bufs)] else []
  }

  /** Kept and dropped buffers together are the looked-up ones. */
  lemma {:induction false} SelectSplits(bufs: seq<Nbuf>, ms: seq<InOrdMsdu>)
    requires |bufs| <= |ms|
    ensures multiset(Select(bufs, ms, true)) + multiset(Select(bufs, ms, false)) == multiset(bufs)
  {
    if bufs != [] {
      var front, b, mic := Init(bufs), Last(bufs), MicError(ms[|bufs| - 1]);
      SelectSplits(front, ms);
      Snoc(bufs, front, b);
      Snoc(Select(bufs, ms, mic), Select(front, ms, mic), b);
      assert Select(bufs, ms, !mic) == Select(front, ms, !mic);
      Regroup(multiset(Select(front, ms, true)), multiset(Select(front, ms, false)), multiset{b});
    }
  }

  /** Which of the first `n` frames have bit 2 of the FW byte set (or clear). */
  function Marked(ms: seq<InOrdMsdu>, n: nat, mic: bool): (r: seq<nat>)
    requires n <= |ms|
    ensures forall i :: 0 <= i < |r| ==> r[i] < n
  {
    if n == 0 then [] else
    Marked(ms, n - 1, mic) + if (ms[n - 1].fwDesc / 4 % 2 == 1) == mic then [n - 1] else []
  }

  /** These are all, each once, ascending. */
  lemma {:induction false} MarkedIs(ms: seq<InOrdMsdu>, n: nat, mic: bool)
    requires n <= |ms|
    ensures forall i, j :: 0 <= i < j < |Marked(ms, n, mic)| ==> Marked(ms, n, mic)[i] < Marked(ms, n, mic)[j]
    ensures forall j :: 0 <= j < n ==> (j in Marked(ms, n, mic) <==> (ms[j].fwDesc / 4 % 2 == 1) == mic)
  {
    if n > 0 {
      MarkedIs(ms, n - 1, mic);
      var before := Marked(ms, n - 1, mic);
      assert forall i :: 0 <= i < |before| ==> before[i] < n - 1;
    }
  }

  function At(bufs: seq<Nbuf>, at: seq<nat>): (r: seq<Nbuf>)
    requires forall i :: 0 <= i < |at| ==> at[i] < |bufs|
  {
    seq(|at|, i requires 0 <= i < |at| => bufs[at[i]])
  }

  /** The buffers selected are those of the frames marked, in message order. */
  lemma {:induction false} SelectIsMarked(bufs: seq<Nbuf>, ms: seq<InOrdMsdu>, mic: bool)
    requires |bufs| <= |ms|
    ensures Select(bufs, ms, mic) == At(bufs, Marked(ms, |bufs|, mic))
  {
    if bufs != [] {
      SelectIsMarked(Init(bufs), ms, mic);
    }
  }

  ghost predicate Delivered(bufs: seq<Nbuf>, ms: seq<InOrdMsdu>, descSize: nat)
    requires |bufs| <= |ms|
    reads (set b | b in bufs)`data, (set b | b in bufs)`fwDesc
  {
    forall j :: 0 <= j < |bufs| ==>
      bufs[j].fwDesc == ms[j].fwDesc && bufs[j].data == Payload(bufs[j].dma, descSize, ms[j].len)
  }

  /** What the caller gets when every address was posted: the buffers without MIC error, in
      message order from `head` to `tail`, or nothing at all when none is left. */
  ghost predicate HandedUp(bufs: seq<Nbuf>, ms: seq<InOrdMsdu>, descSize: nat,
                           ret: nat, head: Nbuf?, tail: Nbuf?)
    requires |bufs| <= |ms|
    reads (set b | b in bufs), (set b | b in Select(bufs, ms, false))
  {
    var kept := Select(bufs, ms, false);
    && Delivered(bufs, ms, descSize)
    && Chained(kept, null)
    && if kept == [] then ret == 0 && head == null && tail == null
       else ret == 1 && head == kept[0] && tail == Last(kept)
  }

  lemma SelectNext(done: seq<Nbuf>, b: Nbuf, ms: seq<InOrdMsdu>)
    requires |done| < |ms|
    ensures Select(done + [b], ms, true) ==
              if MicError(ms[|done|]) then Select(done, ms, true) + [b] else Select(done, ms, true)
    ensures Select(done + [b], ms, false) ==
              if MicError(ms[|done|]) then Select(done, ms, false) else Select(done, ms, false) + [b]
  {
    assert Init(done + [b]) == done;
  }

  lemma {:induction false} SelectDistinct(bufs: seq<Nbuf>, ms: seq<InOrdMsdu>, mic: bool)
    requires |bufs| <= |ms| && Distinct(bufs)
    ensures Distinct(Select(bufs, ms, mic))
  {
    if bufs != [] {
      SelectDistinct(Init(bufs), ms, mic);
      assert Last(bufs) !in Init(bufs);
    }
  }

  /*--- the two halves of the loop state ---*/

  /** What the indication started from. */
  datatype Run = Run(ms: seq<InOrdMsdu>, m0: Table, c0: int, k0: nat) {
    /** The buffers of the first `n` lookups, up to one that finds nothing. */
    ghost function First(n: nat): (r: seq<Nbuf>)
      requires n <= |ms|
    {
      Taken(m0, Paddrs(ms)[..n])
    }
  }

  /** The store after `n` successful lookups, with `f` freed so far. */
  ghost predicate Looked(pdev: RxStore, run: Run, n: nat, f: seq<Nbuf>)
    reads pdev, pdev.table, pdev.table.Repr, pdev.paddrsRing
  {
    && pdev.Valid() && n <= |run.ms| && OnceEach(AllBufs(run.m0))
    && |run.First(n)| == n
    && pdev.table.model == RemoveAll(run.m0, Paddrs(run.ms)[..n])
    && pdev.fillCnt == run.c0 - n && pdev.misses == run.k0 && pdev.freed == f
  }

  /** The store when lookup number `n` found nothing. */
  ghost predicate Missed(pdev: RxStore, run: Run, n: nat, f: seq<Nbuf>)
    reads pdev, pdev.table, pdev.table.Repr, pdev.paddrsRing
  {
    && pdev.Valid() && n < |run.ms|
    && |run.First(|run.ms|)| == n
    && pdev.table.model == RemoveAll(run.m0, Paddrs(run.ms)[..n + 1])
    && pdev.fillCnt == run.c0 - n - 1 && pdev.misses == run.k0 + 1 && pdev.freed == f
  }

  /** The buffers of `done` are finished; those to hand up are linked and lead on to `after`. */
  ghost predicate Linking(ms: seq<InOrdMsdu>, desc: nat, done: seq<Nbuf>, kept: seq<Nbuf>, after: Nbuf?)
    reads (set b | b in done), (set b | b in kept)
  {
    && |done| <= |ms| && kept == Select(done, ms, false)
    && Distinct(done) && Delivered(done, ms, desc) && Chained(kept, after)
  }

  /** The same with the link out of the last of them, `b`, still to be set. */
  ghost predicate Pending(ms: seq<InOrdMsdu>, desc: nat, done: seq<Nbuf>, front: seq<Nbuf>, b: Nbuf?)
    reads (set b | b in done), (set b | b in front)
  {
    && |done| <= |ms| && Select(done, ms, false) == (if b == null then [] else front + [b])
    && Distinct(done) && Delivered(done, ms, desc) && Chained(front, b)
  }

  function Front(kept: seq<Nbuf>): (r: seq<Nbuf>) {
    if kept == [] then [] else Init(kept)
  }

  function Tail(kept: seq<Nbuf>): (r: Nbuf?) {
    if kept == [] then null else Last(kept)
  }

  lemma Begin(pdev: RxStore, run: Run, desc: nat)
    requires pdev.Valid() && pdev.table.model == run.m0 && pdev.fillCnt == run.c0 && pdev.misses == run.k0
    ensures Looked(pdev, run, 0, pdev.freed) && Pending(run.ms, desc, [], [], null)
    ensures run.First(0) == [] && Select([], run.ms, true) == []
  {
  }

  /** `head` when a lookup finds nothing: the first frame kept, or else the last one looked up,
      which has been freed. */
  function HeadOnMiss(bufs: seq<Nbuf>, kept: seq<Nbuf>): Nbuf? {
    if bufs == [] then null else if kept == [] then Last(bufs) else kept[0]
  }

  /** The outcome of an indication.  With every address posted: the buffers go up and all of
      them have left the table.  Otherwise the first address that is not posted ends it: the
      buffers before it have left the table, and those kept are linked, up to the last one. */
  ghost predicate Outcome(pdev: RxStore, run: Run, f0: seq<Nbuf>, ret: nat, head: Nbuf?, tail: Nbuf?)
    reads pdev, pdev.table, pdev.table.Repr, pdev.paddrsRing
    reads (set b | b in Taken(run.m0, Paddrs(run.ms)))
    reads (set b | b in Select(Taken(run.m0, Paddrs(run.ms)), run.ms, false))
  {
    var ps := Paddrs(run.ms);
    var bufs := Taken(run.m0, ps);
    && pdev.Valid()
    && pdev.freed == f0 + Select(bufs, run.ms, true)
    && if |bufs| == |run.ms| then
         && HandedUp(bufs, run.ms, pdev.descSize, ret, head, tail)
         && pdev.table.model == RemoveAll(run.m0, ps)
         && pdev.fillCnt == run.c0 - |ps| && pdev.misses == run.k0
       else
         && ret == 0 && tail == null && head == HeadOnMiss(bufs, Select(bufs, run.ms, false))
         && Delivered(bufs, run.ms, pdev.descSize)
         && Chained(Front(Select(bufs, run.ms, false)), Tail(Select(bufs, run.ms, false)))
         && pdev.table.model == RemoveAll(run.m0, ps[..|bufs| + 1])
         && pdev.fillCnt == run.c0 - |bufs| - 1 && pdev.misses == run.k0 + 1
  }

  lemma EndsComplete(pdev: RxStore, run: Run, f0: seq<Nbuf>, done: seq<Nbuf>, ret: nat, head: Nbuf?, tail: Nbuf?)
    requires |done| == |run.ms| && run.First(|run.ms|) == done
    requires Looked(pdev, run, |run.ms|, f0 + Select(done, run.ms, true))
    requires HandedUp(done, run.ms, pdev.descSize, ret, head, tail)
    ensures Outcome(pdev, run, f0, ret, head, tail)
  {
    hide RxStore.Valid, AllBufs, RemoveAll, Taken, Select, Paddrs, HandedUp;
    assert Paddrs(run.ms)[..|run.ms|] == Paddrs(run.ms);
  }

  lemma EndsMissing(pdev: RxStore, run: Run, f0: seq<Nbuf>, done: seq<Nbuf>, head: Nbuf?)
    requires |done| < |run.ms| && run.First(|run.ms|) == done
    requires Missed(pdev, run, |done|, f0 + Select(done, run.ms, true))
    requires head == HeadOnMiss(done, Select(done, run.ms, false))
    requires Delivered(done, run.ms, pdev.descSize)
    requires Chained(Front(Select(done, run.ms, false)), Tail(Select(done, run.ms, false)))
    ensures Outcome(pdev, run, f0, 0, head, null)
  {
    hide RxStore.Valid, AllBufs, RemoveAll, Taken, Select, Paddrs, HandedUp, HeadOnMiss, Delivered, Chained;
    assert Paddrs(run.ms)[..|run.ms|] == Paddrs(run.ms);
  }

  lemma NothingKept(ms: seq<InOrdMsdu>, desc: nat, done: seq<Nbuf>, next: Nbuf?)
    requires Pending(ms, desc, done, [], null)
    ensures Linking(ms, desc, done, [], next)
    ensures HandedUp(done, ms, desc, 0, null, null)
  {
  }

  lemma PendingIs(ms: seq<InOrdMsdu>, desc: nat, done: seq<Nbuf>, front: seq<Nbuf>, last: Nbuf?)
    requires Pending(ms, desc, done, front, last) && (last == null ==> front == [])
    ensures |done| <= |ms| && Delivered(done, ms, desc)
    ensures var kept := Select(done, ms, false);
            && Chained(Front(kept), Tail(kept))
            && HeadOnMiss(done, kept) ==
                 if done == [] then null else if last == null then Last(done) else (front + [last])[0]
  {
    hide Delivered, Select;
    if last != null {
      assert Front(front + [last]) == front;
    }
  }

  /** The next lookup of an indication. */
  method Fetch(pdev: RxStore, ms: seq<InOrdMsdu>, i: nat, ghost run: Run, ghost f0: seq<Nbuf>,
               ghost done: seq<Nbuf>, ghost front: seq<Nbuf>, ghost b: Nbuf?) returns (next: Nbuf?)
    requires i == |done| < |ms| && ms == run.ms && Looked(pdev, run, i, f0 + Select(done, ms, true))
    requires Pending(ms, pdev.descSize, done, front, b)
    modifies pdev`fillCnt, pdev`misses, pdev.table.Repr
    ensures pdev.table.Repr == old(pdev.table.Repr)
    ensures Pending(ms, pdev.descSize, done, front, b)
    ensures next == null ==> Missed(pdev, run, i, f0 + Select(done, ms, true)) && run.First(|ms|) == run.First(i)
    ensures next != null ==>
      && Looked(pdev, run, i + 1, f0 + Select(done, ms, true)) && next in AllBufs(run.m0)
      && run.First(i + 1) == run.First(i) + [next] && Distinct(run.First(i + 1))
  {
    hide RxHash.HashTable.Valid, AllBufs, Count, Remove, Queue, Hash, RemoveAll, Taken, Payload, Select;
    ghost var ps := Paddrs(ms);
    assert ps[..|ms|] == ps;
    TakenStep(run.m0, ps, i);
    next := pdev.PopByPaddr(ms[i].paddr);
    if next != null {
      OnceEachTaken(run.m0, ps[..i + 1]);
    }
  }

  /** The buffer as it goes up: the descriptor pulled off, the length and FW byte of the message. */
  method SetBytes(pdev: RxStore, msdu: Nbuf, m: InOrdMsdu, ghost run: Run, ghost n: nat, ghost f: seq<Nbuf>)
    requires Looked(pdev, run, n, f)
    modifies msdu`data, msdu`fwDesc
    ensures Looked(pdev, run, n, f)
    ensures msdu.data == Payload(msdu.dma, pdev.descSize, m.len) && msdu.fwDesc == m.fwDesc
  {
    hide RxHash.HashTable.Valid, AllBufs, Count, RemoveAll, Taken, Select, Paddrs, Run.First;
    msdu.data := msdu.dma;
    msdu.data := PullHead(msdu.data, pdev.descSize);
    msdu.data := TrimTail(msdu.data, HTT_RX_BUF_SIZE - (pdev.descSize + m.len));
    msdu.fwDesc := m.fwDesc;
  }

  /** htt_rx_desc_frame_free */
  method FrameFree(pdev: RxStore, msdu: Nbuf, ghost run: Run, ghost n: nat, ghost f: seq<Nbuf>)
    requires Looked(pdev, run, n, f)
    modifies pdev`freed
    ensures Looked(pdev, run, n, f + [msdu])
  {
    hide RxHash.HashTable.Valid, AllBufs, Count, RemoveAll, Taken, Select, Paddrs, Run.First;
    pdev.freed := pdev.freed + [msdu];
  }

  lemma DeliveredMore(done: seq<Nbuf>, b: Nbuf, ms: seq<InOrdMsdu>, desc: nat)
    requires |done| < |ms| && Delivered(done, ms, desc)
    requires b.data == Payload(b.dma, desc, ms[|done|].len) && b.fwDesc == ms[|done|].fwDesc
    ensures Delivered(done + [b], ms, desc)
  {
  }

  /** One buffer of the indication: finished, and freed if its MIC was wrong. */
  method Handle(pdev: RxStore, msdu: Nbuf, m: InOrdMsdu, ghost run: Run, ghost f0: seq<Nbuf>,
                ghost done: seq<Nbuf>, ghost kept: seq<Nbuf>) returns (mic: bool)
    requires |done| < |run.ms| && m == run.ms[|done|]
    requires Looked(pdev, run, |done| + 1, f0 + Select(done, run.ms, true))
    requires Linking(run.ms, pdev.descSize, done, kept, msdu) && Distinct(done + [msdu])
    modifies msdu`data, msdu`fwDesc, pdev`freed
    ensures mic <==> m.fwDesc / 4 % 2 == 1
    ensures Looked(pdev, run, |done| + 1, f0 + Select(done + [msdu], run.ms, true))
    ensures if mic then Pending(run.ms, pdev.descSize, done + [msdu], Front(kept), Tail(kept))
            else Pending(run.ms, pdev.descSize, done + [msdu], kept, msdu)
  {
    hide Looked, Select, Delivered, Chained, Payload;
    ghost var f := f0 + Select(done, run.ms, true);
    NotYet(done, msdu, kept);
    SelectNext(done, msdu, run.ms);
    SetBytes(pdev, msdu, m, run, |done| + 1, f);
    DeliveredMore(done, msdu, run.ms, pdev.descSize);
    mic := MicError(m);
    if mic {
      FrameFree(pdev, msdu, run, |done| + 1, f);
      assert f + [msdu] == f0 + Select(done + [msdu], run.ms, true);
      if kept != [] {
        SplitLast(kept, msdu);
      } else {
        NoneChained();
      }
    }
  }

  lemma NoneChained()
    ensures Chained([], null)
  {
  }

  lemma SplitLast(kept: seq<Nbuf>, after: Nbuf?)
    requires kept != [] && Chained(kept, after)
    ensures Init(kept) + [Last(kept)] == kept && Chained(Init(kept), Last(kept))
  {
  }

  lemma NotYet(done: seq<Nbuf>, b: Nbuf, kept: seq<Nbuf>)
    requires Distinct(done + [b]) && forall x :: x in kept ==> x in done
    ensures b !in done && b !in kept
  {
    var s := done + [b];
    assert forall i :: 0 <= i < |done| ==> s[i] == done[i] && s[i] != s[|done|];
  }

  /** adf_nbuf_set_next on the last buffer to hand up, towards the next one or the end. */
  method SetNext(pdev: RxStore, b: Nbuf, next: Nbuf?, ghost run: Run, ghost n: nat, ghost f0: seq<Nbuf>,
                 ghost done: seq<Nbuf>, ghost front: seq<Nbuf>)
    requires |done| <= |run.ms| && Looked(pdev, run, n, f0 + Select(done, run.ms, true))
    requires Pending(run.ms, pdev.descSize, done, front, b)
    modifies b`next
    ensures Looked(pdev, run, n, f0 + Select(done, run.ms, true))
    ensures Linking(run.ms, pdev.descSize, done, front + [b], next)
    ensures next == null ==> HandedUp(done, run.ms, pdev.descSize, 1, (front + [b])[0], b)
  {
    hide RxHash.HashTable.Valid, AllBufs, Count, RemoveAll, Taken, Payload, Select;
    SelectDistinct(done, run.ms, false);
    assert b !in front by {
      NotYet(front, b, []);
    }
    b.next := next;
  }

  /** The last MSDU has been handled: end the list at `last`. */
  method EndList(pdev: RxStore, last: Nbuf, ghost run: Run, ghost f0: seq<Nbuf>,
                 ghost done: seq<Nbuf>, ghost front: seq<Nbuf>)
    requires |done| == |run.ms| && run.First(|run.ms|) == done
    requires Looked(pdev, run, |done|, f0 + Select(done, run.ms, true))
    requires Pending(run.ms, pdev.descSize, done, front, last)
    modifies last`next
    ensures Outcome(pdev, run, f0, 1, (front + [last])[0], last)
  {
    hide Looked, Pending, Select, HandedUp, Outcome, Run.First, Linking;
    SetNext(pdev, last, null, run, |done|, f0, done, front);
    EndsComplete(pdev, run, f0, done, 1, (front + [last])[0], last);
  }

  /** More MSDUs follow: look the next one up and link it behind `last`, if there is one. */
  method Follow(pdev: RxStore, last: Nbuf?, head: Nbuf?, ms: seq<InOrdMsdu>, i: nat, ghost run: Run,
                ghost f0: seq<Nbuf>, ghost done: seq<Nbuf>, ghost front: seq<Nbuf>) returns (next: Nbuf?)
    requires i == |done| < |ms| && ms == run.ms && run.First(i) == done
    requires Looked(pdev, run, i, f0 + Select(done, ms, true))
    requires Pending(ms, pdev.descSize, done, front, last) && (last == null ==> front == [])
    requires head == if done == [] then null else if last == null then Last(done) else (front + [last])[0]
    modifies pdev`fillCnt, pdev`misses, pdev.table.Repr, (if last == null then {} else {last})`next
    ensures pdev.table.Repr == old(pdev.table.Repr)
    ensures next == null ==> Outcome(pdev, run, f0, 0, head, null)
    ensures next != null ==>
      && Looked(pdev, run, i + 1, f0 + Select(done, ms, true)) && next in AllBufs(run.m0)
      && run.First(i + 1) == done + [next] && Distinct(run.First(i + 1))
      && Linking(ms, pdev.descSize, done, if last == null then [] else front + [last], next)
  {
    hide AllBufs, Select, Linking, Pending, HandedUp, Looked, Missed, Distinct, Run.First, Outcome;
    next := Fetch(pdev, ms, i, run, f0, done, front, last);
    if next == null {
      PendingIs(ms, pdev.descSize, done, front, last);
      EndsMissing(pdev, run, f0, done, head);
    } else if last != null {
      SetNext(pdev, last, next, run, i + 1, f0, done, front);
    } else {
      NothingKept(ms, pdev.descSize, done, next);
    }
  }

  /** htt_rx_amsdu_rx_in_order_pop_ll for an indication that is not marked offload and has MSDUs. */
  method PopMsdus(pdev: RxStore, ms: seq<InOrdMsdu>) returns (ret: nat, head: Nbuf?, tail: Nbuf?)
    requires pdev.Valid() && ms != []
    modifies pdev`fillCnt, pdev`misses, pdev`freed, pdev.table.Repr, set b | b in AllBufs(pdev.table.model)
    ensures Outcome(pdev, Run(ms, old(pdev.table.model), old(pdev.fillCnt), old(pdev.misses)), old(pdev.freed),
                    ret, head, tail)
  {
    hide AllBufs, Taken, RemoveAll, MicError, Select, Linking, Pending, HandedUp, Looked, Missed, Distinct,
         Run.First, RxStore.Valid, Outcome, Paddrs;
    ghost var run := Run(ms, pdev.table.model, pdev.fillCnt, pdev.misses);
    ghost var desc, f0 := pdev.descSize, pdev.freed;
    ghost var done: seq<Nbuf>, kept: seq<Nbuf> := [], [];
    Begin(pdev, run, desc);
    assert f0 == f0 + Select([], ms, true);
    var count, i := |ms|, 0;
    head := Follow(pdev, null, null, ms, 0, run, f0, done, []);
    if head == null {
      return 0, null, null;
    }
    var msdu: Nbuf, prev: Nbuf? := head, null;
    while count > 0
      invariant 0 <= i < |ms| && count == |ms| - i && |done| == i
      invariant Looked(pdev, run, i + 1, f0 + Select(done, ms, true)) && pdev.table.Repr == old(pdev.table.Repr)
      invariant run.First(i + 1) == done + [msdu] && Distinct(run.First(i + 1))
      invariant Linking(ms, desc, done, kept, msdu)
      invariant prev == Tail(kept) && head == (if kept == [] then msdu else kept[0])
      invariant msdu in AllBufs(run.m0) && (prev != null ==> prev in AllBufs(run.m0))
      decreases count
    {
      var mic := Handle(pdev, msdu, ms[i], run, f0, done, kept);
      count, done := count - 1, done + [msdu];
      if mic {
        // freed: the next one, if any, goes behind the last frame kept
        if count == 0 {
          if prev == null {
            NothingKept(ms, desc, done, null);
            EndsComplete(pdev, run, f0, done, 0, null, null);
            return 0, null, null;
          } else {
            EndList(pdev, prev, run, f0, done, Front(kept));
            return 1, head, prev;
          }
        } else {
          i := i + 1;
          var next := Follow(pdev, prev, head, ms, i, run, f0, done, Front(kept));
          if next == null {
            return 0, head, null;
          }
          assert kept == if prev == null then [] else Front(kept) + [prev];
          if prev == null {
            head := next;
          }
          msdu := next;
          continue;
        }
      }
      if count > 0 {
        i := i + 1;
        var next := Follow(pdev, msdu, head, ms, i, run, f0, done, kept);
        if next == null {
          return 0, head, null;
        }
        prev := msdu;
        kept := kept + [msdu];
        msdu := next;
      } else {
        EndList(pdev, msdu, run, f0, done, kept);
        return 1, head, msdu;
      }
    }
  }

  /** The same for any number of MSDUs.  An indication without any still makes one lookup, with
      what follows its header (`stale`), and leaves the buffer it finds as it is, and the tail as it
      was (`tail0`). */
  method AmsduPop(pdev: RxStore, ms: seq<InOrdMsdu>, stale: Paddr, tail0: Nbuf?)
    returns (ret: nat, head: Nbuf?, tail: Nbuf?)
    requires pdev.Valid()
    modifies pdev`fillCnt, pdev`misses, pdev`freed, pdev.table.Repr
    modifies if ms == [] then {} else set b | b in AllBufs(pdev.table.model)
    ensures ms != [] ==>
              Outcome(pdev, Run(ms, old(pdev.table.model), old(pdev.fillCnt), old(pdev.misses)), old(pdev.freed),
                      ret, head, tail)
    ensures ms == [] ==>
              && pdev.Valid() && pdev.freed == old(pdev.freed) && pdev.fillCnt == old(pdev.fillCnt) - 1
              && head == Head(Queue(old(pdev.table.model), stale))
              && pdev.table.model == Remove(old(pdev.table.model), stale)
              && (if head == null then ret == 0 && tail == null else ret == 1 && tail == tail0)
  {
    hide AllBufs, Taken, RemoveAll, Select, Outcome, Paddrs, Queue, Remove;
    if ms == [] {
      head := pdev.PopByPaddr(stale);
      ret, tail := if head == null then 0 else 1, if head == null then null else tail0;
    } else {
      ret, head, tail := PopMsdus(pdev, ms);
    }
  }

  /** By the bits of the message alone: the frames with the bit set are freed, in message order. */
  lemma FreedAre(pdev: RxStore, run: Run, f0: seq<Nbuf>, ret: nat, head: Nbuf?, tail: Nbuf?,
                 bufs: seq<Nbuf>, down: seq<nat>)
    requires Outcome(pdev, run, f0, ret, head, tail) && bufs == Taken(run.m0, Paddrs(run.ms))
    requires |bufs| <= |run.ms| && down == Marked(run.ms, |bufs|, true)
    ensures |pdev.freed| == |f0| + |down|
    ensures forall i :: 0 <= i < |f0| ==> pdev.freed[i] == f0[i]
    ensures forall i :: 0 <= i < |down| ==> pdev.freed[|f0| + i] == bufs[down[i]]
  {
    hide Taken, Paddrs, Marked, Select, Delivered, RxStore.Valid, RemoveAll, AllBufs, HandedUp, HeadOnMiss, Chained;
    SelectIsMarked(bufs, run.ms, true);
  }

  /** The others are linked in message order from `head`, as far as addresses were posted; when
      all were, they go up, with the last one as `tail`. */
  lemma LinkedAre(pdev: RxStore, run: Run, f0: seq<Nbuf>, ret: nat, head: Nbuf?, tail: Nbuf?,
                  bufs: seq<Nbuf>, up: seq<nat>)
    requires Outcome(pdev, run, f0, ret, head, tail) && bufs == Taken(run.m0, Paddrs(run.ms))
    requires |bufs| <= |run.ms| && up == Marked(run.ms, |bufs|, false)
    ensures forall i :: 0 <= i < |up| - 1 ==> bufs[up[i]].next == bufs[up[i + 1]]
    ensures up != [] ==> head == bufs[up[0]]
    ensures up == [] ==> head == if 0 < |bufs| < |run.ms| then bufs[|bufs| - 1] else null
    ensures if up == [] || |bufs| < |run.ms| then ret == 0 && tail == null
            else ret == 1 && tail == bufs[up[|up| - 1]] && tail.next == null
  {
    hide Taken, Paddrs, Marked, Select, Delivered, RxStore.Valid, RemoveAll, AllBufs, Chained, HandedUp, HeadOnMiss;
    if |bufs| == |run.ms| {
      LinkedUp(bufs, run.ms, pdev.descSize, ret, head, tail, up);
    } else {
      LinkedOnMiss(bufs, run.ms, head, up);
    }
  }

  lemma LinkedUp(bufs: seq<Nbuf>, ms: seq<InOrdMsdu>, desc: nat, ret: nat, head: Nbuf?, tail: Nbuf?, up: seq<nat>)
    requires |bufs| == |ms| && HandedUp(bufs, ms, desc, ret, head, tail) && up == Marked(ms, |bufs|, false)
    ensures forall i :: 0 <= i < |up| - 1 ==> bufs[up[i]].next == bufs[up[i + 1]]
    ensures if up == [] then ret == 0 && head == null && tail == null
            else ret == 1 && head == bufs[up[0]] && tail == bufs[up[|up| - 1]] && tail.next == null
  {
    hide Marked, Select, Delivered, Chained;
    SelectIsMarked(bufs, ms, false);
    ChainedAt(bufs, up, null);
  }

  lemma LinkedOnMiss(bufs: seq<Nbuf>, ms: seq<InOrdMsdu>, head: Nbuf?, up: seq<nat>)
    requires |bufs| < |ms| && up == Marked(ms, |bufs|, false)
    requires head == HeadOnMiss(bufs, Select(bufs, ms, false))
    requires Chained(Front(Select(bufs, ms, false)), Tail(Select(bufs, ms, false)))
    ensures forall i :: 0 <= i < |up| - 1 ==> bufs[up[i]].next == bufs[up[i + 1]]
    ensures head == if up != [] then bufs[up[0]] else if bufs != [] then bufs[|bufs| - 1] else null
  {
    hide Marked, Select, Chained;
    SelectIsMarked(bufs, ms, false);
    if up != [] {
      assert Front(At(bufs, up)) == At(bufs, Init(up));
      ChainedAt(bufs, Init(up), bufs[Last(up)]);
    }
  }

  lemma ChainedAt(bufs: seq<Nbuf>, at: seq<nat>, after: Nbuf?)
    requires forall i :: 0 <= i < |at| ==> at[i] < |bufs|
    requires Chained(At(bufs, at), after)
    ensures forall i :: 0 <= i < |at| - 1 ==> bufs[at[i]].next == bufs[at[i + 1]]
    ensures at != [] ==> bufs[at[|at| - 1]].next == after
  {
    forall i | 0 <= i < |at| - 1 ensures bufs[at[i]].next == bufs[at[i + 1]] {
      assert At(bufs, at)[i].next == bufs[at[i]].next;
    }
    assert at != [] ==> At(bufs, at)[|at| - 1].next == bufs[at[|at| - 1]].next;
  }

  /** Every buffer looked up holds its FW byte and, when they fit, the bytes behind the rx descriptor
      up to the length of its message entry. */
  lemma BytesAre(pdev: RxStore, run: Run, f0: seq<Nbuf>, ret: nat, head: Nbuf?, tail: Nbuf?,
                 bufs: seq<Nbuf>, j: nat)
    requires Outcome(pdev, run, f0, ret, head, tail) && bufs == Taken(run.m0, Paddrs(run.ms))
    requires j < |bufs| <= |run.ms| && |bufs[j].dma| == 1920
    ensures bufs[j].fwDesc == run.ms[j].fwDesc
    ensures var start, end := pdev.descSize, pdev.descSize + run.ms[j].len;
            end <= 1920 ==> bufs[j].data == bufs[j].dma[start..end]
  {
    hide Taken, Paddrs, Select, RxStore.Valid, RemoveAll, AllBufs, HeadOnMiss, Chained, Payload;
    if pdev.descSize <= 1920 {
      PayloadIsMsdu(bufs[j].dma, pdev.descSize, run.ms[j].len);
    }
  }

  /** Nothing comes up exactly when every frame of the indication had a MIC error. */
  lemma NothingUpIff(pdev: RxStore, run: Run, f0: seq<Nbuf>, ret: nat, head: Nbuf?, tail: Nbuf?)
    requires Outcome(pdev, run, f0, ret, head, tail) && |Taken(run.m0, Paddrs(run.ms))| == |run.ms|
    ensures ret == 0 && head == null && tail == null <==> forall m :: m in run.ms ==> m.fwDesc / 4 % 2 == 1
    ensures ret == 1 && head != null && tail != null && tail.next == null <==>
              exists m :: m in run.ms && m.fwDesc / 4 % 2 == 0
  {
    hide Outcome, Marked, Taken;
    LinkedAre(pdev, run, f0, ret, head, tail, Taken(run.m0, Paddrs(run.ms)), Marked(run.ms, |run.ms|, false));
    NoneMarkedIff(run.ms);
  }

  lemma NoneMarkedIff(ms: seq<InOrdMsdu>)
    ensures Marked(ms, |ms|, false) == [] <==> forall m :: m in ms ==> m.fwDesc / 4 % 2 == 1
  {
    var up := Marked(ms, |ms|, false);
    MarkedIs(ms, |ms|, false);
    hide Marked;
    assert up == [] || (up[0] in up && ms[up[0]] in ms);
    if m :| m in ms && m.fwDesc / 4 % 2 != 1 {
      var j :| 0 <= j < |ms| && ms[j] == m;
      assert j in up;
    }
  }
}
