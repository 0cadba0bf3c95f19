/**
 The retry queue of the TXCOMPACT build: frames that HTC refused wait in txnbufq, and are
 offered again in order.
 */
module TxSched {
  import opened Nbufs
  import opened MinMax

  /** adf_nbuf_queue_t: a list of buffers linked through `next`, with both ends and a length. */
  class TxQueue {
    var head: Nbuf?
    var tail: Nbuf?
    var qlen: int
    ghost var items: seq<Nbuf>

    ghost predicate Valid()
      reads this, (set b | b in items)`next
    {
      && Distinct(items) && qlen == |items|
      && Chained(items, null)
      && (if items == [] then head == null && tail == null
          else head == items[0] && tail == items[|items| - 1])
    }

    constructor ()
      ensures Valid() && items == []
    {
      head, tail, qlen, items := null, null, 0, [];
    }

    method Add(b: Nbuf)
      requires Valid() && b !in items
      modifies this, (set i | i in items)`next, b`next
      ensures Valid() && items == old(items) + [b]
    {
      b.next := null;
      if head == null {
        head := b;
      } else {
        tail.next := b;
      }
      tail := b;
      qlen := qlen + 1;
      items := items + [b];
    }

    method InsertHead(b: Nbuf)
      requires Valid() && b !in items
      modifies this, b`next
      ensures Valid() && items == [b] + old(items)
    {
      if head == null {
        tail := b;
      }
      b.next := head;
      head := b;
      qlen := qlen + 1;
      items := [b] + items;
    }

    method Remove() returns (b: Nbuf?)
      requires Valid()
      modifies this, (set i | i in items)`next
      ensures Valid()
      ensures old(items) == [] ==> b == null && items == []
      ensures old(items) != [] ==> b == old(items[0]) && items == old(items)[1..] && b !in items && b.next == null
    {
      b := null;
      if head != null {
        qlen := qlen - 1;
        b := head;
        if head == tail {
          assert items[0] == items[|items| - 1];
          head := null;
          tail := null;
        } else {
          head := b.next;
        }
        b.next := null;
        items := items[1..];
      }
    }
  }

  /** A frame that HTC took, and how many bytes of it were to be downloaded. */
  datatype Frame = Frame(buf: Nbuf, len: int)

  /** HTCSendDataPkt: refuses whichever attempts it likes. */
  class Htc {
    const refuses: iset<nat>
    var attempts: nat
    var sent: seq<Frame>

    constructor (refuses: iset<nat>)
      ensures this.refuses == refuses && attempts == 0 && sent == []
    {
      this.refuses, attempts, sent := refuses, 0, [];
    }

    method SendDataPkt(b: Nbuf, len: int) returns (notAccepted: bool)
      modifies this
      ensures notAccepted == (old(attempts) in refuses) && attempts == old(attempts) + 1
      ensures sent == if notAccepted then old(sent) else old(sent) + [Frame(b, len)]
    {
      notAccepted := (attempts in refuses);
      attempts := attempts + 1;
      if !notAccepted {
        sent := sent + [Frame(b, len)];
      }
    }
  }

  // ---- what the calls do to frames sent, frames waiting, and attempts made ----

  datatype State = State(sent: seq<Nbuf>, queue: seq<Nbuf>, attempts: nat)

  /** How many of `n` frames are taken in a row from this attempt on. */
  function Accepts(refuses: iset<nat>, attempt: nat, n: nat): (k: nat)
    ensures k <= n
    ensures forall j :: attempt <= j < attempt + k ==> j !in refuses
    ensures k < n ==> (attempt + k in refuses)
    decreases n
  {
    if n == 0 || (attempt in refuses) then 0 else 1 + Accepts(refuses, attempt + 1, n - 1)
  }

  /** The number of frames taken is the only one that fits. */
  lemma AcceptsIs(refuses: iset<nat>, attempt: nat, n: nat, k: nat)
    requires k <= n && AllTaken(refuses, attempt, k)
    requires k < n ==> (attempt + k in refuses)
    ensures Accepts(refuses, attempt, n) == k
  {
    var a := Accepts(refuses, attempt, n);
    if a < k {
      AllTakenAt(refuses, attempt, k, a);
    }
  }

  function Drain(refuses: iset<nat>, s: State): State {
    var n := |s.queue|;
    var k := Accepts(refuses, s.attempts, n);
    State(s.sent + s.queue[..k], s.queue[k..], s.attempts + if k < n then k + 1 else k)
  }

  datatype Op = Submit(msdu: Nbuf) | Sched

  /** Submitting is queueing and then draining, whether or not anything was waiting. */
  function Step(refuses: iset<nat>, s: State, op: Op): State {
    match op
    case Submit(b) => Drain(refuses, s.(queue := s.queue + [b]))
    case Sched => Drain(refuses, s)
  }

  function Buffers(fs: seq<Frame>): (bs: seq<Nbuf>)
    ensures |bs| == |fs|
    ensures forall i :: 0 <= i < |fs| ==> bs[i] == fs[i].buf
  {
    seq(|fs|, i requires 0 <= i < |fs| => fs[i].buf)
  }

  lemma BuffersSnoc(fs: seq<Frame>, f: Frame)
    ensures Buffers(fs + [f]) == Buffers(fs) + [f.buf]
  {
  }

  function Lens(bs: seq<Nbuf>): (ls: seq<int>)
    reads (set b | b in bs)`data
    ensures |ls| == |bs|
    ensures forall i :: 0 <= i < |bs| ==> ls[i] == |bs[i].data|
  {
    if bs == [] then [] else Lens(bs[..|bs| - 1]) + [|bs[|bs| - 1].data|]
  }

  twostate lemma {:induction false} SameLens(bs: seq<Nbuf>)
    requires forall b <- bs :: allocated(b) && b.data == old(b.data)
    ensures Lens(bs) == old(Lens(bs))
  {
    if bs != [] {
      SameLens(bs[..|bs| - 1]);
    }
  }

  /** The download length in htt_tx_sched after looking at the first `j` frames. */
  function Shrunk(len: int, lens: seq<int>, j: nat): (r: int)
    requires j <= |lens|
    ensures r <= len && forall i :: 0 <= i < j ==> r <= lens[i]
    ensures r == len || exists i :: 0 <= i < j && r == lens[i]
  {
    if j == 0 then len else Min(Shrunk(len, lens, j - 1), lens[j - 1])
  }

  /** The frames one call hands over when the first `k` are taken. */
  function Batch(len: int, queue: seq<Nbuf>, lens: seq<int>, k: nat): (fs: seq<Frame>)
    requires k <= |queue| == |lens|
    ensures |fs| == k
  {
    if k == 0 then [] else Batch(len, queue, lens, k - 1) + [Frame(queue[k - 1], Shrunk(len, lens, k))]
  }

  lemma {:induction false} BuffersOfBatch(fs: seq<Frame>, len: int, queue: seq<Nbuf>, lens: seq<int>, k: nat)
    requires k <= |queue| == |lens|
    ensures Buffers(fs + Batch(len, queue, lens, k)) == Buffers(fs) + queue[..k]
  {
    if k != 0 {
      BuffersOfBatch(fs, len, queue, lens, k - 1);
      BatchNext(fs, len, queue, lens, k - 1);
    }
  }

  lemma Apart(bs: seq<Nbuf>, k: nat)
    requires k < |bs| && Distinct(bs)
    ensures bs[k] in bs && bs[k] !in bs[k + 1..]
    ensures forall b <- bs[k + 1..] :: b in bs
  {
  }

  lemma Uncons(bs: seq<Nbuf>, k: nat)
    requires k < |bs|
    ensures [bs[k]] + bs[k + 1..] == bs[k..]
  {
  }

  lemma BatchNext(fs: seq<Frame>, len: int, queue: seq<Nbuf>, lens: seq<int>, k: nat)
    requires k < |queue| == |lens|
    ensures Shrunk(len, lens, k + 1) == Min(Shrunk(len, lens, k), lens[k])
    ensures fs + Batch(len, queue, lens, k + 1)
         == fs + Batch(len, queue, lens, k) + [Frame(queue[k], Shrunk(len, lens, k + 1))]
  {
    var f := Frame(queue[k], Shrunk(len, lens, k + 1));
    assert Batch(len, queue, lens, k + 1) == Batch(len, queue, lens, k) + [f];
  }

  ghost predicate AllTaken(refuses: iset<nat>, attempt: nat, k: nat) {
    k == 0 || (attempt + k - 1 !in refuses && AllTaken(refuses, attempt, k - 1))
  }

  lemma {:induction false} AllTakenAt(refuses: iset<nat>, attempt: nat, k: nat, j: nat)
    requires AllTaken(refuses, attempt, k) && j < k
    ensures attempt + j !in refuses
  {
    if j < k - 1 {
      AllTakenAt(refuses, attempt, k - 1, j);
    }
  }

  /** What a call starts from. */
  datatype Call = Call(refuses: iset<nat>, len: int, sent: seq<Frame>, queue: seq<Nbuf>, lens: seq<int>, first: nat)

  /** `k` frames of the call are taken, with the download length now `len`. */
  ghost predicate Sending(c: Call, k: nat, sent: seq<Frame>, attempts: nat, len: int) {
    && k <= |c.queue| == |c.lens|
    && len == Shrunk(c.len, c.lens, k)
    && attempts == c.first + k && AllTaken(c.refuses, c.first, k)
    && sent == c.sent + Batch(c.len, c.queue, c.lens, k)
  }

  lemma SendingStart(c: Call)
    requires |c.queue| == |c.lens|
    ensures Sending(c, 0, c.sent, c.first, c.len)
  {
    assert c.sent + [] == c.sent;
  }

  lemma SendingNext(c: Call, k: nat, sent: seq<Frame>, attempts: nat, len: int)
    requires Sending(c, k, sent, attempts, len) && k < |c.queue|
    ensures attempts !in c.refuses ==>
              Sending(c, k + 1, sent + [Frame(c.queue[k], Min(len, c.lens[k]))], attempts + 1, Min(len, c.lens[k]))
  {
    hide Shrunk, Batch;
    BatchNext(c.sent, c.len, c.queue, c.lens, k);
  }

  /** The call is over, with `k` frames taken. */
  ghost predicate Stopped(c: Call, k: nat, sent: seq<Frame>, attempts: nat) {
    && k <= |c.queue| == |c.lens|
    && Step(c.refuses, State(Buffers(c.sent), c.queue, c.first), Sched) == State(Buffers(sent), c.queue[k..], attempts)
    && sent == c.sent + Batch(c.len, c.queue, c.lens, k)
  }

  lemma StoppedIs(c: Call, k: nat, sent: seq<Frame>, attempts: nat)
    requires Stopped(c, k, sent, attempts)
    ensures k <= |c.queue| == |c.lens|
    ensures Step(c.refuses, State(Buffers(c.sent), c.queue, c.first), Sched)
         == State(Buffers(sent), c.queue[k..], attempts)
    ensures sent == c.sent + Batch(c.len, c.queue, c.lens, k)
  {
  }

  /** Taking `k` frames and then stopping for one of the two reasons is the whole step. */
  lemma SendingEnds(c: Call, k: nat, sent: seq<Frame>, attempts: nat, len: int)
    requires Sending(c, k, sent, attempts, len) && (k < |c.queue| ==> attempts in c.refuses)
    ensures Stopped(c, k, sent, attempts + if k < |c.queue| then 1 else 0)
  {
    hide Shrunk, Batch, Buffers;
    AcceptsIs(c.refuses, c.first, |c.queue|, k);
    BuffersOfBatch(c.sent, c.len, c.queue, c.lens, k);
  }

  class HttTx {
    const q: TxQueue
    const htc: Htc
    const downloadLen: int

    constructor (q: TxQueue, htc: Htc, downloadLen: int)
      ensures this.q == q && this.htc == htc && this.downloadLen == downloadLen
    {
      this.q, this.htc, this.downloadLen := q, htc, downloadLen;
    }

    lemma ValidIs()
      requires q.Valid()
      ensures Distinct(q.items)
    {
    }

    ghost function Value(): State
      reads q, htc
    {
      State(Buffers(htc.sent), q.items, htc.attempts)
    }

    /** `taken` is how many of the waiting frames HTC takes. */
    method Sched() returns (ghost taken: nat)
      requires q.Valid()
      modifies q, htc, (set b | b in q.items)`next
      ensures q.Valid()
      ensures State(Buffers(htc.sent), q.items, htc.attempts)
           == old(Step(htc.refuses, State(Buffers(htc.sent), q.items, htc.attempts), Op.Sched))
      ensures taken <= |old(q.items)|
      ensures htc.sent == old(htc.sent) + Batch(downloadLen, old(q.items), old(Lens(q.items)), taken)
    {
      hide *;
      ghost var c := Call(htc.refuses, downloadLen, htc.sent, q.items, Lens(q.items), htc.attempts);
      taken := 0;
      SendingStart(c);
      ValidIs();
      assert c.queue[0..] == c.queue;
      var len := downloadLen;
      var msdu := TakeNext(c, 0);
      while msdu != null
        invariant Waiting(c, taken, msdu)
        invariant Sending(c, taken, htc.sent, htc.attempts, len)
        decreases |c.queue| - taken
      {
        WaitingIs(c, taken, msdu);
        var notAccepted;
        notAccepted, len := Offer(msdu, len, c, taken);
        if notAccepted {
          StoppedIs(c, taken, htc.sent, htc.attempts);
          PutBack(msdu, c, taken);
          return;
        }
        taken := taken + 1;
        msdu := TakeNext(c, taken);
      }
      WaitingIs(c, taken, msdu);
      SendingEnds(c, taken, htc.sent, htc.attempts, len);
      StoppedIs(c, taken, htc.sent, htc.attempts);
    }

    /** `msdu` is frame number `k` of the call, taken off the queue; null when there are no more. */
    ghost predicate Waiting(c: Call, k: nat, msdu: Nbuf?)
      reads q, (set b | b in q.items)`next, set b | b in c.queue
    {
      && q.Valid() && Distinct(c.queue) && Lens(c.queue) == c.lens && k <= |c.queue|
      && if msdu == null then k == |c.queue| && q.items == []
         else k < |c.queue| && msdu == c.queue[k] && q.items == c.queue[k + 1..]
    }

    lemma WaitingIs(c: Call, k: nat, msdu: Nbuf?)
      requires Waiting(c, k, msdu)
      ensures q.Valid() && k <= |c.queue| == |c.lens| && Distinct(c.queue) && Lens(c.queue) == c.lens
      ensures if msdu == null then k == |c.queue| && q.items == [] && c.queue[k..] == []
              else k < |c.queue| && msdu == c.queue[k] && |msdu.data| == c.lens[k] && q.items == c.queue[k + 1..]
    {
    }

    method TakeNext(ghost c: Call, ghost k: nat) returns (msdu: Nbuf?)
      requires q.Valid() && Distinct(c.queue) && Lens(c.queue) == c.lens
      requires k <= |c.queue| && q.items == c.queue[k..]
      modifies q, (set b | b in c.queue)`next
      ensures Waiting(c, k, msdu)
    {
      hide Distinct, Chained, Lens, TxQueue.Valid;
      msdu := q.Remove();
      SameLens(c.queue);
    }

    method PutBack(msdu: Nbuf, ghost c: Call, ghost k: nat)
      requires Waiting(c, k, msdu)
      modifies q, (set b | b in c.queue)`next
      ensures q.Valid() && k < |c.queue| && q.items == c.queue[k..]
    {
      hide Chained, Lens, TxQueue.Valid;
      Apart(c.queue, k);
      Uncons(c.queue, k);
      q.InsertHead(msdu);
    }

    /** One frame of htt_tx_sched: its download length, and whether HTC takes it. */
    method Offer(msdu: Nbuf, len: int, ghost c: Call, ghost k: nat) returns (notAccepted: bool, r: int)
      requires Waiting(c, k, msdu)
      requires c.refuses == htc.refuses && Sending(c, k, htc.sent, htc.attempts, len)
      modifies htc
      ensures Waiting(c, k, msdu)
      ensures q.Valid() && Distinct(c.queue) && Lens(c.queue) == c.lens && q.items == c.queue[k + 1..]
      ensures if notAccepted then Stopped(c, k, htc.sent, htc.attempts)
              else Sending(c, k + 1, htc.sent, htc.attempts, r)
    {
      hide Buffers, Batch, Step, Sending, Waiting, Lens, TxQueue.Valid, Distinct;
      WaitingIs(c, k, msdu);
      SendingNext(c, k, htc.sent, htc.attempts, len);
      r := len;
      if |msdu.data| < r {
        r := |msdu.data|;
      }
      notAccepted := htc.SendDataPkt(msdu, r);
      if notAccepted {
        SendingEnds(c, k, htc.sent, htc.attempts - 1, len);
      }
      WaitingIs(c, k, msdu);
    }

    /** `taken` is how many of the frames waiting, with this one behind them, HTC takes. */
    method SendStd(msdu: Nbuf) returns (ghost taken: nat)
      requires q.Valid() && msdu !in q.items
      modifies q, htc, (set b | b in q.items)`next, msdu`next
      ensures q.Valid()
      ensures Value() == Step(htc.refuses, old(Value()), Submit(msdu))
      ensures taken <= |old(q.items)| + 1
      ensures htc.sent == old(htc.sent) + Batch(downloadLen, old(q.items) + [msdu],
                                                old(Lens(q.items)) + [|msdu.data|], taken)
    {
      hide Accepts, Buffers, Batch, Chained, Distinct, Lens, Shrunk, Step;
      var len := downloadLen;
      if |msdu.data| < len {
        len := |msdu.data|;
      }
      if 0 < q.qlen {
        LensMore(q.items, msdu);
        q.Add(msdu);
        SameLens(q.items);
        SchedIsSubmit(htc.refuses, old(Value()), msdu);
        taken := Sched();
        return;
      }
      taken := SendDirect(msdu, len);
    }

    /** The fast path: offered at once, queued when HTC refuses it. */
    method SendDirect(msdu: Nbuf, len: int) returns (ghost taken: nat)
      requires q.Valid() && q.items == [] && len == Min(downloadLen, |msdu.data|)
      modifies q, htc, msdu`next
      ensures q.Valid() && taken <= 1
      ensures Value() == Step(htc.refuses, old(Value()), Submit(msdu))
      ensures htc.sent == old(htc.sent) + Batch(downloadLen, old(q.items) + [msdu],
                                                old(Lens(q.items)) + [|msdu.data|], taken)
    {
      hide Accepts, Buffers, Batch, Chained, Distinct, Lens, Shrunk;
      ghost var s := Value();
      OneFrame(downloadLen, msdu, |msdu.data|);
      NoLens();
      var notAccepted := htc.SendDataPkt(msdu, len);
      taken := if notAccepted then 0 else 1;
      AcceptsIs(htc.refuses, s.attempts, 1, taken);
      if notAccepted {
        q.Add(msdu);
        assert s.queue + [msdu] == [msdu];
      } else {
        BuffersSnoc(old(htc.sent), Frame(msdu, len));
      }
    }
  }

  /** What a drain does: the longest prefix that HTC takes goes out, and the attempt that was
      refused, if any, is the last one made. */
  lemma DrainIs(refuses: iset<nat>, s: State)
    ensures var r, a := Step(refuses, s, Sched), s.attempts;
      var k := |r.sent| - |s.sent|;
      && 0 <= k <= |s.queue| && r.sent == s.sent + s.queue[..k] && r.queue == s.queue[k..]
      && (forall j :: a <= j < a + k ==> j !in refuses)
      && (if k < |s.queue| then (a + k in refuses) && r.attempts == a + k + 1 else r.attempts == a + k)
  {
  }

  /** The frames handed over, one by one, with the least length seen so far. */
  lemma {:induction false} BatchIs(len: int, queue: seq<Nbuf>, lens: seq<int>, k: nat, i: nat)
    requires i < k <= |queue| == |lens|
    ensures Batch(len, queue, lens, k)[i] == Frame(queue[i], Shrunk(len, lens, i + 1))
  {
    if i < k - 1 {
      BatchIs(len, queue, lens, k - 1, i);
    }
  }

  lemma SchedIsSubmit(refuses: iset<nat>, s: State, b: Nbuf)
    ensures Step(refuses, s.(queue := s.queue + [b]), Sched) == Step(refuses, s, Submit(b))
  {
  }

  lemma LensMore(bs: seq<Nbuf>, b: Nbuf)
    ensures Lens(bs + [b]) == Lens(bs) + [|b.data|]
  {
  }

  lemma NoLens()
    ensures Lens([]) == []
  {
  }

  /** A frame on its own has its own download length. */
  lemma OneFrame(len: int, b: Nbuf, n: int)
    ensures Batch(len, [] + [b], [] + [n], 0) == [] && Batch(len, [] + [b], [] + [n], 1) == [Frame(b, Min(len, n))]
  {
    assert Shrunk(len, [] + [n], 1) == Min(len, n);
  }

  // ---- whole runs ----

  function Run(refuses: iset<nat>, s: State, ops: seq<Op>): State
    decreases |ops|
  {
    if ops == [] then s else Step(refuses, Run(refuses, s, ops[..|ops| - 1]), ops[|ops| - 1])
  }

  function Submitted(ops: seq<Op>): seq<Nbuf>
    decreases |ops|
  {
    if ops == [] then []
    else Submitted(ops[..|ops| - 1]) + (if ops[|ops| - 1].Submit? then [ops[|ops| - 1].msdu] else [])
  }

  /** Frames sent and then frames waiting are the frames submitted, in order. */
  lemma {:induction false} OrderIsKept(refuses: iset<nat>, ops: seq<Op>)
    ensures var r := Run(refuses, State([], [], 0), ops); r.sent + r.queue == Submitted(ops)
    decreases |ops|
  {
    hide Accepts;
    if ops != [] {
      OrderIsKept(refuses, ops[..|ops| - 1]);
      var s := Run(refuses, State([], [], 0), ops[..|ops| - 1]);
      StepKeepsOrder(refuses, s, ops[|ops| - 1]);
    }
  }

  lemma StepKeepsOrder(refuses: iset<nat>, s: State, op: Op)
    ensures var r := Step(refuses, s, op);
            r.sent + r.queue == s.sent + s.queue + (if op.Submit? then [op.msdu] else [])
  {
    var queue := s.queue + if op.Submit? then [op.msdu] else [];
    var k := Accepts(refuses, s.attempts, |queue|);
    assert queue == queue[..k] + queue[k..];
  }

  /** Frames wait only because the last attempt was refused. */
  lemma {:induction false} WaitingMeansRefused(refuses: iset<nat>, ops: seq<Op>)
    ensures var r := Run(refuses, State([], [], 0), ops);
            r.queue != [] ==> 0 < r.attempts && (r.attempts - 1 in refuses)
    decreases |ops|
  {
    hide Accepts;
    if ops != [] {
      var s := Run(refuses, State([], [], 0), ops[..|ops| - 1]);
      WaitingMeansRefused(refuses, ops[..|ops| - 1]);
      var n := |s.queue| + if ops[|ops| - 1].Submit? then 1 else 0;
      assert Accepts(refuses, s.attempts, n) < n ==> s.attempts + Accepts(refuses, s.attempts, n) in refuses;
    }
  }

  /** Every frame of a call keeps its own download length exactly when these never grow. */
  lemma OwnLengthIff(len: int, lens: seq<int>)
    ensures (forall j :: 0 <= j < |lens| ==> Shrunk(len, lens, j + 1) == Min(len, lens[j]))
       <==> (forall i, j :: 0 <= i < j < |lens| ==> Min(len, lens[j]) <= Min(len, lens[i]))
  {
    if forall j :: 0 <= j < |lens| ==> Shrunk(len, lens, j + 1) == Min(len, lens[j]) {
      forall i, j | 0 <= i < j < |lens| ensures Min(len, lens[j]) <= Min(len, lens[i]) {
        assert Shrunk(len, lens, j + 1) == Min(len, lens[j]);
      }
    }
  }
}
