/**
 htt_tx_send_std and htt_tx_sched in several threads at once.  The mutex of the retry queue
 covers single queue operations only: a frame that is being offered to HTC is in no queue, and
 what htt_tx_send_std does about the length of the queue it does after reading it.
 */
module TxSchedThreads {
  import opened Nbufs
  import opened Multisets

  /** Frames are told apart by number. */
  type Frame = nat

  datatype Hand =
    | Empty
    | Behind(frame: Frame)    // in htt_tx_send_std, which has seen frames waiting
    | Fresh(frame: Frame)     // in htt_tx_send_std, which has seen none and offers it to HTC
    | Retry(frame: Frame)     // taken off the queue by htt_tx_sched and offered to HTC

  datatype State = State(sent: seq<Frame>, queue: seq<Frame>, hands: seq<Hand>)

  datatype Step =
    | Look(t: nat, frame: Frame)    // htt_tx_send_std reads the length of the queue
    | Enqueue(t: nat)
    | Take(t: nat)
    | Accepted(t: nat)
    | Refused(t: nat)

  predicate Offering(h: Hand) { h.Fresh? || h.Retry? }

  predicate Enabled(s: State, e: Step) {
    && e.t < |s.hands|
    && match e
       case Look(t, _) => s.hands[t].Empty?
       case Enqueue(t) => s.hands[t].Behind?
       case Take(t) => s.hands[t].Empty? && s.queue != []
       case _ => Offering(s.hands[e.t])
  }

  function Next(s: State, e: Step): (r: State)
    requires Enabled(s, e)
    ensures |r.hands| == |s.hands|
  {
    match e
    case Look(t, f) => s.(hands := s.hands[t := if s.queue != [] then Behind(f) else Fresh(f)])
    case Enqueue(t) => s.(queue := s.queue + [s.hands[t].frame], hands := s.hands[t := Empty])
    case Take(t) => s.(queue := s.queue[1..], hands := s.hands[t := Retry(s.queue[0])])
    case Accepted(t) => s.(sent := s.sent + [s.hands[t].frame], hands := s.hands[t := Empty])
    case Refused(t) =>
      var f := s.hands[t].frame;
      s.(queue := if s.hands[t].Fresh? then s.queue + [f] else [f] + s.queue, hands := s.hands[t := Empty])
  }

  /** A thread that nobody comes between sends its frame or queues it, and offers the front of the
      queue, which goes out or stays where it was. */
  lemma OneAlone(s: State, t: nat, f: Frame)
    requires t < |s.hands| && s.hands[t].Empty?
    ensures var a := Next(s, Look(t, f));
      if s.queue == [] then
        && Enabled(a, Accepted(t)) && Next(a, Accepted(t)) == s.(sent := s.sent + [f])
        && Enabled(a, Refused(t)) && Next(a, Refused(t)) == s.(queue := [f])
      else Enabled(a, Enqueue(t)) && Next(a, Enqueue(t)) == s.(queue := s.queue + [f])
    ensures s.queue != [] ==>
      var a := Next(s, Take(t));
      && Enabled(a, Accepted(t)) && Next(a, Accepted(t)) == s.(sent := s.sent + [s.queue[0]], queue := s.queue[1..])
      && Enabled(a, Refused(t)) && Next(a, Refused(t)) == s
  {
    assert s.queue != [] ==> s.queue == [s.queue[0]] + s.queue[1..];
  }

  /** A run: each step is enabled where it is taken. */
  ghost predicate Run(s: State, es: seq<Step>)
    decreases |es|
  {
    es == [] || (Enabled(s, es[0]) && Run(Next(s, es[0]), es[1..]))
  }

  ghost function Final(s: State, es: seq<Step>): State
    requires Run(s, es)
    decreases |es|
  {
    if es == [] then s else Final(Next(s, es[0]), es[1..])
  }

  function Start(threads: nat): State { State([], [], seq(threads, _ => Empty)) }

  /** The frame that a step brings in. */
  function New(e: Step): (fs: seq<Frame>)
    ensures |fs| <= 1
  {
    if e.Look? then [e.frame] else []
  }

  function Submitted(es: seq<Step>): seq<Frame> {
    if es == [] then [] else New(es[0]) + Submitted(es[1..])
  }

  /** The frames in hands, by thread: those on offer, or those still to be queued. */
  function Held(hands: seq<Hand>, offer: bool): (fs: seq<Frame>)
    ensures |fs| <= |hands|
  {
    if hands == [] then [] else One(hands[0], offer) + Held(hands[1..], offer)
  }

  function One(h: Hand, offer: bool): seq<Frame> {
    if (offer && Offering(h)) || (!offer && h.Behind?) then [h.frame] else []
  }

  lemma {:induction false} HeldUpdate(hands: seq<Hand>, t: nat, h: Hand, offer: bool)
    requires t < |hands|
    ensures multiset(Held(hands[t := h], offer)) + multiset(One(hands[t], offer))
         == multiset(Held(hands, offer)) + multiset(One(h, offer))
  {
    hide One;
    var rest := multiset(Held(hands[1..], offer));
    var first := multiset(One(hands[0], offer));
    if t == 0 {
      assert hands[0 := h][1..] == hands[1..];
      Regroup(multiset(One(h, offer)), rest, first);
      Regroup(first, rest, multiset(One(h, offer)));
    } else {
      assert hands[t := h][1..] == hands[1..][t - 1 := h];
      HeldUpdate(hands[1..], t - 1, h, offer);
      Regroup(first, multiset(Held(hands[1..][t - 1 := h], offer)), multiset(One(hands[t], offer)));
      Regroup(first, rest, multiset(One(h, offer)));
    }
  }

  function Sum(a: multiset<Frame>, b: multiset<Frame>, c: multiset<Frame>, d: multiset<Frame>): multiset<Frame> {
    a + b + c + d
  }

  function All(s: State): multiset<Frame> {
    Sum(multiset(s.sent), multiset(s.queue), multiset(Held(s.hands, true)), multiset(Held(s.hands, false)))
  }

  lemma Ends(fs: seq<Frame>, f: Frame)
    ensures multiset(fs + [f]) == multiset(fs) + multiset{f} && multiset([f] + fs) == multiset(fs) + multiset{f}
    ensures fs != [] ==> multiset(fs) == multiset(fs[1..]) + multiset{fs[0]}
  {
    assert fs != [] ==> fs == [fs[0]] + fs[1..];
  }

  /** Which of the four places a frame is counted in makes no difference. */
  lemma AnyPlace(a: multiset<Frame>, b: multiset<Frame>, c: multiset<Frame>, d: multiset<Frame>, x: multiset<Frame>)
    ensures Sum(a + x, b, c, d) == Sum(a, b, c, d) + x
    ensures Sum(a, b + x, c, d) == Sum(a, b, c, d) + x
    ensures Sum(a, b, c + x, d) == Sum(a, b, c, d) + x
    ensures Sum(a, b, c, d + x) == Sum(a, b, c, d) + x
  {
  }

  lemma HandTakes(hands: seq<Hand>, t: nat, h: Hand, offer: bool)
    requires t < |hands| && hands[t].Empty? && !h.Empty?
    ensures multiset(Held(hands[t := h], offer)) ==
              if Offering(h) == offer then multiset(Held(hands, offer)) + multiset{h.frame}
              else multiset(Held(hands, offer))
  {
    hide Held, One;
    HeldUpdate(hands, t, h, offer);
    OneBag(hands[t], offer);
    OneBag(h, offer);
    Zero(multiset(Held(hands, offer)), multiset(Held(hands[t := h], offer)));
  }

  lemma OneBag(h: Hand, offer: bool)
    ensures multiset(One(h, offer)) == if !h.Empty? && Offering(h) == offer then multiset{h.frame} else multiset{}
  {
  }

  lemma Zero(a: multiset<Frame>, b: multiset<Frame>)
    ensures a + multiset{} == a && b + multiset{} == b
  {
  }

  lemma HandGives(hands: seq<Hand>, t: nat, offer: bool)
    requires t < |hands| && !hands[t].Empty?
    ensures multiset(Held(hands, offer)) ==
              if Offering(hands[t]) == offer then multiset(Held(hands[t := Empty], offer)) + multiset{hands[t].frame}
              else multiset(Held(hands[t := Empty], offer))
  {
    hide Held, One;
    HeldUpdate(hands, t, Empty, offer);
    OneBag(hands[t], offer);
    OneBag(Empty, offer);
    Zero(multiset(Held(hands, offer)), multiset(Held(hands[t := Empty], offer)));
  }

  /** A frame comes into a hand, or goes out of one. */
  lemma HandStep(s: State, e: Step)
    requires Enabled(s, e)
    ensures var r, f := Next(s, e), Moved(s, e);
            var takes := e.Look? || e.Take?;
            var a, b := (if takes then s.hands else r.hands), if takes then r.hands else s.hands;
            if Offering(b[e.t])
            then && multiset(Held(b, true)) == multiset(Held(a, true)) + multiset{f}
                 && multiset(Held(b, false)) == multiset(Held(a, false))
            else && multiset(Held(b, false)) == multiset(Held(a, false)) + multiset{f}
                 && multiset(Held(b, true)) == multiset(Held(a, true))
  {
    hide Held;
    var r := Next(s, e);
    if e.Look? || e.Take? {
      HandTakes(s.hands, e.t, r.hands[e.t], true);
      HandTakes(s.hands, e.t, r.hands[e.t], false);
    } else {
      HandGives(s.hands, e.t, true);
      HandGives(s.hands, e.t, false);
    }
  }

  /** The frame that a step is about. */
  function Moved(s: State, e: Step): Frame
    requires Enabled(s, e)
  {
    match e
    case Look(_, f) => f
    case Take(_) => s.queue[0]
    case _ => s.hands[e.t].frame
  }

  lemma StepConserves(s: State, e: Step)
    requires Enabled(s, e)
    ensures All(Next(s, e)) == All(s) + multiset(New(e))
  {
    hide Held, Sum;
    var r, f := Next(s, e), Moved(s, e);
    HandStep(s, e);
    Ends(s.queue, f);
    Ends(s.sent, f);
    var least := if e.Look? || e.Take? then s.hands else r.hands;
    var x, y := multiset(Held(least, true)), multiset(Held(least, false));
    AnyPlace(multiset(s.sent), multiset(if e.Take? then r.queue else s.queue), x, y, multiset{f});
  }

  lemma {:induction false} RunConserves(s: State, es: seq<Step>)
    requires Run(s, es)
    ensures All(Final(s, es)) == All(s) + multiset(Submitted(es))
    decreases |es|
  {
    if es != [] {
      hide All;
      StepConserves(s, es[0]);
      RunConserves(Next(s, es[0]), es[1..]);
      Regroup(All(s), multiset(New(es[0])), multiset(Submitted(es[1..])));
    }
  }

  /** For any number of threads and every interleaving, no frame is lost and none is sent twice. */
  lemma NothingLost(threads: nat, es: seq<Step>)
    requires Run(Start(threads), es)
    ensures All(Final(Start(threads), es)) == multiset(Submitted(es))
  {
    NoneHeld(threads);
    RunConserves(Start(threads), es);
  }

  lemma NoneHeld(threads: nat)
    ensures Held(Start(threads).hands, true) == [] && Held(Start(threads).hands, false) == []
  {
    NoneIn(Start(threads).hands, true);
    NoneIn(Start(threads).hands, false);
  }

  // ---- order ----

  /** The steps that leave the frames in order.  Everything else a thread may do breaks it. */
  predicate Quiet(s: State, e: Step) {
    match e
    case Look(_, _) =>
      if s.queue != [] then Nobody(s.hands, false) else Nobody(s.hands, true) && Nobody(s.hands, false)
    case Enqueue(_) => forall t :: 0 <= t < |s.hands| ==> !s.hands[t].Fresh?
    case Take(_) => Nobody(s.hands, true)
    case _ => true
  }

  /** No hand has a frame on offer, or still to be queued. */
  predicate Nobody(hands: seq<Hand>, offer: bool) {
    forall t :: 0 <= t < |hands| ==> One(hands[t], offer) == []
  }

  ghost predicate AllQuiet(s: State, es: seq<Step>)
    requires Run(s, es)
    decreases |es|
  {
    es == [] || (Quiet(s, es[0]) && AllQuiet(Next(s, es[0]), es[1..]))
  }

  /** What can follow when nothing more is submitted and the threads offer frames one at a time. */
  ghost predicate Drain(s: State, ks: seq<Step>): (d: bool)
    ensures d ==> Run(s, ks)
    decreases |ks|
  {
    ks == [] || (Enabled(s, ks[0]) && !ks[0].Look? && Quiet(s, ks[0]) && Drain(Next(s, ks[0]), ks[1..]))
  }

  /** However the frames drain, they go out in the order they came. */
  ghost predicate Safe(s: State, submitted: seq<Frame>) {
    forall ks :: Drain(s, ks) ==> Final(s, ks).sent <= submitted
  }

  /** After each step of the run. */
  ghost predicate SafeThroughout(s: State, submitted: seq<Frame>, es: seq<Step>)
    requires Run(s, es)
    decreases |es|
  {
    && Safe(s, submitted)
    && (es != [] ==> SafeThroughout(Next(s, es[0]), submitted + New(es[0]), es[1..]))
  }

  /** The frames in the order in which they are to go out. */
  function Line(s: State): seq<Frame> { s.sent + Held(s.hands, true) + s.queue + Held(s.hands, false) }

  /** One frame on offer at most, and one still to be queued; a fresh one has none waiting. */
  ghost predicate InOrder(s: State, submitted: seq<Frame>) {
    && |Held(s.hands, true)| <= 1 && |Held(s.hands, false)| <= 1
    && Line(s) == submitted
    && (forall t :: 0 <= t < |s.hands| && s.hands[t].Fresh? ==> s.queue == [])
  }

  lemma NobodyFirst(hands: seq<Hand>, offer: bool)
    requires hands != []
    ensures Nobody(hands, offer) <==> One(hands[0], offer) == [] && Nobody(hands[1..], offer)
  {
    assert forall t :: 1 <= t < |hands| ==> hands[t] == hands[1..][t - 1];
  }

  lemma {:induction false} NoneIn(hands: seq<Hand>, offer: bool)
    ensures Held(hands, offer) == [] <==> Nobody(hands, offer)
  {
    if hands != [] {
      NoneIn(hands[1..], offer);
      NobodyFirst(hands, offer);
    }
  }

  lemma {:induction false} HeldOf(hands: seq<Hand>, t: nat, offer: bool)
    requires t < |hands| && One(hands[t], offer) != []
    ensures 1 <= |Held(hands, offer)|
    ensures |Held(hands, offer)| == 1 ==> Held(hands, offer) == [hands[t].frame]
    ensures |Held(hands, offer)| == 1 <==> Nobody(hands[t := Empty], offer)
  {
    NobodyFirst(hands[t := Empty], offer);
    if t == 0 {
      NoneIn(hands[1..], offer);
      assert hands[0 := Empty][1..] == hands[1..];
    } else {
      HeldOf(hands[1..], t - 1, offer);
      assert hands[t := Empty][1..] == hands[1..][t - 1 := Empty];
    }
  }

  /** A hand that has nothing of the kind makes no difference. */
  lemma {:induction false} HeldSame(hands: seq<Hand>, t: nat, h: Hand, offer: bool)
    requires t < |hands| && One(hands[t], offer) == [] && One(h, offer) == []
    ensures Held(hands[t := h], offer) == Held(hands, offer)
    ensures Nobody(hands[t := h], offer) <==> Nobody(hands, offer)
  {
    NobodyFirst(hands[t := h], offer);
    NobodyFirst(hands, offer);
    if t == 0 {
      assert hands[0 := h][1..] == hands[1..];
    } else {
      assert hands[t := h][1..] == hands[1..][t - 1 := h];
      HeldSame(hands[1..], t - 1, h, offer);
    }
  }

  /** From a state in order, the quiet steps are exactly those that lead to one. */
  lemma StepInOrderIff(s: State, e: Step, submitted: seq<Frame>)
    requires Enabled(s, e) && InOrder(s, submitted) && Distinct(submitted + New(e))
    ensures InOrder(Next(s, e), submitted + New(e)) <==> Quiet(s, e)
  {
    hide InOrder, Quiet;
    match e {
      case Look(t, f) => LookInOrderIff(s, t, f, submitted);
      case Enqueue(t) => EnqueueInOrderIff(s, t, submitted);
      case Take(t) => TakeInOrderIff(s, t, submitted);
      case _ => OfferKeepsOrder(s, e, submitted);
    }
    assert !e.Look? ==> submitted + New(e) == submitted;
  }

  lemma LookInOrderIff(s: State, t: nat, f: Frame, submitted: seq<Frame>)
    requires Enabled(s, Look(t, f)) && InOrder(s, submitted) && Distinct(submitted + [f])
    ensures InOrder(Next(s, Look(t, f)), submitted + [f]) <==> Quiet(s, Look(t, f))
  {
    hide Held, Nobody;
    var r := Next(s, Look(t, f));
    NoneIn(s.hands, true);
    NoneIn(s.hands, false);
    assert r.hands[t := Empty] == s.hands;
    HeldOf(r.hands, t, s.queue == []);
    HeldSame(s.hands, t, r.hands[t], s.queue != []);
    LookAt(s, t, f, submitted);
  }

  lemma EnqueueInOrderIff(s: State, t: nat, submitted: seq<Frame>)
    requires Enabled(s, Enqueue(t)) && InOrder(s, submitted)
    ensures InOrder(Next(s, Enqueue(t)), submitted) <==> Quiet(s, Enqueue(t))
  {
    hide Held, Nobody;
    var r := Next(s, Enqueue(t));
    HeldOf(s.hands, t, false);
    HeldSame(s.hands, t, Empty, true);
    NoneIn(r.hands, false);
    assert forall u :: 0 <= u < |s.hands| ==> (r.hands[u].Fresh? <==> s.hands[u].Fresh?);
    assert Line(r) == submitted;
  }

  lemma TakeInOrderIff(s: State, t: nat, submitted: seq<Frame>)
    requires Enabled(s, Take(t)) && InOrder(s, submitted)
    ensures InOrder(Next(s, Take(t)), submitted) <==> Quiet(s, Take(t))
  {
    hide Held, Nobody;
    var r := Next(s, Take(t));
    NoneIn(s.hands, true);
    assert r.hands[t := Empty] == s.hands;
    HeldOf(r.hands, t, true);
    HeldSame(s.hands, t, r.hands[t], false);
    assert s.queue == [s.queue[0]] + s.queue[1..];
  }

  lemma OfferKeepsOrder(s: State, e: Step, submitted: seq<Frame>)
    requires Enabled(s, e) && (e.Accepted? || e.Refused?) && InOrder(s, submitted)
    ensures InOrder(Next(s, e), submitted) && Quiet(s, e)
  {
    hide Held, Nobody;
    var r := Next(s, e);
    HeldOf(s.hands, e.t, true);
    HeldSame(s.hands, e.t, Empty, false);
    NoneIn(r.hands, true);
    NotFresh(r.hands);
    assert Line(r) == submitted;
  }

  /** A fresh frame does not go before one that is still to be queued. */
  lemma LookAt(s: State, t: nat, f: Frame, submitted: seq<Frame>)
    requires Line(s) == submitted && Distinct(submitted + [f])
    ensures s.queue == [] && Held(s.hands, true) == [] && Held(s.hands, false) != [] ==>
              s.sent + [f] + Held(s.hands, false) != submitted + [f]
  {
    hide Held;
    var b := Held(s.hands, false);
    if s.queue == [] && Held(s.hands, true) == [] && b != [] {
      assert submitted == s.sent + b;
      assert (submitted + [f])[|s.sent|] == b[0] && (submitted + [f])[|submitted|] == f;
      assert (s.sent + [f] + b)[|s.sent|] == f;
    }
  }

  // ---- draining ----

  lemma {:induction false} DrainKeepsOrder(s: State, submitted: seq<Frame>, ks: seq<Step>)
    requires InOrder(s, submitted) && Drain(s, ks) && Distinct(submitted)
    ensures InOrder(Final(s, ks), submitted)
    decreases |ks|
  {
    if ks != [] {
      assert submitted + New(ks[0]) == submitted;
      StepInOrderIff(s, ks[0], submitted);
      DrainKeepsOrder(Next(s, ks[0]), submitted, ks[1..]);
    }
  }

  /** One more step in front of a drain. */
  lemma DrainMore(s: State, e: Step, ks: seq<Step>)
    requires Enabled(s, e) && !e.Look? && Quiet(s, e) && Drain(Next(s, e), ks)
    ensures Drain(s, [e] + ks) && Final(s, [e] + ks) == Final(Next(s, e), ks)
  {
    assert ([e] + ks)[0] == e && ([e] + ks)[1..] == ks;
  }

  /** Safety is kept by one more step of a drain. */
  lemma SafeNext(s: State, e: Step, submitted: seq<Frame>)
    requires Safe(s, submitted) && Enabled(s, e) && !e.Look? && Quiet(s, e)
    ensures Safe(Next(s, e), submitted)
  {
    forall ks | Drain(Next(s, e), ks) ensures Final(Next(s, e), ks).sent <= submitted {
      DrainMore(s, e, ks);
    }
  }

  /** A frame on offer can go out next. */
  lemma CanAccept(s: State, t: nat, submitted: seq<Frame>)
    requires t < |s.hands| && Offering(s.hands[t]) && Safe(s, submitted)
    ensures s.sent + [s.hands[t].frame] <= submitted
  {
    DrainMore(s, Accepted(t), []);
    assert Final(s, [Accepted(t)] + []).sent <= submitted;
  }

  /** A thread with an empty hand can send all the frames waiting. */
  lemma {:induction false} Flush(s: State, t: nat) returns (ks: seq<Step>)
    requires t < |s.hands| && s.hands[t].Empty? && Nobody(s.hands, true)
    ensures Drain(s, ks) && Final(s, ks).sent == s.sent + s.queue
    decreases |s.queue|
  {
    if s.queue == [] {
      ks := [];
    } else {
      var s1 := Next(s, Take(t));
      var s2 := Next(s1, Accepted(t));
      assert s2.hands == s.hands;
      ks := Flush(s2, t);
      DrainMore(s1, Accepted(t), ks);
      DrainMore(s, Take(t), [Accepted(t)] + ks);
      ks := [Take(t)] + ([Accepted(t)] + ks);
      assert s.queue == [s.queue[0]] + s.queue[1..];
    }
  }

  lemma SafeFlush(s: State, t: nat, submitted: seq<Frame>)
    requires t < |s.hands| && s.hands[t].Empty? && Nobody(s.hands, true) && Safe(s, submitted)
    ensures s.sent + s.queue <= submitted
  {
    var ks := Flush(s, t);
  }

  lemma {:induction false} CountsOnce(fs: seq<Frame>, f: Frame)
    requires Distinct(fs)
    ensures multiset(fs)[f] <= 1
  {
    if fs != [] {
      CountsOnce(fs[1..], f);
      assert fs == [fs[0]] + fs[1..];
      assert fs[0] !in fs[1..];
    }
  }

  /** The same frame in two hands of one kind, or in a hand and in the queue, counts twice. */
  lemma Twice(s: State, t: nat, u: nat, offer: bool)
    requires t < |s.hands| && One(s.hands[t], offer) != []
    ensures u < |s.hands| && u != t && One(s.hands[u], offer) != [] && s.hands[u].frame == s.hands[t].frame ==>
              2 <= All(s)[s.hands[t].frame]
    ensures s.hands[t].frame in s.queue ==> 2 <= All(s)[s.hands[t].frame]
  {
    hide Held;
    HandGives(s.hands, t, offer);
    var rest := s.hands[t := Empty];
    if u < |s.hands| && u != t && One(s.hands[u], offer) != [] {
      HandGives(rest, u, offer);
    }
  }

  /** A second frame of a kind. */
  lemma Another(hands: seq<Hand>, offer: bool) returns (t: nat, u: nat)
    requires 1 < |Held(hands, offer)|
    ensures t < |hands| && u < |hands| && t != u && One(hands[t], offer) != [] && One(hands[u], offer) != []
  {
    hide Held;
    NoneIn(hands, offer);
    t :| 0 <= t < |hands| && One(hands[t], offer) != [];
    HeldOf(hands, t, offer);
    u :| 0 <= u < |hands| && One(hands[t := Empty][u], offer) != [];
  }

  lemma SafeHoldsOne(s: State, submitted: seq<Frame>)
    requires Safe(s, submitted) && All(s) == multiset(submitted) && Distinct(submitted)
    ensures |Held(s.hands, true)| <= 1
  {
    hide Safe, All, Held;
    if 1 < |Held(s.hands, true)| {
      var t, u := Another(s.hands, true);
      CanAccept(s, t, submitted);
      CanAccept(s, u, submitted);
      assert s.hands[u].frame == submitted[|s.sent|] == s.hands[t].frame;
      Twice(s, t, u, true);
      CountsOnce(submitted, s.hands[t].frame);
      assert false;
    }
  }

  /** The frame on offer, if there is one, goes out; nothing else changes. */
  lemma Clear(s: State, submitted: seq<Frame>) returns (r: State)
    requires Safe(s, submitted) && |Held(s.hands, true)| <= 1
    ensures Safe(r, submitted) && Nobody(r.hands, true) && |r.hands| == |s.hands|
    ensures r.sent == s.sent + Held(s.hands, true) && r.queue == s.queue
    ensures Held(r.hands, false) == Held(s.hands, false)
    ensures forall t :: 0 <= t < |s.hands| ==> r.hands[t] == if Offering(s.hands[t]) then Empty else s.hands[t]
  {
    hide Safe, Held;
    NoneIn(s.hands, true);
    r := s;
    if !Nobody(s.hands, true) {
      var t :| 0 <= t < |s.hands| && One(s.hands[t], true) != [];
      HeldOf(s.hands, t, true);
      HeldSame(s.hands, t, Empty, false);
      SafeNext(s, Accepted(t), submitted);
      r := Next(s, Accepted(t));
      assert forall u :: 0 <= u < |s.hands| && u != t ==> One(r.hands[u], true) == [];
    } else {
      assert forall t :: 0 <= t < |s.hands| && Offering(s.hands[t]) ==> One(s.hands[t], true) != [];
    }
  }

  /** Two frames still to be queued can be queued in this order. */
  lemma CanQueueBoth(s: State, t: nat, u: nat, submitted: seq<Frame>)
    requires Safe(s, submitted) && Nobody(s.hands, true) && t != u
    requires t < |s.hands| && u < |s.hands| && s.hands[t].Behind? && s.hands[u].Behind?
    ensures s.sent + s.queue + [s.hands[t].frame, s.hands[u].frame] <= submitted
  {
    hide Safe;
    NotFresh(s.hands);
    var s1 := Next(s, Enqueue(t));
    SafeNext(s, Enqueue(t), submitted);
    var s2 := Next(s1, Enqueue(u));
    SafeNext(s1, Enqueue(u), submitted);
    SafeFlush(s2, t, submitted);
    assert s2.sent + s2.queue == s.sent + s.queue + [s.hands[t].frame, s.hands[u].frame];
  }

  lemma NotFresh(hands: seq<Hand>)
    requires Nobody(hands, true)
    ensures forall t :: 0 <= t < |hands| ==> !hands[t].Fresh?
  {
    assert forall t :: 0 <= t < |hands| && hands[t].Fresh? ==> One(hands[t], true) != [];
  }

  lemma SafeQueuesOne(s: State, submitted: seq<Frame>)
    requires Safe(s, submitted) && All(s) == multiset(submitted) && Distinct(submitted) && |Held(s.hands, true)| <= 1
    ensures |Held(s.hands, false)| <= 1
  {
    hide Safe, All, Held;
    if 1 < |Held(s.hands, false)| {
      var t, u := Another(s.hands, false);
      var r := Clear(s, submitted);
      CanQueueBoth(r, t, u, submitted);
      CanQueueBoth(r, u, t, submitted);
      var n := |r.sent + r.queue|;
      assert (r.sent + r.queue + [r.hands[t].frame, r.hands[u].frame])[n] == submitted[n] == r.hands[t].frame;
      assert (r.sent + r.queue + [r.hands[u].frame, r.hands[t].frame])[n] == submitted[n] == r.hands[u].frame;
      Twice(s, t, u, false);
      CountsOnce(submitted, s.hands[t].frame);
      assert false;
    }
  }

  lemma SafeFreshIsLast(s: State, submitted: seq<Frame>, t: nat)
    requires Safe(s, submitted) && All(s) == multiset(submitted) && Distinct(submitted) && |Held(s.hands, true)| <= 1
    requires t < |s.hands| && s.hands[t].Fresh?
    ensures s.queue == []
  {
    hide Safe, All, Held;
    CanAccept(s, t, submitted);
    HeldOf(s.hands, t, true);
    var r := Next(s, Refused(t));
    SafeNext(s, Refused(t), submitted);
    SafeFlush(r, t, submitted);
    if s.queue != [] {
      assert r.queue[0] == s.queue[0] && (r.sent + r.queue)[|s.sent|] == s.queue[0];
      assert s.queue[0] == submitted[|s.sent|] == s.hands[t].frame;
      Twice(s, t, t, true);
      CountsOnce(submitted, s.hands[t].frame);
      assert false;
    }
  }

  lemma SafeIsComplete(s: State, submitted: seq<Frame>)
    requires Safe(s, submitted) && All(s) == multiset(submitted) && s.hands != []
    requires |Held(s.hands, true)| <= 1 && |Held(s.hands, false)| <= 1
    ensures Line(s) == submitted
  {
    hide Safe, Held;
    var r := Clear(s, submitted);
    NoneIn(r.hands, false);
    if Nobody(r.hands, false) {
      assert r.hands[0].Empty? by { assert One(r.hands[0], true) == [] && One(r.hands[0], false) == []; }
      SafeFlush(r, 0, submitted);
      assert Line(s) == r.sent + r.queue;
    } else {
      var t :| 0 <= t < |r.hands| && One(r.hands[t], false) != [];
      HeldOf(r.hands, t, false);
      NotFresh(r.hands);
      SafeNext(r, Enqueue(t), submitted);
      SafeFlush(Next(r, Enqueue(t)), t, submitted);
      assert Line(s) == r.sent + (r.queue + [r.hands[t].frame]);
    }
    assert |Line(s)| == |All(s)| == |multiset(submitted)| == |submitted|;
  }

  /** A state is safe exactly when it is in order. */
  lemma SafeIff(s: State, submitted: seq<Frame>)
    requires All(s) == multiset(submitted) && Distinct(submitted) && s.hands != []
    ensures Safe(s, submitted) <==> InOrder(s, submitted)
  {
    hide All, Held, Quiet;
    if InOrder(s, submitted) {
      forall ks | Drain(s, ks) ensures Final(s, ks).sent <= submitted {
        DrainKeepsOrder(s, submitted, ks);
      }
    }
    if Safe(s, submitted) {
      SafeHoldsOne(s, submitted);
      SafeQueuesOne(s, submitted);
      SafeIsComplete(s, submitted);
      forall t | 0 <= t < |s.hands| && s.hands[t].Fresh? ensures s.queue == [] {
        SafeFreshIsLast(s, submitted, t);
      }
    }
  }

  lemma DistinctPrefix(a: seq<Frame>, b: seq<Frame>)
    requires Distinct(a + b)
    ensures Distinct(a)
  {
    assert forall i :: 0 <= i < |a| ==> (a + b)[i] == a[i];
  }

  lemma {:induction false} QuietIff(s: State, submitted: seq<Frame>, es: seq<Step>)
    requires Run(s, es) && InOrder(s, submitted) && s.hands != []
    requires All(s) == multiset(submitted) && Distinct(submitted + Submitted(es))
    ensures AllQuiet(s, es) <==> SafeThroughout(s, submitted, es)
    decreases |es|
  {
    hide All, Safe, InOrder, Quiet, Distinct;
    DistinctPrefix(submitted, Submitted(es));
    SafeIff(s, submitted);
    if es != [] {
      var r, more := Next(s, es[0]), submitted + New(es[0]);
      StepConserves(s, es[0]);
      assert submitted + Submitted(es) == more + Submitted(es[1..]);
      DistinctPrefix(more, Submitted(es[1..]));
      StepInOrderIff(s, es[0], submitted);
      SafeIff(r, more);
      if Quiet(s, es[0]) {
        QuietIff(r, more, es[1..]);
      }
    }
  }

  lemma StartInOrder(threads: nat)
    ensures InOrder(Start(threads), []) && All(Start(threads)) == multiset{}
  {
    NoneHeld(threads);
  }

  /**
   For any number of threads and every interleaving, with the frames told apart: each step is
   quiet exactly when after each step, however the threads go on offering one at a time, the
   frames go out in the order of submission.
   */
  lemma OrderIff(threads: nat, es: seq<Step>)
    requires Run(Start(threads), es) && Distinct(Submitted(es))
    ensures AllQuiet(Start(threads), es) <==> SafeThroughout(Start(threads), [], es)
  {
    if threads == 0 {
      assert es == [];
      forall ks | Drain(Start(0), ks) ensures Final(Start(0), ks).sent <= [] {
        assert ks == [];
      }
    } else {
      StartInOrder(threads);
      assert [] + Submitted(es) == Submitted(es);
      QuietIff(Start(threads), [], es);
    }
  }

  // ---- one thread ----

  lemma {:induction false} OneThreadQuiet(s: State, es: seq<Step>)
    requires |s.hands| == 1 && Run(s, es)
    ensures AllQuiet(s, es)
    decreases |es|
  {
    if es != [] {
      OneThreadQuiet(Next(s, es[0]), es[1..]);
    }
  }

  /** A thread on its own takes no step that is not quiet, so it always keeps the order. */
  lemma OneThreadInOrder(es: seq<Step>)
    requires Run(Start(1), es) && Distinct(Submitted(es))
    ensures SafeThroughout(Start(1), [], es)
    ensures InOrder(Final(Start(1), es), Submitted(es))
  {
    OneThreadQuiet(Start(1), es);
    OrderIff(1, es);
    StartInOrder(1);
    assert [] + Submitted(es) == Submitted(es);
    QuietKeepsOrder(Start(1), [], es);
  }

  lemma {:induction false} QuietKeepsOrder(s: State, submitted: seq<Frame>, es: seq<Step>)
    requires Run(s, es) && AllQuiet(s, es) && InOrder(s, submitted) && Distinct(submitted + Submitted(es))
    ensures InOrder(Final(s, es), submitted + Submitted(es))
    decreases |es|
  {
    hide InOrder, Quiet, Distinct;
    if es == [] {
      assert submitted + Submitted(es) == submitted;
    } else {
      var more := submitted + New(es[0]);
      assert submitted + Submitted(es) == more + Submitted(es[1..]);
      DistinctPrefix(more, Submitted(es[1..]));
      StepInOrderIff(s, es[0], submitted);
      QuietKeepsOrder(Next(s, es[0]), more, es[1..]);
    }
  }

  // ---- two threads ----

  /** Going on one at a time matters: two threads can always send the second frame first. */
  lemma SecondOvertakesFirst(s: State, t: nat, u: nat)
    requires t < |s.hands| && u < |s.hands| && t != u && s.hands[t].Empty? && s.hands[u].Empty? && 2 <= |s.queue|
    ensures var es := [Take(t), Take(u), Accepted(u), Refused(t)];
            Run(s, es) && Final(s, es) == s.(sent := s.sent + [s.queue[1]], queue := [s.queue[0]] + s.queue[2..])
  {
    hide Run, Final;
    var s1 := Next(s, Take(t));
    var s2 := Next(s1, Take(u));
    var s3 := Next(s2, Accepted(u));
    var s4 := Next(s3, Refused(t));
    assert s4.hands == s.hands;
    RunFour(s, Take(t), Take(u), Accepted(u), Refused(t));
  }

  /** So a run of quiet steps only says nothing about what two threads do after it. */
  lemma QuietThenTwoThreads(threads: nat, a: Frame, b: Frame)
    requires 2 <= threads && a != b
    ensures var es, ks := [Look(0, a), Refused(0), Look(0, b), Enqueue(0)], [Take(0), Take(1), Accepted(1), Refused(0)];
            && Run(Start(threads), es) && AllQuiet(Start(threads), es)
            && Run(Final(Start(threads), es), ks) && !(Final(Final(Start(threads), es), ks).sent <= Submitted(es))
  {
    hide Run, Final, AllQuiet, Submitted;
    var s := Start(threads);
    var s1 := Next(s, Look(0, a));
    var s2 := Next(s1, Refused(0));
    var s3 := Next(s2, Look(0, b));
    var s4 := Next(s3, Enqueue(0));
    assert s2.hands == s.hands && s4 == State([], [a, b], s.hands);
    RunFour(s, Look(0, a), Refused(0), Look(0, b), Enqueue(0));
    SecondOvertakesFirst(s4, 0, 1);
    var ks := [Take(0), Take(1), Accepted(1), Refused(0)];
    assert Final(s4, ks).sent[0] == b && Submitted([Look(0, a), Refused(0), Look(0, b), Enqueue(0)])[0] == a;
  }

  lemma RunFour(s: State, a: Step, b: Step, c: Step, d: Step)
    requires Enabled(s, a) && Enabled(Next(s, a), b) && Enabled(Next(Next(s, a), b), c)
    requires Enabled(Next(Next(Next(s, a), b), c), d)
    ensures var s1 := Next(s, a); var s2 := Next(s1, b); var s3 := Next(s2, c);
      && Run(s, [a, b, c, d]) && Final(s, [a, b, c, d]) == Next(s3, d)
      && (AllQuiet(s, [a, b, c, d]) <==> Quiet(s, a) && Quiet(s1, b) && Quiet(s2, c) && Quiet(s3, d))
      && Submitted([a, b, c, d]) == New(a) + (New(b) + (New(c) + New(d)))
  {
    hide Enabled, Next, Quiet, New;
    var s1 := Next(s, a);
    var s2 := Next(s1, b);
    var s3 := Next(s2, c);
    RunMore(s3, d, []);
    RunMore(s2, c, [d]);
    RunMore(s1, b, [c, d]);
    RunMore(s, a, [b, c, d]);
  }

  lemma RunMore(s: State, e: Step, es: seq<Step>)
    requires Enabled(s, e) && Run(Next(s, e), es)
    ensures Run(s, [e] + es) && Final(s, [e] + es) == Final(Next(s, e), es)
    ensures AllQuiet(s, [e] + es) <==> Quiet(s, e) && AllQuiet(Next(s, e), es)
    ensures Submitted([e] + es) == New(e) + Submitted(es)
  {
    assert ([e] + es)[0] == e && ([e] + es)[1..] == es;
  }
}
