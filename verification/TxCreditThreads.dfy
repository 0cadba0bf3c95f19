/**
 The credit handlers in several threads at once.  credit_mutex covers the two counters, but what
 a handler releases reaches the visible credit only after it has given the mutex back, and the
 scheduler spends visible credit without it.  The limit on grants is looked at before the mutex is
 taken; which of them pass is left open here.
 */
module TxCreditThreads {
  import opened MinMax
  import opened TxCredit

  /** What a thread is about to do. */
  datatype Work =
    | Idle
    | Landing(delta: int)               // mutex given back, the release still to be added
    | Testing(delta: int)               // a credit update, in the mutex, that has found a top-up due
    | Lending(lend: int, delta: int)    // the top-up taken off the counters, still to be added

  datatype State = State(target: int, bus: int, visible: int, threads: seq<Work>)

  datatype Step =
    | Complete(t: nat, num: nat)    // tx or management completions that are taken, in the mutex
    | SendDone(t: nat)
    | Update(t: nat, delta: int)    // credit update, up to the test for a top-up
    | Lend(t: nat)
    | Add(t: nat)
    | Land(t: nat)
    | Spend(n: nat)

  predicate MutexFree(s: State) {
    forall t :: 0 <= t < |s.threads| ==> !s.threads[t].Testing? && !s.threads[t].Lending?
  }

  predicate Enabled(s: State, e: Step) {
    match e
    case Lend(t) => t < |s.threads| && s.threads[t].Testing?
    case Add(t) => t < |s.threads| && s.threads[t].Lending?
    case Land(t) => t < |s.threads| && s.threads[t].Landing?
    case Spend(n) => n <= s.visible
    case _ => e.t < |s.threads| && s.threads[e.t].Idle? && MutexFree(s)
  }

  /** The counters with the event counted in, before they are paired off. */
  function Counted(s: State, e: Step): State {
    match e
    case Complete(_, num) => s.(target := s.target + num)
    case SendDone(_) => s.(bus := s.bus + 1)
    case Update(_, delta) => s.(target := s.target + delta)
    case _ => s
  }

  function Paired(s: State): (r: State)
    ensures r.target - r.bus == s.target - s.bus && r.visible == s.visible && r.threads == s.threads
  {
    var m := Max(0, Min(s.target, s.bus));
    s.(target := s.target - m, bus := s.bus - m)
  }

  function Next(s: State, e: Step): (r: State)
    requires Enabled(s, e)
    ensures |r.threads| == |s.threads|
  {
    var c := Counted(s, e);
    var m := Min(c.target, c.bus);
    match e
    case Complete(t, _) => Paired(c).(threads := s.threads[t := Landing(m)])
    case SendDone(t) => Paired(c).(threads := s.threads[t := Landing(Max(0, m))])
    case Update(t, _) =>
      var p := Paired(c);
      var delta := Max(0, m);
      var due := p.visible + delta < HTT_MAX_BUS_CREDIT && 0 < p.target;
      p.(threads := s.threads[t := if due then Testing(delta) else Landing(delta)])
    case Lend(t) =>
      var delta := s.threads[t].delta;
      var lend := Min(s.target, HTT_MAX_BUS_CREDIT - s.visible - delta);
      s.(target := s.target - lend, bus := s.bus - lend, threads := s.threads[t := Lending(lend, delta)])
    case Add(t) =>
      s.(visible := s.visible + s.threads[t].lend, threads := s.threads[t := Landing(s.threads[t].delta)])
    case Land(t) => s.(visible := s.visible + s.threads[t].delta, threads := s.threads[t := Idle])
    case Spend(n) => s.(visible := s.visible - n)
  }

  // ---- one handler alone ----

  function View(s: State): Credit { Credit(s.target, s.bus, s.visible) }

  /** A completion that no other step comes between is the whole handler. */
  lemma CompleteAlone(s: State, t: nat, num: nat, cfg: Config, e: Event)
    requires Enabled(s, Complete(t, num)) && TwoCounters(cfg) && Takes(cfg, View(s), e)
    requires (e.TxDone? && e.num == num) || (e.MgmtDone? && num == 1)
    ensures var a := Next(s, Complete(t, num));
      && Enabled(a, Land(t)) && Next(a, Land(t)).threads == s.threads
      && View(Next(a, Land(t))) == TxCredit.Step(cfg, View(s), e)
  {
  }

  lemma SendAlone(s: State, t: nat, cfg: Config)
    requires Enabled(s, Step.SendDone(t)) && TwoCounters(cfg)
    ensures var a := Next(s, Step.SendDone(t));
      && Enabled(a, Land(t)) && Next(a, Land(t)).threads == s.threads
      && View(Next(a, Land(t))) == TxCredit.Step(cfg, View(s), Event.SendDone)
  {
  }

  /** So is a credit update, with its top-up when one is due. */
  lemma UpdateAlone(s: State, t: nat, delta: int, cfg: Config)
    requires Enabled(s, Update(t, delta)) && TwoCounters(cfg) && Takes(cfg, View(s), CreditInd(delta))
    ensures var a := Next(s, Update(t, delta));
      if Enabled(a, Land(t)) then
        && Next(a, Land(t)).threads == s.threads
        && View(Next(a, Land(t))) == TxCredit.Step(cfg, View(s), CreditInd(delta))
      else
        && Enabled(a, Lend(t)) && Enabled(Next(a, Lend(t)), Add(t))
        && var b := Next(Next(a, Lend(t)), Add(t));
        && Enabled(b, Land(t)) && Next(b, Land(t)).threads == s.threads
        && View(Next(b, Land(t))) == TxCredit.Step(cfg, View(s), CreditInd(delta))
  {
    hide Settle, TopUp, MutexFree;
    SettleThenTopUp(View(s).(target := s.target + delta));
  }

  /** Credit that has left the counters and is not visible yet. */
  function InFlight(w: Work): int {
    match w
    case Idle => 0
    case Landing(delta) => delta
    case Testing(delta) => delta
    case Lending(lend, delta) => lend + delta
  }

  function Flight(ws: seq<Work>): int {
    if ws == [] then 0 else InFlight(ws[0]) + Flight(ws[1..])
  }

  lemma {:induction false} FlightUpdate(ws: seq<Work>, t: nat, w: Work)
    requires t < |ws|
    ensures Flight(ws[t := w]) == Flight(ws) - InFlight(ws[t]) + InFlight(w)
  {
    if t == 0 {
      assert ws[0 := w][1..] == ws[1..];
    } else {
      assert ws[t := w][1..] == ws[1..][t - 1 := w];
      FlightUpdate(ws[1..], t - 1, w);
    }
  }

  // ---- runs, with a book kept beside them ----

  /** A completion that finds a negative minimum, which nobody gives back to a counter. */
  function Lost(s: State, e: Step): nat {
    if e.Complete? then Max(0, -Min(s.target + e.num, s.bus)) else 0
  }

  datatype Book = Book(s: State, granted: int, sends: nat, spent: nat, lost: nat)

  function Opened(threads: nat, credit: int): Book {
    Book(State(0, HTT_MAX_BUS_CREDIT, credit, seq(threads, _ => Idle)), 0, 0, 0, 0)
  }

  function Post(l: Book, e: Step): Book
    requires Enabled(l.s, e)
  {
    var grant := if e.Complete? then e.num else if e.Update? then e.delta else 0;
    Book(Next(l.s, e), l.granted + grant, l.sends + (if e.SendDone? then 1 else 0),
           l.spent + (if e.Spend? then e.n else 0), l.lost + Lost(l.s, e))
  }

  ghost predicate Run(l: Book, es: seq<Step>)
    decreases |es|
  {
    es == [] || (Enabled(l.s, es[0]) && Run(Post(l, es[0]), es[1..]))
  }

  ghost function Final(l: Book, es: seq<Step>): Book
    requires Run(l, es)
    decreases |es|
  {
    if es == [] then l else Final(Post(l, es[0]), es[1..])
  }

  /** Visible credit and credit in flight, together. */
  function Released(l: Book, credit: int): int { l.s.visible + Flight(l.s.threads) + l.spent - credit }

  predicate Accounted(l: Book, credit: int) {
    && l.s.target - l.s.bus == l.granted - (33 + l.sends)
    && Released(l, credit) + l.s.target == l.granted - l.lost
  }

  lemma StepAccounted(l: Book, e: Step, credit: int)
    requires Enabled(l.s, e) && Accounted(l, credit)
    ensures Accounted(Post(l, e), credit)
  {
    hide Flight;
    if !e.Spend? {
      FlightUpdate(l.s.threads, e.t, Post(l, e).s.threads[e.t]);
    }
  }

  lemma {:induction false} RunAccounted(l: Book, es: seq<Step>, credit: int)
    requires Run(l, es) && Accounted(l, credit)
    ensures Accounted(Final(l, es), credit)
    decreases |es|
  {
    if es != [] {
      hide Accounted, Post;
      StepAccounted(l, es[0], credit);
      RunAccounted(Post(l, es[0]), es[1..], credit);
    }
  }

  lemma {:induction false} NothingInFlight(threads: nat)
    ensures Flight(seq(threads, _ => Idle)) == 0
  {
    if threads != 0 {
      NothingInFlight(threads - 1);
      assert seq(threads, _ => Idle)[1..] == seq(threads - 1, _ => Idle);
    }
  }

  /** For any number of threads and every interleaving of their steps: the difference of the
      counters, and where the granted credit is. */
  lemma EveryRunAccounted(threads: nat, credit: int, es: seq<Step>)
    requires Run(Opened(threads, credit), es)
    ensures var l := Final(Opened(threads, credit), es);
      && l.s.target - l.s.bus == l.granted - (33 + l.sends)
      && l.s.visible + Flight(l.s.threads) + l.spent + l.s.target == credit + l.granted - l.lost
  {
    NothingInFlight(threads);
    RunAccounted(Opened(threads, credit), es, credit);
  }

  ghost predicate NoUpdates(es: seq<Step>) { forall e <- es :: !e.Update? }

  /** Without credit updates, one of the counters is always zero, and nothing is lost or lent. */
  predicate Settled(l: Book) {
    && 0 <= l.s.target && 0 <= l.s.bus && Min(l.s.target, l.s.bus) == 0 && l.lost == 0 && MutexFree(l.s)
  }

  lemma {:induction false} RunSettled(l: Book, es: seq<Step>)
    requires Run(l, es) && NoUpdates(es) && Settled(l)
    ensures Settled(Final(l, es))
    decreases |es|
  {
    if es != [] {
      assert es[0] in es;
      assert forall e <- es[1..] :: e in es;
      RunSettled(Post(l, es[0]), es[1..]);
    }
  }

  /** Without credit updates, what is visible and what is in flight make up the smaller of the two
      totals, after every step of every interleaving. */
  lemma ReleasedIsMinOfTotals(threads: nat, credit: int, es: seq<Step>)
    requires Run(Opened(threads, credit), es) && NoUpdates(es)
    ensures var l := Final(Opened(threads, credit), es);
            l.s.visible + Flight(l.s.threads) == credit - l.spent + Min(l.granted, 33 + l.sends)
  {
    EveryRunAccounted(threads, credit, es);
    RunSettled(Opened(threads, credit), es);
  }

  // ---- top-ups ----

  /** A top-up counts what is visible and its own release, but not what others have in flight: it
      brings everything together to exactly that much more than its limit. */
  lemma LendReaches(s: State, t: nat)
    requires Enabled(s, Lend(t))
    ensures var r, delta, others := Next(s, Lend(t)), s.threads[t].delta, Flight(s.threads[t := Idle]);
      && r.visible + Flight(r.threads) == Min(33, s.visible + delta + s.target) + others
      && (33 + others <= r.visible + Flight(r.threads) || r.target == 0)
  {
    FlightUpdate(s.threads, t, Idle);
    FlightUpdate(s.threads, t, Next(s, Lend(t)).threads[t]);
  }

  /** So the visible credit passes 33 by whatever lands from others. */
  lemma PassesLimit(s: State, t: nat, u: nat)
    requires u < |s.threads| && u != t && s.threads[u].Landing? && Enabled(s, Lend(t))
    requires 33 <= s.visible + s.threads[t].delta + s.target
    ensures var a := Next(s, Lend(t));
      && Enabled(a, Add(t)) && Enabled(Next(a, Add(t)), Land(t))
      && Enabled(Next(Next(a, Add(t)), Land(t)), Land(u))
      && Next(Next(Next(a, Add(t)), Land(t)), Land(u)).visible == 33 + s.threads[u].delta
  {
  }

  /** A release that lands between the test and the top-up can turn the top-up round: it then takes
      visible credit back, and puts it on the counters again. */
  lemma LendsLessThanNothingIff(s: State, t: nat)
    requires Enabled(s, Lend(t)) && 0 < s.target
    ensures Next(s, Lend(t)).threads[t].lend < 0 <==> 33 < s.visible + s.threads[t].delta
  {
  }

  // ---- runs that get there ----

  lemma {:induction false} RunLast(l: Book, es: seq<Step>, e: Step)
    requires Run(l, es) && Enabled(Final(l, es).s, e)
    ensures Run(l, es + [e]) && Final(l, es + [e]) == Post(Final(l, es), e)
    decreases |es|
  {
    if es == [] {
      assert es + [e] == [e];
    } else {
      assert (es + [e])[0] == es[0] && (es + [e])[1..] == es[1..] + [e];
      RunLast(Post(l, es[0]), es[1..], e);
    }
  }

  lemma RunNone(l: Book)
    ensures Run(l, []) && Final(l, []) == l
  {
  }

  /** One step further along a run. */
  lemma Go(l0: Book, es: seq<Step>, l: Book, e: Step) returns (fs: seq<Step>, r: Book)
    requires Run(l0, es) && Final(l0, es) == l && Enabled(l.s, e)
    ensures fs == es + [e] && r == Post(l, e) && Run(l0, fs) && Final(l0, fs) == r
  {
    fs, r := es + [e], Post(l, e);
    RunLast(l0, es, e);
  }

  function PastLimit(num: nat, grant: nat): seq<Step> {
    [Complete(1, num), Update(0, grant), Lend(0), Add(0), Land(0), Land(1)]
  }

  /** The first half: the top-up is decided. */
  lemma LentFromStart(threads: nat, num: nat, grant: nat) returns (es: seq<Step>, l: Book)
    requires 2 <= threads && 0 < num <= 33 <= grant
    ensures es == PastLimit(num, grant)[..3] && Run(Opened(threads, 0), es) && Final(Opened(threads, 0), es) == l
    ensures |l.s.threads| == threads && l.s.visible == 0
    ensures l.s.threads[0] == Lending(num, 33 - num) && l.s.threads[1] == Landing(num)
  {
    hide Run, Final;
    var l0 := Opened(threads, 0);
    RunNone(l0);
    es, l := Go(l0, [], l0, Complete(1, num));
    es, l := Go(l0, es, l, Update(0, grant));
    es, l := Go(l0, es, l, Lend(0));
  }

  /** Completions that have still to land while an update lends take the visible credit past 33. */
  lemma PassesLimitFromStart(threads: nat, num: nat, grant: nat)
    requires 2 <= threads && 0 < num <= 33 <= grant
    ensures var es, l0 := PastLimit(num, grant), Opened(threads, 0);
            Run(l0, es) && Final(l0, es).s.visible == 33 + num
  {
    hide Run, Final, Opened;
    var l0 := Opened(threads, 0);
    var es, l := LentFromStart(threads, num, grant);
    es, l := Go(l0, es, l, Add(0));
    es, l := Go(l0, es, l, Land(0));
    es, l := Go(l0, es, l, Land(1));
    assert es == PastLimit(num, grant);
  }

  function TurnedRound(num: nat): seq<Step> { [Complete(1, num), Update(0, 0), Land(1), Lend(0)] }

  /** A release that lands between the test and the top-up takes all the credit there was before. */
  lemma LendsLessThanNothingFromStart(threads: nat, credit: nat, num: nat)
    requires 2 <= threads && 0 < credit < 33 < num
    ensures var es, l0 := TurnedRound(num), Opened(threads, credit);
            Run(l0, es) && Final(l0, es).s.threads == l0.s.threads[0 := Lending(0 - credit, 0)]
  {
    hide Run, Final;
    var l0 := Opened(threads, credit);
    RunNone(l0);
    var es, l := Go(l0, [], l0, Complete(1, num));
    es, l := Go(l0, es, l, Update(0, 0));
    es, l := Go(l0, es, l, Land(1));
    es, l := Go(l0, es, l, Lend(0));
    assert es == TurnedRound(num);
  }
}
