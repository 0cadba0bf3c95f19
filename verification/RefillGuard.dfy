/**
 Any number of threads in htt_rx_msdu_buff_replenish, while others pop buffers.  The
 decrement-and-test and the increment of `refill_ref_cnt` are atomic in the source; `fill_cnt`
 is a plain integer, so that counting up or down is a load and, later, a store.
 */
module RefillGuard {

  datatype Pc =
    | Idle
    | Turned                            // lost the decrement-and-test
    | Won                               // won it, about to compute how much to fill
    | Filling(left: int)                // inside htt_rx_ring_fill_n, with that many still to post
    | Posting(left: int, loaded: int)   // the buffer is in its slot, the count is loaded
    | Leaving                           // done filling, before the increment

  datatype Popper = Out | Popping(loaded: int)

  /** `buffers` is what the ring holds, `fillCnt` what its counter says. */
  datatype State = State(refCnt: int, fillCnt: int, buffers: int, threads: seq<Pc>, poppers: seq<Popper>)

  datatype Step =
    | DecAndTest(t: nat)
    | Compute(t: nat)
    | Post(t: nat)
    | StorePost(t: nat)
    | GiveUp(t: nat)        // the loop ends: nothing left, or a buffer could not be had
    | Increment(t: nat)
    | Pop(p: nat)           // a thread takes a buffer from a ring that is not empty
    | StorePop(p: nat)

  predicate Enabled(s: State, e: Step) {
    match e
    case DecAndTest(t) => t < |s.threads| && s.threads[t].Idle?
    case Compute(t) => t < |s.threads| && s.threads[t].Won?
    case Post(t) => t < |s.threads| && s.threads[t].Filling? && 0 < s.threads[t].left
    case StorePost(t) => t < |s.threads| && s.threads[t].Posting?
    case GiveUp(t) => t < |s.threads| && s.threads[t].Filling?
    case Increment(t) => t < |s.threads| && (s.threads[t].Turned? || s.threads[t].Leaving?)
    case Pop(p) => p < |s.poppers| && s.poppers[p].Out? && 0 < s.buffers
    case StorePop(p) => p < |s.poppers| && s.poppers[p].Popping?
  }

  function Next(s: State, e: Step, level: nat): (r: State)
    requires Enabled(s, e)
    ensures |r.threads| == |s.threads| && |r.poppers| == |s.poppers|
  {
    match e
    case DecAndTest(t) =>
      s.(refCnt := s.refCnt - 1, threads := s.threads[t := if s.refCnt - 1 == 0 then Won else Turned])
    case Compute(t) => s.(threads := s.threads[t := Filling(level - s.fillCnt)])
    case Post(t) => s.(buffers := s.buffers + 1, threads := s.threads[t := Posting(s.threads[t].left, s.fillCnt)])
    case StorePost(t) =>
      s.(fillCnt := s.threads[t].loaded + 1, threads := s.threads[t := Filling(s.threads[t].left - 1)])
    case GiveUp(t) => s.(threads := s.threads[t := Leaving])
    case Increment(t) => s.(refCnt := s.refCnt + 1, threads := s.threads[t := Idle])
    case Pop(p) => s.(buffers := s.buffers - 1, poppers := s.poppers[p := Popping(s.fillCnt)])
    case StorePop(p) => s.(fillCnt := s.poppers[p].loaded - 1, poppers := s.poppers[p := Out])
  }

  /** Threads between their decrement and their increment. */
  function Between(ts: seq<Pc>): (n: nat)
    ensures n <= |ts|
  {
    if ts == [] then 0 else (if ts[0].Idle? then 0 else 1) + Between(ts[1..])
  }

  lemma {:induction false} BetweenUpdate(ts: seq<Pc>, t: nat, pc: Pc)
    requires t < |ts|
    ensures Between(ts[t := pc]) - (if pc.Idle? then 0 else 1) == Between(ts) - (if ts[t].Idle? then 0 else 1)
  {
    if t == 0 {
      assert ts[0 := pc][1..] == ts[1..];
    } else {
      assert ts[t := pc][1..] == ts[1..][t - 1 := pc];
      BetweenUpdate(ts[1..], t - 1, pc);
    }
  }

  lemma {:induction false} BetweenZero(ts: seq<Pc>)
    ensures Between(ts) == 0 <==> forall t :: 0 <= t < |ts| ==> ts[t].Idle?
  {
    if ts != [] {
      BetweenZero(ts[1..]);
    }
  }

  /** The winner of the guard, from the decrement-and-test to the increment. */
  predicate Holder(pc: Pc) {
    pc.Won? || InFill(pc) || pc.Leaving?
  }

  predicate InFill(pc: Pc) {
    pc.Filling? || pc.Posting?
  }

  // ---- the guard ----

  ghost predicate Inv(s: State) {
    && s.refCnt == 1 - Between(s.threads)
    && (forall t, u :: 0 <= t < u < |s.threads| ==> !(Holder(s.threads[t]) && Holder(s.threads[u])))
  }

  lemma StepKeepsInv(s: State, e: Step, level: nat)
    requires Inv(s) && Enabled(s, e)
    ensures Inv(Next(s, e, level))
  {
    BetweenZero(s.threads);
    if !e.Pop? && !e.StorePop? {
      BetweenUpdate(s.threads, e.t, Next(s, e, level).threads[e.t]);
    }
  }

  /** A run: each step is enabled where it is taken. */
  ghost predicate Run(s: State, es: seq<Step>, level: nat)
    decreases |es|
  {
    es == [] || (Enabled(s, es[0]) && Run(Next(s, es[0], level), es[1..], level))
  }

  ghost function Final(s: State, es: seq<Step>, level: nat): (r: State)
    requires Run(s, es, level)
    decreases |es|
  {
    if es == [] then s else Final(Next(s, es[0], level), es[1..], level)
  }

  /** What htt_rx_attach sets up for any number of threads. */
  function Start(threads: nat, poppers: nat, filled: nat): (s: State) {
    State(1, filled, filled, seq(threads, _ => Idle), seq(poppers, _ => Out))
  }

  lemma {:induction false} RunKeepsInv(s: State, es: seq<Step>, level: nat)
    requires Inv(s) && Run(s, es, level)
    ensures Inv(Final(s, es, level))
    decreases |es|
  {
    if es != [] {
      StepKeepsInv(s, es[0], level);
      RunKeepsInv(Next(s, es[0], level), es[1..], level);
    }
  }

  /** Over every interleaving, whatever becomes of `fill_cnt`: the counter of the guard is one less
      the threads in between, at most one thread is ever in the refill, and once every thread is
      out the next one to come gets in. */
  lemma GuardTheorem(threads: nat, poppers: nat, filled: nat, es: seq<Step>, level: nat)
    requires Run(Start(threads, poppers, filled), es, level)
    ensures var s := Final(Start(threads, poppers, filled), es, level);
      && s.refCnt == 1 - Between(s.threads)
      && (forall t, u | 0 <= t < |s.threads| && 0 <= u < |s.threads| ::
            InFill(s.threads[t]) && InFill(s.threads[u]) ==> t == u)
      && ((forall t :: 0 <= t < |s.threads| ==> s.threads[t].Idle?) ==>
            forall t :: 0 <= t < |s.threads| ==> Next(s, DecAndTest(t), level).threads[t] == Won)
  {
    var s0 := Start(threads, poppers, filled);
    BetweenZero(s0.threads);
    RunKeepsInv(s0, es, level);
    BetweenZero(Final(s0, es, level).threads);
  }

  // ---- the count ----

  function Posts(ts: seq<Pc>): nat {
    if ts == [] then 0 else (if ts[0].Posting? then 1 else 0) + Posts(ts[1..])
  }

  function Pops(ps: seq<Popper>): nat {
    if ps == [] then 0 else (if ps[0].Popping? then 1 else 0) + Pops(ps[1..])
  }

  lemma {:induction false} PostsUpdate(ts: seq<Pc>, t: nat, pc: Pc)
    requires t < |ts|
    ensures Posts(ts[t := pc]) - (if pc.Posting? then 1 else 0) == Posts(ts) - (if ts[t].Posting? then 1 else 0)
  {
    if t == 0 {
      assert ts[0 := pc][1..] == ts[1..];
    } else {
      assert ts[t := pc][1..] == ts[1..][t - 1 := pc];
      PostsUpdate(ts[1..], t - 1, pc);
    }
  }

  lemma {:induction false} PopsUpdate(ps: seq<Popper>, p: nat, q: Popper)
    requires p < |ps|
    ensures Pops(ps[p := q]) - (if q.Popping? then 1 else 0) == Pops(ps) - (if ps[p].Popping? then 1 else 0)
  {
    if p == 0 {
      assert ps[0 := q][1..] == ps[1..];
    } else {
      assert ps[p := q][1..] == ps[1..][p - 1 := q];
      PopsUpdate(ps[1..], p - 1, q);
    }
  }

  /** The count agrees with the ring, up to the stores that are still to come. */
  predicate Exact(s: State) { s.fillCnt == s.buffers - Posts(s.threads) + Pops(s.poppers) }

  /** A store of a count whose loaded value is no longer the current one. */
  predicate Torn(s: State, e: Step)
    requires Enabled(s, e)
  {
    match e
    case StorePost(t) => s.threads[t].loaded != s.fillCnt
    case StorePop(p) => s.poppers[p].loaded != s.fillCnt
    case _ => false
  }

  lemma StepExactIff(s: State, e: Step, level: nat)
    requires Exact(s) && Enabled(s, e)
    ensures Exact(Next(s, e, level)) <==> !Torn(s, e)
  {
    if e.Pop? || e.StorePop? {
      PopsUpdate(s.poppers, e.p, Next(s, e, level).poppers[e.p]);
    } else {
      PostsUpdate(s.threads, e.t, Next(s, e, level).threads[e.t]);
    }
  }

  ghost predicate NeverTorn(s: State, es: seq<Step>, level: nat)
    requires Run(s, es, level)
    decreases |es|
  {
    es == [] || (!Torn(s, es[0]) && NeverTorn(Next(s, es[0], level), es[1..], level))
  }

  ghost predicate ExactThroughout(s: State, es: seq<Step>, level: nat)
    requires Run(s, es, level)
    decreases |es|
  {
    Exact(s) && (es != [] ==> ExactThroughout(Next(s, es[0], level), es[1..], level))
  }

  /** Room for what the refill still has to post. */
  ghost predicate Fits(s: State, level: nat) {
    && Exact(s) && s.buffers <= level && s.fillCnt <= level
    && forall t :: 0 <= t < |s.threads| ==>
         && (s.threads[t].Filling? ==> s.buffers + s.threads[t].left <= level)
         && (s.threads[t].Posting? ==> s.buffers + s.threads[t].left - 1 <= level && 0 < s.threads[t].left)
         && (InFill(s.threads[t]) ==> s.fillCnt + s.threads[t].left <= level)
  }

  lemma {:induction false} NonePosting(ts: seq<Pc>)
    ensures Posts(ts) == 0 <==> forall t :: 0 <= t < |ts| ==> !ts[t].Posting?
  {
    if ts != [] {
      NonePosting(ts[1..]);
    }
  }

  lemma StepFits(s: State, e: Step, level: nat)
    requires Inv(s) && Fits(s, level) && Enabled(s, e) && !Torn(s, e)
    ensures Fits(Next(s, e, level), level)
  {
    hide Between, Posts, Pops;
    StepExactIff(s, e, level);
    if e.Compute? {
      forall t | 0 <= t < |s.threads| ensures !s.threads[t].Posting? {
        assert Holder(s.threads[e.t]);
        assert t != e.t ==> !Holder(s.threads[t]);
      }
      NonePosting(s.threads);
    }
  }

  lemma {:induction false} RunExactIff(s: State, es: seq<Step>, level: nat)
    requires Inv(s) && Fits(s, level) && Run(s, es, level)
    ensures NeverTorn(s, es, level) <==> ExactThroughout(s, es, level)
    ensures NeverTorn(s, es, level) ==> Fits(Final(s, es, level), level)
    decreases |es|
  {
    hide Inv, Fits, Exact, Torn;
    assert Exact(s) by { FitsExact(s, level); }
    if es != [] {
      var r := Next(s, es[0], level);
      StepExactIff(s, es[0], level);
      StepKeepsInv(s, es[0], level);
      if !Torn(s, es[0]) {
        StepFits(s, es[0], level);
        RunExactIff(r, es[1..], level);
      }
    }
  }

  lemma FitsExact(s: State, level: nat)
    requires Fits(s, level)
    ensures Exact(s) && s.buffers <= level && s.fillCnt <= level
  {
  }

  lemma {:induction false} AtStart(threads: nat, poppers: nat, filled: nat)
    ensures Exact(Start(threads, poppers, filled)) && Between(Start(threads, poppers, filled).threads) == 0
  {
    var s := Start(threads, poppers, filled);
    BetweenZero(s.threads);
    NonePosting(s.threads);
    NonePopping(s.poppers);
  }

  lemma {:induction false} NonePopping(ps: seq<Popper>)
    ensures Pops(ps) == 0 <==> forall p :: 0 <= p < |ps| ==> !ps[p].Popping?
  {
    if ps != [] {
      NonePopping(ps[1..]);
    }
  }

  /** Over every interleaving the count stays right if and only if no store is torn, and then neither
      the ring nor the count ever exceeds the level. */
  lemma CountIff(threads: nat, poppers: nat, filled: nat, es: seq<Step>, level: nat)
    requires filled <= level && Run(Start(threads, poppers, filled), es, level)
    ensures var s := Start(threads, poppers, filled);
      && (NeverTorn(s, es, level) <==> ExactThroughout(s, es, level))
      && (NeverTorn(s, es, level) ==> Final(s, es, level).buffers <= level && Final(s, es, level).fillCnt <= level)
  {
    var s := Start(threads, poppers, filled);
    AtStart(threads, poppers, filled);
    RunExactIff(s, es, level);
  }

  lemma RunNone(s: State, level: nat)
    ensures Run(s, [], level) && Final(s, [], level) == s
  {
  }

  lemma {:induction false} RunLast(s: State, es: seq<Step>, e: Step, level: nat)
    requires Run(s, es, level) && Enabled(Final(s, es, level), e)
    ensures Run(s, es + [e], level) && Final(s, es + [e], level) == Next(Final(s, es, level), e, level)
    decreases |es|
  {
    if es == [] {
      assert es + [e] == [e];
    } else {
      assert (es + [e])[0] == es[0] && (es + [e])[1..] == es[1..] + [e];
      RunLast(Next(s, es[0], level), es[1..], e, level);
    }
  }

  /** A refill of one, overlapping with a pop, and the refill after it. */
  const TornRun := [DecAndTest(0), Compute(0), Post(0), Pop(0), StorePost(0), StorePop(0), GiveUp(0), Increment(0),
                    DecAndTest(0), Compute(0), Post(0), StorePost(0), Post(0)]

  /** One step further along a run. */
  lemma Go(s0: State, es: seq<Step>, s: State, e: Step, level: nat) returns (fs: seq<Step>, r: State)
    requires Run(s0, es, level) && Final(s0, es, level) == s && Enabled(s, e)
    ensures fs == es + [e] && r == Next(s, e, level)
    ensures Run(s0, fs, level) && Final(s0, fs, level) == r
  {
    fs, r := es + [e], Next(s, e, level);
    RunLast(s0, es, e, level);
  }

  /** The first eight steps: the count ends one below the ring. */
  lemma TornCount(threads: nat, poppers: nat, level: nat) returns (es: seq<Step>, s: State)
    requires 0 < threads && 0 < poppers && 0 < level
    ensures var s0 := Start(threads, poppers, level - 1);
      && es == TornRun[..8] && Run(s0, es, level) && Final(s0, es, level) == s
      && s == s0.(fillCnt := level - 2)
  {
    hide Run, Final;
    var s0 := Start(threads, poppers, level - 1);
    RunNone(s0, level);
    es, s := [], s0;
    es, s := Go(s0, es, s, DecAndTest(0), level);
    es, s := Go(s0, es, s, Compute(0), level);
    es, s := Go(s0, es, s, Post(0), level);
    es, s := Go(s0, es, s, Pop(0), level);
    es, s := Go(s0, es, s, StorePost(0), level);
    es, s := Go(s0, es, s, StorePop(0), level);
    es, s := Go(s0, es, s, GiveUp(0), level);
    es, s := Go(s0, es, s, Increment(0), level);
    assert s.threads == s0.threads && s.poppers == s0.poppers;
  }

  /** From the start, for every level: a count torn once makes the next refill fill the ring beyond it. */
  lemma TornOvershoots(threads: nat, poppers: nat, level: nat)
    requires 0 < threads && 0 < poppers && 0 < level
    ensures Run(Start(threads, poppers, level - 1), TornRun, level)
    ensures Final(Start(threads, poppers, level - 1), TornRun, level).buffers == level + 1
  {
    hide Run, Final;
    var s0 := Start(threads, poppers, level - 1);
    var es, s := TornCount(threads, poppers, level);
    es, s := Go(s0, es, s, DecAndTest(0), level);
    es, s := Go(s0, es, s, Compute(0), level);
    es, s := Go(s0, es, s, Post(0), level);
    es, s := Go(s0, es, s, StorePost(0), level);
    es, s := Go(s0, es, s, Post(0), level);
    assert es == TornRun;
  }
}
