/**
 Tx flow control between the host and the target.  Credit granted by the target and room on
 the bus are counted apart, and become credit the scheduler can spend two by two.
 */
module TxCredit {
  import opened MinMax

  const HTT_MAX_BUS_CREDIT := 33
  const MAX_TARGET_TX_CREDIT := 204800

  datatype Config = Config(highLatency: bool, defaultTxCompReq: bool, txFreeAtDownload: bool)

  /** The two htt_tx_credit counters, and the target_tx_credit that the scheduler sees. */
  datatype Credit = Credit(target: int, bus: int, visible: int)

  datatype Event =
    | TxDone(num: nat, failNotify: bool)   // tx completion for `num` frames
    | MgmtDone                             // tx completion of a management frame
    | SendDone                             // the bus has taken a message
    | CreditInd(delta: int)                // explicit credit update
    | Spend(n: nat)                        // the scheduler takes what it can afford

  predicate TwoCounters(cfg: Config) { cfg.highLatency && !cfg.defaultTxCompReq }

  predicate Refused(c: Credit, delta: int) { !(-MAX_TARGET_TX_CREDIT <= c.target + delta <= MAX_TARGET_TX_CREDIT) }

  /** What the target grants by `e`, and whether the step takes it. */
  function Offer(e: Event): int {
    match e
    case TxDone(num, _) => num
    case MgmtDone => 1
    case CreditInd(delta) => delta
    case _ => 0
  }

  predicate Takes(cfg: Config, c: Credit, e: Event) {
    match e
    case TxDone(num, failNotify) => !(cfg.txFreeAtDownload && failNotify) && !Refused(c, num)
    case CreditInd(delta) => !Refused(c, delta)
    case _ => true
  }

  function Granted(cfg: Config, c: Credit, e: Event): int {
    if Takes(cfg, c, e) then Offer(e) else 0
  }

  /** Pairs off the two counters.  A negative minimum changes neither of them. */
  function Settle(c: Credit): (r: Credit)
    ensures r.target - r.bus == c.target - c.bus
    ensures 0 <= c.target && 0 <= c.bus ==> Min(r.target, r.bus) == 0
  {
    var m := Max(0, Min(c.target, c.bus));
    c.(target := c.target - m, bus := c.bus - m, visible := c.visible + m)
  }

  /** Settles, and lets the visible credit have the minimum, of either sign. */
  function Release(c: Credit): (r: Credit)
    ensures r.target - r.bus == c.target - c.bus
  {
    Settle(c).(visible := c.visible + Min(c.target, c.bus))
  }

  /** Lends visible credit up to HTT_MAX_BUS_CREDIT, out of what the target has granted. */
  function TopUp(c: Credit): (r: Credit)
    ensures r.target - r.bus == c.target - c.bus
    ensures r.visible + r.target == c.visible + c.target
  {
    var m := Max(0, Min(c.target, HTT_MAX_BUS_CREDIT - c.visible));
    c.(target := c.target - m, bus := c.bus - m, visible := c.visible + m)
  }

  /** Both together, by the three numbers. */
  lemma SettleThenTopUp(c: Credit)
    ensures var m := Max(0, Min(c.target, c.bus));
      var lent := Max(0, Min(c.target - m, 33 - c.visible - m));
      TopUp(Settle(c)) == Credit(c.target - m - lent, c.bus - m - lent, c.visible + m + lent)
  {
  }

  /** The whole effect of one event. */
  function Step(cfg: Config, c: Credit, e: Event): Credit {
    match e
    case Spend(n) => if n <= c.visible then c.(visible := c.visible - n) else c
    case SendDone => if TwoCounters(cfg) then Settle(c.(bus := c.bus + 1)) else c
    case CreditInd(delta) =>
      if !Takes(cfg, c, e) then c
      else if TwoCounters(cfg) then TopUp(Settle(c.(target := c.target + delta)))
      else c.(visible := c.visible + Max(0, delta))
    case _ =>
      if !cfg.highLatency || !Takes(cfg, c, e) then c
      else if cfg.defaultTxCompReq then c.(visible := c.visible + Offer(e))
      else Release(c.(target := c.target + Offer(e)))
  }

  class TxCreditState {
    const cfg: Config
    var targetDelta: int
    var busDelta: int
    var targetTxCredit: int

    function Value(): Credit
      reads this
    {
      Credit(targetDelta, busDelta, targetTxCredit)
    }

    /** The counters as htt_tx_attach leaves them. */
    constructor (cfg: Config, credit: int)
      ensures this.cfg == cfg && Value() == Start(credit) == Credit(0, 33, credit)
    {
      this.cfg := cfg;
      targetDelta, busDelta, targetTxCredit := 0, HTT_MAX_BUS_CREDIT, credit;
    }

    method CreditUpdate() returns (delta: int)
      modifies this`targetDelta, this`busDelta
      ensures delta == Min(old(targetDelta), old(busDelta))
      ensures Value() == Settle(old(Value())).(visible := old(targetTxCredit))
      ensures 0 <= old(targetDelta) && 0 <= old(busDelta) ==> targetDelta == 0 || busDelta == 0
    {
      delta := if targetDelta < busDelta then targetDelta else busDelta;
      if 0 < delta {
        targetDelta := targetDelta - delta;
        busDelta := busDelta - delta;
      }
    }

    method SendComplete()
      modifies this
      ensures Value() == Step(cfg, old(Value()), SendDone)
      ensures var m := Max(0, Min(old(targetDelta), old(busDelta) + 1));
        Value() == if cfg.highLatency && !cfg.defaultTxCompReq
                   then Credit(old(targetDelta) - m, old(busDelta) + 1 - m, old(targetTxCredit) + m)
                   else old(Value())
    {
      if cfg.highLatency && !cfg.defaultTxCompReq {
        busDelta := busDelta + 1;
        var delta := CreditUpdate();
        if delta != 0 {
          CreditCompletion(delta);
        }
      }
    }

    method CreditCompletion(credits: int)
      modifies this`targetTxCredit
      ensures targetTxCredit == old(targetTxCredit) + Max(0, credits)
    {
      if 0 < credits {
        targetTxCredit := targetTxCredit + credits;
      }
    }

    /** What both completion handlers do with `num` more from the target. */
    method GrantAndRelease(num: int)
      modifies this
      ensures Value() == Release(old(Value()).(target := old(targetDelta) + num))
      ensures var m := Min(old(targetDelta) + num, old(busDelta));
        Value() == Credit(old(targetDelta) + num - Max(0, m), old(busDelta) - Max(0, m), old(targetTxCredit) + m)
    {
      targetDelta := targetDelta + num;
      var delta := CreditUpdate();
      if delta != 0 {
        targetTxCredit := targetTxCredit + delta;
      }
    }

    method MgmtCompletion()
      modifies this
      ensures Value() == Step(cfg, old(Value()), MgmtDone)
      ensures var m := Min(old(targetDelta) + 1, old(busDelta));
        Value() == if !cfg.highLatency then old(Value())
                   else if cfg.defaultTxCompReq then old(Value()).(visible := old(targetTxCredit) + 1)
                   else Credit(old(targetDelta) + 1 - Max(0, m), old(busDelta) - Max(0, m), old(targetTxCredit) + m)
    {
      if cfg.highLatency {
        if !cfg.defaultTxCompReq {
          GrantAndRelease(1);
        } else {
          targetTxCredit := targetTxCredit + 1;
        }
      }
    }

    method TxCompletion(num: nat, failNotify: bool)
      modifies this
      ensures Value() == Step(cfg, old(Value()), TxDone(num, failNotify))
      ensures var m := Min(old(targetDelta) + num, old(busDelta));
        Value() ==
          if !cfg.highLatency || (cfg.txFreeAtDownload && failNotify)
             || !(-204800 <= old(targetDelta) + num <= 204800) then old(Value())
          else if cfg.defaultTxCompReq then old(Value()).(visible := old(targetTxCredit) + num)
          else Credit(old(targetDelta) + num - Max(0, m), old(busDelta) - Max(0, m), old(targetTxCredit) + m)
    {
      if !cfg.highLatency || (cfg.txFreeAtDownload && failNotify) {
        return;
      }
      var before := targetDelta;
      if MAX_TARGET_TX_CREDIT < before + num || before + num < -MAX_TARGET_TX_CREDIT {
        return;
      }
      if !cfg.defaultTxCompReq {
        GrantAndRelease(num);
      } else {
        targetTxCredit := targetTxCredit + num;
      }
    }

    method CreditUpdateInd(update: int)
      modifies this
      ensures Value() == Step(cfg, old(Value()), CreditInd(update))
      ensures !(-204800 <= old(targetDelta) + update <= 204800) ==> Value() == old(Value())
      ensures -204800 <= old(targetDelta) + update <= 204800 && !(cfg.highLatency && !cfg.defaultTxCompReq) ==>
        Value() == old(Value()).(visible := old(targetTxCredit) + Max(0, update))
      ensures -204800 <= old(targetDelta) + update <= 204800 && cfg.highLatency && !cfg.defaultTxCompReq ==>
        var m := Max(0, Min(old(targetDelta) + update, old(busDelta)));
        var lent := Max(0, Min(old(targetDelta) + update - m, 33 - old(targetTxCredit) - m));
        Value() == Credit(old(targetDelta) + update - m - lent, old(busDelta) - m - lent,
                          old(targetTxCredit) + m + lent)
    {
      hide Settle, TopUp;
      SettleThenTopUp(Value().(target := targetDelta + update));
      var delta := update;
      var before := targetDelta;
      if MAX_TARGET_TX_CREDIT < before + delta || before + delta < -MAX_TARGET_TX_CREDIT {
        return;
      }
      if cfg.highLatency && !cfg.defaultTxCompReq {
        delta := SettleAndTopUp(delta);
      }
      CreditCompletion(delta);
    }

    /** The part of it in the mutex.  What is settled is returned; only the top-up is visible yet. */
    method SettleAndTopUp(update: int) returns (delta: int)
      modifies this
      ensures Value().(visible := targetTxCredit + Max(0, delta))
           == TopUp(Settle(old(Value()).(target := old(targetDelta) + update)))
    {
      targetDelta := targetDelta + update;
      delta := CreditUpdate();
      if 0 <= delta {
        if targetTxCredit + delta < HTT_MAX_BUS_CREDIT && 0 < targetDelta {
          TakeTopUp(HTT_MAX_BUS_CREDIT - targetTxCredit - delta);
        }
      } else {
        if targetTxCredit < HTT_MAX_BUS_CREDIT && 0 < targetDelta {
          TakeTopUp(HTT_MAX_BUS_CREDIT - targetTxCredit);
        }
      }
    }

    /** The three counter updates that end both top-up branches. */
    method TakeTopUp(room: int)
      modifies this
      ensures Value() == var m := Min(old(targetDelta), room);
                         Credit(old(targetDelta) - m, old(busDelta) - m, old(targetTxCredit) + m)
    {
      var delta2 := if targetDelta < room then targetDelta else room;
      targetDelta := targetDelta - delta2;
      targetTxCredit := targetTxCredit + delta2;
      busDelta := busDelta - delta2;
    }
  }

  // ---- whole runs, with a ledger kept beside them ----

  function Start(credit: int): Credit { Credit(0, HTT_MAX_BUS_CREDIT, credit) }

  /** `gained` and `lost` add up every rise and every other fall of the visible credit. */
  datatype Ledger = Ledger(credit: Credit, granted: int, sends: nat, spent: nat, gained: nat, lost: nat)

  function Opened(credit: int): Ledger { Ledger(Start(credit), 0, 0, 0, 0, 0) }

  function Post(cfg: Config, l: Ledger, e: Event): Ledger {
    var c := Step(cfg, l.credit, e);
    var change := c.visible - l.credit.visible;
    if e.Spend? then l.(credit := c, spent := l.spent - change)
    else Ledger(c, l.granted + Granted(cfg, l.credit, e), l.sends + (if e.SendDone? then 1 else 0), l.spent,
                l.gained + Max(0, change), l.lost + Max(0, -change))
  }

  function Run(cfg: Config, l: Ledger, es: seq<Event>): (r: Ledger)
    decreases |es|
  {
    if es == [] then l else Post(cfg, Run(cfg, l, es[..|es| - 1]), es[|es| - 1])
  }

  ghost predicate NoUpdates(es: seq<Event>) { forall e <- es :: !e.CreditInd? }

  /** Every gain is charged to both counters, and no fall is. */
  predicate Accounted(l: Ledger, credit: int) {
    && l.credit.target == l.granted - l.gained
    && l.credit.bus == 33 + l.sends - l.gained
    && l.credit.visible == credit + l.gained - l.lost - l.spent
  }

  lemma {:induction false} EveryRunAccounted(cfg: Config, credit: int, es: seq<Event>)
    requires TwoCounters(cfg)
    ensures Accounted(Run(cfg, Opened(credit), es), credit)
    decreases |es|
  {
    if es != [] {
      EveryRunAccounted(cfg, credit, es[..|es| - 1]);
    }
  }

  /** What survives everything: the difference of the counters. */
  lemma DifferenceTheorem(cfg: Config, credit: int, es: seq<Event>)
    requires TwoCounters(cfg)
    ensures var l := Run(cfg, Opened(credit), es);
            l.credit.target - l.credit.bus == l.granted - (33 + l.sends)
  {
    EveryRunAccounted(cfg, credit, es);
  }

  /**
   Without credit updates, the credit released is the smaller of the two totals, after every
   event, and nothing is ever taken back.
   */
  lemma {:induction false} ReleasedIsMinOfTotals(cfg: Config, credit: int, es: seq<Event>)
    requires TwoCounters(cfg) && NoUpdates(es)
    ensures var l := Run(cfg, Opened(credit), es);
            && l.lost == 0 && 0 <= l.granted
            && l.gained == Min(l.granted, 33 + l.sends)
            && l.credit.visible == credit - l.spent + Min(l.granted, 33 + l.sends)
    decreases |es|
  {
    EveryRunAccounted(cfg, credit, es);
    if es != [] {
      EveryRunAccounted(cfg, credit, es[..|es| - 1]);
      ReleasedIsMinOfTotals(cfg, credit, es[..|es| - 1]);
    }
  }

  // ---- the modes with one counter ----

  /** What the events bring: completions only in high latency, an update only what it adds. */
  function Brought(cfg: Config, es: seq<Event>): (n: int)
    decreases |es|
  {
    if es == [] then 0 else
    Brought(cfg, es[..|es| - 1]) +
    match es[|es| - 1]
    case TxDone(num, failNotify) =>
      if cfg.highLatency && !(cfg.txFreeAtDownload && failNotify) && num <= 204800 then num else 0
    case MgmtDone => if cfg.highLatency then 1 else 0
    case CreditInd(delta) => if 0 < delta <= 204800 then delta else 0
    case _ => 0
  }

  /** What the scheduler takes away: each amount that is there when it asks. */
  function Taken(cfg: Config, credit: int, es: seq<Event>): (n: nat)
    decreases |es|
  {
    if es == [] then 0 else
    var before := Taken(cfg, credit, es[..|es| - 1]);
    match es[|es| - 1]
    case Spend(n) => if n <= credit + Brought(cfg, es[..|es| - 1]) - before then before + n else before
    case _ => before
  }

  /** With default completions, and in low latency, nothing else ever happens. */
  lemma {:induction false} OneCounterRun(cfg: Config, credit: int, es: seq<Event>)
    requires !cfg.highLatency || cfg.defaultTxCompReq
    ensures Run(cfg, Opened(credit), es).credit == Credit(0, 33, credit + Brought(cfg, es) - Taken(cfg, credit, es))
    ensures Run(cfg, Opened(credit), es).spent == Taken(cfg, credit, es)
    decreases |es|
  {
    if es != [] {
      OneCounterRun(cfg, credit, es[..|es| - 1]);
    }
  }

  // ---- order does not matter ----

  function Offers(cfg: Config, es: seq<Event>): (n: int)
    decreases |es|
  {
    if es == [] then 0
    else
      var e := es[|es| - 1];
      Offers(cfg, es[..|es| - 1]) + (if e.TxDone? && cfg.txFreeAtDownload && e.failNotify then 0 else Offer(e))
  }

  function Sends(es: seq<Event>): nat
    decreases |es|
  {
    if es == [] then 0 else Sends(es[..|es| - 1]) + (if es[|es| - 1].SendDone? then 1 else 0)
  }

  lemma {:induction false} OffersAppend(cfg: Config, a: seq<Event>, b: seq<Event>)
    ensures Offers(cfg, a + b) == Offers(cfg, a) + Offers(cfg, b)
    ensures Sends(a + b) == Sends(a) + Sends(b)
    decreases |b|
  {
    if b == [] {
      assert a + b == a;
    } else {
      assert (a + b)[..|a + b| - 1] == a + b[..|b| - 1];
      OffersAppend(cfg, a, b[..|b| - 1]);
    }
  }

  lemma Without(cfg: Config, a: seq<Event>, i: nat)
    requires i < |a|
    ensures var b := a[..i] + a[i + 1..];
            && multiset(b) == multiset(a) - multiset{a[i]}
            && Offers(cfg, a) == Offers(cfg, b) + Offers(cfg, [a[i]])
            && Sends(a) == Sends(b) + Sends([a[i]])
  {
    hide Offers, Sends;
    assert a == (a[..i] + [a[i]]) + a[i + 1..];
    OffersAppend(cfg, a[..i] + [a[i]], a[i + 1..]);
    OffersAppend(cfg, a[..i], [a[i]]);
    OffersAppend(cfg, a[..i], a[i + 1..]);
  }

  ghost function Place(b: seq<Event>, e: Event): (i: nat)
    requires e in multiset(b)
    ensures i < |b| && b[i] == e
  {
    var i :| 0 <= i < |b| && b[i] == e;
    i
  }

  lemma {:induction false} SameTotals(cfg: Config, a: seq<Event>, b: seq<Event>)
    requires multiset(a) == multiset(b)
    ensures Offers(cfg, a) == Offers(cfg, b) && Sends(a) == Sends(b)
    decreases |a|
  {
    hide Offers, Sends;
    assert |a| == |multiset(a)| == |multiset(b)| == |b|;
    if a == [] {
      assert b == [];
    } else {
      assert a[0] in multiset(a);
      var i := Place(b, a[0]);
      Without(cfg, a, 0);
      Without(cfg, b, i);
      SameTotals(cfg, a[..0] + a[1..], b[..i] + b[i + 1..]);
    }
  }

  ghost predicate Plain(es: seq<Event>) { forall e <- es :: !e.CreditInd? && !e.Spend? }

  /** While the offers fit under the limit, every one of them is taken. */
  lemma {:induction false} PlainRun(cfg: Config, credit: int, es: seq<Event>)
    requires TwoCounters(cfg) && Plain(es) && Offers(cfg, es) <= MAX_TARGET_TX_CREDIT
    ensures var l := Run(cfg, Opened(credit), es);
            l.granted == Offers(cfg, es) && l.sends == Sends(es) && l.spent == 0 && 0 <= Offers(cfg, es)
    decreases |es|
  {
    if es != [] {
      var es' := es[..|es| - 1];
      OffersNat(cfg, es');
      PlainRun(cfg, credit, es');
      ReleasedIsMinOfTotals(cfg, credit, es');
      EveryRunAccounted(cfg, credit, es');
    }
  }

  lemma {:induction false} OffersNat(cfg: Config, es: seq<Event>)
    requires Plain(es)
    ensures 0 <= Offers(cfg, es)
    decreases |es|
  {
    if es != [] {
      OffersNat(cfg, es[..|es| - 1]);
    }
  }

  /** Two interleavings of the same events leave the same three counters. */
  lemma OrderIndependent(cfg: Config, credit: int, a: seq<Event>, b: seq<Event>)
    requires TwoCounters(cfg) && Plain(a) && multiset(a) == multiset(b)
    requires Offers(cfg, a) <= MAX_TARGET_TX_CREDIT
    ensures Run(cfg, Opened(credit), a) == Run(cfg, Opened(credit), b)
    ensures Run(cfg, Opened(credit), a).credit.visible
         == credit + Min(Offers(cfg, a), 33 + Sends(a))
  {
    hide Step, Post, Run, Offers, Sends, TwoCounters;
    assert Plain(b) by {
      forall e | e in b ensures !e.CreditInd? && !e.Spend? {
        assert e in multiset(b);
        assert e in multiset(a);
      }
    }
    SameTotals(cfg, a, b);
    PlainRun(cfg, credit, a);
    PlainRun(cfg, credit, b);
    ReleasedIsMinOfTotals(cfg, credit, a);
    ReleasedIsMinOfTotals(cfg, credit, b);
    EveryRunAccounted(cfg, credit, a);
    EveryRunAccounted(cfg, credit, b);
  }

  // ---- credit updates ----

  /** A credit update that is taken leaves the scheduler 33 credits, or nothing to lend. */
  lemma TopUpBound(cfg: Config, c: Credit, delta: int)
    requires TwoCounters(cfg) && !Refused(c, delta)
    ensures var d := Settle(c.(target := c.target + delta));
            var r := Step(cfg, c, CreditInd(delta));
            && (d.visible < 33 && 0 < d.target ==>
                  r.visible == Min(33, d.visible + d.target))
            && (!(d.visible < 33 && 0 < d.target) ==> r == d)
            && (33 <= r.visible || r.target <= 0)
            && r.visible + r.target == c.visible + c.target + delta
  {
  }

  /** The events that take visible credit away without giving it back to either counter. */
  predicate TakesBack(cfg: Config, c: Credit, e: Event) {
    && (e.TxDone? || e.MgmtDone?)
    && Takes(cfg, c, e)
    && Min(c.target + Offer(e), c.bus) < 0
  }

  function Outstanding(l: Ledger): int { l.credit.visible + l.credit.target + l.spent - l.granted }

  lemma StepConservesIff(cfg: Config, l: Ledger, e: Event)
    requires TwoCounters(cfg)
    ensures Outstanding(Post(cfg, l, e)) == Outstanding(l) <==> !TakesBack(cfg, l.credit, e)
    ensures TakesBack(cfg, l.credit, e) ==>
              Outstanding(Post(cfg, l, e)) == Outstanding(l) + Min(l.credit.target + Offer(e), l.credit.bus)
  {
  }

  ghost predicate NeverTakesBack(cfg: Config, l: Ledger, es: seq<Event>) {
    forall i :: 0 <= i < |es| ==> !TakesBack(cfg, Run(cfg, l, es[..i]).credit, es[i])
  }

  /** Credit is conserved over a run if and only if no step of it takes credit back. */
  lemma {:induction false} RunConservesIff(cfg: Config, credit: int, es: seq<Event>)
    requires TwoCounters(cfg)
    ensures var l := Run(cfg, Opened(credit), es);
            && Outstanding(l) == credit - l.lost
            && (l.credit.visible + l.credit.target + l.spent == credit + l.granted
                <==> NeverTakesBack(cfg, Opened(credit), es))
    decreases |es|
  {
    hide Step, Takes, TakesBack, TwoCounters;
    EveryRunAccounted(cfg, credit, es);
    if es != [] {
      var es' := es[..|es| - 1];
      RunConservesIff(cfg, credit, es');
      StepConservesIff(cfg, Run(cfg, Opened(credit), es'), es[|es| - 1]);
      EveryRunAccounted(cfg, credit, es');
      forall i | 0 <= i < |es'| ensures es'[..i] == es[..i] && es'[i] == es[i] {
      }
      assert NeverTakesBack(cfg, Opened(credit), es) <==>
        NeverTakesBack(cfg, Opened(credit), es') && !TakesBack(cfg, Run(cfg, Opened(credit), es').credit, es[|es| - 1]);
    }
  }

  function Mgmt(k: nat): (es: seq<Event>)
    ensures |es| == k
  {
    if k == 0 then [] else Mgmt(k - 1) + [MgmtDone]
  }

  lemma RunNone(cfg: Config, l: Ledger)
    ensures Run(cfg, l, []) == l
  {
  }

  lemma RunLast(cfg: Config, l: Ledger, es: seq<Event>, e: Event)
    ensures Run(cfg, l, es + [e]).credit == Step(cfg, Run(cfg, l, es).credit, e)
  {
    hide Step;
    assert (es + [e])[..|es|] == es;
  }

  lemma TakenBackOnce(cfg: Config, c: Credit)
    requires TwoCounters(cfg) && 0 <= c.target && c.bus < 0
    ensures Step(cfg, c, MgmtDone) == Credit(c.target + 1, c.bus, c.visible + c.bus)
  {
  }

  /** While the bus counter is negative, every management completion takes that much away again. */
  lemma {:induction false} TakenBackEachTime(cfg: Config, l: Ledger, k: nat)
    requires TwoCounters(cfg) && 0 <= l.credit.target && l.credit.bus < 0
    ensures var c := l.credit;
            Run(cfg, l, Mgmt(k)).credit == Credit(c.target + k, c.bus, c.visible + k * c.bus)
  {
    hide Step, TwoCounters, Run;
    if k == 0 {
      RunNone(cfg, l);
    } else {
      TakenBackEachTime(cfg, l, k - 1);
      RunLast(cfg, l, Mgmt(k - 1), MgmtDone);
      TakenBackOnce(cfg, Run(cfg, l, Mgmt(k - 1)).credit);
      assert k * l.credit.bus == (k - 1) * l.credit.bus + l.credit.bus;
    }
  }

  /** A large grant, all of it spent, and one more update get the bus counter there. */
  lemma BusCounterFallsBelowZero(cfg: Config, grant: int)
    requires TwoCounters(cfg) && 66 <= grant <= MAX_TARGET_TX_CREDIT
    ensures var l := Post(cfg, Post(cfg, Post(cfg, Opened(0), CreditInd(grant)), Spend(33)), CreditInd(0));
            l.credit == Credit(grant - 66, -33, 33) && l.spent == 33
  {
    hide Run;
    var l := Post(cfg, Opened(0), CreditInd(grant));
    assert l.credit == Credit(grant - 33, 0, 33);
    assert Post(cfg, l, Spend(33)).credit == Credit(grant - 33, 0, 0);
  }
}
