/** What a daemon does with its messages, written out: what each handler run decides, dumps, and the four signals. */
module HaForwarding {
  import opened HaSpec
  import opened HaQueue
  import opened HaElection

  // ----- one handler run

  /** Another daemon's unexpired key has a timestamp smaller than `stamp`. */
  ghost predicate SmallerInStore(s: System, e: Event, stamp: int) {
    exists k :: k in s.store && k != e.who && s.store[k].expires > e.at && s.store[k].stamp < stamp
  }

  lemma SmallerSeen(s: System, e: Event, cfg: Config)
    requires CanStep(s, e) && e.act.Handler?
    ensures var stamp := Step(s, e, cfg).daemons[e.who].stamp;
      SeesSmaller(Seen(s, e, cfg), stamp) <==> e.act.up && SmallerInStore(s, e, stamp)
  {
    var stamp, seen, store := Step(s, e, cfg).daemons[e.who].stamp, Seen(s, e, cfg), StoreAfter(s, e, cfg);
    assert stamp == NewStamp(s.daemons[e.who], e.at);
    if e.act.up && SmallerInStore(s, e, stamp) {
      var k :| k in s.store && k != e.who && s.store[k].expires > e.at && s.store[k].stamp < stamp;
      assert k in store && store[k].stamp in seen;
    }
    if SeesSmaller(seen, stamp) {
      var t :| t in seen && t < stamp;
      var k :| k in store && store[k].expires > e.at && store[k].stamp == t;
      assert k != e.who;
    }
  }

  /** It stops forwarding if and only if it has read a smaller timestamp and no dump is running. */
  lemma StandbyExactly(s: System, e: Event, cfg: Config)
    requires CanStep(s, e) && e.act.Handler? && !s.daemons[e.who].forced
    ensures var before, after := s.daemons[e.who], Step(s, e, cfg).daemons[e.who];
      && (!after.forwarding <==> e.act.up && SmallerInStore(s, e, after.stamp) && !before.dumping)
      && (!after.forwarding <==> SeesSmaller(Seen(s, e, cfg), after.stamp) && !before.dumping)
  {
    SmallerSeen(s, e, cfg);
    StandbyOnlyForSmaller(s, e, cfg);
  }

  /** In forced mode the store does not matter. */
  lemma ForcedExactly(s: System, e: Event, cfg: Config)
    requires CanStep(s, e) && e.act.Handler? && s.daemons[e.who].forced
    ensures var before, after := s.daemons[e.who], Step(s, e, cfg).daemons[e.who];
      && after.state == before.state && after.forced
      && (after.forwarding <==> before.state || before.dumping)
  {
  }

  /** The timestamp is taken in the first run and after a request, and is written with its expiry if the store answers. */
  lemma StampWritten(s: System, e: Event, cfg: Config)
    requires CanStep(s, e) && e.act.Handler?
    ensures var before, r := s.daemons[e.who], Step(s, e, cfg);
      && r.daemons[e.who].stamp == (if before.loop == 0 || before.regenerate then e.at else before.stamp)
      && !r.daemons[e.who].regenerate && r.daemons[e.who].loop > 0
      && r.store == if e.act.up then s.store[e.who := Entry(r.daemons[e.who].stamp, e.at + cfg.expiry)] else s.store
  {
  }

  /** A dump is asked for by exactly the runs that turn forwarding on, the first one excepted. */
  lemma DumpAskedExactly(s: System, e: Event, cfg: Config)
    requires CanStep(s, e) && e.act.Handler? && Good(s.daemons[e.who], s.now, cfg)
    ensures var before, after := s.daemons[e.who], Step(s, e, cfg).daemons[e.who];
      var asks := !before.forwarding && after.forwarding;
      && after.worker == (if asks && before.worker.Idle? then Assigned else before.worker)
      && after.waiting == (asks && !before.worker.Idle?)
  {
  }

  // ----- dumps

  /** Events that cannot make a forwarding daemon with its dump flag up stop. */
  lemma DumpingStep(s: System, e: Event, w: nat, cfg: Config)
    requires CanStep(s, e) && w < |s.daemons| && s.daemons[w].forwarding && s.daemons[w].dumping
    requires !(e.who == w && e.act.DumpEnd?)
    ensures var r := Step(s, e, cfg).daemons;
      && |r| == |s.daemons| && r[w].forwarding && r[w].dumping && r[w].received == s.daemons[w].received
      && r[w].direct == s.daemons[w].direct + if e.who == w && e.act.Receive? then [e.act.buf] else []
  {
    if e.who == w {
      var d := s.daemons[w];
      match e.act
      case Sweep(readAt, pops) => SweepShrinks(d, readAt, pops, cfg);
      case DumpDrain => DumpShrinks(d, e.at);
      case _ =>
    }
  }

  /** The messages that daemon `w` receives in the events from `i` to `n`, in order. */
  function Incoming(es: seq<Event>, i: nat, n: nat, w: nat): seq<nat>
    requires i <= n <= |es|
  {
    if i == n then [] else
    Incoming(es, i, n - 1, w) + if es[n - 1].who == w && es[n - 1].act.Receive? then [es[n - 1].act.buf] else []
  }

  /**
   * A daemon that forwards while it dumps goes on until the dump ends, whatever the store says and whatever signal comes,
   * and forwards everything that it receives meanwhile, in order.
   */
  lemma {:induction false} DumpingForwards(ss: seq<System>, es: seq<Event>, i: nat, n: nat, w: nat, cfg: Config)
    requires Run(ss, es, cfg) && i <= n <= |es| && w < |ss[i].daemons|
    requires ss[i].daemons[w].forwarding && ss[i].daemons[w].dumping
    requires forall j :: i <= j < n ==> !(es[j].who == w && es[j].act.DumpEnd?)
    ensures |ss[n].daemons| == |ss[i].daemons|
    ensures var before, after := ss[i].daemons[w], ss[n].daemons[w];
      && after.forwarding && after.dumping && after.received == before.received
      && after.direct == before.direct + Incoming(es, i, n, w)
  {
    hide Acted, Seen, StoreAfter;
    if i < n {
      DumpingForwards(ss, es, i, n - 1, w, cfg);
      DumpingStep(ss[n - 1], es[n - 1], w, cfg);
      var before := ss[i].daemons[w].direct;
      assert before + Incoming(es, i, n, w) == before + Incoming(es, i, n - 1, w)
        + if es[n - 1].who == w && es[n - 1].act.Receive? then [es[n - 1].act.buf] else [];
    }
  }

  // ----- signals

  lemma ForcedStep(s: System, e: Event, w: nat, cfg: Config)
    requires CanStep(s, e) && w < |s.daemons| && s.daemons[w].forced && !(e.who == w && Signal(e.act))
    ensures var r := Step(s, e, cfg).daemons;
      |r| == |s.daemons| && r[w].forced && r[w].state == s.daemons[w].state
  {
    if e.who == w {
      var d := s.daemons[w];
      match e.act
      case Sweep(readAt, pops) => SweepShrinks(d, readAt, pops, cfg);
      case DumpDrain => DumpShrinks(d, e.at);
      case _ =>
    }
  }

  /**
   * After a forcing signal, until the next signal, every handler run of the daemon leaves it forwarding if it was forced
   * active; if it was forced to standby, it leaves it so exactly if no dump is running.
   */
  lemma {:induction false} ForcedUntilNextSignal(ss: seq<System>, es: seq<Event>, i: nat, n: nat, cfg: Config)
    requires Run(ss, es, cfg) && i < n < |es| && (es[i].act.ForceActive? || es[i].act.ForceStandby?)
    requires forall j :: i < j < n ==> !(es[j].who == es[i].who && Signal(es[j].act))
    requires es[n].who == es[i].who && es[n].act.Handler?
    ensures var w := es[i].who;
      && w < |ss[n].daemons| && w < |ss[n + 1].daemons|
      && (ss[n + 1].daemons[w].state <==> es[i].act.ForceActive?)
      && (ss[n + 1].daemons[w].forwarding <==> es[i].act.ForceActive? || ss[n].daemons[w].dumping)
  {
    hide Acted, Seen, StoreAfter;
    StaysForced(ss, es, i, n, cfg);
    ForcedExactly(ss[n], es[n], cfg);
  }

  lemma {:induction false} StaysForced(ss: seq<System>, es: seq<Event>, i: nat, n: nat, cfg: Config)
    requires Run(ss, es, cfg) && i < n <= |es| && (es[i].act.ForceActive? || es[i].act.ForceStandby?)
    requires forall j :: i < j < n ==> !(es[j].who == es[i].who && Signal(es[j].act))
    ensures var w := es[i].who;
      && w < |ss[n].daemons| && ss[n].daemons[w].forced && (ss[n].daemons[w].state <==> es[i].act.ForceActive?)
  {
    if n == i + 1 {
      assert ss[n] == Step(ss[i], es[i], cfg);
    } else {
      hide Acted, Seen, StoreAfter;
      StaysForced(ss, es, i, n - 1, cfg);
      ForcedStep(ss[n - 1], es[n - 1], es[i].who, cfg);
    }
  }

  /** The other two signals, and what none of them does. */
  lemma SignalOnly(s: System, e: Event, cfg: Config)
    requires CanStep(s, e) && Signal(e.act)
    ensures var before, after := s.daemons[e.who], Step(s, e, cfg).daemons[e.who];
      && (after.forced <==> e.act.ForceActive? || e.act.ForceStandby? || (before.forced && e.act.Regenerate?))
      && (after.state <==> e.act.ForceActive? || (before.state && !e.act.ForceStandby?))
      && (after.regenerate <==> e.act.Regenerate? || before.regenerate)
      && after.stamp == before.stamp && after.forwarding == before.forwarding && after.queue == before.queue
    ensures Step(s, e, cfg).store == s.store
  {
  }
}
