/** Failover loses nothing: what a standby receives after the active daemon stops is forwarded or dumped. */
module HaFailover {
  import opened HaSpec
  import opened HaQueue
  import opened HaElection

  /** Not older than `floor`, now or after its next handler run. */
  predicate NotOlder(d: Daemon, floor: int) {
    d.loop == 0 || d.regenerate || d.stamp >= floor
  }

  /** Apart from daemon `a`, nobody has or will write a timestamp below `floor`. */
  ghost predicate NoneOlder(s: System, a: nat, floor: int) {
    && (forall v :: 0 <= v < |s.daemons| && v != a ==> NotOlder(s.daemons[v], floor))
    && (forall k :: k in s.store && k != a ==> s.store[k].stamp >= floor)
  }

  /** Daemon `b` is a standby past its first loop, with the smallest timestamp but for `a`'s, whose key is running out. */
  ghost predicate NextInLine(s: System, a: nat, b: nat, cfg: Config) {
    && a < |s.daemons| && b < |s.daemons| && a != b
    && Settled(s.daemons[b]) && s.daemons[b].stamp <= s.now && !s.daemons[b].forwarding
    && NoneOlder(s, a, s.daemons[b].stamp)
    && (a in s.store ==> s.store[a].expires <= s.now + cfg.expiry)
  }

  /** Daemon `a` has stopped, and `b` gets no signal. */
  predicate Stopped(e: Event, a: nat, b: nat) {
    e.who != a && (e.who == b ==> !Signal(e.act))
  }

  ghost predicate Failover(ss: seq<System>, es: seq<Event>, a: nat, b: nat, cfg: Config) {
    && Run(ss, es, cfg) && AllGood(ss[0], cfg) && NextInLine(ss[0], a, b, cfg)
    && forall i :: 0 <= i < |es| ==> Stopped(es[i], a, b)
  }

  /** Event `i` turns daemon `b` from standby to forwarding. */
  ghost predicate Flips(ss: seq<System>, i: nat, b: nat)
    requires i + 1 < |ss|
  {
    && b < |ss[i].daemons| && b < |ss[i + 1].daemons|
    && !ss[i].daemons[b].forwarding && ss[i + 1].daemons[b].forwarding
  }

  /** A dump drains the queue of `b` after event `i` by time `limit`. */
  ghost predicate DrainedBy(es: seq<Event>, i: nat, b: nat, limit: int) {
    exists j :: i < j < |es| && es[j].who == b && es[j].act.DumpDrain? && es[j].at <= limit
  }

  ghost predicate LastsBeyond(ss: seq<System>, time: int) {
    ss != [] && ss[|ss| - 1].now > time
  }

  /** Every dump drains the queue at most `delay` after the handler run that asked for it, if the run goes on that long. */
  ghost predicate PromptDumps(ss: seq<System>, es: seq<Event>, b: nat, delay: int)
    requires |ss| == |es| + 1
  {
    forall i :: 0 <= i < |es| && Flips(ss, i, b) && LastsBeyond(ss, es[i].at + delay) ==> DrainedBy(es, i, b, es[i].at + delay)
  }

  /** Event `i` is a handler run of daemon `b`. */
  predicate Runs(es: seq<Event>, i: nat, b: nat) {
    i < |es| && es[i].who == b && es[i].act.Handler?
  }

  ghost predicate RunsBy(es: seq<Event>, i: nat, b: nat, limit: int) {
    exists j :: i <= j < |es| && Runs(es, j, b) && es[j].at <= limit
  }

  /**
   * Daemon `b` runs its handler at least every `period`, from the start of the run and from each handler run on,
   * if the run goes on that long.
   */
  ghost predicate Periodic(ss: seq<System>, es: seq<Event>, b: nat, period: int)
    requires |ss| == |es| + 1
  {
    forall i {:trigger ss[i].now} :: 0 <= i <= |es| && (i > 0 ==> Runs(es, i - 1, b)) && LastsBeyond(ss, ss[i].now + period) ==>
      RunsBy(es, i, b, ss[i].now + period)
  }

  // ----- one step

  lemma StampStep(d: Daemon, at: int, a: Action, seen: set<int>, floor: int, cfg: Config)
    requires NotOlder(d, floor) && floor <= at
    ensures NotOlder(Acted(d, at, a, seen, cfg), floor)
    ensures a.Handler? ==> NewStamp(d, at) >= floor
  {
    hide Swept, Dumped, GoesActive;
    match a
    case Sweep(readAt, pops) => SweepShrinks(d, readAt, pops, cfg);
    case DumpDrain => DumpShrinks(d, at);
    case _ =>
  }

  lemma NoneOlderStep(s: System, e: Event, a: nat, floor: int, cfg: Config)
    requires NoneOlder(s, a, floor) && CanStep(s, e) && e.who != a && floor <= s.now
    ensures NoneOlder(Step(s, e, cfg), a, floor)
    ensures a in s.store <==> a in Step(s, e, cfg).store
    ensures a in s.store ==> Step(s, e, cfg).store[a] == s.store[a]
  {
    hide Acted;
    StampStep(s.daemons[e.who], e.at, e.act, Seen(s, e, cfg), floor, cfg);
  }

  /** Only a handler run changes the forwarding flag; a forwarding daemon queues nothing. */
  lemma ForwardingStep(d: Daemon, at: int, a: Action, seen: set<int>, cfg: Config)
    requires !Signal(a)
    ensures var r := Acted(d, at, a, seen, cfg);
      && (r.forwarding != d.forwarding ==> a.Handler?)
      && (d.forwarding || !a.Receive? ==> r.received == d.received)
      && d.direct <= r.direct
      && (a.DumpDrain? ==> r.queue == [])
  {
    hide Swept, Dumped, GoesActive, NewStamp;
    match a
    case Sweep(readAt, pops) => SweepShrinks(d, readAt, pops, cfg);
    case DumpDrain => DumpShrinks(d, at);
    case _ =>
  }

  /** Once the key of `a` is gone, a handler run of `b` leaves it forwarding. */
  lemma AloneForwards(s: System, e: Event, a: nat, cfg: Config)
    requires CanStep(s, e) && e.act.Handler? && e.who != a && Settled(s.daemons[e.who])
    requires NoneOlder(s, a, s.daemons[e.who].stamp)
    requires a in s.store ==> s.store[a].expires <= e.at
    ensures Step(s, e, cfg).daemons[e.who].forwarding
  {
    var d, seen := s.daemons[e.who], Seen(s, e, cfg);
    assert NewStamp(d, e.at) == d.stamp;
    forall t | t in seen ensures t >= d.stamp {
      var store := StoreAfter(s, e, cfg);
      var k :| k in store && store[k].expires > e.at && store[k].stamp == t;
    }
    assert IsActive(d.stamp, seen);
  }

  // ----- along the run

  /** What stays true of the cluster after `n` events. */
  lemma {:induction false} StillNext(ss: seq<System>, es: seq<Event>, n: nat, a: nat, b: nat, cfg: Config)
    requires Failover(ss, es, a, b, cfg) && n <= |es|
    ensures |ss[n].daemons| == |ss[0].daemons| && ss[0].now <= ss[n].now
    ensures Settled(ss[n].daemons[b]) && ss[n].daemons[b].stamp == ss[0].daemons[b].stamp
    ensures NoneOlder(ss[n], a, ss[0].daemons[b].stamp)
    ensures a in ss[n].store ==> ss[n].store[a].expires <= ss[0].now + cfg.expiry
  {
    if n > 0 {
      hide Acted, NoneOlder, Seen, StoreAfter, Enabled, Good, Settled;
      StillNext(ss, es, n - 1, a, b, cfg);
      var s, e := ss[n - 1], es[n - 1];
      assert Stopped(e, a, b);
      NoneOlderStep(s, e, a, ss[0].daemons[b].stamp, cfg);
      if e.who == b {
        OthersDoNotVote(s.daemons[b], e.at, e.act, Seen(s, e, cfg), cfg);
      }
    }
  }

  /** Histories only grow. */
  lemma {:induction false} HistoryGrows(ss: seq<System>, es: seq<Event>, i: nat, n: nat, a: nat, b: nat, cfg: Config)
    requires Failover(ss, es, a, b, cfg) && i <= n <= |es|
    ensures |ss[i].daemons| == |ss[n].daemons| == |ss[0].daemons| && ss[i].now <= ss[n].now
    ensures ss[i].daemons[b].received <= ss[n].daemons[b].received
    ensures ss[i].daemons[b].direct <= ss[n].daemons[b].direct
    ensures ss[i].daemons[b].gone <= ss[n].daemons[b].gone
  {
    assert b < |ss[0].daemons|;
    hide Acted, Seen, StoreAfter, Good, NextInLine;
    RunKeepsGood(ss, es, i, cfg);
    if i < n {
      HistoryGrows(ss, es, i, n - 1, a, b, cfg);
      RunKeepsGood(ss, es, n - 1, cfg);
      var s, e := ss[n - 1], es[n - 1];
      assert Stopped(e, a, b);
      if e.who == b {
        StepKeepsGood(s.daemons[b], s.now, e.at, e.act, Seen(s, e, cfg), cfg);
        ForwardingStep(s.daemons[b], e.at, e.act, Seen(s, e, cfg), cfg);
      }
    }
  }

  /** A handler run of `b` after the key of `a` has expired leaves `b` forwarding for the rest of the run. */
  lemma {:induction false} ForwardsFrom(ss: seq<System>, es: seq<Event>, h: nat, n: nat, a: nat, b: nat, cfg: Config)
    requires Failover(ss, es, a, b, cfg) && h < n <= |es|
    requires es[h].who == b && es[h].act.Handler? && es[h].at >= ss[0].now + cfg.expiry
    ensures |ss[n].daemons| == |ss[0].daemons| && ss[n].daemons[b].forwarding
  {
    hide Acted, NoneOlder, Seen, StoreAfter, Enabled, Good, Settled;
    var s, e := ss[n - 1], es[n - 1];
    StillNext(ss, es, n - 1, a, b, cfg);
    HistoryGrows(ss, es, h, n - 1, a, b, cfg);
    assert Stopped(e, a, b);
    if e.who == b && e.act.Handler? {
      assert e.at >= ss[0].now + cfg.expiry by {
        if h < n - 1 {
          HistoryGrows(ss, es, h + 1, n - 1, a, b, cfg);
        }
      }
      AloneForwards(s, e, a, cfg);
    } else {
      ForwardsFrom(ss, es, h, n - 1, a, b, cfg);
      if e.who == b {
        ForwardingStep(s.daemons[b], e.at, e.act, Seen(s, e, cfg), cfg);
      }
    }
  }

  ghost predicate Forwards(ss: seq<System>, b: nat, i: nat)
    requires i < |ss|
  {
    b < |ss[i].daemons| && ss[i].daemons[b].forwarding
  }

  /** The last change to forwarding before state `n`. */
  lemma {:induction false} LastFlip(ss: seq<System>, es: seq<Event>, n: nat, a: nat, b: nat, cfg: Config) returns (i: nat)
    requires Failover(ss, es, a, b, cfg) && n <= |es| && Forwards(ss, b, n)
    ensures i < n && Flips(ss, i, b) && forall k :: i < k <= n ==> Forwards(ss, b, k)
  {
    hide Good, Stopped, Acted, Seen, StoreAfter, Enabled;
    HistoryGrows(ss, es, 0, n - 1, a, b, cfg);
    if Forwards(ss, b, n - 1) {
      i := LastFlip(ss, es, n - 1, a, b, cfg);
    } else {
      i := n - 1;
    }
  }

  /** The next handler run. */
  lemma NextRun(ss: seq<System>, es: seq<Event>, i: nat, b: nat, period: int) returns (h: nat)
    requires |ss| == |es| + 1 && Periodic(ss, es, b, period) && i <= |es| && (i > 0 ==> Runs(es, i - 1, b))
    requires LastsBeyond(ss, ss[i].now + period)
    ensures i <= h < |es| && Runs(es, h, b) && es[h].at <= ss[i].now + period
  {
    assert RunsBy(es, i, b, ss[i].now + period);
    h :| i <= h < |es| && Runs(es, h, b) && es[h].at <= ss[i].now + period;
  }

  lemma LastsLess(ss: seq<System>, time: int, sooner: int)
    requires LastsBeyond(ss, time) && sooner <= time
    ensures LastsBeyond(ss, sooner)
  {
  }

  ghost predicate Timed(ss: seq<System>, es: seq<Event>) {
    |ss| == |es| + 1 && forall i :: 0 <= i < |es| ==> ss[i + 1].now == es[i].at
  }

  lemma RunIsTimed(ss: seq<System>, es: seq<Event>, cfg: Config)
    requires Run(ss, es, cfg)
    ensures Timed(ss, es)
  {
  }

  /** A daemon that runs its handler periodically runs it within a period of the last moment before `time`. */
  lemma {:induction false} RunAfter(ss: seq<System>, es: seq<Event>, i: nat, time: int, period: nat, b: nat)
    returns (h: nat)
    requires Timed(ss, es) && Periodic(ss, es, b, period) && LastsBeyond(ss, time - 1 + period)
    requires i <= |es| && (i > 0 ==> Runs(es, i - 1, b)) && ss[i].now < time
    ensures h < |es| && Runs(es, h, b) && time <= es[h].at <= time - 1 + period
    decreases |es| - i
  {
    hide Periodic, LastsBeyond, Runs;
    LastsLess(ss, time - 1 + period, ss[i].now + period);
    h := NextRun(ss, es, i, b, period);
    if es[h].at < time {
      h := RunAfter(ss, es, h + 1, time, period, b);
    }
  }

  /**
   * What daemon `b` was given with event `k` has not been dropped: it was forwarded at once, or is still queued,
   * or has been handed over.
   */
  ghost predicate NotLost(ss: seq<System>, es: seq<Event>, k: nat, b: nat)
    requires |ss| == |es| + 1 && k < |es| && es[k].act.Receive?
  {
    && b < |ss[k].daemons| && b < |ss[|es|].daemons|
    && var d, last := ss[k].daemons[b], ss[|es|].daemons[b];
       if d.forwarding
       then |d.direct| < |last.direct| && last.direct[|d.direct|] == es[k].act.buf
       else
         && |d.received| < |last.received| && last.received[|d.received|] == Message(es[k].act.buf, es[k].at)
         && (|d.received| < |last.gone| ==>
               last.gone[|d.received|].fate == Handed && last.gone[|d.received|].msg == last.received[|d.received|])
  }

  /** It has left the daemon, too. */
  ghost predicate Delivered(ss: seq<System>, es: seq<Event>, k: nat, b: nat)
    requires |ss| == |es| + 1 && k < |es| && es[k].act.Receive?
  {
    && NotLost(ss, es, k, b)
    && (!ss[k].daemons[b].forwarding ==> |ss[k].daemons[b].received| < |ss[|es|].daemons[b].gone|)
  }

  /** What is left in the queue or handed over, after any run no longer than the timeout. */
  lemma NothingOverAge(ss: seq<System>, es: seq<Event>, n: nat, p: nat, a: nat, b: nat, cfg: Config)
    requires Failover(ss, es, a, b, cfg) && cfg.maxSize <= 0 && n <= |es| && ss[n].now <= ss[0].now + cfg.timeout
    requires b < |ss[n].daemons|
    requires p < |ss[n].daemons[b].received| && ss[n].daemons[b].received[p].stamp >= ss[0].now
    ensures var d := ss[n].daemons[b]; p < |d.gone| ==> d.gone[p].fate == Handed && d.gone[p].msg == d.received[p]
  {
    hide Acted, Seen, StoreAfter, NextInLine, InOrder, Armed;
    RunKeepsGood(ss, es, n, cfg);
    var d := ss[n].daemons[b];
    assert Good(d, ss[n].now, cfg);
    if p < |d.gone| {
      assert Justified(d.gone[p], cfg);
    }
  }

  /** By a drain that is soon enough, everything received since the start has been handed over. */
  lemma HandedWhenDrained(ss: seq<System>, es: seq<Event>, j: nat, p: nat, a: nat, b: nat, cfg: Config)
    requires Failover(ss, es, a, b, cfg) && cfg.maxSize <= 0 && j < |es|
    requires es[j].who == b && es[j].act.DumpDrain? && es[j].at <= ss[0].now + cfg.timeout
    requires b < |ss[j + 1].daemons|
    requires p < |ss[j + 1].daemons[b].received| && ss[j + 1].daemons[b].received[p].stamp >= ss[0].now
    ensures var d := ss[j + 1].daemons[b];
      p < |d.gone| && d.gone[p].fate == Handed && d.gone[p].msg == d.received[p]
  {
    hide Acted, Seen, StoreAfter, NextInLine, InOrder, Armed, DropsJustified, LeftBy;
    RunKeepsGood(ss, es, j, cfg);
    RunKeepsGood(ss, es, j + 1, cfg);
    ForwardingStep(ss[j].daemons[b], es[j].at, es[j].act, Seen(ss[j], es[j], cfg), cfg);
    var d := ss[j + 1].daemons[b];
    assert d.queue == [] && Good(d, ss[j + 1].now, cfg);
    NothingOverAge(ss, es, j + 1, p, a, b, cfg);
  }

  lemma ReceiveStep(d: Daemon, at: int, buf: nat, seen: set<int>, cfg: Config)
    ensures var r := Acted(d, at, Receive(buf), seen, cfg);
      if d.forwarding then r.direct == d.direct + [buf] else r.received == d.received + [Message(buf, at)]
  {
  }

  /** The last moment at which a handler run can find the stopped daemon's key, and the latest end of the dump after it. */
  function Latest(start: int, period: int, delay: int, cfg: Config): int {
    start + cfg.expiry - 1 + period + delay
  }

  /** If the run goes on for long enough, what was queued with event `k` is handed over. */
  lemma QueuedIsHanded(ss: seq<System>, es: seq<Event>, k: nat, a: nat, b: nat, period: nat, delay: nat, cfg: Config)
    requires Failover(ss, es, a, b, cfg) && Periodic(ss, es, b, period) && PromptDumps(ss, es, b, delay)
    requires cfg.maxSize <= 0 && cfg.expiry > 0 && ss[0].now + cfg.timeout >= Latest(ss[0].now, period, delay, cfg)
    requires LastsBeyond(ss, Latest(ss[0].now, period, delay, cfg))
    requires k < |es| && es[k].who == b && es[k].act.Receive?
    requires b < |ss[k].daemons| && !ss[k].daemons[b].forwarding
    ensures b < |ss[|es|].daemons|
    ensures var p, last := |ss[k].daemons[b].received|, ss[|es|].daemons[b];
      p < |last.gone| && last.gone[p].fate == Handed && last.gone[p].msg == Message(es[k].act.buf, es[k].at)
  {
    hide Acted, Seen, StoreAfter, Enabled, Good, NextInLine, AllGood, PromptDumps, Periodic, Stopped;
    HistoryGrows(ss, es, 0, k, a, b, cfg);
    var d := ss[k].daemons[b];
    assert ss[k + 1].daemons[b] == Acted(d, es[k].at, es[k].act, Seen(ss[k], es[k], cfg), cfg);
    ReceiveStep(d, es[k].at, es[k].act.buf, Seen(ss[k], es[k], cfg), cfg);
    RunIsTimed(ss, es, cfg);
    var h := RunAfter(ss, es, 0, ss[0].now + cfg.expiry, period, b);
    var j := DrainAfter(ss, es, k, h, a, b, delay, cfg);
    HistoryGrows(ss, es, k + 1, j + 1, a, b, cfg);
    HandedWhenDrained(ss, es, j, |d.received|, a, b, cfg);
    HistoryGrows(ss, es, j + 1, |es|, a, b, cfg);
  }

  /** The dump that a handler run after the key's expiry has started, or an earlier one, drains what was queued before. */
  lemma DrainAfter(ss: seq<System>, es: seq<Event>, k: nat, h: nat, a: nat, b: nat, delay: nat, cfg: Config) returns (j: nat)
    requires Failover(ss, es, a, b, cfg) && PromptDumps(ss, es, b, delay)
    requires Runs(es, h, b) && es[h].at >= ss[0].now + cfg.expiry && LastsBeyond(ss, es[h].at + delay)
    requires k < |es| && b < |ss[k].daemons| && !ss[k].daemons[b].forwarding
    ensures k < j < |es| && es[j].who == b && es[j].act.DumpDrain? && es[j].at <= es[h].at + delay
  {
    hide Acted, Seen, StoreAfter, Enabled, Good, NextInLine, AllGood, PromptDumps;
    ForwardsFrom(ss, es, h, h + 1, a, b, cfg);
    if k > h {
      ForwardsFrom(ss, es, h, k, a, b, cfg);
    }
    var i := LastFlip(ss, es, h + 1, a, b, cfg);
    assert !Forwards(ss, b, k);
    HistoryGrows(ss, es, i + 1, h + 1, a, b, cfg);
    RunIsTimed(ss, es, cfg);
    j := PromptDrain(ss, es, i, b, delay);
  }

  lemma PromptDrain(ss: seq<System>, es: seq<Event>, i: nat, b: nat, delay: nat) returns (j: nat)
    requires |ss| == |es| + 1 && PromptDumps(ss, es, b, delay) && i < |es| && Flips(ss, i, b)
    requires LastsBeyond(ss, es[i].at + delay)
    ensures i < j < |es| && es[j].who == b && es[j].act.DumpDrain? && es[j].at <= es[i].at + delay
  {
    assert DrainedBy(es, i, b, es[i].at + delay);
    j :| i < j < |es| && es[j].who == b && es[j].act.DumpDrain? && es[j].at <= es[i].at + delay;
  }

  /**
   * Failover loses nothing: if the active daemon stops, the next in line runs its handler at least every `period`,
   * dumps take at most `delay`, the queue is not limited in size, and the message timeout is at least the key expiry
   * plus the period plus the delay, less one tick, then in no run is anything lost that the next in line receives
   * from then on; and if the run goes on beyond that time, it has all been delivered.
   */
  lemma FailoverLosesNothing(ss: seq<System>, es: seq<Event>, k: nat, a: nat, b: nat, period: nat, delay: nat, cfg: Config)
    requires Failover(ss, es, a, b, cfg) && Periodic(ss, es, b, period) && PromptDumps(ss, es, b, delay)
    requires cfg.maxSize <= 0 && cfg.expiry > 0 && cfg.timeout >= cfg.expiry + period + delay - 1
    requires k < |es| && es[k].who == b && es[k].act.Receive?
    ensures NotLost(ss, es, k, b)
    ensures LastsBeyond(ss, Latest(ss[0].now, period, delay, cfg)) ==> Delivered(ss, es, k, b)
  {
    hide Acted, Seen, StoreAfter, Enabled, Good, NextInLine, AllGood, Periodic, PromptDumps;
    HistoryGrows(ss, es, 0, k, a, b, cfg);
    HistoryGrows(ss, es, k + 1, |es|, a, b, cfg);
    var d := ss[k].daemons[b];
    assert ss[k + 1].daemons[b] == Acted(d, es[k].at, es[k].act, Seen(ss[k], es[k], cfg), cfg);
    ReceiveStep(d, es[k].at, es[k].act.buf, Seen(ss[k], es[k], cfg), cfg);
    if !d.forwarding {
      if LastsBeyond(ss, Latest(ss[0].now, period, delay, cfg)) {
        QueuedIsHanded(ss, es, k, a, b, period, delay, cfg);
      } else {
        NothingOverAge(ss, es, |es|, |d.received|, a, b, cfg);
      }
    }
  }
}
