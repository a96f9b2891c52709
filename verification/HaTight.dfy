/**
 * The bound of the failover theorem is tight: a run, for any expiry, period and delay, in which the standby runs its
 * handler regularly, the stopped daemon's key expires right after it was last read, and a message is dropped just
 * before the dump.
 */
module HaTight {
  import opened HaSpec
  import opened HaQueue
  import opened HaElection
  import opened HaFailover

  const LOST := Message(7, 0)

  /** The stopped daemon: older, and active. */
  const Stopper := Fresh.(stamp := -1, loop := 1, previous := true)

  datatype Times = Times(period: nat, delay: nat, cfg: Config) {
    predicate Valid() { period > 0 && cfg.expiry > 0 && cfg.maxSize <= 0 && cfg.timeout < cfg.expiry + period + delay - 1 }

    /** How often the standby runs its handler. */
    function Count(): nat { cfg.expiry + delay + 1 }

    /** When it does so for the k-th time: every tick until the key expires, then a period later, then every tick again. */
    function At(k: nat): int {
      if k < cfg.expiry then k else k - 1 + period
    }

    function Late(): int { cfg.expiry - 1 + period + delay }

    function EventAt(i: nat): Event {
      if i == 0 then Event(0, 1, Receive(7))
      else if i <= Count() then Event(At(i - 1), 1, Handler(true))
      else if i == Count() + 1 then Event(Late(), 1, Sweep(Late(), 1))
      else if i == Count() + 2 then Event(Late(), 1, DumpBegin)
      else Event(Late(), 1, DumpDrain)
    }

    /** The standby after `k` runs of its handler. */
    function Standby(k: nat): Daemon {
      var active := k > cfg.expiry;
      Fresh.(state := active, forwarding := active, previous := active, loop := k % 600 + 1,
             worker := if active then Assigned else Idle, queue := [LOST], received := [LOST])
    }

    function Store(k: nat): map<nat, Entry> {
      var first := map[0 := Entry(-1, cfg.expiry)];
      if k == 0 then first else first[1 := Entry(0, At(k - 1) + cfg.expiry)]
    }

    function After(k: nat): System {
      System(if k == 0 then 0 else At(k - 1), [Stopper, Standby(k)], Store(k))
    }

    /** After the sweep, and the first `steps` steps of the dump. */
    function Dropped(steps: nat): System {
      var d := Standby(Count()).(queue := [], gone := [Gone(LOST, OverAge, Late(), 1)]);
      var e := if steps == 0 then d else if steps == 1 then d.(dumping := true, worker := Running)
               else d.(dumping := true, worker := Drained);
      System(Late(), [Stopper, e], Store(Count()))
    }

    function StateAt(i: nat): System {
      if i == 0 then System(0, [Stopper, Standby(0).(queue := [], received := [])], Store(0))
      else if i <= Count() + 1 then After(i - 1)
      else Dropped(i - Count() - 2)
    }

    function Events(): (es: seq<Event>)
      ensures |es| == Count() + 4 && forall i :: 0 <= i < |es| ==> es[i] == EventAt(i)
    {
      seq(Count() + 4, i requires 0 <= i => EventAt(i))
    }

    function States(): (ss: seq<System>)
      ensures |ss| == Count() + 5 && forall i :: 0 <= i < |ss| ==> ss[i] == StateAt(i)
    {
      seq(Count() + 5, i requires 0 <= i => StateAt(i))
    }
  }

  /** A handler run finds the stopped daemon's key exactly until it expires. */
  lemma HandlerStep(t: Times, k: nat)
    requires t.Valid() && k < t.Count()
    ensures var s, e := t.After(k), Event(t.At(k), 1, Handler(true));
      CanStep(s, e) && Step(s, e, t.cfg) == t.After(k + 1) && (-1 in Seen(s, e, t.cfg) <==> k < t.cfg.expiry)
  {
    var s, e := t.After(k), Event(t.At(k), 1, Handler(true));
    var store, seen := StoreAfter(s, e, t.cfg), Seen(s, e, t.cfg);
    assert store == t.Store(k + 1);
    assert 0 in store && 1 in store && store[0] == Entry(-1, t.cfg.expiry) && store[1].stamp == 0;
    if k < t.cfg.expiry {
      assert store[0].expires > e.at;
      assert -1 in seen;
    } else {
      forall x | x in seen ensures x == 0 {
        var j :| j in store && store[j].expires > e.at && store[j].stamp == x;
      }
    }
    assert IsActive(0, seen) <==> k >= t.cfg.expiry;
    assert (k % 600 + 1) % 600 + 1 == (k + 1) % 600 + 1;
    assert Handled(t.Standby(k), e.at, seen) == t.Standby(k + 1);
    assert s.daemons[1 := t.Standby(k + 1)] == t.After(k + 1).daemons;
  }

  lemma ReceiveStep(t: Times)
    requires t.Valid()
    ensures CanStep(t.StateAt(0), t.EventAt(0)) && Step(t.StateAt(0), t.EventAt(0), t.cfg) == t.StateAt(1)
  {
    assert Took(t.Standby(0).(queue := [], received := []), 7, 0) == t.Standby(0);
  }

  lemma SweepStep(t: Times)
    requires t.Valid()
    ensures var s, e := t.After(t.Count()), Event(t.Late(), 1, Sweep(t.Late(), 1));
      CanStep(s, e) && Step(s, e, t.cfg) == t.Dropped(0)
  {
    var d := t.Standby(t.Count());
    var r := Pop(d, OverAge, t.Late());
    assert d.queue == [LOST] && Droppable(d.queue, t.Late(), t.cfg);
    assert Swept(d, t.Late(), 1, t.cfg) == Swept(r, t.Late(), 0, t.cfg) == r;
    assert r.queue == [] && r.gone == [Gone(LOST, OverAge, t.Late(), 1)];
  }

  lemma DumpStep(t: Times, begin: bool)
    requires t.Valid()
    ensures var s, e := t.Dropped(if begin then 0 else 1), Event(t.Late(), 1, if begin then DumpBegin else DumpDrain);
      CanStep(s, e) && Step(s, e, t.cfg) == t.Dropped(if begin then 1 else 2)
  {
  }

  lemma IsRun(t: Times)
    requires t.Valid()
    ensures Run(t.States(), t.Events(), t.cfg)
  {
    var ss, es := t.States(), t.Events();
    forall i | 0 <= i < |es| ensures CanStep(ss[i], es[i]) && ss[i + 1] == Step(ss[i], es[i], t.cfg) {
      if i == 0 {
        ReceiveStep(t);
      } else if i <= t.Count() {
        HandlerStep(t, i - 1);
      } else if i == t.Count() + 1 {
        SweepStep(t);
      } else {
        DumpStep(t, i == t.Count() + 2);
      }
    }
  }

  lemma IsPeriodic(t: Times)
    requires t.Valid()
    ensures Periodic(t.States(), t.Events(), 1, t.period)
  {
    var ss, es := t.States(), t.Events();
    forall i | 0 <= i <= |es| && (i > 0 ==> Runs(es, i - 1, 1)) && LastsBeyond(ss, ss[i].now + t.period)
      ensures RunsBy(es, i, 1, ss[i].now + t.period)
    {
      var j := if i == 0 then 1 else i;
      assert ss[|ss| - 1].now == t.Late();
      assert i > 0 ==> es[i - 1] == t.EventAt(i - 1);
      assert es[j] == t.EventAt(j) && Runs(es, j, 1);
    }
  }

  lemma IsFailover(t: Times)
    requires t.Valid()
    ensures Failover(t.States(), t.Events(), 0, 1, t.cfg)
  {
    var ss, es := t.States(), t.Events();
    IsRun(t);
    hide Run;
    assert ss[0] == t.StateAt(0) && NextInLine(ss[0], 0, 1, t.cfg) && AllGood(ss[0], t.cfg);
    hide NextInLine, AllGood;
    forall i | 0 <= i < |es| ensures Stopped(es[i], 0, 1) {
      assert es[i] == t.EventAt(i);
    }
  }

  lemma IsPrompt(t: Times)
    requires t.Valid()
    ensures PromptDumps(t.States(), t.Events(), 1, t.delay)
  {
    var ss, es := t.States(), t.Events();
    assert ss[|ss| - 1].now == t.Late();
    forall i | 0 <= i < |es| && Flips(ss, i, 1) ensures !LastsBeyond(ss, es[i].at + t.delay) {
      assert ss[i] == t.StateAt(i) && ss[i + 1] == t.StateAt(i + 1) && es[i] == t.EventAt(i);
    }
  }

  /** Event `i` is a handler run of daemon `b` that reads the timestamp `stamp`. */
  ghost predicate Reads(ss: seq<System>, es: seq<Event>, i: nat, b: nat, stamp: int, cfg: Config) {
    Runs(es, i, b) && i < |ss| && b < |ss[i].daemons| && stamp in Seen(ss[i], es[i], cfg)
  }

  predicate StoreAnswers(es: seq<Event>) {
    forall i :: 0 <= i < |es| && es[i].act.Handler? ==> es[i].act.up
  }

  lemma StoreAlwaysAnswers(t: Times)
    requires t.Valid()
    ensures StoreAnswers(t.Events())
  {
    forall i | 0 <= i < |t.Events()| && t.Events()[i].act.Handler? ensures t.Events()[i].act.up {
      assert t.Events()[i] == t.EventAt(i);
    }
  }

  /** Up to the last tick before it expires, every handler run reads the stopped daemon's timestamp. */
  lemma KeyIsRead(t: Times, i: nat)
    requires t.Valid() && 0 < i <= t.cfg.expiry
    ensures Reads(t.States(), t.Events(), i, 1, -1, t.cfg)
  {
    assert t.States()[i] == t.StateAt(i) && t.Events()[i] == t.EventAt(i);
    HandlerStep(t, i - 1);
  }

  lemma IsLost(t: Times)
    requires t.Valid()
    ensures var ss, es := t.States(), t.Events();
      es[0].who == 1 && es[0].act.Receive? && !NotLost(ss, es, 0, 1)
  {
    var ss, es := t.States(), t.Events();
    assert ss[0] == t.StateAt(0) && ss[|es|] == t.StateAt(|es|) == t.Dropped(2);
  }

  /**
   * With any shorter timeout than the theorem asks for there is such a run: the store answers, the standby runs its
   * handler at least every period, each dump is prompt, the stopped daemon's key is read for as long as it lasts, and the
   * message received when that daemon stopped is lost.
   */
  lemma TimeoutIsTight(t: Times)
    requires t.Valid()
    ensures Failover(t.States(), t.Events(), 0, 1, t.cfg) && StoreAnswers(t.Events())
    ensures Periodic(t.States(), t.Events(), 1, t.period) && PromptDumps(t.States(), t.Events(), 1, t.delay)
    ensures forall i :: 0 < i <= t.cfg.expiry ==> Reads(t.States(), t.Events(), i, 1, -1, t.cfg)
    ensures t.Events()[0].who == 1 && t.Events()[0].act.Receive? && !NotLost(t.States(), t.Events(), 0, 1)
  {
    hide *;
    IsFailover(t);
    IsPeriodic(t);
    IsPrompt(t);
    StoreAlwaysAnswers(t);
    IsLost(t);
    forall i | 0 < i <= t.cfg.expiry ensures Reads(t.States(), t.Events(), i, 1, -1, t.cfg) {
      KeyIsRead(t, i);
    }
  }
}
