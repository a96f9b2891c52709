/** The leader election: after every daemon has written its key and run once more, exactly the oldest one is active. */
module HaElection {
  import opened HaSpec
  import opened HaQueue

  /** In automatic mode, with no timestamp reset pending; possibly before its first loop. */
  predicate Automatic(d: Daemon) {
    !d.forced && !d.regenerate
  }

  /** The same, past its first loop. */
  predicate Settled(d: Daemon) {
    d.loop != 0 && Automatic(d)
  }

  /** Daemon `w` has a timestamp, and it is in the store. */
  predicate Written(s: System, w: nat) {
    && w < |s.daemons| && Settled(s.daemons[w])
    && w in s.store && s.store[w].stamp == s.daemons[w].stamp
  }

  /** The keys in the store are the daemons'; what is under them may be from an earlier life. */
  ghost predicate OwnKeys(s: System) {
    forall k :: k in s.store ==> k < |s.daemons|
  }

  ghost predicate Unexpired(s: System, now: int) {
    forall k :: k in s.store ==> s.store[k].expires > now
  }

  /**
   * No signals and Redis answers, from any automatic daemons on; from event `m` on no key expires before it
   * is read.
   */
  ghost predicate QuietRun(ss: seq<System>, es: seq<Event>, m: nat, cfg: Config) {
    && Run(ss, es, cfg) && OwnKeys(ss[0]) && cfg.expiry > 0
    && (forall w :: 0 <= w < |ss[0].daemons| ==> Automatic(ss[0].daemons[w]))
    && (forall i :: 0 <= i < |es| ==> !Signal(es[i].act) && (es[i].act.Handler? ==> es[i].act.up))
    && (forall i :: m <= i < |es| && es[i].act.Handler? ==> Unexpired(ss[i], es[i].at))
  }

  predicate RunsHandler(es: seq<Event>, from: nat, to: nat, w: nat)
    requires from <= to <= |es|
  {
    exists i :: from <= i < to && es[i].who == w && es[i].act.Handler?
  }

  predicate Oldest(s: System, w: nat)
    requires w < |s.daemons|
  {
    forall v :: 0 <= v < |s.daemons| ==> s.daemons[w].stamp <= s.daemons[v].stamp
  }

  /** Without signals, only a handler run changes the election's state. */
  lemma OthersDoNotVote(d: Daemon, at: int, a: Action, seen: set<int>, cfg: Config)
    requires !Signal(a)
    ensures var r := Acted(d, at, a, seen, cfg);
      && (!a.Handler? ==> r.state == d.state && r.stamp == d.stamp && r.loop == d.loop)
      && r.forced == d.forced && (r.regenerate ==> d.regenerate) && (Settled(d) ==> Settled(r) && r.stamp == d.stamp)
  {
    hide Swept, Dumped, GoesActive;
    match a
    case Sweep(readAt, pops) => SweepShrinks(d, readAt, pops, cfg);
    case DumpDrain => DumpShrinks(d, at);
    case _ =>
  }

  /** A step keeps the daemons automatic and the keys theirs, and keeps written timestamps written. */
  lemma QuietStep(s: System, e: Event, w: nat, cfg: Config)
    requires CanStep(s, e) && !Signal(e.act) && (e.act.Handler? ==> e.act.up) && w < |s.daemons| && Automatic(s.daemons[w])
    ensures var r := Step(s, e, cfg);
      && |r.daemons| == |s.daemons| && Automatic(r.daemons[w]) && (OwnKeys(s) ==> OwnKeys(r))
      && (Written(s, w) || (e.who == w && e.act.Handler?) ==> Written(r, w))
      && (Settled(s.daemons[w]) ==> r.daemons[w].stamp == s.daemons[w].stamp)
      && (!(e.who == w && e.act.Handler?) ==> r.daemons[w].state == s.daemons[w].state)
  {
    hide Acted;
    OthersDoNotVote(s.daemons[e.who], e.at, e.act, Seen(s, e, cfg), cfg);
    if e.who == w && e.act.Handler? {
      FirstRunSettles(s.daemons[w], e.at, e.act.up, Seen(s, e, cfg), cfg);
    }
  }

  /** A handler run settles an automatic daemon on the timestamp that it writes. */
  lemma FirstRunSettles(d: Daemon, at: int, up: bool, seen: set<int>, cfg: Config)
    requires Automatic(d)
    ensures var r := Acted(d, at, Handler(up), seen, cfg);
      Settled(r) && r.stamp == NewStamp(d, at) && (Settled(d) ==> r.stamp == d.stamp)
  {
  }

  /** Once every timestamp is in the store, a handler run gives its daemon the right state. */
  lemma FullStoreDecides(s: System, e: Event, cfg: Config)
    requires CanStep(s, e) && e.act.Handler? && e.act.up && OwnKeys(s) && Unexpired(s, e.at) && cfg.expiry > 0
    requires forall w :: 0 <= w < |s.daemons| ==> Written(s, w)
    ensures Step(s, e, cfg).daemons[e.who].state <==> Oldest(s, e.who)
  {
    var d, seen := s.daemons[e.who], Seen(s, e, cfg);
    assert Written(s, e.who);
    assert Step(s, e, cfg).daemons[e.who].state == IsActive(d.stamp, seen);
    var store := StoreAfter(s, e, cfg);
    forall w | 0 <= w < |s.daemons| ensures s.daemons[w].stamp in seen {
      assert Written(s, w) && w in store && store[w].expires > e.at && store[w].stamp == s.daemons[w].stamp;
    }
    if Oldest(s, e.who) {
      forall t | t in seen ensures t >= d.stamp {
        var k :| k in store && store[k].expires > e.at && store[k].stamp == t;
        assert Written(s, k);
      }
    }
  }

  /** After the first `n` events of a quiet run, every daemon that has run its handler has its timestamp in the store. */
  lemma {:induction false} QuietState(ss: seq<System>, es: seq<Event>, m: nat, n: nat, cfg: Config)
    requires QuietRun(ss, es, m, cfg) && n <= |es|
    ensures |ss[n].daemons| == |ss[0].daemons| && OwnKeys(ss[n])
    ensures forall w :: 0 <= w < |ss[0].daemons| ==> Automatic(ss[n].daemons[w])
    ensures forall w :: 0 <= w < |ss[0].daemons| && RunsHandler(es, 0, n, w) ==> Written(ss[n], w)
  {
    if n > 0 {
      hide Written, OwnKeys, Automatic, Unexpired;
      QuietState(ss, es, m, n - 1, cfg);
      var s, e := ss[n - 1], es[n - 1];
      QuietStep(s, e, e.who, cfg);
      forall w | 0 <= w < |ss[0].daemons|
        ensures Automatic(ss[n].daemons[w]) && (RunsHandler(es, 0, n, w) ==> Written(ss[n], w))
      {
        QuietStep(s, e, w, cfg);
        if RunsHandler(es, 0, n, w) && !(e.who == w && e.act.Handler?) {
          assert RunsHandler(es, 0, n - 1, w);
        }
      }
    }
  }

  /** Once all have run their handlers, no timestamp changes any more. */
  lemma {:induction false} StampsStay(ss: seq<System>, es: seq<Event>, m: nat, n: nat, cfg: Config)
    requires QuietRun(ss, es, m, cfg) && m <= n <= |es|
    requires forall v :: 0 <= v < |ss[0].daemons| ==> RunsHandler(es, 0, m, v)
    ensures |ss[n].daemons| == |ss[m].daemons| == |ss[0].daemons| && OwnKeys(ss[n])
    ensures forall v :: 0 <= v < |ss[0].daemons| ==> Written(ss[n], v) && ss[n].daemons[v].stamp == ss[m].daemons[v].stamp
  {
    hide Written, OwnKeys, Automatic, Unexpired;
    QuietState(ss, es, m, n, cfg);
    if n > m {
      StampsStay(ss, es, m, n - 1, cfg);
      QuietState(ss, es, m, n - 1, cfg);
      forall v | 0 <= v < |ss[0].daemons| ensures Written(ss[n], v) && ss[n].daemons[v].stamp == ss[m].daemons[v].stamp {
        QuietStep(ss[n - 1], es[n - 1], v, cfg);
        WrittenIsSettled(ss[n - 1], v);
      }
    }
  }

  lemma WrittenIsSettled(s: System, w: nat)
    requires Written(s, w)
    ensures w < |s.daemons| && Settled(s.daemons[w])
  {
  }

  /** The deciding handler run. */
  lemma DecidingRun(ss: seq<System>, es: seq<Event>, m: nat, i: nat, cfg: Config)
    requires QuietRun(ss, es, m, cfg) && m <= i < |es| && es[i].act.Handler?
    requires forall v :: 0 <= v < |ss[0].daemons| ==> RunsHandler(es, 0, m, v)
    ensures |ss[m].daemons| == |ss[i + 1].daemons| == |ss[0].daemons| && es[i].who < |ss[0].daemons|
    ensures ss[i + 1].daemons[es[i].who].state <==> Oldest(ss[m], es[i].who)
  {
    hide Acted, Written, OwnKeys, Automatic, Unexpired;
    StampsStay(ss, es, m, i, cfg);
    FullStoreDecides(ss[i], es[i], cfg);
  }

  /** Other events leave a daemon's state. */
  lemma OtherEvent(ss: seq<System>, es: seq<Event>, m: nat, i: nat, w: nat, cfg: Config)
    requires QuietRun(ss, es, m, cfg) && i < |es| && w < |ss[0].daemons| && !(es[i].who == w && es[i].act.Handler?)
    ensures |ss[i].daemons| == |ss[i + 1].daemons| == |ss[0].daemons|
    ensures ss[i + 1].daemons[w].state == ss[i].daemons[w].state
  {
    hide Acted, Written, OwnKeys, Unexpired;
    QuietState(ss, es, m, i, cfg);
    QuietStep(ss[i], es[i], w, cfg);
  }

  lemma QuietLength(ss: seq<System>, es: seq<Event>, m: nat, cfg: Config)
    requires QuietRun(ss, es, m, cfg)
    ensures |ss| == |es| + 1
  {
  }

  lemma RunsEarlier(es: seq<Event>, from: nat, to: nat, w: nat)
    requires from <= to <= |es| && RunsHandler(es, from, to, w)
    ensures from < to && (!(es[to - 1].who == w && es[to - 1].act.Handler?) ==> RunsHandler(es, from, to - 1, w))
  {
  }

  /**
   * Election converges from start-up: if every daemon runs its handler within the first `m` events, and `w` again
   * between `m` and `n`, then after event `n` daemon `w` is active exactly when it has the smallest of the
   * timestamps written, and it stays so for the rest of the run.
   */
  lemma {:induction false} ElectionConverges(ss: seq<System>, es: seq<Event>, m: nat, n: nat, w: nat, cfg: Config)
    requires QuietRun(ss, es, m, cfg) && m <= n <= |es| && w < |ss[0].daemons|
    requires forall v :: 0 <= v < |ss[0].daemons| ==> RunsHandler(es, 0, m, v)
    requires RunsHandler(es, m, n, w)
    ensures |ss[m].daemons| == |ss[n].daemons| == |ss[0].daemons|
    ensures ss[n].daemons[w].state <==> Oldest(ss[m], w)
  {
    hide *;
    QuietLength(ss, es, m, cfg);
    RunsEarlier(es, m, n, w);
    if es[n - 1].who == w && es[n - 1].act.Handler? {
      DecidingRun(ss, es, m, n - 1, cfg);
    } else {
      ElectionConverges(ss, es, m, n - 1, w, cfg);
      OtherEvent(ss, es, m, n - 1, w, cfg);
    }
  }

  ghost predicate DistinctStamps(s: System) {
    forall v, w :: 0 <= v < w < |s.daemons| ==> s.daemons[v].stamp != s.daemons[w].stamp
  }

  /** There is exactly one oldest daemon. */
  lemma {:induction false} OneOldest(s: System, n: nat) returns (w: nat)
    requires DistinctStamps(s) && 0 < n <= |s.daemons|
    ensures w < n && forall v :: 0 <= v < n && v != w ==> s.daemons[w].stamp < s.daemons[v].stamp
  {
    if n == 1 {
      w := 0;
    } else {
      w := OneOldest(s, n - 1);
      if s.daemons[n - 1].stamp < s.daemons[w].stamp {
        w := n - 1;
      }
    }
  }

  /** After both rounds exactly one daemon is active, if the first round's timestamps are distinct. */
  lemma ExactlyOneActive(ss: seq<System>, es: seq<Event>, m: nat, n: nat, cfg: Config) returns (w: nat)
    requires QuietRun(ss, es, m, cfg) && m <= n <= |es| && ss[0].daemons != [] && DistinctStamps(ss[m])
    requires forall v :: 0 <= v < |ss[0].daemons| ==> RunsHandler(es, 0, m, v) && RunsHandler(es, m, n, v)
    ensures |ss[n].daemons| == |ss[0].daemons| && w < |ss[0].daemons|
    ensures forall v :: 0 <= v < |ss[0].daemons| ==> (ss[n].daemons[v].state <==> v == w)
  {
    QuietState(ss, es, m, m, cfg);
    w := OneOldest(ss[m], |ss[m].daemons|);
    hide QuietRun, DistinctStamps;
    ElectionConverges(ss, es, m, n, w, cfg);
    forall v | 0 <= v < |ss[0].daemons| ensures ss[n].daemons[v].state <==> v == w {
      ElectionConverges(ss, es, m, n, v, cfg);
    }
  }

  ghost predicate SeesSmaller(seen: set<int>, stamp: int) {
    exists t :: t in seen && t < stamp
  }

  lemma ActiveUnlessSmaller(seen: set<int>, stamp: int)
    ensures IsActive(stamp, seen) <==> !SeesSmaller(seen, stamp)
  {
  }

  /** An automatic daemon is put on standby exactly when the handler has read a strictly smaller timestamp. */
  lemma StandbyOnlyForSmaller(s: System, e: Event, cfg: Config)
    requires CanStep(s, e) && e.act.Handler? && !s.daemons[e.who].forced
    ensures var d := Step(s, e, cfg).daemons[e.who];
      !d.state <==> SeesSmaller(Seen(s, e, cfg), d.stamp)
  {
    var d, seen := Step(s, e, cfg).daemons[e.who], Seen(s, e, cfg);
    assert d == Handled(s.daemons[e.who], e.at, seen);
    assert d.state == IsActive(d.stamp, seen);
    ActiveUnlessSmaller(seen, d.stamp);
  }
}
