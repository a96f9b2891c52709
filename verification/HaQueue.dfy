/** The standby queue: every message is in exactly one place, under every interleaving of the threads. */
module HaQueue {
  import opened HaSpec

  /** What has left the queue and what is in it are, in order, exactly what was put in. */
  ghost predicate Accounted(d: Daemon) {
    && |d.gone| <= |d.received| && d.queue == d.received[|d.gone|..]
    && (forall i :: 0 <= i < |d.gone| ==> d.gone[i].msg == d.received[i])
  }

  /** A message was handed to Kafka, or was over age, or the queue was over size. */
  predicate Justified(g: Gone, cfg: Config) {
    match g.fate
    case Handed => true
    case OverAge => g.at - g.msg.stamp > cfg.timeout
    case OverSize => cfg.maxSize > 0 && g.size > cfg.maxSize
  }

  ghost predicate DropsJustified(d: Daemon, cfg: Config) {
    forall i :: 0 <= i < |d.gone| ==> Justified(d.gone[i], cfg)
  }

  /** Messages are stamped in order of arrival. */
  ghost predicate InOrder(d: Daemon, now: int) {
    forall i :: 0 <= i < |d.received| ==>
      d.received[i].stamp <= now && forall j :: i < j < |d.received| ==> d.received[i].stamp <= d.received[j].stamp
  }

  ghost predicate LeftBy(d: Daemon, now: int) {
    forall i :: 0 <= i < |d.gone| ==> d.gone[i].at <= now
  }

  predicate DumpPending(d: Daemon) {
    d.waiting || d.worker.Assigned? || d.worker.Running?
  }

  /**
   * A forwarding daemon has nothing queued unless a dump is on its way; before the first loop nothing is
   * queued at all.
   */
  ghost predicate Armed(d: Daemon) {
    && (d.dumping <==> d.worker.Running? || d.worker.Drained?)
    && (if d.loop == 0 then d.forwarding && d.queue == [] && !d.waiting && d.worker.Idle? else d.forwarding == d.previous)
    && (d.waiting ==> d.previous)
    && (d.forwarding && d.queue != [] ==> DumpPending(d))
  }

  ghost predicate Good(d: Daemon, now: int, cfg: Config) {
    Accounted(d) && DropsJustified(d, cfg) && InOrder(d, now) && LeftBy(d, now) && Armed(d)
  }

  lemma FreshGood(now: int, cfg: Config)
    ensures Good(Fresh, now, cfg)
  {
  }

  /** What a sweep or a dump leaves alone. */
  predicate SameButQueue(d: Daemon, r: Daemon) {
    r == d.(queue := r.queue, gone := r.gone)
  }

  lemma {:induction false} SweepShrinks(d: Daemon, readAt: int, pops: nat, cfg: Config)
    ensures var r := Swept(d, readAt, pops, cfg); SameButQueue(d, r) && (d.queue == [] ==> r.queue == [])
    decreases |d.queue|
  {
    if pops > 0 && !d.dumping && d.queue != [] && Droppable(d.queue, readAt, cfg) {
      SweepShrinks(Pop(d, DropFate(d.queue, readAt, cfg), readAt), readAt, pops - 1, cfg);
    }
  }

  lemma {:induction false} DumpShrinks(d: Daemon, at: int)
    ensures var r := Dumped(d, at); SameButQueue(d, r) && r.queue == []
    decreases |d.queue|
  {
    if d.queue != [] {
      DumpShrinks(Pop(d, Handed, at), at);
    }
  }

  lemma PopKeeps(d: Daemon, fate: Fate, at: int, cfg: Config)
    requires Accounted(d) && DropsJustified(d, cfg) && d.queue != []
    requires Justified(Gone(d.queue[0], fate, at, |d.queue|), cfg)
    ensures var r := Pop(d, fate, at);
      SameButQueue(d, r) && Accounted(r) && DropsJustified(r, cfg) && r.gone == d.gone + [Gone(d.queue[0], fate, at, |d.queue|)]
  {
    assert d.queue[1..] == d.received[|d.gone| + 1..];
  }

  /** A sweep drops only what it may, and nothing while a dump is running. */
  lemma {:induction false} SweepKeeps(d: Daemon, readAt: int, pops: nat, cfg: Config)
    requires Accounted(d) && DropsJustified(d, cfg)
    ensures var r := Swept(d, readAt, pops, cfg);
      && SameButQueue(d, r) && Accounted(r) && DropsJustified(r, cfg) && d.gone <= r.gone
      && (d.dumping ==> r == d)
      && (forall i :: |d.gone| <= i < |r.gone| ==> r.gone[i].fate != Handed && r.gone[i].at == readAt)
    decreases |d.queue|
  {
    hide Accounted, DropsJustified;
    if pops > 0 && !d.dumping && d.queue != [] && Droppable(d.queue, readAt, cfg) {
      var fate := DropFate(d.queue, readAt, cfg);
      PopKeeps(d, fate, readAt, cfg);
      SweepKeeps(Pop(d, fate, readAt), readAt, pops - 1, cfg);
    }
  }

  /** After a sweep that no dump has stopped, nothing queued is over age and the size limit holds. */
  lemma {:induction false} SweepLeaves(d: Daemon, readAt: int, pops: nat, now: int, cfg: Config)
    requires Accounted(d) && InOrder(d, now) && !d.dumping && pops >= |d.queue|
    ensures var q := Swept(d, readAt, pops, cfg).queue;
      && (forall i :: 0 <= i < |q| ==> readAt - q[i].stamp <= cfg.timeout)
      && (cfg.maxSize > 0 ==> |q| <= cfg.maxSize)
    decreases |d.queue|
  {
    if d.queue != [] {
      hide Accounted, InOrder;
      if Droppable(d.queue, readAt, cfg) {
        PopStays(d, DropFate(d.queue, readAt, cfg), readAt, now);
        SweepLeaves(Pop(d, DropFate(d.queue, readAt, cfg), readAt), readAt, pops - 1, now, cfg);
      } else {
        FrontIsOldest(d, now);
      }
    }
  }

  lemma PopStays(d: Daemon, fate: Fate, at: int, now: int)
    requires Accounted(d) && InOrder(d, now) && d.queue != []
    ensures Accounted(Pop(d, fate, at)) && InOrder(Pop(d, fate, at), now)
  {
    assert d.queue[1..] == d.received[|d.gone| + 1..];
  }

  lemma FrontIsOldest(d: Daemon, now: int)
    requires Accounted(d) && InOrder(d, now) && d.queue != []
    ensures forall i :: 0 <= i < |d.queue| ==> d.queue[0].stamp <= d.queue[i].stamp
  {
    forall i | 0 <= i < |d.queue| ensures d.queue[0].stamp <= d.queue[i].stamp {
      assert d.queue[0] == d.received[|d.gone|] && d.queue[i] == d.received[|d.gone| + i];
    }
  }

  /** A dump hands over the whole queue, in order, and drops nothing. */
  lemma {:induction false} DumpLeaves(d: Daemon, at: int, cfg: Config)
    requires Accounted(d) && DropsJustified(d, cfg)
    ensures var r := Dumped(d, at);
      && SameButQueue(d, r) && Accounted(r) && DropsJustified(r, cfg) && r.queue == [] && d.gone <= r.gone
      && forall i :: |d.gone| <= i < |r.gone| ==> r.gone[i].fate == Handed && r.gone[i].at == at
    decreases |d.queue|
  {
    hide Accounted, DropsJustified;
    if d.queue != [] {
      PopKeeps(d, Handed, at, cfg);
      DumpLeaves(Pop(d, Handed, at), at, cfg);
    }
  }

  lemma TookKeeps(d: Daemon, buf: nat, now: int, at: int, cfg: Config)
    requires Accounted(d) && DropsJustified(d, cfg) && InOrder(d, now) && now <= at
    ensures var r := Took(d, buf, at); Accounted(r) && DropsJustified(r, cfg) && InOrder(r, at)
  {
  }

  lemma SameHistory(d: Daemon, r: Daemon, now: int, at: int, cfg: Config)
    requires r.received == d.received && now <= at
    ensures InOrder(d, now) ==> InOrder(r, at)
    ensures r.gone == d.gone ==> (DropsJustified(d, cfg) ==> DropsJustified(r, cfg))
    ensures r.gone == d.gone && r.queue == d.queue ==> (Accounted(d) ==> Accounted(r))
  {
  }

  lemma StepKeepsAccounts(d: Daemon, now: int, at: int, a: Action, seen: set<int>, cfg: Config)
    requires Accounted(d) && DropsJustified(d, cfg) && InOrder(d, now) && now <= at
    ensures var r := Acted(d, at, a, seen, cfg);
      Accounted(r) && DropsJustified(r, cfg) && InOrder(r, at) && d.received <= r.received && d.gone <= r.gone
  {
    hide Accounted, DropsJustified, InOrder;
    var r := Acted(d, at, a, seen, cfg);
    match a
    case Sweep(readAt, pops) => SweepKeeps(d, readAt, pops, cfg); SameHistory(d, r, now, at, cfg);
    case DumpDrain =>
      DumpLeaves(d, at, cfg);
      SameHistory(Dumped(d, at), r, now, at, cfg);
      SameHistory(d, r, now, at, cfg);
    case Receive(buf) => TookKeeps(d, buf, now, at, cfg); if d.forwarding { SameHistory(d, r, now, at, cfg); }
    case _ => SameHistory(d, r, now, at, cfg);
  }

  lemma StepKeepsLeftBy(d: Daemon, now: int, at: int, a: Action, seen: set<int>, cfg: Config)
    requires Accounted(d) && DropsJustified(d, cfg) && LeftBy(d, now) && now <= at && Enabled(d, at, a)
    ensures LeftBy(Acted(d, at, a, seen, cfg), at)
  {
    hide Accounted, DropsJustified, IsActive;
    match a
    case Sweep(readAt, pops) => SweepKeeps(d, readAt, pops, cfg);
    case DumpDrain => DumpLeaves(d, at, cfg);
    case _ =>
  }

  lemma StepKeepsArmed(d: Daemon, at: int, a: Action, seen: set<int>, cfg: Config)
    requires Accounted(d) && DropsJustified(d, cfg) && Armed(d) && Enabled(d, at, a)
    ensures Armed(Acted(d, at, a, seen, cfg))
  {
    hide Accounted, DropsJustified, IsActive;
    match a
    case Sweep(readAt, pops) => SweepShrinks(d, readAt, pops, cfg);
    case DumpDrain => DumpLeaves(d, at, cfg);
    case _ =>
  }

  /** Every step of every thread keeps the accounts, and history only grows. */
  lemma StepKeepsGood(d: Daemon, now: int, at: int, a: Action, seen: set<int>, cfg: Config)
    requires Good(d, now, cfg) && now <= at && Enabled(d, at, a)
    ensures Good(Acted(d, at, a, seen, cfg), at, cfg)
    ensures d.received <= Acted(d, at, a, seen, cfg).received && d.gone <= Acted(d, at, a, seen, cfg).gone
  {
    hide Accounted, DropsJustified, InOrder, LeftBy, Armed, Acted;
    StepKeepsAccounts(d, now, at, a, seen, cfg);
    StepKeepsLeftBy(d, now, at, a, seen, cfg);
    StepKeepsArmed(d, at, a, seen, cfg);
  }

  ghost predicate AllGood(s: System, cfg: Config) {
    forall w :: 0 <= w < |s.daemons| ==> Good(s.daemons[w], s.now, cfg)
  }

  /** In every state of every run, every message a daemon ever queued is in exactly one place. */
  lemma {:induction false} RunKeepsGood(ss: seq<System>, es: seq<Event>, i: nat, cfg: Config)
    requires Run(ss, es, cfg) && AllGood(ss[0], cfg) && i <= |es|
    ensures AllGood(ss[i], cfg) && |ss[i].daemons| == |ss[0].daemons|
  {
    hide Good, Acted, Seen, StoreAfter, Enabled;
    if i > 0 {
      RunKeepsGood(ss, es, i - 1, cfg);
      var s, e := ss[i - 1], es[i - 1];
      forall w | 0 <= w < |s.daemons| ensures Good(ss[i].daemons[w], e.at, cfg) {
        if w == e.who {
          StepKeepsGood(s.daemons[w], s.now, e.at, e.act, Seen(s, e, cfg), cfg);
        } else {
          LaterGood(s.daemons[w], s.now, e.at, cfg);
        }
      }
    }
  }

  lemma LaterGood(d: Daemon, now: int, later: int, cfg: Config)
    requires Good(d, now, cfg) && now <= later
    ensures Good(d, later, cfg)
  {
  }
}
