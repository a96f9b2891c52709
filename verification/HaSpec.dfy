/**
 * BGP/BMP high availability (src/ha.c): N daemons, a key store with expiry, a
 * clock, and three threads per daemon as interleaved atomic steps.
 */
module HaSpec {

  /** Times are microseconds; `maxSize <= 0` means no limit. */
  datatype Config = Config(timeout: int, maxSize: int, expiry: nat)

  datatype Message = Message(buf: nat, stamp: int)

  datatype Fate = Handed | OverAge | OverSize

  /** A message that has left the queue: how, at what reading of the clock, and how long the queue was. */
  datatype Gone = Gone(msg: Message, fate: Fate, at: int, size: nat)

  /** The single dump thread: free, given a job, inside the job before or after the queue is drained. */
  datatype Worker = Idle | Assigned | Running | Drained

  /**
   * One daemon.  `received`, `direct` and `gone` are its history: every message put in the queue, every
   * buffer forwarded at once, and everything that has left the queue.
   */
  datatype Daemon = Daemon(
    stamp: int, state: bool, forwarding: bool, previous: bool, regenerate: bool, forced: bool, loop: nat,
    dumping: bool, worker: Worker, waiting: bool, queue: seq<Message>,
    received: seq<Message>, direct: seq<nat>, gone: seq<Gone>)

  const Fresh := Daemon(0, true, true, false, false, false, 0, false, Idle, false, [], [], [], [])

  // ----- the queue

  predicate Droppable(q: seq<Message>, readAt: int, cfg: Config)
    requires q != []
  {
    readAt - q[0].stamp > cfg.timeout || (cfg.maxSize > 0 && |q| > cfg.maxSize)
  }

  function Pop(d: Daemon, fate: Fate, at: int): Daemon
    requires d.queue != []
  {
    d.(queue := d.queue[1..], gone := d.gone + [Gone(d.queue[0], fate, at, |d.queue|)])
  }

  function DropFate(q: seq<Message>, readAt: int, cfg: Config): Fate
    requires q != []
  {
    if readAt - q[0].stamp > cfg.timeout then OverAge else OverSize
  }

  /**
   * The queue-management thread: pops from the front while the front is too old or the queue too long.  The dump
   * thread raises its flag without the mutex, so a sweep may be stopped after any number of `pops`.
   */
  function Swept(d: Daemon, readAt: int, pops: nat, cfg: Config): Daemon
    decreases |d.queue|
  {
    if pops > 0 && !d.dumping && d.queue != [] && Droppable(d.queue, readAt, cfg)
    then Swept(Pop(d, DropFate(d.queue, readAt, cfg), readAt), readAt, pops - 1, cfg)
    else d
  }

  /** The dump thread: hands everything to Kafka, whatever Kafka answers. */
  function Dumped(d: Daemon, at: int): Daemon
    decreases |d.queue|
  {
    if d.queue == [] then d else Dumped(Pop(d, Handed, at), at)
  }

  function Took(d: Daemon, buf: nat, now: int): Daemon {
    var m := Message(buf, now);
    d.(queue := d.queue + [m], received := d.received + [m])
  }

  // ----- the Redis handler

  /** The timestamp the handler writes and compares with. */
  function NewStamp(d: Daemon, now: int): int {
    if d.loop == 0 || d.regenerate then now else d.stamp
  }

  /** Active unless a smaller timestamp is in the store. */
  predicate IsActive(stamp: int, seen: set<int>) {
    forall t :: t in seen ==> t >= stamp
  }

  predicate GoesActive(d: Daemon, now: int, seen: set<int>) {
    if d.forced then d.state else IsActive(NewStamp(d, now), seen)
  }

  /** One run of the handler; `seen` are the timestamps in the store after its own write. */
  function Handled(d: Daemon, now: int, seen: set<int>): Daemon {
    var state := GoesActive(d, now, seen);
    var forwarding := state || d.dumping;
    var submit := forwarding && !d.previous && d.loop != 0;
    d.(stamp := NewStamp(d, now), regenerate := false, state := state,
       forwarding := forwarding, previous := forwarding, loop := d.loop % 600 + 1,
       worker := if submit && d.worker.Idle? then Assigned else d.worker,
       waiting := d.waiting || (submit && !d.worker.Idle?))
  }

  // ----- one daemon

  datatype Action =
    | Handler(up: bool)               // whether Redis answers
    | Receive(buf: nat)
    | Sweep(readAt: int, pops: nat)   // the clock is read before the mutex is taken
    | Assign                          // the worker is free again: a handler blocked in send_to_pool() goes on
    | DumpBegin | DumpDrain | DumpEnd
    | Regenerate | ForceActive | ForceStandby | Normal

  predicate Signal(a: Action) { a.Regenerate? || a.ForceActive? || a.ForceStandby? || a.Normal? }

  predicate Enabled(d: Daemon, at: int, a: Action) {
    match a
    case Handler(_) => !d.waiting
    case Sweep(readAt, _) => readAt <= at
    case Assign => d.waiting && d.worker.Idle?
    case DumpBegin => d.worker.Assigned?
    case DumpDrain => d.worker.Running?
    case DumpEnd => d.worker.Drained?
    case _ => true
  }

  function Acted(d: Daemon, at: int, a: Action, seen: set<int>, cfg: Config): Daemon {
    match a
    case Handler(_) => Handled(d, at, seen)
    case Receive(buf) => if d.forwarding then d.(direct := d.direct + [buf]) else Took(d, buf, at)
    case Sweep(readAt, pops) => Swept(d, readAt, pops, cfg)
    case Assign => d.(waiting := false, worker := Assigned)
    case DumpBegin => d.(dumping := true, worker := Running)
    case DumpDrain => Dumped(d, at).(worker := Drained)
    case DumpEnd => d.(dumping := false, worker := Idle)
    case Regenerate => d.(regenerate := true)
    case ForceActive => d.(forced := true, state := true)
    case ForceStandby => d.(forced := true, state := false)
    case Normal => d.(forced := false)
  }

  // ----- the cluster

  datatype Entry = Entry(stamp: int, expires: int)

  datatype System = System(now: int, daemons: seq<Daemon>, store: map<nat, Entry>)

  datatype Event = Event(at: int, who: nat, act: Action)

  /** The store when the handler of `who` has written its key. */
  function StoreAfter(s: System, e: Event, cfg: Config): map<nat, Entry>
    requires e.who < |s.daemons|
  {
    if e.act.Handler? && e.act.up
    then s.store[e.who := Entry(NewStamp(s.daemons[e.who], e.at), e.at + cfg.expiry)]
    else s.store
  }

  /** The timestamps that the handler reads: those of unexpired keys, or none if Redis does not answer. */
  function Seen(s: System, e: Event, cfg: Config): set<int>
    requires e.who < |s.daemons|
  {
    var store := StoreAfter(s, e, cfg);
    if e.act.Handler? && e.act.up then set k | k in store && store[k].expires > e.at :: store[k].stamp else {}
  }

  predicate CanStep(s: System, e: Event) {
    s.now <= e.at && e.who < |s.daemons| && Enabled(s.daemons[e.who], e.at, e.act)
  }

  function Step(s: System, e: Event, cfg: Config): System
    requires e.who < |s.daemons|
  {
    System(e.at, s.daemons[e.who := Acted(s.daemons[e.who], e.at, e.act, Seen(s, e, cfg), cfg)], StoreAfter(s, e, cfg))
  }

  /** `ss` are the states that the events `es` go through. */
  ghost predicate Run(ss: seq<System>, es: seq<Event>, cfg: Config) {
    && |ss| == |es| + 1
    && forall i :: 0 <= i < |es| ==> CanStep(ss[i], es[i]) && ss[i + 1] == Step(ss[i], es[i], cfg)
  }
}
