/** One daemon of src/ha.c as the program runs it: global flags, and a queue behind a mutex. */
module HaDaemon {
  import opened HaSpec

  function AsSet(timestamps: seq<int>): (r: set<int>)
    ensures forall i :: 0 <= i < |timestamps| ==> timestamps[i] in r
  {
    set t | t in timestamps
  }

  class HaDaemon {
    var stamp: int                 // timestamp_local
    var daemonState: bool
    var forwarding: bool           // bmp_bgp_forwarding
    var oldForwarding: bool
    var regenerateTimestamp: bool
    var forcedMode: bool
    var loopCounter: nat
    var queueDumping: bool
    var worker: Worker             // the dump pool's only thread
    var waiting: bool              // the handler is blocked in send_to_pool()
    var queue: seq<Message>
    ghost var received: seq<Message>
    ghost var direct: seq<nat>
    ghost var gone: seq<Gone>

    /** The daemon as a value. */
    ghost function View(): Daemon
      reads this
    {
      Daemon(stamp, daemonState, forwarding, oldForwarding, regenerateTimestamp, forcedMode, loopCounter,
             queueDumping, worker, waiting, queue, received, direct, gone)
    }

    constructor ()
      ensures View() == Fresh
    {
      stamp, daemonState, forwarding, oldForwarding := 0, true, true, false;
      regenerateTimestamp, forcedMode, loopCounter := false, false, 0;
      queueDumping, worker, waiting, queue := false, Idle, false, [];
      received, direct, gone := [], [], [];
    }

    /** A message to send: forwarded at once, or queued on a standby. */
    method Receive(buf: nat, now: int)
      modifies this
      ensures View() == Acted(old(View()), now, Action.Receive(buf), {}, Config(0, 0, 0))
    {
      if forwarding {
        direct := direct + [buf];
      } else {
        var node := Message(buf, now);
        queue := queue + [node];
        received := received + [node];
      }
    }

    ghost method Leave(fate: Fate, at: int)
      requires queue != []
      modifies this`gone
      ensures gone == old(gone) + [Gone(queue[0], fate, at, |queue|)]
    {
      gone := gone + [Gone(queue[0], fate, at, |queue|)];
    }

    /**
     * One round of the queue-management thread, with the mutex held.  The loop reads the dump flag each time; it is
     * seen raised after `pops` messages, if not before.
     */
    method QueuePop(timestamp: int, pops: nat, cfg: Config)
      modifies this
      ensures View() == Swept(old(View()), timestamp, pops, cfg)
    {
      var queueSize, popped := |queue|, 0;
      while !(queueDumping || popped == pops) && queueSize > 0
            && (timestamp - queue[0].stamp > cfg.timeout || (cfg.maxSize > 0 && queueSize > cfg.maxSize))
        invariant queueSize == |queue|
        invariant popped <= pops
        invariant Swept(View(), timestamp, pops - popped, cfg) == Swept(old(View()), timestamp, pops, cfg)
      {
        ghost var v := View();
        Leave(DropFate(queue, timestamp, cfg), timestamp);
        queue := queue[1..];
        queueSize, popped := |queue|, popped + 1;
        assert View() == Pop(v, DropFate(v.queue, timestamp, cfg), timestamp);
      }
    }

    method DumpBegin()
      modifies this
      ensures View() == old(View()).(dumping := true, worker := Running)
    {
      queueDumping := true;
      worker := Running;
    }

    /** The dump thread's loop, with the mutex held; Kafka's answers are only logged. */
    method QueueDump(at: int)
      modifies this
      ensures View() == Dumped(old(View()), at).(worker := Drained)
    {
      var queueSize := |queue|;
      while queueSize > 0
        invariant queueSize == |queue|
        invariant Dumped(View(), at) == Dumped(old(View()), at)
        decreases queueSize
      {
        ghost var v := View();
        Leave(Handed, at);
        queue := queue[1..];
        queueSize := |queue|;
        assert View() == Pop(v, Handed, at);
      }
      worker := Drained;
    }

    method DumpEnd()
      modifies this
      ensures View() == old(View()).(dumping := false, worker := Idle)
    {
      queueDumping := false;
      worker := Idle;
    }

    /** Reads the timestamps one by one; active unless one is smaller than the local one. */
    method CheckDaemonState(timestamps: seq<int>) returns (active: bool)
      ensures active == IsActive(stamp, AsSet(timestamps))
    {
      var i := 0;
      while i < |timestamps|
        invariant 0 <= i <= |timestamps|
        invariant forall j :: 0 <= j < i ==> timestamps[j] >= stamp
      {
        if timestamps[i] < stamp {
          return false;
        }
        i := i + 1;
      }
      return true;
    }

    /** The start of a handler run: the timestamp it writes to the store. */
    method RefreshTimestamp(now: int)
      modifies this
      ensures View() == old(View()).(stamp := NewStamp(old(View()), now), regenerate := false)
    {
      if loopCounter == 0 {
        stamp := now;
      }
      if regenerateTimestamp {
        stamp := now;
        regenerateTimestamp := false;
      }
    }

    /** One handler run; `timestamps` is what the store answers after the daemon's own key is written. */
    method RedisHandler(now: int, timestamps: seq<int>)
      requires !waiting
      modifies this
      ensures View() == Handled(old(View()), now, AsSet(timestamps))
    {
      RefreshTimestamp(now);
      if !forcedMode {
        daemonState := CheckDaemonState(timestamps);
      }
      forwarding := daemonState || queueDumping;
      if forwarding && !oldForwarding && loopCounter != 0 {
        if worker.Idle? {
          worker := Assigned;
        } else {
          waiting := true;
        }
      }
      oldForwarding := forwarding;
      loopCounter := loopCounter % 600 + 1;
    }

    method OnSignal(a: Action)
      requires Signal(a)
      modifies this
      ensures View() == Acted(old(View()), 0, a, {}, Config(0, 0, 0))
    {
      match a
      case Regenerate =>
        regenerateTimestamp := true;
      case ForceActive =>
        forcedMode := true;
        daemonState := true;
      case ForceStandby =>
        forcedMode := true;
        daemonState := false;
      case Normal =>
        forcedMode := false;
    }
  }
}
