/** The flow table as a bounded map, and what holds of every run of packets over it. */
module FlowSpec {
  import opened FlowState
  import opened FlowKeys
  import opened MapFacts

  /** What a packet does to the record of its flow: a stale direction starts over. */
  function Hit(c: Common, d: Direction, now: Timeval, s: Segment, lt: Lifetimes): Common {
    Touch(TcpStep(if IsExpiredUni(now, c, d, lt) then Cleared(c, d) else c, d, s), d, now)
  }

  /** The record of a flow that starts with this packet. */
  function Started(proto: nat, d: Direction, now: Timeval, s: Segment): Common {
    Touch(TcpStep(ZeroCommon.(proto := proto), d, s), d, now)
  }

  /** What a prune keeps. */
  function Unexpired(m: map<FlowKey, Common>, now: Timeval, lt: Lifetimes): map<FlowKey, Common> {
    map k | k in m && !IsExpired(now, m[k], lt) :: m[k]
  }

  lemma StartedOk(proto: nat, d: Direction, now: Timeval, s: Segment)
    ensures CommonOk(Started(proto, d, now, s)) && Started(proto, d, now, s).proto == proto
  {
    TcpStepKeepsFlags(ZeroCommon.(proto := proto), d, s);
  }

  lemma HitOk(c: Common, d: Direction, now: Timeval, s: Segment, lt: Lifetimes)
    requires CommonOk(c)
    ensures CommonOk(Hit(c, d, now, s, lt)) && Hit(c, d, now, s, lt).proto == c.proto
  {
    hide TcpStep;
    TcpStepKeepsFlags(c, d, s);
    TcpStepKeepsFlags(Cleared(c, d), d, s);
  }

  function IfDue(due: bool, m: map<FlowKey, Common>, now: Timeval, lt: Lifetimes): map<FlowKey, Common> {
    if due then Unexpired(m, now, lt) else m
  }

  /** A flow whose node may be taken over by a new flow `c`: same bucket, expired in both directions. */
  ghost predicate Evictable(m: map<FlowKey, Common>, k: FlowKey, c: FlowKey, hash: FlowKey -> nat, now: Timeval, lt: Lifetimes) {
    k in m && hash(k) == hash(c) && IsExpired(now, m[k], lt)
  }

  /** A new flow `c` replaces some evictable flow. */
  ghost predicate Evicts(m: map<FlowKey, Common>, m': map<FlowKey, Common>, c: FlowKey, v: Common,
                         hash: FlowKey -> nat, now: Timeval, lt: Lifetimes) {
    exists k :: Evictable(m, k, c, hash, now, lt) && m' == (m - {k})[c := v]
  }

  /**
   * What one packet does to the table seen as a map of at most `capacity` flows: `m` before, `m'` after.
   * `memory` says whether an allocation would succeed, `due` whether an emergency prune would run.
   */
  ghost predicate KeyStep(m: map<FlowKey, Common>, m': map<FlowKey, Common>, isNew: bool,
                          c: FlowKey, d: Direction, now: Timeval, s: Segment,
                          capacity: nat, hash: FlowKey -> nat, lt: Lifetimes, memory: bool, due: bool) {
    if c in m then
      m' == m[c := Hit(m[c], d, now, s, lt)] && isNew == IsExpiredUni(now, m[c], d, lt)
    else if |m| < capacity && exists e :: Evictable(m, e, c, hash, now, lt) then
      Evicts(m, m', c, Started(c.proto, d, now, s), hash, now, lt) && isNew
    else if |m| < capacity && memory then
      m' == m[c := Started(c.proto, d, now, s)] && isNew
    else
      m' == IfDue(due, m, now, lt) && !isNew
  }

  /** No room: the table is full, or there is neither memory nor an expired flow of the bucket. */
  ghost predicate Refuses(m: map<FlowKey, Common>, c: FlowKey, now: Timeval,
                          capacity: nat, hash: FlowKey -> nat, lt: Lifetimes, memory: bool) {
    c !in m && (|m| >= capacity || (!memory && forall k :: !Evictable(m, k, c, hash, now, lt)))
  }

  /** A packet of a known flow changes nothing else, and counts as new exactly if its direction has expired. */
  lemma KnownExactly(m: map<FlowKey, Common>, m': map<FlowKey, Common>, isNew: bool,
                     c: FlowKey, d: Direction, now: Timeval, s: Segment,
                     capacity: nat, hash: FlowKey -> nat, lt: Lifetimes, memory: bool, due: bool)
    requires KeyStep(m, m', isNew, c, d, now, s, capacity, hash, lt, memory, due) && c in m
    ensures isNew <==> IsExpiredUni(now, m[c], d, lt)
    ensures m'.Keys == m.Keys && forall k :: k in m && k != c ==> m'[k] == m[k]
    ensures m'[c].At(d).last == now && m'[c].At(d.Opposite()).last == m[c].At(d.Opposite()).last
  {
    hide IsExpiredUni;
  }

  /** An expired flow of the bucket of `c`. */
  ghost predicate Spare(m: map<FlowKey, Common>, k: FlowKey, c: FlowKey, hash: FlowKey -> nat, now: Timeval, lt: Lifetimes) {
    k in m && hash(k) == hash(c) && IsExpired(now, m[k], lt)
  }

  /** A flow that is not in the table is admitted, and reported new, exactly if there is room. */
  lemma AdmittedExactly(m: map<FlowKey, Common>, m': map<FlowKey, Common>, isNew: bool,
                        c: FlowKey, d: Direction, now: Timeval, s: Segment,
                        capacity: nat, hash: FlowKey -> nat, lt: Lifetimes, memory: bool, due: bool)
    requires KeyStep(m, m', isNew, c, d, now, s, capacity, hash, lt, memory, due) && c !in m
    ensures isNew <==> |m| < capacity && (memory || exists k :: Spare(m, k, c, hash, now, lt))
    ensures (c in m' <==> isNew) && (isNew <==> !Refuses(m, c, now, capacity, hash, lt, memory))
  {
    hide IsExpired, Started, Hit, IsExpiredUni;
    assert forall k :: Spare(m, k, c, hash, now, lt) <==> Evictable(m, k, c, hash, now, lt);
    hide Spare, Evictable;
  }

  /** It takes the place of one expired flow of its bucket, if there is one, and of nothing else. */
  lemma ReplacesExactly(m: map<FlowKey, Common>, m': map<FlowKey, Common>,
                        c: FlowKey, d: Direction, now: Timeval, s: Segment,
                        capacity: nat, hash: FlowKey -> nat, lt: Lifetimes, memory: bool, due: bool)
    requires KeyStep(m, m', true, c, d, now, s, capacity, hash, lt, memory, due) && c !in m
    ensures if exists k :: Spare(m, k, c, hash, now, lt)
            then exists k :: Spare(m, k, c, hash, now, lt) && m'.Keys == m.Keys - {k} + {c}
            else m'.Keys == m.Keys + {c}
  {
    hide IsExpired, Started, Hit, IsExpiredUni, IfDue;
    assert forall k :: Spare(m, k, c, hash, now, lt) <==> Evictable(m, k, c, hash, now, lt);
    hide Spare, Evictable;
    if k :| Evictable(m, k, c, hash, now, lt) && m' == (m - {k})[c := Started(c.proto, d, now, s)] {
      assert m'.Keys == m.Keys - {k} + {c};
    }
  }

  /** A refused packet changes nothing, but for the expired flows that its emergency prune drops. */
  lemma RefusedDropsExactly(m: map<FlowKey, Common>, m': map<FlowKey, Common>,
                            c: FlowKey, d: Direction, now: Timeval, s: Segment,
                            capacity: nat, hash: FlowKey -> nat, lt: Lifetimes, memory: bool, due: bool)
    requires KeyStep(m, m', false, c, d, now, s, capacity, hash, lt, memory, due) && c !in m
    ensures forall k :: k in m' <==> k in m && !(due && IsExpired(now, m[k], lt))
    ensures forall k :: k in m' ==> m'[k] == m[k]
  {
    hide IsExpired, Started, Hit, IsExpiredUni;
  }

  ghost predicate PacketStep(m: map<FlowKey, Common>, m': map<FlowKey, Common>, isNew: bool,
                             k: FlowKey, now: Timeval, s: Segment,
                             capacity: nat, hash: FlowKey -> nat, lt: Lifetimes, memory: bool, due: bool)
    requires k.Valid()
  {
    KeyStep(m, m', isNew, Canonical(k), DirectionOf(k), now, s, capacity, hash, lt, memory, due)
  }

  /** A flow that is alive in either direction is never evicted by another flow's packet, nor changed by it. */
  lemma LiveFlowsSurvive(m: map<FlowKey, Common>, m': map<FlowKey, Common>, isNew: bool, other: FlowKey,
                         c: FlowKey, d: Direction, now: Timeval, s: Segment,
                         capacity: nat, hash: FlowKey -> nat, lt: Lifetimes, memory: bool, due: bool)
    requires KeyStep(m, m', isNew, c, d, now, s, capacity, hash, lt, memory, due)
    requires other != c
    ensures other in m && !IsExpired(now, m[other], lt) ==> other in m'
    ensures other in m' ==> other in m && m'[other] == m[other]
  {
    hide IsExpired, IsExpiredUni, Hit, Started;
  }

  /** A flow is new or known exactly when its packet leaves it in the table, and there it is alive. */
  lemma ArrivalIsStored(m: map<FlowKey, Common>, m': map<FlowKey, Common>, isNew: bool,
                        c: FlowKey, d: Direction, now: Timeval, s: Segment,
                        capacity: nat, hash: FlowKey -> nat, lt: Lifetimes, memory: bool, due: bool)
    requires KeyStep(m, m', isNew, c, d, now, s, capacity, hash, lt, memory, due)
    ensures c in m' <==> c in m || isNew
    ensures c in m' ==> !IsExpired(now, m'[c], lt)
  {
    hide TcpStep, IsExpiredUni;
    var base := if c in m then (if IsExpiredUni(now, m[c], d, lt) then Cleared(m[c], d) else m[c]) else ZeroCommon.(proto := c.proto);
    ExpiryIsFinal(TcpStep(base, d, s), d, now, now, lt);
  }

  /** The table never holds more flows than its capacity, and a packet adds at most one. */
  lemma StepKeepsBound(m: map<FlowKey, Common>, m': map<FlowKey, Common>, isNew: bool,
                       c: FlowKey, d: Direction, now: Timeval, s: Segment,
                       capacity: nat, hash: FlowKey -> nat, lt: Lifetimes, memory: bool, due: bool)
    requires KeyStep(m, m', isNew, c, d, now, s, capacity, hash, lt, memory, due) && |m| <= capacity
    ensures |m'| <= capacity && |m'| <= |m| + 1
  {
    hide IsExpired, IsExpiredUni, Hit, Started;
    var v := Started(c.proto, d, now, s);
    if c in m {
      PutSize(m, c, m'[c]);
    } else if |m| < capacity && exists e :: Evictable(m, e, c, hash, now, lt) {
      assert Evicts(m, m', c, v, hash, now, lt);
      var k :| Evictable(m, k, c, hash, now, lt) && m' == (m - {k})[c := v];
      SwapSize(m, k, c, v);
    } else if |m| < capacity && memory {
      PutSize(m, c, v);
    } else {
      SubSize(m', m);
    }
  }

  /** A packet of the flow's mirror image meets the same record, in the opposite direction unless the endpoints coincide. */
  lemma MirrorMeetsSameRecord(k: FlowKey)
    requires k.Valid()
    ensures Canonical(k.Mirror()) == Canonical(k)
    ensures DirectionOf(k.Mirror()) == DirectionOf(k).Opposite() <==> !(k.src == k.dst && k.sport == k.dport)
  {
    CanonicalPairsMirrors(k, k.Mirror());
  }

  datatype Packet = Packet(key: FlowKey, now: Timeval, seg: Segment, isNew: bool, memory: bool, due: bool, prune: bool)

  /** The entry point: the hourly prune if it is time for it, then the packet. */
  ghost predicate HandlerStep(m: map<FlowKey, Common>, m': map<FlowKey, Common>, p: Packet,
                              capacity: nat, hash: FlowKey -> nat, lt: Lifetimes)
    requires p.key.Valid()
  {
    PacketStep(IfDue(p.prune, m, p.now, lt), m', p.isNew, p.key, p.now, p.seg, capacity, hash, lt, p.memory, p.due)
  }

  /** `ms` are the tables a run of packets goes through. */
  ghost predicate Run(ms: seq<map<FlowKey, Common>>, ps: seq<Packet>, capacity: nat, hash: FlowKey -> nat, lt: Lifetimes) {
    && |ms| == |ps| + 1
    && forall i :: 0 <= i < |ps| ==> ps[i].key.Valid() && HandlerStep(ms[i], ms[i + 1], ps[i], capacity, hash, lt)
  }

  /** When the next hourly prune is due, after the packets `ps`. */
  function NextPrune(ps: seq<Packet>, start: int): int {
    if ps == [] then start else
    var p := ps[|ps| - 1];
    if p.prune then p.now.sec + 3600 else NextPrune(ps[..|ps| - 1], start)
  }

  /** A prune comes with exactly the packets that come later than that. */
  ghost predicate PrunesHourly(ps: seq<Packet>, start: int) {
    forall i :: 0 <= i < |ps| ==> (ps[i].prune <==> ps[i].now.sec > NextPrune(ps[..i], start))
  }

  lemma PrunesNext(ps: seq<Packet>, p: Packet, start: int)
    requires PrunesHourly(ps, start) && (p.prune <==> p.now.sec > NextPrune(ps, start))
    ensures PrunesHourly(ps + [p], start)
    ensures NextPrune(ps + [p], start) == if p.prune then p.now.sec + 3600 else NextPrune(ps, start)
  {
    var more := ps + [p];
    assert more[..|ps|] == ps;
    assert NextPrune(more, start) == if p.prune then p.now.sec + 3600 else NextPrune(ps, start);
    hide NextPrune;
    forall i | 0 <= i < |more| ensures more[i].prune <==> more[i].now.sec > NextPrune(more[..i], start) {
      assert i < |ps| ==> more[..i] == ps[..i];
    }
  }

  /** The last emergency prune: by a refused packet, when one was due. */
  ghost function LastEmergency(ms: seq<map<FlowKey, Common>>, ps: seq<Packet>, n: nat, start: int,
                               capacity: nat, hash: FlowKey -> nat, lt: Lifetimes): int
    requires n <= |ps| && |ms| > |ps| && forall i :: 0 <= i < |ps| ==> ps[i].key.Valid()
  {
    if n == 0 then start else
    var p := ps[n - 1];
    if p.due && Refuses(IfDue(p.prune, ms[n - 1], p.now, lt), Canonical(p.key), p.now, capacity, hash, lt, p.memory)
    then p.now.sec
    else LastEmergency(ms, ps, n - 1, start, capacity, hash, lt)
  }

  /** One is due exactly with the packets that come more than a minute later than that. */
  ghost predicate Emergencies(ms: seq<map<FlowKey, Common>>, ps: seq<Packet>, start: int,
                              capacity: nat, hash: FlowKey -> nat, lt: Lifetimes)
    requires |ms| > |ps| && forall i :: 0 <= i < |ps| ==> ps[i].key.Valid()
  {
    forall i :: 0 <= i < |ps| ==> (ps[i].due <==> ps[i].now.sec > LastEmergency(ms, ps, i, start, capacity, hash, lt) + 60)
  }

  lemma {:induction false} EmergencyPrefix(ms: seq<map<FlowKey, Common>>, ps: seq<Packet>, m: map<FlowKey, Common>, p: Packet,
                                           n: nat, start: int, capacity: nat, hash: FlowKey -> nat, lt: Lifetimes)
    requires n <= |ps| && |ms| == |ps| + 1 && p.key.Valid() && forall i :: 0 <= i < |ps| ==> ps[i].key.Valid()
    ensures LastEmergency(ms + [m], ps + [p], n, start, capacity, hash, lt) == LastEmergency(ms, ps, n, start, capacity, hash, lt)
  {
    hide Refuses, Canonical;
    if n > 0 {
      EmergencyPrefix(ms, ps, m, p, n - 1, start, capacity, hash, lt);
    }
  }

  lemma EmergencyLast(ms: seq<map<FlowKey, Common>>, ps: seq<Packet>, m: map<FlowKey, Common>, p: Packet,
                      start: int, capacity: nat, hash: FlowKey -> nat, lt: Lifetimes)
    requires |ms| == |ps| + 1 && p.key.Valid() && forall i :: 0 <= i < |ps| ==> ps[i].key.Valid()
    ensures LastEmergency(ms + [m], ps + [p], |ps| + 1, start, capacity, hash, lt)
      == if p.due && Refuses(IfDue(p.prune, ms[|ps|], p.now, lt), Canonical(p.key), p.now, capacity, hash, lt, p.memory) then p.now.sec
         else LastEmergency(ms, ps, |ps|, start, capacity, hash, lt)
  {
    hide Refuses, Canonical;
    EmergencyPrefix(ms, ps, m, p, |ps|, start, capacity, hash, lt);
  }

  lemma EmergencyNext(ms: seq<map<FlowKey, Common>>, ps: seq<Packet>, m: map<FlowKey, Common>, p: Packet,
                      start: int, capacity: nat, hash: FlowKey -> nat, lt: Lifetimes)
    requires |ms| == |ps| + 1 && p.key.Valid() && forall i :: 0 <= i < |ps| ==> ps[i].key.Valid()
    requires Emergencies(ms, ps, start, capacity, hash, lt)
    requires p.due <==> p.now.sec > LastEmergency(ms, ps, |ps|, start, capacity, hash, lt) + 60
    ensures Emergencies(ms + [m], ps + [p], start, capacity, hash, lt)
  {
    hide Refuses, Canonical, LastEmergency;
    forall i | 0 <= i <= |ps| ensures LastEmergency(ms + [m], ps + [p], i, start, capacity, hash, lt)
                                      == LastEmergency(ms, ps, i, start, capacity, hash, lt) {
      EmergencyPrefix(ms, ps, m, p, i, start, capacity, hash, lt);
    }
  }

  /** A run with its prunes, up to packet `ps`: the next hourly one is due at `prune`, the last emergency was at `emergency`. */
  ghost predicate Paced(ms: seq<map<FlowKey, Common>>, ps: seq<Packet>, prune: int, emergency: int, start: int, last: int,
                        capacity: nat, hash: FlowKey -> nat, lt: Lifetimes) {
    && Run(ms, ps, capacity, hash, lt)
    && PrunesHourly(ps, start) && prune == NextPrune(ps, start)
    && Emergencies(ms, ps, last, capacity, hash, lt) && emergency == LastEmergency(ms, ps, |ps|, last, capacity, hash, lt)
  }

  lemma PacedStart(m: map<FlowKey, Common>, start: int, last: int, capacity: nat, hash: FlowKey -> nat, lt: Lifetimes)
    ensures Paced([m], [], start, last, start, last, capacity, hash, lt)
  {
  }

  lemma PacedRun(ms: seq<map<FlowKey, Common>>, ps: seq<Packet>, prune: int, emergency: int, start: int, last: int,
                 capacity: nat, hash: FlowKey -> nat, lt: Lifetimes)
    requires Paced(ms, ps, prune, emergency, start, last, capacity, hash, lt)
    ensures Run(ms, ps, capacity, hash, lt) && PrunesHourly(ps, start)
    ensures |ms| == |ps| + 1 && (forall i :: 0 <= i < |ps| ==> ps[i].key.Valid()) && Emergencies(ms, ps, last, capacity, hash, lt)
  {
  }

  lemma PacedNext(ms: seq<map<FlowKey, Common>>, ps: seq<Packet>, m: map<FlowKey, Common>, p: Packet,
                  prune: int, emergency: int, start: int, last: int, capacity: nat, hash: FlowKey -> nat, lt: Lifetimes)
    requires Paced(ms, ps, prune, emergency, start, last, capacity, hash, lt)
    requires |ms| > |ps| && p.key.Valid() && HandlerStep(ms[|ps|], m, p, capacity, hash, lt)
    requires (p.prune <==> p.now.sec > prune) && (p.due <==> p.now.sec > emergency + 60)
    ensures
      var met := IfDue(p.prune, ms[|ps|], p.now, lt);
      Paced(ms + [m], ps + [p], if p.prune then p.now.sec + 3600 else prune,
            if p.due && Refuses(met, Canonical(p.key), p.now, capacity, hash, lt, p.memory) then p.now.sec else emergency,
            start, last, capacity, hash, lt)
  {
    hide HandlerStep, Refuses, Canonical, PrunesHourly, NextPrune, Emergencies, LastEmergency;
    PrunesNext(ps, p, start);
    EmergencyNext(ms, ps, m, p, last, capacity, hash, lt);
    EmergencyLast(ms, ps, m, p, last, capacity, hash, lt);
  }

  ghost predicate AllOk(m: map<FlowKey, Common>) {
    forall k :: k in m ==> CommonOk(m[k])
  }

  lemma StepKeepsOk(m: map<FlowKey, Common>, m': map<FlowKey, Common>, isNew: bool,
                    c: FlowKey, d: Direction, now: Timeval, s: Segment,
                    capacity: nat, hash: FlowKey -> nat, lt: Lifetimes, memory: bool, due: bool)
    requires KeyStep(m, m', isNew, c, d, now, s, capacity, hash, lt, memory, due) && AllOk(m)
    ensures AllOk(m')
  {
    hide IsExpired, IsExpiredUni, Hit, Started, CommonOk;
    StartedOk(c.proto, d, now, s);
    if c in m {
      HitOk(m[c], d, now, s, lt);
    }
  }

  /**
   * No flow is immortal: through any run without a packet of flow `c`, its record stays as it was, so once
   * `now` is past its last packet by the longest lifetime, a prune drops it.
   */
  lemma {:induction false} NoFlowIsImmortal(ms: seq<map<FlowKey, Common>>, ps: seq<Packet>, c: FlowKey, t: int, now: Timeval,
                                            capacity: nat, hash: FlowKey -> nat, lt: Lifetimes)
    requires Run(ms, ps, capacity, hash, lt) && AllOk(ms[0])
    requires forall i :: 0 <= i < |ps| ==> Canonical(ps[i].key) != c
    requires c in ms[0] ==> ms[0][c].fwd.last.sec <= t && ms[0][c].rev.last.sec <= t
    requires now.sec > t + MaxLifetime(lt)
    ensures c !in Unexpired(ms[|ps|], now, lt)
  {
    hide IsExpired, KeyStep, CommonOk, Canonical, DirectionOf;
    if ps == [] {
      if c in ms[0] {
        NotImmortal(now, ms[0][c], t, lt);
      }
    } else {
      var p := ps[0];
      assert HandlerStep(ms[0], ms[1], p, capacity, hash, lt);
      var m := IfDue(p.prune, ms[0], p.now, lt);
      LiveFlowsSurvive(m, ms[1], p.isNew, c, Canonical(p.key), DirectionOf(p.key), p.now, p.seg, capacity, hash, lt, p.memory, p.due);
      StepKeepsOk(m, ms[1], p.isNew, Canonical(p.key), DirectionOf(p.key), p.now, p.seg, capacity, hash, lt, p.memory, p.due);
      NoFlowIsImmortal(ms[1..], ps[1..], c, t, now, capacity, hash, lt);
    }
  }

  /**
   * A live flow keeps its record through any run without packets of its own, whatever other flows, prunes and
   * allocation failures come in between.
   */
  lemma {:induction false} LiveFlowKeepsRecord(ms: seq<map<FlowKey, Common>>, ps: seq<Packet>, c: FlowKey,
                                               capacity: nat, hash: FlowKey -> nat, lt: Lifetimes)
    requires Run(ms, ps, capacity, hash, lt) && c in ms[0]
    requires forall i :: 0 <= i < |ps| ==> Canonical(ps[i].key) != c && !IsExpired(ps[i].now, ms[0][c], lt)
    ensures c in ms[|ps|] && ms[|ps|][c] == ms[0][c]
  {
    hide IsExpired, KeyStep, Canonical, DirectionOf;
    if ps != [] {
      var p := ps[0];
      assert HandlerStep(ms[0], ms[1], p, capacity, hash, lt);
      var m := IfDue(p.prune, ms[0], p.now, lt);
      assert c in m && m[c] == ms[0][c];
      LiveFlowsSurvive(m, ms[1], p.isNew, c, Canonical(p.key), DirectionOf(p.key), p.now, p.seg, capacity, hash, lt, p.memory, p.due);
      LiveFlowKeepsRecord(ms[1..], ps[1..], c, capacity, hash, lt);
    }
  }
}
