/** How long each kind of flow lives, in seconds after its last packets, and that the table keeps it exactly so long. */
module FlowLifetimes {
  import opened FlowState
  import opened FlowKeys
  import opened FlowSpec

  /** Direction `d` is expired exactly after second `t`. */
  ghost predicate ExpiresAfter(c: Common, d: Direction, t: int, lt: Lifetimes) {
    forall now :: IsExpiredUni(now, c, d, lt) <==> now.sec > t
  }

  /** A packet leaves its own direction with this time, and the other one with its own. */
  lemma Touched(c: Common, d: Direction, now: Timeval, s: Segment, lt: Lifetimes)
    ensures var r := Hit(c, d, now, s, lt);
      r.At(d).last == now && r.At(d.Opposite()).last == c.At(d.Opposite()).last && r.proto == c.proto
  {
  }

  /** Without TCP a direction lives for the generic lifetime. */
  lemma OtherProtocolLives(c: Common, d: Direction, now: Timeval, s: Segment, lt: Lifetimes)
    requires c.proto != 6
    ensures ExpiresAfter(Hit(c, d, now, s, lt), d, now.sec + lt.generic, lt)
    ensures ExpiresAfter(Hit(c, d, now, s, lt), d.Opposite(), c.At(d.Opposite()).last.sec + lt.generic, lt)
  {
  }

  /** The lifetime that a TCP flag byte gives. */
  function FlagLifetime(flags: bv8, lt: Lifetimes): int {
    if flags & 0x04 != 0 then 10
    else if flags & 0x01 != 0 then 30
    else if flags & 0x02 != 0 then 60
    else lt.established
  }

  lemma FlagsLive(c: Common, d: Direction, lt: Lifetimes)
    requires c.proto == 6 && CommonOk(c)
    ensures ExpiresAfter(c, d, c.At(d).last.sec + FlagLifetime(c.At(d).flags, lt), lt)
  {
    var f := c.At(d).flags;
    assert FlagsOk(f);
    assert f != 0 ==> f & 0x04 != 0 || f & 0x01 != 0 || f & 0x02 != 0;
  }

  /** A FIN or RST segment leaves both directions 10 seconds if it has the RST flag, else 30, after their last packets. */
  lemma EndedLives(c: Common, d: Direction, now: Timeval, s: Segment, lt: Lifetimes)
    requires c.proto == 6 && CommonOk(c) && s.flags & 0x05 != 0
    ensures var r, life := Hit(c, d, now, s, lt), if s.flags & 0x04 != 0 then 10 else 30;
      && ExpiresAfter(r, d, now.sec + life, lt)
      && ExpiresAfter(r, d.Opposite(), c.At(d.Opposite()).last.sec + life, lt)
  {
    assert s.flags & 0x04 == 0 ==> s.flags & 0x01 != 0;
    assert Has(s.flags, TH_FIN) || Has(s.flags, TH_RST);
    Touched(c, d, now, s, lt);
    HitOk(c, d, now, s, lt);
    var r := Hit(c, d, now, s, lt);
    assert r.fwd.flags == s.flags && r.rev.flags == s.flags;
    hide Hit, CommonOk, IsExpiredUni;
    FlagsLive(r, d, lt);
    FlagsLive(r, d.Opposite(), lt);
  }

  /** A SYN, with or without ACK, leaves its direction 60 seconds. */
  lemma SynLives(c: Common, d: Direction, now: Timeval, s: Segment, lt: Lifetimes)
    requires c.proto == 6 && CommonOk(c) && s.flags & 0x02 != 0 && s.flags & 0x05 == 0
    ensures ExpiresAfter(Hit(c, d, now, s, lt), d, now.sec + 60, lt)
  {
    assert !Has(s.flags, TH_FIN) && !Has(s.flags, TH_RST);
    Touched(c, d, now, s, lt);
    HitOk(c, d, now, s, lt);
    var r := Hit(c, d, now, s, lt);
    assert r.At(d).flags == TH_SYN || r.At(d).flags == TH_SYN | TH_ACK;
    assert r.At(d).flags & 0x04 == 0 && r.At(d).flags & 0x01 == 0 && r.At(d).flags & 0x02 != 0;
    hide Hit, CommonOk, IsExpiredUni;
    FlagsLive(r, d, lt);
  }

  /** A segment without SYN, FIN and RST that completes no handshake leaves an unexpired direction's flags as they were. */
  lemma PlainLives(c: Common, d: Direction, now: Timeval, s: Segment, lt: Lifetimes)
    requires c.proto == 6 && CommonOk(c) && s.flags & 0x07 == 0 && !IsExpiredUni(now, c, d, lt) && !CompletesHandshake(c, d, s)
    ensures ExpiresAfter(Hit(c, d, now, s, lt), d, now.sec + FlagLifetime(c.At(d).flags, lt), lt)
  {
    assert !Has(s.flags, TH_SYN) && !Has(s.flags, TH_FIN) && !Has(s.flags, TH_RST);
    Touched(c, d, now, s, lt);
    HitOk(c, d, now, s, lt);
    var r := Hit(c, d, now, s, lt);
    assert r.At(d).flags == c.At(d).flags;
    hide Hit, CommonOk, IsExpiredUni;
    FlagsLive(r, d, lt);
  }

  /** In an expired direction such a segment starts over: what was there is forgotten, and it counts as established. */
  lemma StaleLives(c: Common, d: Direction, now: Timeval, s: Segment, lt: Lifetimes)
    requires c.proto == 6 && CommonOk(c) && s.flags & 0x07 == 0 && IsExpiredUni(now, c, d, lt)
    ensures ExpiresAfter(Hit(c, d, now, s, lt), d, now.sec + lt.established, lt)
  {
    assert !Has(s.flags, TH_SYN) && !Has(s.flags, TH_FIN) && !Has(s.flags, TH_RST);
    Touched(c, d, now, s, lt);
    var r := Hit(c, d, now, s, lt);
    assert !CompletesHandshake(Cleared(c, d), d, s);
    assert r.At(d).flags == 0;
    hide Hit, CommonOk, IsExpiredUni;
    NoFlagsLive(r, d, lt);
  }

  /** The SYN was in direction `d` at `t1` with sequence number `x`. */
  predicate SynSent(c: Common, d: Direction, x: nat, t1: Timeval) {
    c.proto == 6 && CommonOk(c) && c.At(d) == Half(t1, 0x02) && c.lastSeq == x
  }

  predicate SynAnswered(c: Common, d: Direction, x: nat, t1: Timeval, t2: Timeval) {
    SynSent(c, d, x, t1) && c.At(d.Opposite()) == Half(t2, 0x12)
  }

  lemma SynStep(c: Common, d: Direction, x: nat, t1: Timeval, lt: Lifetimes)
    requires c.proto == 6 && CommonOk(c)
    ensures SynSent(Hit(c, d, t1, Segment(0x02, x), lt), d, x, t1)
  {
    hide IsExpiredUni;
    HitOk(c, d, t1, Segment(0x02, x), lt);
  }

  lemma SynAckStep(c: Common, d: Direction, x: nat, y: nat, t1: Timeval, t2: Timeval, lt: Lifetimes)
    requires SynSent(c, d, x, t1)
    ensures SynAnswered(Hit(c, d.Opposite(), t2, Segment(0x12, y), lt), d, x, t1, t2)
  {
    hide IsExpiredUni;
    HitOk(c, d.Opposite(), t2, Segment(0x12, y), lt);
  }

  lemma AckStep(c: Common, d: Direction, x: nat, ack: Segment, t1: Timeval, t2: Timeval, t3: Timeval, lt: Lifetimes)
    requires SynAnswered(c, d, x, t1, t2) && t3.sec <= t1.sec + 60
    requires ack.flags & 0x07 == 0 && ack.seqNo == (x + 1) % 0x1_0000_0000
    ensures var r := Hit(c, d, t3, ack, lt);
      CommonOk(r) && r.proto == 6 && r.At(d) == Half(t3, 0) && r.At(d.Opposite()) == Half(t2, 0)
  {
    HitOk(c, d, t3, ack, lt);
    assert !IsExpiredUni(t3, c, d, lt);
    assert CompletesHandshake(c, d, ack);
    assert !Has(ack.flags, TH_SYN) && !Has(ack.flags, TH_FIN) && !Has(ack.flags, TH_RST);
    hide IsExpiredUni, CompletesHandshake;
    assert TcpStep(c, d, ack) == SetBoth(c, 0);
  }

  /**
   * The three packets of a handshake, whatever was before: after them each direction lives for the established lifetime,
   * counted from its own last packet.  The SYN must not have expired when the last one comes.
   */
  lemma EstablishedLives(c: Common, d: Direction, x: nat, y: nat, ack: Segment, t1: Timeval, t2: Timeval, t3: Timeval, lt: Lifetimes)
    requires c.proto == 6 && CommonOk(c) && t3.sec <= t1.sec + 60
    requires ack.flags & 0x07 == 0 && ack.seqNo == (x + 1) % 0x1_0000_0000
    ensures
      var c1 := Hit(c, d, t1, Segment(0x02, x), lt);
      var c2 := Hit(c1, d.Opposite(), t2, Segment(0x12, y), lt);
      var c3 := Hit(c2, d, t3, ack, lt);
      && ExpiresAfter(c3, d, t3.sec + lt.established, lt)
      && ExpiresAfter(c3, d.Opposite(), t2.sec + lt.established, lt)
  {
    hide *;
    var c1 := Hit(c, d, t1, Segment(0x02, x), lt);
    var c2 := Hit(c1, d.Opposite(), t2, Segment(0x12, y), lt);
    var c3 := Hit(c2, d, t3, ack, lt);
    SynStep(c, d, x, t1, lt);
    SynAckStep(c1, d, x, y, t1, t2, lt);
    AckStep(c2, d, x, ack, t1, t2, t3, lt);
    NoFlagsLive(c3, d, lt);
    NoFlagsLive(c3, d.Opposite(), lt);
  }

  lemma NoFlagsLive(c: Common, d: Direction, lt: Lifetimes)
    requires c.proto == 6 && c.At(d).flags == 0
    ensures ExpiresAfter(c, d, c.At(d).last.sec + lt.established, lt)
  {
  }

  // ----- in the table

  /** The record is expired, in both directions, exactly after second `t`. */
  ghost predicate LivesUntil(c: Common, t: int, lt: Lifetimes) {
    forall now :: IsExpired(now, c, lt) <==> now.sec > t
  }

  /** Both directions must have expired. */
  lemma LaterOfBoth(c: Common, d: Direction, t: int, u: int, lt: Lifetimes)
    requires ExpiresAfter(c, d, t, lt) && ExpiresAfter(c, d.Opposite(), u, lt)
    ensures LivesUntil(c, if t > u then t else u, lt)
  {
    hide IsExpiredUni;
    assert ExpiresAfter(c, Forward, if d.Forward? then t else u, lt);
    assert ExpiresAfter(c, Reverse, if d.Forward? then u else t, lt);
  }

  /** A packet of another flow. */
  lemma OthersPacket(m: map<FlowKey, Common>, m': map<FlowKey, Common>, p: Packet, c: FlowKey, t: int,
                     capacity: nat, hash: FlowKey -> nat, lt: Lifetimes)
    requires p.key.Valid() && Canonical(p.key) != c && HandlerStep(m, m', p, capacity, hash, lt)
    requires c in m ==> LivesUntil(m[c], t, lt)
    ensures c in m' ==> c in m && m'[c] == m[c]
    ensures c in m && p.now.sec <= t ==> c in m'
    ensures p.prune && p.now.sec > t ==> c !in m'
  {
    hide IsExpired, KeyStep, Canonical, DirectionOf;
    LiveFlowsSurvive(IfDue(p.prune, m, p.now, lt), m', p.isNew, c, Canonical(p.key), DirectionOf(p.key), p.now, p.seg,
                     capacity, hash, lt, p.memory, p.due);
  }

  /**
   * Through any run without its packets a flow is in the table, unchanged, up to the end of its lifetime, and a prune
   * after that drops it for good.
   */
  lemma {:induction false} KeptExactly(ms: seq<map<FlowKey, Common>>, ps: seq<Packet>, n: nat, c: FlowKey, t: int,
                                       capacity: nat, hash: FlowKey -> nat, lt: Lifetimes)
    requires Run(ms, ps, capacity, hash, lt) && n <= |ps| && c in ms[0] && LivesUntil(ms[0][c], t, lt)
    requires forall i :: 0 <= i < n ==> Canonical(ps[i].key) != c
    ensures c in ms[n] ==> ms[n][c] == ms[0][c]
    ensures (forall i :: 0 <= i < n ==> ps[i].now.sec <= t) ==> c in ms[n]
    ensures (exists i :: 0 <= i < n && ps[i].prune && ps[i].now.sec > t) ==> c !in ms[n]
  {
    hide IsExpired, HandlerStep, Canonical;
    if n > 0 {
      KeptExactly(ms, ps, n - 1, c, t, capacity, hash, lt);
      OthersPacket(ms[n - 1], ms[n], ps[n - 1], c, t, capacity, hash, lt);
    }
  }

  lemma {:induction false} PrunedSince(ms: seq<map<FlowKey, Common>>, ps: seq<Packet>, n: nat, c: FlowKey, t: int, start: int,
                                       capacity: nat, hash: FlowKey -> nat, lt: Lifetimes)
    requires Run(ms, ps, capacity, hash, lt) && n <= |ps| && c in ms[0] && LivesUntil(ms[0][c], t, lt)
    requires start <= t + 3600 && forall i :: 0 <= i < n ==> Canonical(ps[i].key) != c
    ensures c in ms[n] ==> ms[n][c] == ms[0][c] && NextPrune(ps[..n], start) <= t + 3600
  {
    hide IsExpired, HandlerStep, Canonical;
    if n > 0 {
      PrunedSince(ms, ps, n - 1, c, t, start, capacity, hash, lt);
      OthersPacket(ms[n - 1], ms[n], ps[n - 1], c, t, capacity, hash, lt);
      assert ps[..n][..n - 1] == ps[..n - 1];
    }
  }

  /** An expired flow is gone with the first packet more than an hour later, whatever came in between. */
  lemma GoneWithinTheHour(ms: seq<map<FlowKey, Common>>, ps: seq<Packet>, c: FlowKey, t: int, start: int,
                          capacity: nat, hash: FlowKey -> nat, lt: Lifetimes)
    requires Run(ms, ps, capacity, hash, lt) && ps != [] && c in ms[0] && LivesUntil(ms[0][c], t, lt)
    requires PrunesHourly(ps, start) && start <= t + 3600 && forall i :: 0 <= i < |ps| ==> Canonical(ps[i].key) != c
    requires ps[|ps| - 1].now.sec > t + 3600
    ensures c !in ms[|ps|]
  {
    hide IsExpired, HandlerStep, Canonical;
    var n := |ps| - 1;
    PrunedSince(ms, ps, n, c, t, start, capacity, hash, lt);
    OthersPacket(ms[n], ms[n + 1], ps[n], c, t, capacity, hash, lt);
  }

  // ----- each kind of flow, over runs

  /** Records are mortal and of their key's protocol. */
  ghost predicate Proper(m: map<FlowKey, Common>) {
    forall k :: k in m ==> CommonOk(m[k]) && m[k].proto == k.proto
  }

  lemma StartedIsHit(c: FlowKey, d: Direction, now: Timeval, s: Segment, lt: Lifetimes)
    ensures Started(c.proto, d, now, s) == Hit(ZeroCommon.(proto := c.proto), d, now, s, lt)
  {
    var z := ZeroCommon.(proto := c.proto);
    assert Cleared(z, d) == z;
    hide TcpStep, IsExpiredUni, Cleared;
  }

  /** A packet of the flow itself: what it does to the record that it meets, `x`, blank if there is none. */
  lemma OwnPacket(m: map<FlowKey, Common>, m': map<FlowKey, Common>, p: Packet, c: FlowKey,
                  capacity: nat, hash: FlowKey -> nat, lt: Lifetimes) returns (x: Common)
    requires p.key.Valid() && Canonical(p.key) == c && HandlerStep(m, m', p, capacity, hash, lt) && Proper(m) && c in m'
    ensures CommonOk(x) && x.proto == c.proto && m'[c] == Hit(x, DirectionOf(p.key), p.now, p.seg, lt)
    ensures c in m && !IsExpired(p.now, m[c], lt) ==> x == m[c]
    ensures c !in m ==> x == ZeroCommon.(proto := c.proto)
  {
    hide IsExpired, IsExpiredUni, Hit, Started, Canonical, DirectionOf;
    var met := IfDue(p.prune, m, p.now, lt);
    x := if c in met then met[c] else ZeroCommon.(proto := c.proto);
    StartedIsHit(c, DirectionOf(p.key), p.now, p.seg, lt);
  }

  /** It is in the table if it was, and alive. */
  lemma OwnStays(m: map<FlowKey, Common>, m': map<FlowKey, Common>, p: Packet, c: FlowKey,
                 capacity: nat, hash: FlowKey -> nat, lt: Lifetimes)
    requires p.key.Valid() && Canonical(p.key) == c && HandlerStep(m, m', p, capacity, hash, lt)
    requires c in m && !IsExpired(p.now, m[c], lt)
    ensures c in m'
  {
    hide IsExpired, IsExpiredUni, Hit, Started, Canonical, DirectionOf;
  }

  lemma StepKeepsProper(m: map<FlowKey, Common>, m': map<FlowKey, Common>, p: Packet,
                        capacity: nat, hash: FlowKey -> nat, lt: Lifetimes)
    requires p.key.Valid() && HandlerStep(m, m', p, capacity, hash, lt) && Proper(m)
    ensures Proper(m')
  {
    var c := Canonical(p.key);
    hide IsExpired, IsExpiredUni, KeyStep, CommonOk, Hit, Canonical, DirectionOf;
    forall k | k in m' ensures CommonOk(m'[k]) && m'[k].proto == k.proto {
      if k == c {
        var x := OwnPacket(m, m', p, c, capacity, hash, lt);
        HitOk(x, DirectionOf(p.key), p.now, p.seg, lt);
      } else {
        LiveFlowsSurvive(IfDue(p.prune, m, p.now, lt), m', p.isNew, k, c, DirectionOf(p.key), p.now, p.seg,
                         capacity, hash, lt, p.memory, p.due);
      }
    }
  }

  lemma {:induction false} RunKeepsProper(ms: seq<map<FlowKey, Common>>, ps: seq<Packet>, n: nat,
                                          capacity: nat, hash: FlowKey -> nat, lt: Lifetimes)
    requires Run(ms, ps, capacity, hash, lt) && n <= |ps| && Proper(ms[0])
    ensures Proper(ms[n])
  {
    hide Proper, HandlerStep;
    if n > 0 {
      RunKeepsProper(ms, ps, n - 1, capacity, hash, lt);
      StepKeepsProper(ms[n - 1], ms[n], ps[n - 1], capacity, hash, lt);
    }
  }

  /** From state `from` on, flow `c` is kept up to second `t`, unchanged, and dropped by a later prune. */
  ghost predicate KeptUntil(ms: seq<map<FlowKey, Common>>, ps: seq<Packet>, from: nat, c: FlowKey, t: int)
    requires |ms| == |ps| + 1
  {
    forall n :: from <= n <= |ps| ==>
      && (c in ms[n] ==> c in ms[from] && ms[n][c] == ms[from][c])
      && ((forall i :: from <= i < n ==> ps[i].now.sec <= t) ==> c in ms[n])
      && ((exists i :: from <= i < n && ps[i].prune && ps[i].now.sec > t) ==> c !in ms[n])
  }

  /** The last packet of the run that belongs to flow `c`. */
  ghost predicate LastOf(ps: seq<Packet>, i: nat, c: FlowKey) {
    && i < |ps| && ps[i].key.Valid() && Canonical(ps[i].key) == c
    && forall j :: i < j < |ps| ==> ps[j].key.Valid() && Canonical(ps[j].key) != c
  }

  lemma KeptFrom(ms: seq<map<FlowKey, Common>>, ps: seq<Packet>, i: nat, c: FlowKey, t: int,
                 capacity: nat, hash: FlowKey -> nat, lt: Lifetimes)
    requires Run(ms, ps, capacity, hash, lt) && LastOf(ps, i, c) && c in ms[i + 1] && LivesUntil(ms[i + 1][c], t, lt)
    ensures KeptUntil(ms, ps, i + 1, c, t)
  {
    hide LivesUntil, HandlerStep, Canonical;
    var a, rest := ms[i + 1..], ps[i + 1..];
    assert Run(a, rest, capacity, hash, lt);
    forall n | i + 1 <= n <= |ps| ensures
      && (c in ms[n] ==> ms[n][c] == ms[i + 1][c])
      && ((forall j :: i + 1 <= j < n ==> ps[j].now.sec <= t) ==> c in ms[n])
      && ((exists j :: i + 1 <= j < n && ps[j].prune && ps[j].now.sec > t) ==> c !in ms[n])
    {
      KeptExactly(a, rest, n - i - 1, c, t, capacity, hash, lt);
      forall j | i + 1 <= j < n ensures rest[j - i - 1] == ps[j] {}
    }
  }

  /** What the last packet of a flow met, and how its record then lives. */
  lemma LastRecord(ms: seq<map<FlowKey, Common>>, ps: seq<Packet>, i: nat, c: FlowKey,
                   capacity: nat, hash: FlowKey -> nat, lt: Lifetimes) returns (x: Common)
    requires Run(ms, ps, capacity, hash, lt) && Proper(ms[0]) && LastOf(ps, i, c) && c in ms[i + 1]
    ensures CommonOk(x) && x.proto == c.proto && ms[i + 1][c] == Hit(x, DirectionOf(ps[i].key), ps[i].now, ps[i].seg, lt)
    ensures c !in ms[i] ==> x == ZeroCommon.(proto := c.proto)
  {
    hide Proper, HandlerStep, Hit, Canonical, DirectionOf;
    RunKeepsProper(ms, ps, i, capacity, hash, lt);
    x := OwnPacket(ms[i], ms[i + 1], ps[i], c, capacity, hash, lt);
  }

  function Later(t: int, u: int): int { if t > u then t else u }

  /** When the other direction was last seen, by the record. */
  function OtherLast(c: Common, d: Direction): int { c.At(d.Opposite()).last.sec }

  /** A flow of another protocol than TCP, after its last packet. */
  lemma OtherProtocolKept(ms: seq<map<FlowKey, Common>>, ps: seq<Packet>, i: nat, c: FlowKey,
                          capacity: nat, hash: FlowKey -> nat, lt: Lifetimes)
    requires Run(ms, ps, capacity, hash, lt) && Proper(ms[0]) && LastOf(ps, i, c) && c in ms[i + 1] && c.proto != 6
    ensures KeptUntil(ms, ps, i + 1, c, Later(ps[i].now.sec, OtherLast(ms[i + 1][c], DirectionOf(ps[i].key))) + lt.generic)
  {
    hide Run, Proper, LastOf, Hit, DirectionOf, ExpiresAfter, LivesUntil, KeptUntil;
    RunShape(ms, ps, i, c, capacity, hash, lt);
    var x := LastRecord(ms, ps, i, c, capacity, hash, lt);
    var d, now := DirectionOf(ps[i].key), ps[i].now;
    Touched(x, d, now, ps[i].seg, lt);
    OtherProtocolLives(x, d, now, ps[i].seg, lt);
    LaterOfBoth(ms[i + 1][c], d, now.sec + lt.generic, OtherLast(x, d) + lt.generic, lt);
    KeptFrom(ms, ps, i, c, Later(now.sec, OtherLast(x, d)) + lt.generic, capacity, hash, lt);
  }

  lemma RunShape(ms: seq<map<FlowKey, Common>>, ps: seq<Packet>, i: nat, c: FlowKey, capacity: nat, hash: FlowKey -> nat, lt: Lifetimes)
    requires Run(ms, ps, capacity, hash, lt) && LastOf(ps, i, c)
    ensures |ms| == |ps| + 1 && i < |ps| && ps[i].key.Valid()
  {
  }

  /** A TCP flow whose last packet has FIN or RST. */
  lemma EndedKept(ms: seq<map<FlowKey, Common>>, ps: seq<Packet>, i: nat, c: FlowKey,
                  capacity: nat, hash: FlowKey -> nat, lt: Lifetimes)
    requires Run(ms, ps, capacity, hash, lt) && Proper(ms[0]) && LastOf(ps, i, c) && c in ms[i + 1]
    requires c.proto == 6 && ps[i].seg.flags & 0x05 != 0
    ensures KeptUntil(ms, ps, i + 1, c, Later(ps[i].now.sec, OtherLast(ms[i + 1][c], DirectionOf(ps[i].key)))
                                        + if ps[i].seg.flags & 0x04 != 0 then 10 else 30)
  {
    hide Run, Proper, LastOf, Hit, DirectionOf, ExpiresAfter, LivesUntil, KeptUntil;
    RunShape(ms, ps, i, c, capacity, hash, lt);
    var x := LastRecord(ms, ps, i, c, capacity, hash, lt);
    var d, now := DirectionOf(ps[i].key), ps[i].now;
    var life := if ps[i].seg.flags & 0x04 != 0 then 10 else 30;
    Touched(x, d, now, ps[i].seg, lt);
    EndedLives(x, d, now, ps[i].seg, lt);
    LaterOfBoth(ms[i + 1][c], d, now.sec + life, OtherLast(x, d) + life, lt);
    KeptFrom(ms, ps, i, c, Later(now.sec, OtherLast(x, d)) + life, capacity, hash, lt);
  }

  /** A new TCP flow of one SYN; the blank other direction counts as established since second 0. */
  lemma LoneSynKept(ms: seq<map<FlowKey, Common>>, ps: seq<Packet>, i: nat, c: FlowKey,
                    capacity: nat, hash: FlowKey -> nat, lt: Lifetimes)
    requires Run(ms, ps, capacity, hash, lt) && Proper(ms[0]) && LastOf(ps, i, c) && c !in ms[i] && c in ms[i + 1]
    requires c.proto == 6 && ps[i].seg.flags == 0x02
    ensures KeptUntil(ms, ps, i + 1, c, Later(ps[i].now.sec + 60, lt.established))
  {
    hide Run, Proper, LastOf, DirectionOf, ExpiresAfter, LivesUntil, KeptUntil, IsExpiredUni;
    RunShape(ms, ps, i, c, capacity, hash, lt);
    var x := LastRecord(ms, ps, i, c, capacity, hash, lt);
    var d, now := DirectionOf(ps[i].key), ps[i].now;
    SynLives(x, d, now, ps[i].seg, lt);
    var r := ms[i + 1][c];
    assert r.At(d.Opposite()) == ZeroHalf && r.proto == 6;
    NoFlagsLive(r, d.Opposite(), lt);
    LaterOfBoth(r, d, now.sec + 60, lt.established, lt);
    KeptFrom(ms, ps, i, c, Later(now.sec + 60, lt.established), capacity, hash, lt);
  }

  /** Packet `i` is one of flow `c`, in direction `d`. */
  predicate IsOwn(ps: seq<Packet>, i: nat, c: FlowKey, d: Direction) {
    i < |ps| && ps[i].key.Valid() && Canonical(ps[i].key) == c && DirectionOf(ps[i].key) == d
  }

  /** No packet between the two is of flow `c`, and none comes later than second `t`. */
  ghost predicate Between(ps: seq<Packet>, i: nat, j: nat, c: FlowKey, t: int) {
    i < j < |ps| && ps[j].now.sec <= t
    && forall k :: i < k < j ==> ps[k].key.Valid() && Canonical(ps[k].key) != c && ps[k].now.sec <= t
  }

  lemma SynAlive(c: Common, d: Direction, x: nat, t1: Timeval, now: Timeval, lt: Lifetimes)
    requires SynSent(c, d, x, t1) && now.sec <= t1.sec + 60
    ensures !IsExpired(now, c, lt)
  {
    assert !IsExpiredUni(now, c, d, lt);
  }

  /** From one packet of a flow to its next one, while its SYN has not expired. */
  lemma NextOwn(ms: seq<map<FlowKey, Common>>, ps: seq<Packet>, i: nat, j: nat, c: FlowKey, d: Direction, x: nat, t1: Timeval,
                capacity: nat, hash: FlowKey -> nat, lt: Lifetimes)
    requires Run(ms, ps, capacity, hash, lt) && Proper(ms[0]) && Between(ps, i, j, c, t1.sec + 60)
    requires c in ms[i + 1] && SynSent(ms[i + 1][c], d, x, t1) && ps[j].key.Valid() && Canonical(ps[j].key) == c
    ensures c in ms[j + 1] && ms[j + 1][c] == Hit(ms[i + 1][c], DirectionOf(ps[j].key), ps[j].now, ps[j].seg, lt)
  {
    hide Proper, HandlerStep, Hit, Canonical, DirectionOf, SynSent, IsExpired;
    var r := ms[i + 1][c];
    var a, some := ms[i + 1..j + 1], ps[i + 1..j];
    assert Run(a, some, capacity, hash, lt);
    forall k | 0 <= k < |some| ensures Canonical(some[k].key) != c && !IsExpired(some[k].now, r, lt) {
      assert some[k] == ps[i + 1 + k];
      SynAlive(r, d, x, t1, some[k].now, lt);
    }
    LiveFlowKeepsRecord(a, some, c, capacity, hash, lt);
    assert a[|some|] == ms[j] && ms[j][c] == r;
    SynAlive(r, d, x, t1, ps[j].now, lt);
    OwnStays(ms[j], ms[j + 1], ps[j], c, capacity, hash, lt);
    RunKeepsProper(ms, ps, j, capacity, hash, lt);
    var met := OwnPacket(ms[j], ms[j + 1], ps[j], c, capacity, hash, lt);
  }

  /**
   * A handshake, whatever record the flow had before, with any other traffic, prunes and failures in between: if its last
   * packet comes before the SYN expires, the flow is in the table and stays for the established lifetime.
   */
  lemma EstablishedKept(ms: seq<map<FlowKey, Common>>, ps: seq<Packet>, i1: nat, i2: nat, i3: nat, c: FlowKey, d: Direction, x: nat,
                        capacity: nat, hash: FlowKey -> nat, lt: Lifetimes)
    requires Run(ms, ps, capacity, hash, lt) && Proper(ms[0]) && c.proto == 6
    requires IsOwn(ps, i1, c, d) && IsOwn(ps, i2, c, d.Opposite()) && IsOwn(ps, i3, c, d) && c in ms[i1 + 1]
    requires Between(ps, i1, i2, c, ps[i1].now.sec + 60) && Between(ps, i2, i3, c, ps[i1].now.sec + 60) && LastOf(ps, i3, c)
    requires ps[i1].seg == Segment(0x02, x) && ps[i2].seg.flags == 0x12
    requires ps[i3].seg.flags & 0x07 == 0 && ps[i3].seg.seqNo == (x + 1) % 0x1_0000_0000
    ensures c in ms[i3 + 1]
    ensures KeptUntil(ms, ps, i3 + 1, c, Later(ps[i2].now.sec, ps[i3].now.sec) + lt.established)
  {
    hide Proper, HandlerStep, Hit, Canonical, DirectionOf, SynSent, SynAnswered, LivesUntil, KeptUntil, ExpiresAfter;
    var t1, t2, t3 := ps[i1].now, ps[i2].now, ps[i3].now;
    RunKeepsProper(ms, ps, i1, capacity, hash, lt);
    var r0 := OwnPacket(ms[i1], ms[i1 + 1], ps[i1], c, capacity, hash, lt);
    SynStep(r0, d, x, t1, lt);
    NextOwn(ms, ps, i1, i2, c, d, x, t1, capacity, hash, lt);
    SynAckStep(ms[i1 + 1][c], d, x, ps[i2].seg.seqNo, t1, t2, lt);
    var r2 := ms[i2 + 1][c];
    AnsweredIsSent(r2, d, x, t1, t2);
    NextOwn(ms, ps, i2, i3, c, d, x, t1, capacity, hash, lt);
    AckStep(r2, d, x, ps[i3].seg, t1, t2, t3, lt);
    var r3 := ms[i3 + 1][c];
    NoFlagsLive(r3, d, lt);
    NoFlagsLive(r3, d.Opposite(), lt);
    LaterOfBoth(r3, d, t3.sec + lt.established, t2.sec + lt.established, lt);
    KeptFrom(ms, ps, i3, c, Later(t2.sec, t3.sec) + lt.established, capacity, hash, lt);
  }

  lemma AnsweredIsSent(c: Common, d: Direction, x: nat, t1: Timeval, t2: Timeval)
    requires SynAnswered(c, d, x, t1, t2)
    ensures SynSent(c, d, x, t1)
  {
  }
}
