/**
 * The per-flow record of src/ip_flow.c: two directions, each with the time of
 * its last packet and its TCP state, and the rules that age them.
 */
module FlowState {

  const TH_FIN: bv8 := 0x01
  const TH_SYN: bv8 := 0x02
  const TH_RST: bv8 := 0x04
  const TH_ACK: bv8 := 0x10

  const IPPROTO_TCP := 6
  const TCPSYN_LIFETIME := 60
  const TCPFIN_LIFETIME := 30
  const TCPRST_LIFETIME := 10
  const PRUNE_INTERVAL := 3600
  const EMER_PRUNE_INTERVAL := 60

  /** Forward and reverse: the index 0 or 1 of the source's two-element arrays. */
  datatype Direction = Forward | Reverse {
    function Opposite(): Direction { if Forward? then Reverse else Forward }
  }

  datatype Timeval = Timeval(sec: int, usec: int)

  datatype Half = Half(last: Timeval, flags: bv8)

  datatype Common = Common(fwd: Half, rev: Half, lastSeq: nat, proto: nat) {
    function At(d: Direction): Half { if d.Forward? then fwd else rev }

    function With(d: Direction, h: Half): Common { if d.Forward? then this.(fwd := h) else this.(rev := h) }
  }

  /** Lifetimes come from the configuration; both are non-negative. */
  datatype Lifetimes = Lifetimes(generic: nat, established: nat)

  /** What a packet tells the tracker: its filtered TCP flags and its sequence number. */
  datatype Segment = Segment(flags: bv8, seqNo: nat)

  const ZeroHalf := Half(Timeval(0, 0), 0)
  const ZeroCommon := Common(ZeroHalf, ZeroHalf, 0, 0)

  predicate Has(flags: bv8, bit: bv8) { flags & bit != 0 }

  predicate IsExpiredUni(now: Timeval, c: Common, d: Direction, lt: Lifetimes) {
    var h := c.At(d);
    if c.proto == IPPROTO_TCP then
      if h.flags == 0 then now.sec > h.last.sec + lt.established
      else
        || (Has(h.flags, TH_SYN) && now.sec > h.last.sec + TCPSYN_LIFETIME)
        || (Has(h.flags, TH_FIN) && now.sec > h.last.sec + TCPFIN_LIFETIME)
        || (Has(h.flags, TH_RST) && now.sec > h.last.sec + TCPRST_LIFETIME)
    else now.sec > h.last.sec + lt.generic
  }

  predicate IsExpired(now: Timeval, c: Common, lt: Lifetimes) {
    IsExpiredUni(now, c, Forward, lt) && IsExpiredUni(now, c, Reverse, lt)
  }

  /** The third packet of the three-way handshake, in direction `d`. */
  predicate CompletesHandshake(c: Common, d: Direction, s: Segment) {
    && Has(c.At(d).flags, TH_SYN)
    && Has(c.At(d.Opposite()).flags, TH_SYN)
    && Has(c.At(d.Opposite()).flags, TH_ACK)
    && s.seqNo == (c.lastSeq + 1) % 0x1_0000_0000
  }

  function SetFlags(c: Common, d: Direction, flags: bv8): Common {
    c.With(d, c.At(d).(flags := flags))
  }

  function SetBoth(c: Common, flags: bv8): Common {
    SetFlags(SetFlags(c, Forward, flags), Reverse, flags)
  }

  function AfterSyn(c: Common, d: Direction, s: Segment): Common {
    if !Has(s.flags, TH_SYN) then c
    else if Has(s.flags, TH_ACK) then SetFlags(c, d, TH_SYN | TH_ACK)
    else SetFlags(c, d, TH_SYN).(lastSeq := s.seqNo)
  }

  /** The effect of one segment on the TCP state; other protocols have none. */
  function TcpStep(c: Common, d: Direction, s: Segment): Common {
    if c.proto != IPPROTO_TCP then c
    else
      var settled := if CompletesHandshake(c, d, s) then SetBoth(c, 0) else c;
      var syn := AfterSyn(settled, d, s);
      if Has(s.flags, TH_FIN) || Has(s.flags, TH_RST) then SetBoth(syn, s.flags) else syn
  }

  function Touch(c: Common, d: Direction, now: Timeval): Common {
    c.With(d, c.At(d).(last := now))
  }

  function Cleared(c: Common, d: Direction): Common {
    c.With(d, ZeroHalf)
  }

  /** A nonzero flag byte always carries one of the bits that have a lifetime. */
  predicate FlagsOk(flags: bv8) {
    flags == 0 || flags & (TH_SYN | TH_FIN | TH_RST) != 0
  }

  predicate CommonOk(c: Common) {
    FlagsOk(c.fwd.flags) && FlagsOk(c.rev.flags)
  }

  /** No segment puts a flow in a state without a lifetime. */
  lemma TcpStepKeepsFlags(c: Common, d: Direction, s: Segment)
    requires CommonOk(c)
    ensures CommonOk(TcpStep(c, d, s)) && TcpStep(c, d, s).proto == c.proto
  {
  }

  /**
   * A half-open direction becomes ESTABLISHED (flag byte zero, the long lifetime) exactly when the
   * segment completes the handshake and does not itself carry SYN, FIN or RST.
   */
  lemma EstablishedExactly(c: Common, d: Direction, s: Segment)
    requires c.proto == IPPROTO_TCP && c.At(d).flags != 0
    ensures TcpStep(c, d, s).At(d).flags == 0
       <==> CompletesHandshake(c, d, s) && s.flags & (TH_SYN | TH_FIN | TH_RST) == 0
  {
    if CompletesHandshake(c, d, s) {
      assert SetBoth(c, 0).At(d).flags == 0;
    }
    assert !Has(s.flags, TH_FIN) && !Has(s.flags, TH_RST) ==> (Has(s.flags, TH_SYN) <==> s.flags & (TH_SYN | TH_FIN | TH_RST) != 0);
  }

  /** SYN, SYN+ACK and the matching ACK take a flow from any state to ESTABLISHED in both directions. */
  lemma Handshake(c: Common, d: Direction, x: nat, y: nat, ack: Segment)
    requires c.proto == IPPROTO_TCP
    requires ack.flags & (TH_SYN | TH_FIN | TH_RST) == 0 && ack.seqNo == (x + 1) % 0x1_0000_0000
    ensures
      var c1 := TcpStep(c, d, Segment(TH_SYN, x));
      var c2 := TcpStep(c1, d.Opposite(), Segment(TH_SYN | TH_ACK, y));
      var c3 := TcpStep(c2, d, ack);
      c3.fwd.flags == 0 && c3.rev.flags == 0
  {
  }

  /** FIN or RST ends the flow in both directions, whatever state it was in. */
  lemma FinEndsBoth(c: Common, d: Direction, s: Segment, now: Timeval, lt: Lifetimes)
    requires c.proto == IPPROTO_TCP && (Has(s.flags, TH_FIN) || Has(s.flags, TH_RST))
    requires now.sec > c.fwd.last.sec + TCPFIN_LIFETIME && now.sec > c.rev.last.sec + TCPFIN_LIFETIME
    ensures IsExpired(now, TcpStep(c, d, s), lt)
  {
    var r := TcpStep(c, d, s);
    assert r.fwd == c.fwd.(flags := s.flags) && r.rev == c.rev.(flags := s.flags);
  }

  /** A direction is alive when its packet arrives, and once expired it stays so until the next one. */
  lemma ExpiryIsFinal(c: Common, d: Direction, now: Timeval, later: Timeval, lt: Lifetimes)
    requires now.sec <= later.sec
    ensures !IsExpiredUni(now, Touch(c, d, now), d, lt)
    ensures IsExpiredUni(now, c, d, lt) ==> IsExpiredUni(later, c, d, lt)
  {
  }

  function MaxLifetime(lt: Lifetimes): nat {
    var m := if lt.generic > lt.established then lt.generic else lt.established;
    if m > TCPSYN_LIFETIME then m else TCPSYN_LIFETIME
  }

  /** No flow is immortal: left alone since `t`, it is expired after its longest applicable lifetime. */
  lemma NotImmortal(now: Timeval, c: Common, t: int, lt: Lifetimes)
    requires CommonOk(c) && c.fwd.last.sec <= t && c.rev.last.sec <= t
    requires now.sec > t + MaxLifetime(lt)
    ensures IsExpired(now, c, lt)
  {
  }
}
