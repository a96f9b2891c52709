/** The hash functions the two tables are used with, and the tables as the program sets them up. */
module TableHash {
  import J = Jhash
  import FlowState
  import FlowKeys
  import FlowSpec
  import FlowTable
  import FragSpec
  import FragTable

  const RND: J.Word := 140281
  const IPFT_HASHSZ := 256

  predicate Words(a: seq<nat>, n: nat) {
    |a| == n && forall i :: 0 <= i < n ==> a[i] < J.LIMIT
  }

  /** The state after an identifier and two IPv6 addresses. */
  function Absorbed6(id: J.Word, src: seq<nat>, dst: seq<nat>): J.State
    requires Words(src, 4) && Words(dst, 4)
  {
    var t := J.Absorb(J.Start(RND), src[0], src[1], src[2]);
    J.Absorb(J.Absorb(t, src[3], dst[0], dst[1]), dst[2], dst[3], id)
  }

  function Bucket6(id: J.Word, src: seq<nat>, dst: seq<nat>, size: J.Word): (b: nat)
    requires Words(src, 4) && Words(dst, 4) && size > 0
    ensures b < size
  {
    J.And(Absorbed6(id, src, dst).c, size - 1)
  }

  /** hash_flow6 and hash_fragment6 */
  method Hash6(id: J.Word, src: seq<nat>, dst: seq<nat>, size: J.Word) returns (bucket: nat)
    requires Words(src, 4) && Words(dst, 4) && size > 0
    ensures bucket == Bucket6(id, src, dst, size) && bucket < size
  {
    hide J.Mix, J.And;
    var a, b, c := J.Plus(src[0], J.GOLDEN_RATIO), J.Plus(src[1], J.GOLDEN_RATIO), J.Plus(src[2], RND);
    J.PlusSwaps(src[0], J.GOLDEN_RATIO);
    J.PlusSwaps(src[1], J.GOLDEN_RATIO);
    J.PlusSwaps(src[2], RND);
    a, b, c := J.JhashMix(a, b, c);
    a, b, c := J.Plus(a, src[3]), J.Plus(b, dst[0]), J.Plus(c, dst[1]);
    a, b, c := J.JhashMix(a, b, c);
    a, b, c := J.Plus(a, dst[2]), J.Plus(b, dst[3]), J.Plus(c, id);
    a, b, c := J.JhashMix(a, b, c);
    bucket := J.And(c, size - 1);
  }

  /** The bucket of a flow, over IPv4 or IPv6; there is no other kind of key. */
  function FlowBucket(k: FlowKeys.FlowKey, size: J.Word): (b: nat)
    requires size > 0
    ensures b < size
  {
    if k.sport >= 0x1_0000 || k.dport >= 0x1_0000 then 0
    else if Words(k.src, 1) && Words(k.dst, 1) && k.proto < 256 then
      J.HashFlow(k.src[0], k.dst[0], k.sport, k.dport, k.proto, RND, size)
    else if Words(k.src, 4) && Words(k.dst, 4) then
      Bucket6(k.sport * 0x1_0000 + k.dport, k.src, k.dst, size)
    else 0
  }

  /** The bucket of a datagram, over IPv4 or IPv6. */
  function FragBucket(k: FragSpec.FragKey): (b: nat)
    ensures b < IPFT_HASHSZ
  {
    if Words(k.src, 1) && Words(k.dst, 1) && k.id < 0x1_0000 && k.proto < 256 then
      J.HashFragment(k.id, k.src[0], k.dst[0], k.proto, RND, IPFT_HASHSZ)
    else if Words(k.src, 4) && Words(k.dst, 4) && k.id < J.LIMIT then
      Bucket6(k.id, k.src, k.dst, IPFT_HASHSZ)
    else 0
  }

  /** The flow table as the program sets it up, and a run of packets through it. */
  method FlowRun(capacity: nat, size: J.Word, lifetimes: FlowState.Lifetimes, start: int, ins: seq<FlowTable.Input>)
    returns (t: FlowTable.FlowTable, news: seq<bool>,
             ghost ms: seq<map<FlowKeys.FlowKey, FlowState.Common>>, ghost ps: seq<FlowSpec.Packet>)
    requires 0 < size <= 0x1_0000 && forall i :: 0 <= i < |ins| ==> ins[i].key.Valid()
    ensures FlowSpec.Run(ms, ps, capacity, k => FlowBucket(k, size), lifetimes)
    ensures fresh(t) && t.Valid() && ms[0] == map[] && ms[|ps|] == t.lists.Contents()
    ensures FlowTable.Answered(ins, news, ps)
  {
    hide FlowTable.FlowTable.Valid, FlowBucket;
    var hash := k => FlowBucket(k, size);
    t := new FlowTable.FlowTable(capacity, size, hash, lifetimes, start);
    news, ms, ps := t.Process(ins);
  }

  /** The fragment table as the program sets it up, and fragments through it, up to a fault if there is one. */
  method FragRun(capacity: nat, sampled: bool, start: nat, ins: seq<FragSpec.Input>)
    returns (t: FragTable.FragTable, outs: seq<FragSpec.Outcome>, fault: bool, ghost ss: seq<FragSpec.State>)
    requires FragTable.Timely(ins, 0)
    ensures |outs| <= |ins| && (fault <==> |outs| < |ins|)
    ensures FragSpec.Trace(ss, ins[..|outs|], outs, FragSpec.Env(capacity, k => FragBucket(k), sampled))
    ensures ss[0] == FragSpec.State(map[], false, start + FragSpec.PRUNE_INTERVAL, 0)
    ensures fault ==> FragSpec.Faults(ss[|outs|], ins[|outs|])
    ensures forall n :: 0 <= n < |ss| ==>
      (ss[n].stale <==> ss[n].m == map[] && exists j :: 0 <= j < n && ss[j].m != map[])
    ensures !fault ==> t.Valid() && ss[|outs|] == t.Now()
  {
    hide FragTable.FragTable.Valid, FragBucket;
    var hash := k => FragBucket(k);
    t := new FragTable.FragTable(capacity, IPFT_HASHSZ, hash, sampled, start);
    outs, fault, ss := t.Process(ins);
    forall n | 0 <= n < |ss| ensures ss[n].stale <==> ss[n].m == map[] && exists j :: 0 <= j < n && ss[j].m != map[] {
      FragSpec.StaleExactly(ss, ins[..|outs|], outs, t.TheEnv(), n);
    }
  }
}
