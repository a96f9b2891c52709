/** The flow table of src/ip_flow.c: find_flow, create_flow and prune_old_flows over the shared list structure. */
module FlowTable {
  import opened SeqFilter
  import opened TwinLists
  import opened FlowState
  import opened FlowKeys
  import opened FlowSpec
  import opened FlowLifetimes

  type FlowNode = Node<FlowKey, Common>

  /** Follows the TCP handshake of a flow, one flag byte at a time. */
  method EvaluateTcpFlags(n: FlowNode, d: Direction, s: Segment)
    modifies n`val
    ensures n.val == TcpStep(old(n.val), d, s)
  {
    var rev := d.Opposite();
    if n.val.proto == IPPROTO_TCP {
      if Has(n.val.At(d).flags, TH_SYN) && Has(n.val.At(rev).flags, TH_SYN) && Has(n.val.At(rev).flags, TH_ACK) {
        if s.seqNo == (n.val.lastSeq + 1) % 0x1_0000_0000 {
          n.val := SetFlags(n.val, d, 0);
          n.val := SetFlags(n.val, rev, 0);
        }
      }
      if s.flags != 0 {
        if Has(s.flags, TH_SYN) {
          n.val := SetFlags(n.val, d, TH_SYN);
          if Has(s.flags, TH_ACK) {
            n.val := SetFlags(n.val, d, n.val.At(d).flags | TH_ACK);
          } else {
            n.val := n.val.(lastSeq := s.seqNo);
          }
        }
        if Has(s.flags, TH_FIN) || Has(s.flags, TH_RST) {
          n.val := SetFlags(n.val, d, s.flags);
          n.val := SetFlags(n.val, rev, s.flags);
        }
      }
    }
  }

  /** The bucket as the node's 16-bit field records it. */
  function Recorded(bucket: nat): nat { bucket % 0x1_0000 }

  lemma RecordedBelow(b: nat)
    ensures Recorded(b) < 0x1_0000
  {
  }

  /** Every node records its own bucket exactly if there are at most 2^16 of them. */
  lemma RecordedExactly(size: nat)
    ensures (forall b: nat :: b < size ==> Recorded(b) == b) <==> size <= 0x1_0000
  {
    assert Recorded(0x1_0000) == 0;
  }

  class FlowTable {
    const lists: Lists<FlowKey, Common>
    const lifetimes: Lifetimes
    var free: nat            // flt_total_nodes
    var pruneDeadline: int
    var emergencyPrune: int
    ghost const capacity: nat

    ghost predicate Valid()
      reads this`free, lists, lists.heads, lists.lru
    {
      && lists.Links() && lists.Keyed() && !lists.stale && lists.Alive()
      && (forall k: FlowKey :: lists.hash(k) < lists.heads.Length) && lists.heads.Length <= 0x1_0000
      && |lists.lru| - 1 + free == capacity
      && (forall n :: n in lists.Nodes() ==> CommonOk(n.val) && n.val.proto == n.key.proto)
    }

    ghost function Dead(now: Timeval): set<FlowNode>
      reads lists, lists.lru
    {
      set n | n in lists.Nodes() && IsExpired(now, n.val, lifetimes)
    }

    /** Every node is one entry: the table holds as many flows as the counter says are in use. */
    lemma Bounded()
      requires Valid()
      ensures |lists.Contents()| + free == capacity
    {
      lists.ContentsSize();
    }

    /** The table keeps its promises from the start if and only if every node can record its bucket. */
    constructor (capacity: nat, size: nat, hash: FlowKey -> nat, lifetimes: Lifetimes, now: int)
      requires forall k: FlowKey :: hash(k) < size
      ensures Valid() <==> size <= 0x1_0000
      ensures lists.Links() && lists.Keyed() && lists.Alive() && !lists.stale && lists.Contents() == map[]
      ensures free == this.capacity == capacity && this.lifetimes == lifetimes
      ensures fresh(lists) && fresh(lists.heads) && fresh(lists.root) && lists.lru == [lists.root]
      ensures pruneDeadline == now + 3600 && emergencyPrune == 0
      ensures lists.hash == hash && lists.heads.Length == size && lists.chains == seq(size, b => [])
    {
      lists := new Lists<FlowKey, Common>(size, hash, ZeroCommon);
      this.lifetimes := lifetimes;
      free, this.capacity := capacity, capacity;
      pruneDeadline, emergencyPrune := now + PRUNE_INTERVAL, 0;
      new;
      assert lists.Nodes() == {};
    }

    /** The pruning loop: drops every flow that is expired in both directions, and nothing else; it never meets a freed node. */
    method Sweep(now: Timeval)
      requires lists.Links() && !lists.stale && lists.Alive()
      requires forall n :: n in lists.Nodes() ==> n in lists.home && n.bucket == lists.home[n]
      modifies this`free, lists`lru, lists`chains, lists`last, lists.heads
      modifies lists.lru`next, lists.lru`prev, lists.lru`lruNext, lists.lru`lruPrev, lists.lru`freed
      ensures lists.Links() && lists.Alive()
      ensures lists.lru == Without(old(lists.lru), old(Dead(now)))
      ensures lists.chains == WithoutAll(old(lists.chains), old(Dead(now)))
      ensures free + |lists.lru| == old(free) + |old(lists.lru)|
    {
      hide Partition, Without, WithoutAll, IsExpired, AllNodes, Taken, Distinct, FreedUpTo;
      hide Lists.Sweeping, Lists.Links, Lists.LruLinked, Lists.ChainsLinked, Lists.Alive;
      ghost var L, C, dead := lists.lru, lists.chains, Dead(now);
      ghost var i, p := 1, 1;
      lists.SweepStart(dead);
      lists.SweepNoneFreed(dead);
      lists.SweepAt(L, C, dead, i, p);
      var fp := lists.root.lruNext;
      var lastSeen := lists.root;
      while fp != null
        invariant 0 < p <= |lists.lru| && i <= |L| && lists.Sweeping(L, C, dead, i, p)
        invariant fp == (if i < |L| then L[i] else null) && lastSeen == lists.lru[p - 1]
        invariant free == old(free) + i - p
        invariant FreedUpTo(L, dead, i)
        decreases |L| - i
      {
        lists.SweepAt(L, C, dead, i, p);
        NotFreed(L, dead, i);
        assert !fp.freed;
        if IsExpired(now, fp.val, lifetimes) {
          var temp := fp.lruNext;
          free := free + 1;
          lists.SweepFree(fp, L, C, dead, i, p);
          fp := temp;
        } else {
          lists.SweepSkip(L, C, dead, i, p);
          lastSeen := fp;
          fp := fp.lruNext;
          p := p + 1;
        }
        assert lastSeen == lists.lru[p - 1];
        i := i + 1;
      }
      lists.SweepAt(L, C, dead, i, p);
      lists.SweepEnd(lastSeen, L, C, dead, i, p);
      WithoutMembers(L, dead);
      lists.AliveIf(L, dead);
    }

    method Prune(now: Timeval)
      requires Valid()
      modifies this`free, lists`lru, lists`chains, lists`last, lists.heads
      modifies lists.lru`next, lists.lru`prev, lists.lru`lruNext, lists.lru`lruPrev, lists.lru`freed
      ensures Valid() && lists.OnlyFresh()
      ensures lists.lru == Without(old(lists.lru), old(Dead(now)))
      ensures lists.chains == WithoutAll(old(lists.chains), old(Dead(now)))
      ensures lists.Contents() == Unexpired(old(lists.Contents()), now, lifetimes)
    {
      hide Linked, Ring, Distinct, Partition, Without, WithoutAll, AllNodes, IsExpired, CommonOk;
      hide Lists.LruLinked, Lists.ChainsLinked;
      ghost var dead, nodes := Dead(now), lists.Nodes();
      Sweep(now);
      WithoutMembers(old(lists.lru), dead);
      assert lists.Nodes() == nodes - dead;
    }

    /** Prunes when the table is full, at most once per emergency interval. */
    method EmergencyPrune(now: Timeval)
      requires Valid()
      modifies this`free, this`emergencyPrune, lists`lru, lists`chains, lists`last, lists.heads
      modifies lists.lru`next, lists.lru`prev, lists.lru`lruNext, lists.lru`lruPrev, lists.lru`freed
      ensures Valid() && lists.OnlyFresh()
      ensures var due := now.sec > old(emergencyPrune) + EMER_PRUNE_INTERVAL;
        && emergencyPrune == (if due then now.sec else old(emergencyPrune))
        && lists.Contents() == IfDue(due, old(lists.Contents()), now, lifetimes)
    {
      hide FlowTable.Valid, Lists.Contents, Lists.Nodes, Unexpired;
      if now.sec > emergencyPrune + EMER_PRUNE_INTERVAL {
        emergencyPrune := now.sec;
        Prune(now);
      }
    }

    /** Starts the record in a node that is linked but still blank. */
    method Start(n: FlowNode, c: FlowKey, bucket: nat, d: Direction, now: Timeval, s: Segment)
      requires n.val == ZeroCommon
      modifies n`key, n`bucket, n`val
      ensures n.key == c && n.bucket == Recorded(bucket) && n.val == Started(c.proto, d, now, s)
    {
      n.key := c;
      n.val := n.val.(proto := c.proto);
      n.bucket := Recorded(bucket);
      EvaluateTcpFlags(n, d, s);
      n.val := Touch(n.val, d, now);
    }

    /** A new node at the end of its chain and of the LRU list. */
    method CreateFresh(tail: Node?<FlowKey, Common>, bucket: nat, c: FlowKey, d: Direction, now: Timeval, s: Segment)
      requires Valid() && free > 0 && bucket == lists.hash(c) && c !in lists.Contents()
      requires tail == if lists.chains[bucket] == [] then null else lists.chains[bucket][|lists.chains[bucket]| - 1]
      modifies this`free, lists, lists.heads, lists.lru`next, lists.lru`lruNext
      ensures Valid() && free == old(free) - 1 && lists.OnlyFresh()
      ensures lists.Contents() == old(lists.Contents())[c := Started(c.proto, d, now, s)]
    {
      hide Lists.Links, Lists.Keyed, Lists.Contents, CommonOk, Started, Recorded;
      RecordedExactly(lists.heads.Length);
      lists.Shape();
      StartedOk(c.proto, d, now, s);
      free := free - 1;
      var n := lists.Allocate(bucket, tail, ZeroCommon);
      Start(n, c, bucket, d, now, s);
      lists.AddedOne(n);
    }

    /** An expired flow's node becomes the new flow's: same chain, new LRU tail. */
    method Recycle(fp: FlowNode, bucket: nat, c: FlowKey, d: Direction, now: Timeval, s: Segment)
      requires Valid() && fp in lists.Nodes() && bucket == lists.hash(fp.key) == lists.hash(c) && c !in lists.Contents()
      modifies lists`last, lists`lru, lists`stale, lists.lru`lruNext, lists.lru`lruPrev, fp`key, fp`bucket, fp`val
      ensures Valid() && lists.OnlyFresh()
      ensures lists.Contents() == (old(lists.Contents()) - {old(fp.key)})[c := Started(c.proto, d, now, s)]
    {
      hide Lists.Links, Lists.Keyed, Lists.Contents, CommonOk, Started, Recorded;
      RecordedExactly(lists.heads.Length);
      StartedOk(c.proto, d, now, s);
      lists.EntryOf(fp);
      lists.MoveToTail(fp);
      fp.val := ZeroCommon;
      Start(fp, c, bucket, d, now, s);
      lists.ReplacedOne(fp);
    }

    predicate PruneDue(now: Timeval)
      reads this`emergencyPrune
    {
      now.sec > emergencyPrune + EMER_PRUNE_INTERVAL
    }

    lemma NothingEvictable(c: FlowKey, now: Timeval)
      requires Valid() && lists.hash(c) < |lists.chains|
      requires forall n :: n in lists.chains[lists.hash(c)] ==> !IsExpired(now, n.val, lifetimes)
      ensures forall k :: !Evictable(lists.Contents(), k, c, lists.hash, now, lifetimes)
    {
      hide IsExpired;
      forall k | k in lists.Contents() && lists.hash(k) == lists.hash(c) ensures !IsExpired(now, lists.Contents()[k], lifetimes) {
        lists.KeyInChain(k);
      }
    }

    /** `fp` is an expired node of the bucket, or else the last node of the bucket (null if it is empty). */
    method CreateFlow(now: Timeval, fp: Node?<FlowKey, Common>, isCandidate: bool, bucket: nat,
                      c: FlowKey, d: Direction, s: Segment, memory: bool) returns (isNew: bool)
      requires Valid() && bucket == lists.hash(c) && bucket < |lists.chains| && c !in lists.Contents()
      requires isCandidate ==> fp != null && fp in lists.Nodes() && lists.hash(fp.key) == bucket && IsExpired(now, fp.val, lifetimes)
      requires !isCandidate ==> fp == if lists.chains[bucket] == [] then null else lists.chains[bucket][|lists.chains[bucket]| - 1]
      requires !isCandidate ==> forall k :: !Evictable(lists.Contents(), k, c, lists.hash, now, lifetimes)
      modifies this`free, this`emergencyPrune, lists, lists.heads, lists.lru
      ensures Valid() && lists.OnlyFresh()
      ensures KeyStep(old(lists.Contents()), lists.Contents(), isNew, c, d, now, s,
                      capacity, lists.hash, lifetimes, memory, old(PruneDue(now)))
      ensures emergencyPrune == if old(PruneDue(now)) && old(Refuses(lists.Contents(), c, now, capacity, lists.hash, lifetimes, memory))
                                then now.sec else old(emergencyPrune)
    {
      hide Lists.Links, Lists.Keyed, Lists.Contents, IsExpired, Started, IfDue, CommonOk;
      ghost var m := lists.Contents();
      Bounded();
      if free == 0 {
        EmergencyPrune(now);
        return false;
      }
      if fp != null {
        if !isCandidate {
          if !memory {
            EmergencyPrune(now);
            return false;
          }
          CreateFresh(fp, bucket, c, d, now, s);
        } else {
          lists.EntryOf(fp);
          assert Evictable(m, fp.key, c, lists.hash, now, lifetimes);
          Recycle(fp, bucket, c, d, now, s);
        }
      } else {
        if !memory {
          EmergencyPrune(now);
          return false;
        }
        CreateFresh(null, bucket, c, d, now, s);
      }
      return true;
    }

    /** A packet of a known flow. */
    method Refresh(fp: FlowNode, d: Direction, now: Timeval, s: Segment) returns (isNew: bool)
      requires Valid() && fp in lists.Nodes()
      modifies fp`val
      ensures Valid() && isNew == old(IsExpiredUni(now, fp.val, d, lifetimes))
      ensures lists.Contents() == old(lists.Contents())[fp.key := Hit(old(fp.val), d, now, s, lifetimes)]
      ensures forall memory, due ::
        KeyStep(old(lists.Contents()), lists.Contents(), isNew, fp.key, d, now, s, capacity, lists.hash, lifetimes, memory, due)
    {
      hide Lists.Links, Lists.Keyed, Lists.Contents, CommonOk, IsExpiredUni, TcpStep;
      ghost var v := fp.val;
      HitOk(v, d, now, s, lifetimes);
      lists.EntryOf(fp);
      if !IsExpiredUni(now, fp.val, d, lifetimes) {
        EvaluateTcpFlags(fp, d, s);
        fp.val := Touch(fp.val, d, now);
        isNew := false;
      } else {
        fp.val := Cleared(fp.val, d);
        EvaluateTcpFlags(fp, d, s);
        fp.val := Touch(fp.val, d, now);
        isNew := true;
      }
      assert fp.val == Hit(v, d, now, s, lifetimes);
      lists.ReplacedOne(fp);
      ghost var m := old(lists.Contents());
      assert (m - {fp.key})[fp.key := fp.val] == m[fp.key := fp.val];
    }

    /** `n` is the first expired node of chain `b`. */
    ghost predicate FirstExpired(b: nat, n: FlowNode, now: Timeval)
      requires b < |lists.chains|
      reads lists, lists.chains[b]
    {
      var chain := lists.chains[b];
      exists i :: 0 <= i < |chain| && chain[i] == n && IsExpired(now, n.val, lifetimes)
        && forall j :: 0 <= j < i ==> !IsExpired(now, chain[j].val, lifetimes)
    }

    /** Walks the chain of flow `c`: its node `fp` if there is one, the first expired node, the last node passed. */
    method Walk(now: Timeval, c: FlowKey, bucket: nat)
      returns (fp: Node?<FlowKey, Common>, candidate: Node?<FlowKey, Common>, lastSeen: Node?<FlowKey, Common>)
      requires Valid() && bucket == lists.hash(c) && bucket < |lists.chains|
      ensures if fp != null then fp in lists.Nodes() && fp.key == c else c !in lists.Contents()
      ensures candidate != null ==> candidate in lists.Nodes() && lists.hash(candidate.key) == bucket && FirstExpired(bucket, candidate, now)
      ensures fp == null && candidate == null ==> forall k :: !Evictable(lists.Contents(), k, c, lists.hash, now, lifetimes)
      ensures fp == null ==> lastSeen == if lists.chains[bucket] == [] then null else lists.chains[bucket][|lists.chains[bucket]| - 1]
    {
      hide Lists.Links, Lists.Keyed, Lists.Contents, IsExpired, CommonOk, Evictable;
      ghost var i, first, chain := 0, 0, lists.chains[bucket];
      lists.ChainAt(bucket, 0);
      lists.KeyInChain(c);
      fp := lists.heads[bucket];
      candidate, lastSeen := null, null;
      while fp != null
        invariant 0 <= i <= |chain| && fp == if i < |chain| then chain[i] else null
        invariant lastSeen == if i == 0 then null else chain[i - 1]
        invariant forall j :: 0 <= j < i ==> chain[j].key != c
        invariant candidate == null ==> forall j :: 0 <= j < i ==> !IsExpired(now, chain[j].val, lifetimes)
        invariant candidate != null ==> candidate in lists.Nodes() && lists.hash(candidate.key) == bucket && IsExpired(now, candidate.val, lifetimes)
        invariant candidate != null ==> first < i && chain[first] == candidate
        invariant candidate != null ==> forall j :: 0 <= j < first ==> !IsExpired(now, chain[j].val, lifetimes)
        decreases |chain| - i
      {
        lists.ChainAt(bucket, i);
        if fp.key == c {
          return;
        }
        if candidate == null && IsExpired(now, fp.val, lifetimes) {
          candidate := fp;
          first := i;
        }
        lastSeen := fp;
        fp := fp.next;
        i := i + 1;
      }
      if candidate == null {
        NothingEvictable(c, now);
      }
    }

    /** One packet of flow `k`: finds or starts its record.  `memory` says whether malloc() would succeed. */
    method FindFlow(now: Timeval, k: FlowKey, s: Segment, memory: bool) returns (isNew: bool)
      requires Valid() && k.Valid()
      modifies this`free, this`emergencyPrune, lists, lists.heads, lists.lru
      ensures Valid() && lists.OnlyFresh()
      ensures PacketStep(old(lists.Contents()), lists.Contents(), isNew, k, now, s,
                         capacity, lists.hash, lifetimes, memory, old(PruneDue(now)))
      ensures emergencyPrune == if old(PruneDue(now)) && old(Refuses(lists.Contents(), Canonical(k), now, capacity, lists.hash, lifetimes, memory))
                                then now.sec else old(emergencyPrune)
    {
      hide Lists.Links, Lists.Keyed, Lists.Contents, IsExpired, IsExpiredUni, KeyStep, CommonOk, Canonical, DirectionOf;
      var c, d := Normalize(k);
      var bucket := lists.hash(c);
      lists.Shape();
      var fp, candidate, lastSeen := Walk(now, c, bucket);
      if fp != null {
        lists.EntryOf(fp);
        isNew := Refresh(fp, d, now, s);
      } else if candidate != null {
        isNew := CreateFlow(now, candidate, true, bucket, c, d, s, memory);
      } else {
        isNew := CreateFlow(now, lastSeen, false, bucket, c, d, s, memory);
      }
    }

    /** The packet entry point: the hourly prune, then the packet. */
    method Handler(now: Timeval, k: FlowKey, s: Segment, memory: bool) returns (isNew: bool, ghost p: Packet)
      requires Valid() && k.Valid()
      modifies this, lists, lists.heads, lists.lru
      ensures Valid() && lists.OnlyFresh()
      ensures pruneDeadline == if p.prune then now.sec + 3600 else old(pruneDeadline)
      ensures p.due <==> now.sec > old(emergencyPrune) + 60
      ensures
        var met := IfDue(p.prune, old(lists.Contents()), now, lifetimes);
        emergencyPrune == if p.due && Refuses(met, Canonical(k), now, capacity, lists.hash, lifetimes, memory) then now.sec else old(emergencyPrune)
      ensures p == Packet(k, now, s, isNew, memory, old(PruneDue(now)), now.sec > old(pruneDeadline))
      ensures HandlerStep(old(lists.Contents()), lists.Contents(), p, capacity, lists.hash, lifetimes)
    {
      hide FlowTable.Valid, Lists.Contents, PacketStep, Unexpired, Without, Refuses, Canonical;
      ghost var due, prune := PruneDue(now), now.sec > pruneDeadline;
      if now.sec > pruneDeadline {
        Prune(now);
        pruneDeadline := now.sec + PRUNE_INTERVAL;
      }
      isNew := FindFlow(now, k, s, memory);
      p := Packet(k, now, s, isNew, memory, due, prune);
    }

    lemma IsProper()
      requires Valid()
      ensures Proper(lists.Contents())
    {
    }

    /**
     * A run of packets through the table: `ms` are its contents before and after each of them.  It is pruned by every packet
     * that comes more than an hour after the last such one, and when it refuses one, at most once a minute.
     */
    method Process(ins: seq<Input>) returns (news: seq<bool>, ghost ms: seq<map<FlowKey, Common>>, ghost ps: seq<Packet>)
      requires Valid() && forall i :: 0 <= i < |ins| ==> ins[i].key.Valid()
      modifies this, lists, lists.heads, lists.lru
      ensures Valid() && lists.OnlyFresh()
      ensures Run(ms, ps, capacity, lists.hash, lifetimes) && Answered(ins, news, ps)
      ensures ms[0] == old(lists.Contents()) && ms[|ps|] == lists.Contents() && Proper(ms[0])
      ensures PrunesHourly(ps, old(pruneDeadline))
      ensures Emergencies(ms, ps, old(emergencyPrune), capacity, lists.hash, lifetimes)
    {
      hide Lists.Links, Lists.Keyed, Lists.Alive, Lists.Contents, HandlerStep, CommonOk, Refuses, Canonical;
      hide Paced, Proper, Run, PrunesHourly, Emergencies;
      IsProper();
      PacedStart(lists.Contents(), pruneDeadline, emergencyPrune, capacity, lists.hash, lifetimes);
      news, ms, ps := [], [lists.Contents()], [];
      for i := 0 to |ins|
        invariant Valid() && lists.OnlyFresh()
        invariant |ms| == |ps| + 1 && Answered(ins[..i], news, ps)
        invariant ms[0] == old(lists.Contents()) && ms[|ps|] == lists.Contents()
        invariant Paced(ms, ps, pruneDeadline, emergencyPrune, old(pruneDeadline), old(emergencyPrune), capacity, lists.hash, lifetimes)
      {
        ghost var prune, emergency := pruneDeadline, emergencyPrune;
        var x := ins[i];
        var isNew, p := Handler(x.now, x.key, x.seg, x.memory);
        PacedNext(ms, ps, lists.Contents(), p, prune, emergency, old(pruneDeadline), old(emergencyPrune),
                  capacity, lists.hash, lifetimes);
        news, ms, ps := news + [isNew], ms + [lists.Contents()], ps + [p];
      }
      PacedRun(ms, ps, pruneDeadline, emergencyPrune, old(pruneDeadline), old(emergencyPrune), capacity, lists.hash, lifetimes);
    }
  }

  /**
   * With more buckets that fails: for any bucket past the 65536th, a first packet puts its flow there, and taking the flow
   * out again, as a prune does once it has expired, leaves the bucket pointing at the freed node.
   */
  method WrongBucket(size: nat, b: nat, c: FlowKey, d: Direction, now: Timeval, s: Segment, lifetimes: Lifetimes) returns (t: FlowTable)
    requires 0x1_0000 <= b < size
    ensures fresh(t) && t.lists.heads.Length == size && t.lists.hash(c) == b
    ensures t.lists.lru == [t.lists.root] && t.lists.heads[b] != null && t.lists.heads[b].freed
  {
    hide Lists.Links, Lists.Keyed, Lists.Contents, Started, Recorded;
    t := new FlowTable(1, size, _ => b, lifetimes, 0);
    RecordedBelow(b);
    assert t.lists.chains[b] == [];
    var n := t.lists.Allocate(b, null, ZeroCommon);
    t.lists.Alone(n);
    t.Start(n, c, b, d, now, s);
    OutOfBucket(t.lists, n, b);
  }

  /** One iteration of a prune, on a node that is alone in its chain and in the LRU list but does not record its bucket. */
  method OutOfBucket(lists: Lists<FlowKey, Common>, n: FlowNode, b: nat)
    requires lists.lru == [lists.root, n] && n != lists.root && Ring(lists.lru) && !n.freed
    requires b < lists.heads.Length && n.bucket < lists.heads.Length && n.bucket != b && Linked(lists.heads[b], [n])
    modifies lists`lru, lists.heads, lists.lru
    ensures lists.lru == [lists.root] && Ring(lists.lru) && lists.heads[b] == n && n.freed
  {
    ghost var L := lists.lru;
    Unlink(lists.heads, n, b, [n], 0);
    Cut(n, L, 1);
    lists.lru := CutAt(L, 1);
    Free(n, [n], {n}, 0);
  }

  /** A packet as it comes in, and whether malloc() would then succeed. */
  datatype Input = Input(key: FlowKey, now: Timeval, seg: Segment, memory: bool)

  /** The run `ps` is of the packets `ins`, and `news` are its answers. */
  ghost predicate Answered(ins: seq<Input>, news: seq<bool>, ps: seq<Packet>) {
    && |ins| == |news| == |ps|
    && forall i :: 0 <= i < |ins| ==>
      ps[i].key == ins[i].key && ps[i].now == ins[i].now && ps[i].seg == ins[i].seg && ps[i].memory == ins[i].memory && ps[i].isNew == news[i]
  }
}
