/** The fragment table of src/ip_frag.c: find_fragment, create_fragment and prune_old_fragments over the shared lists. */
module FragTable {
  import opened Wrappers
  import opened SeqFilter
  import opened TwinLists
  import opened FragSpec

  type FragNode = Node<FragKey, Cell>

  /** From the second on (the first is the sentinel), deadlines do not decrease and stay within `bound`. */
  ghost predicate Ascending(s: seq<FragNode>, bound: nat)
    reads s`val
  {
    forall i {:trigger s[i].val} :: 0 < i < |s| ==>
      s[i].val.deadline <= bound && (i > 1 ==> s[i - 1].val.deadline <= s[i].val.deadline)
  }

  lemma AscendingRest(s: seq<FragNode>, i: nat, bound: nat)
    requires Ascending(s, bound) && 0 < i <= |s|
    ensures Ascending([s[0]] + s[i..], bound)
  {
  }

  lemma {:induction false} AscendingFrom(s: seq<FragNode>, i: nat, j: nat, bound: nat)
    requires Ascending(s, bound) && 0 < i <= j < |s|
    ensures s[i].val.deadline <= s[j].val.deadline
    decreases j
  {
    if i < j {
      AscendingFrom(s, i, j - 1, bound);
      assert s[j - 1].val.deadline <= s[j].val.deadline;
    }
  }

  /** A fragment that meets the live cell of its datagram. */
  method MeetNode(fp: FragNode, f: Fragment, sampled: bool) returns (out: Outcome)
    modifies fp`val
    ensures (fp.val, out) == Meet(old(fp.val), f, sampled)
  {
    if fp.val.gotFirst {
      out := Outcome(true, fp.val.hdr, None);
    } else if f.First() {
      fp.val := fp.val.(gotFirst := true);
      fp.val := fp.val.(hdr := f.hdr);
      out := Outcome(true, f.hdr, Some((fp.val.a, fp.val.pa)));
      fp.val := fp.val.(pa := 0);
      fp.val := fp.val.(a := 0);
    } else {
      if !sampled {
        fp.val := fp.val.(pa := (fp.val.pa + 1) % U16);
        fp.val := fp.val.(a := (fp.val.a + f.len) % U16);
      }
      out := Outcome(false, f.hdr, None);
    }
  }

  class FragTable {
    const lists: Lists<FragKey, Cell>
    const sampled: bool        // ext_sampling_rate is set
    var free: nat              // ipft_total_nodes
    var pruneDeadline: nat
    var emergencyPrune: nat
    ghost const capacity: nat
    ghost var clock: nat       // the latest time seen

    /** The LRU list is in order of deadline, and no deadline is further off than a new one would be. */
    ghost predicate InOrder()
      reads this`clock, lists`lru, lists.lru`val
    {
      Ascending(lists.lru, clock + IPF_TIMEOUT)
    }

    twostate lemma OrderAppended(new n: FragNode)
      requires old(InOrder()) && lists.lru == old(lists.lru) + [n] && old(clock) <= clock
      requires n.val.deadline == clock + IPF_TIMEOUT
      requires forall j :: 0 <= j < |old(lists.lru)| ==> lists.lru[j].val == old(lists.lru[j].val)
      ensures InOrder()
    {
    }

    twostate lemma OrderMoved(n: FragNode)
      requires old(InOrder()) && Distinct(old(lists.lru)) && n in old(lists.lru)
      requires var k := IndexOf(old(lists.lru), n); k > 0 && lists.lru == CutAt(old(lists.lru), k) + [n]
      requires old(clock) <= clock && n.val.deadline == clock + IPF_TIMEOUT
      requires forall m :: m in old(lists.lru) && m != n ==> m.val == old(m.val)
      ensures InOrder()
    {
      var k := IndexOf(old(lists.lru), n);
      var s, r, b := old(lists.lru), lists.lru, old(clock) + IPF_TIMEOUT;
      forall i | 0 < i < |r| - 1
        ensures r[i].val.deadline <= b && (i > 1 ==> r[i - 1].val.deadline <= r[i].val.deadline)
      {
        var j := if i < k then i else i + 1;
        assert IndexOf(s, s[j]) == j && IndexOf(s, n) == k;
        assert r[i] == s[j] && r[i].val == old(s[j].val);
        assert old(s[k].val.deadline) <= b;
        if i > 1 {
          assert r[i - 1].val == old((if i - 1 < k then s[i - 1] else s[i]).val);
        }
      }
    }

    ghost predicate Valid()
      reads this`free, this`pruneDeadline, this`clock, lists, lists.heads, lists.lru, lists.root, lists.root.lruNext
    {
      && lists.Links() && lists.Keyed() && lists.Alive() && lists.StaleLink()
      && (forall k: FragKey :: lists.hash(k) < lists.heads.Length)
      && |lists.lru| - 1 + free == capacity
      && InOrder()
      && (lists.stale ==> capacity > 0)
      && (pruneDeadline >= PRUNE_INTERVAL || clock > PRUNE_INTERVAL)
    }

    ghost function Old(cutoff: nat): set<FragNode>
      reads lists, lists.lru
    {
      set n | n in lists.Nodes() && n.val.deadline < cutoff
    }

    /** Every node is one entry: the table holds as many datagrams as the counter says are in use. */
    lemma Bounded()
      requires Valid()
      ensures |lists.Contents()| + free == capacity
    {
      lists.ContentsSize();
    }

    lemma StaleIsEmpty()
      requires Valid()
      ensures lists.stale ==> lists.Contents() == map[] && free == capacity > 0
    {
      lists.ContentsSize();
    }

    constructor (capacity: nat, size: nat, hash: FragKey -> nat, sampled: bool, now: nat)
      requires forall k: FragKey :: hash(k) < size
      ensures Valid() && lists.Contents() == map[] && free == this.capacity == capacity && !lists.stale && clock == 0
      ensures fresh(lists) && fresh(lists.heads) && fresh(lists.root) && lists.lru == [lists.root] && this.sampled == sampled
      ensures lists.hash == hash && lists.heads.Length == size && lists.chains == seq(size, b => [])
      ensures emergencyPrune == 0 && pruneDeadline == now + PRUNE_INTERVAL
    {
      lists := new Lists<FragKey, Cell>(size, hash, ZeroCell);
      this.sampled := sampled;
      free, this.capacity, clock := capacity, capacity, 0;
      pruneDeadline, emergencyPrune := now + PRUNE_INTERVAL, 0;
      new;
      assert lists.Nodes() == {};
    }

    /** The end of the loop below: `fp` is the first fresh node, if any. */
    method SweepEnd(fp: Node?<FragKey, Cell>, ghost L: seq<FragNode>, ghost C: seq<seq<FragNode>>,
                    ghost dead: set<FragNode>, ghost i: nat, ghost cutoff: nat)
      requires InOrder() && lists.lru == L && lists.Dropping(L, C, dead, i) && FreedUpTo(L, dead, i)
      requires forall n :: n in dead ==> n in lists.Nodes() && n.val.deadline < cutoff
      requires 0 < i <= |L| && fp == (if i < |L| then L[i] else null) && (fp != null ==> fp.val.deadline >= cutoff)
      modifies lists`lru, lists`last, lists`stale, lists.lru`lruNext, lists.lru`lruPrev
      ensures lists.Links() && lists.Alive() && lists.StaleLink() && InOrder()
      ensures lists.lru == Without(L, dead) && lists.chains == WithoutAll(C, dead)
      ensures |lists.lru| == |L| + 1 - i && lists.stale == (|lists.lru| == 1 && |L| > 1)
    {
      hide Without, WithoutAll, Ascending, FreedUpTo;
      hide Lists.Dropping, Lists.Links, Lists.Alive, Lists.StaleLink;
      lists.DropAt(L, C, dead, i);
      forall j | i <= j < |L| ensures L[j] !in dead {
        AscendingFrom(L, i, j, clock + IPF_TIMEOUT);
      }
      lists.DropFinish(fp, L, C, dead, i);
      AscendingRest(L, i, clock + IPF_TIMEOUT);
    }

    /**
     * Takes the nodes with a deadline before the limit out of their chains, stopping at the first fresh
     * one; the LRU list is cut only at the end, and an emptied list leaves the sentinel's link behind.
     * No node that has been freed is read.
     */
    method Sweep(now: nat, off: nat)
      requires lists.Links() && lists.Alive() && InOrder() && !lists.stale
      requires forall n :: n in lists.Nodes() ==> n in lists.home && n.bucket == lists.home[n]
      modifies this`free, lists`lru, lists`chains, lists`last, lists`stale, lists.heads
      modifies lists.lru`next, lists.lru`prev, lists.lru`lruNext, lists.lru`lruPrev, lists.lru`freed
      ensures lists.Links() && lists.Alive() && InOrder()
      ensures lists.StaleLink() && lists.stale == (|lists.lru| == 1 && |old(lists.lru)| > 1)
      ensures lists.lru == Without(old(lists.lru), old(Old(Cutoff(now, off))))
      ensures lists.chains == WithoutAll(old(lists.chains), old(Old(Cutoff(now, off))))
      ensures free + |lists.lru| == old(free) + |old(lists.lru)|
    {
      hide Partition, Without, WithoutAll, AllNodes, Taken, Ascending, Distinct, FreedUpTo;
      hide Lists.Dropping, Lists.Links, Lists.LruLinked, Lists.ChainsLinked, Lists.Alive, Lists.StaleLink;
      var deadline := Cutoff(now, off);
      ghost var L, C, dead := lists.lru, lists.chains, Old(deadline);
      ghost var i := 1;
      lists.DropStart(dead);
      lists.SweepNoneFreed(dead);
      lists.DropAt(L, C, dead, i);
      var fp := lists.root.lruNext;
      while fp != null
        invariant 0 < i <= |L| && lists.lru == L && lists.Dropping(L, C, dead, i) && FreedUpTo(L, dead, i)
        invariant fp == if i < |L| then L[i] else null
        invariant free == old(free) + i - 1
        decreases |L| - i
      {
        NotFreed(L, dead, i);
        assert !fp.freed;
        if deadline <= fp.val.deadline {
          break;
        }
        lists.DropAt(L, C, dead, i);
        var temp := fp.lruNext;
        lists.DropFree(fp, L, C, dead, i);
        free := free + 1;
        fp := temp;
        i := i + 1;
      }
      SweepEnd(fp, L, C, dead, i, deadline);
    }

    /** Without the old nodes, the map is the pruned one. */
    twostate lemma PrunedTo(cutoff: nat)
      requires old(lists.Keyed()) && lists.Nodes() == old(lists.Nodes()) - old(Old(cutoff))
      requires lists.home == old(lists.home)
      requires forall n :: n in lists.Nodes() ==> n.key == old(n.key) && n.val == old(n.val) && n.bucket == old(n.bucket)
      ensures lists.Keyed() && lists.Contents() == Pruned(old(lists.Contents()), cutoff)
    {
    }

    /**
     * Drops exactly the cells whose deadline is before the limit.  `fault` says that the first node to be
     * read has been freed; this is so exactly if an earlier prune has left the sentinel's link behind.
     */
    method Prune(now: nat, off: nat) returns (fault: bool)
      requires Valid()
      modifies this`free, lists`lru, lists`chains, lists`last, lists`stale, lists.heads
      modifies lists.lru`next, lists.lru`prev, lists.lru`lruNext, lists.lru`lruPrev, lists.lru`freed
      ensures fault == old(lists.stale)
      ensures !fault ==> Valid() && lists.OnlyFresh()
      ensures !fault ==> lists.lru == Without(old(lists.lru), old(Old(Cutoff(now, off))))
      ensures !fault ==> lists.chains == WithoutAll(old(lists.chains), old(Old(Cutoff(now, off))))
      ensures !fault ==> lists.Contents() == Pruned(old(lists.Contents()), Cutoff(now, off))
      ensures !fault ==> lists.stale == StaleAfter(old(lists.stale), old(lists.Contents()), lists.Contents())
    {
      hide Without, WithoutAll, Ascending, Cutoff, Pruned;
      hide Lists.Links, Lists.Keyed, Lists.Contents, Lists.Alive, Lists.StaleLink;
      ghost var dead, nodes := Old(Cutoff(now, off)), lists.Nodes();
      lists.ContentsSize();
      lists.AllKeyed();
      lists.FirstNode();
      if lists.root.lruNext != null && lists.root.lruNext.freed {
        return true;
      }
      Sweep(now, off);
      WithoutMembers(old(lists.lru), dead);
      assert lists.Nodes() == nodes - dead;
      PrunedTo(Cutoff(now, off));
      lists.ContentsSize();
      return false;
    }

    /** Prunes a full table, at most once per emergency interval. */
    method EmergencyPrune(now: nat) returns (fault: bool)
      requires Valid()
      modifies this`free, this`emergencyPrune, lists`lru, lists`chains, lists`last, lists`stale, lists.heads
      modifies lists.lru`next, lists.lru`prev, lists.lru`lruNext, lists.lru`lruPrev, lists.lru`freed
      ensures fault == (old(lists.stale) && now > old(emergencyPrune) + EMER_PRUNE_INTERVAL)
      ensures emergencyPrune == if now > old(emergencyPrune) + EMER_PRUNE_INTERVAL then now else old(emergencyPrune)
      ensures !fault ==> Valid() && lists.OnlyFresh()
      ensures !fault ==>
        && lists.Contents() == IfDue(now > old(emergencyPrune) + EMER_PRUNE_INTERVAL, old(lists.Contents()), Cutoff(now, 0))
        && lists.stale == StaleAfter(old(lists.stale), old(lists.Contents()), lists.Contents())
    {
      hide FragTable.Valid, Lists.Contents, Lists.Nodes, Pruned, Cutoff;
      StaleIsEmpty();
      fault := false;
      if now > emergencyPrune + EMER_PRUNE_INTERVAL {
        emergencyPrune := now;
        fault := Prune(now, 0);
      }
    }

    /** Makes a linked node the datagram's; the accumulators and the first-fragment mark are not reset. */
    method Fill(n: FragNode, k: FragKey, bucket: nat, f: Fragment, now: nat) returns (found: bool)
      modifies n`key, n`bucket, n`val
      ensures n.key == k && n.bucket == bucket && n.val == Take(old(n.val), f, now, sampled) && found == f.First()
    {
      n.val := n.val.(deadline := (now + IPF_TIMEOUT) % U32);
      n.key := k;
      n.bucket := bucket;
      if f.First() {
        n.val := n.val.(gotFirst := true);
        n.val := n.val.(hdr := f.hdr);
        found := true;
      } else {
        if !sampled {
          n.val := n.val.(pa := (n.val.pa + 1) % U16);
          n.val := n.val.(a := f.len % U16);
        }
        found := false;
      }
    }

    method CreateFresh(tail: Node?<FragKey, Cell>, bucket: nat, k: FragKey, f: Fragment, now: nat) returns (found: bool)
      requires Valid() && free > 0 && bucket == lists.hash(k) && k !in lists.Contents()
      requires clock <= now && now + IPF_TIMEOUT < U32
      requires tail == if lists.chains[bucket] == [] then null else lists.chains[bucket][|lists.chains[bucket]| - 1]
      modifies this`free, this`clock, lists, lists.heads, lists.lru`next, lists.lru`lruNext
      ensures Valid() && clock == now && found == f.First()
      ensures !lists.stale && lists.OnlyFresh()
      ensures lists.Contents() == old(lists.Contents())[k := Take(ZeroCell, f, now, sampled)]
    {
      hide Lists.Links, Lists.Keyed, Lists.Contents, Ascending, Take;
      lists.Shape();
      TakeDeadline(ZeroCell, f, now, sampled);
      free, clock := free - 1, now;
      var n := lists.Allocate(bucket, tail, ZeroCell);
      found := Fill(n, k, bucket, f, now);
      lists.AddedOne(n);
      OrderAppended(n);
    }

    method Recycle(fp: FragNode, bucket: nat, k: FragKey, f: Fragment, now: nat) returns (found: bool)
      requires Valid() && fp in lists.Nodes() && bucket == lists.hash(fp.key) == lists.hash(k)
      requires k == fp.key || k !in lists.Contents()
      requires clock <= now && now + IPF_TIMEOUT < U32
      modifies this`clock, lists`last, lists`lru, lists`stale, lists.lru`lruNext, lists.lru`lruPrev, fp`key, fp`bucket, fp`val
      ensures Valid() && clock == now && found == f.First() && !lists.stale && lists.OnlyFresh()
      ensures lists.Contents() == (old(lists.Contents()) - {old(fp.key)})[k := Take(old(fp.val), f, now, sampled)]
    {
      hide Lists.Links, Lists.Keyed, Lists.Contents, Ascending, Take;
      TakeDeadline(fp.val, f, now, sampled);
      lists.EntryOf(fp);
      lists.MoveToTail(fp);
      clock := now;
      found := Fill(fp, k, bucket, f, now);
      lists.ReplacedOne(fp);
      OrderMoved(fp);
    }

    method MeetCell(fp: FragNode, f: Fragment) returns (out: Outcome)
      requires Valid() && fp in lists.Nodes()
      modifies fp`val
      ensures Valid()
      ensures lists.Contents() == old(lists.Contents())[fp.key := Meet(old(fp.val), f, sampled).0]
      ensures out == Meet(old(fp.val), f, sampled).1
    {
      hide Lists.Links, Lists.Keyed, Lists.Contents, Meet;
      MeetDeadline(fp.val, f, sampled);
      lists.EntryOf(fp);
      out := MeetNode(fp, f, sampled);
      lists.ReplacedOne(fp);
      ghost var m := old(lists.Contents());
      assert (m - {fp.key})[fp.key := fp.val] == m[fp.key := fp.val];
    }

    predicate PruneDue(now: nat)
      reads this`emergencyPrune
    {
      now > emergencyPrune + EMER_PRUNE_INTERVAL
    }

    ghost function TheEnv(): Env { Env(capacity, lists.hash, sampled) }

    /**
     * `fp` is a cell to take over, or else the last node of the bucket (null if it is empty).  A fault is an
     * emergency prune that starts at a freed node.
     */
    method CreateFragment(now: nat, fp: Node?<FragKey, Cell>, isCandidate: bool, bucket: nat,
                          k: FragKey, f: Fragment, memory: bool) returns (out: Outcome, fault: bool)
      requires Valid() && bucket == lists.hash(k) && bucket < |lists.chains|
      requires clock <= now && now + IPF_TIMEOUT < U32
      requires k in lists.Contents() ==> lists.Contents()[k].deadline <= now && isCandidate && fp != null && fp.key == k
      requires isCandidate ==> fp != null && fp in lists.Nodes() && lists.hash(fp.key) == bucket && (fp.key == k || fp.val.deadline < now)
      requires !isCandidate ==> fp == if lists.chains[bucket] == [] then null else lists.chains[bucket][|lists.chains[bucket]| - 1]
      requires !isCandidate ==> forall e :: !Evictable(lists.Contents(), e, k, lists.hash, now)
      modifies this`free, this`emergencyPrune, this`clock, lists, lists.heads, lists.lru
      ensures fault == (old(lists.stale) && !memory && old(PruneDue(now)))
      ensures !fault ==> Valid() && clock == now && lists.OnlyFresh()
      ensures !fault ==> FragStep(old(lists.Contents()), lists.Contents(), out, k, f, now, TheEnv(), memory, old(PruneDue(now)))
      ensures !fault ==> After(old(lists.stale), old(emergencyPrune), old(lists.Contents()), k, now, memory)
    {
      hide Lists.Links, Lists.Keyed, Lists.Alive, Lists.StaleLink, Lists.Contents, FragStep, Refuses, Take, IfDue, Ascending;
      ghost var m, due := lists.Contents(), PruneDue(now);
      Bounded();
      StaleIsEmpty();
      if free == 0 {
        RefusedStep(m, k, f, now, TheEnv(), memory, due);
        Advance(now);
        fault := EmergencyPrune(now);
        return Outcome(false, f.hdr, None), fault;
      }
      var found;
      if fp != null {
        if !isCandidate {
          if !memory {
            RefusedStep(m, k, f, now, TheEnv(), memory, due);
            Advance(now);
            fault := EmergencyPrune(now);
            return Outcome(false, f.hdr, None), fault;
          }
          FreshStep(m, k, f, now, TheEnv(), due);
          found := CreateFresh(fp, bucket, k, f, now);
        } else {
          lists.EntryOf(fp);
          RecycleStep(m, fp.key, k, f, now, TheEnv(), memory, due);
          found := Recycle(fp, bucket, k, f, now);
        }
      } else {
        if !memory {
          RefusedStep(m, k, f, now, TheEnv(), memory, due);
          Advance(now);
          fault := EmergencyPrune(now);
          return Outcome(false, f.hdr, None), fault;
        }
        FreshStep(m, k, f, now, TheEnv(), due);
        found := CreateFresh(null, bucket, k, f, now);
      }
      assert k in lists.Contents();
      return Outcome(found, f.hdr, None), false;
    }

    /** What steers the prunes, after a fragment that met the table `m`. */
    ghost predicate After(stale: bool, emergency: nat, m: map<FragKey, Cell>, k: FragKey, now: nat, memory: bool)
      requires lists.Keyed()
      reads this`emergencyPrune, lists, lists.lru
    {
      && lists.stale == StaleAfter(stale, m, lists.Contents())
      && emergencyPrune == if now > emergency + EMER_PRUNE_INTERVAL && Refuses(m, k, now, TheEnv(), memory) then now else emergency
    }

    method Rearm(now: nat)
      requires Valid() && clock <= now < U32
      modifies this`pruneDeadline, this`clock
      ensures Valid() && pruneDeadline == NextPrune(now) && clock == now
    {
      hide Lists.Links, Lists.Keyed;
      pruneDeadline := (now + PRUNE_INTERVAL) % U32;
      clock := now;
    }

    /** Time passes. */
    ghost method Advance(now: nat)
      requires Valid() && clock <= now
      modifies this`clock
      ensures Valid() && clock == now
    {
      hide Lists.Links, Lists.Keyed;
      clock := now;
    }

    lemma NothingEvictable(k: FragKey, now: nat)
      requires Valid() && lists.hash(k) < |lists.chains|
      requires forall n :: n in lists.chains[lists.hash(k)] ==> n.val.deadline >= now
      ensures forall e :: !Evictable(lists.Contents(), e, k, lists.hash, now)
    {
      forall e | e in lists.Contents() && lists.hash(e) == lists.hash(k) ensures lists.Contents()[e].deadline >= now {
        lists.KeyInChain(e);
      }
    }

    /** `n` is the first node of chain `b` that is past its deadline. */
    ghost predicate FirstPast(b: nat, n: FragNode, now: nat)
      requires b < |lists.chains|
      reads lists, lists.chains[b]
    {
      var chain := lists.chains[b];
      exists i :: 0 <= i < |chain| && chain[i] == n && n.val.deadline < now
        && forall j :: 0 <= j < i ==> chain[j].val.deadline >= now
    }

    /** Walks the chain of datagram `k`: its node `fp` if there is one, the first node to take over, the last node passed. */
    method Walk(now: nat, k: FragKey, bucket: nat)
      returns (fp: Node?<FragKey, Cell>, candidate: Node?<FragKey, Cell>, lastSeen: Node?<FragKey, Cell>)
      requires Valid() && bucket == lists.hash(k) && bucket < |lists.chains|
      ensures if fp != null then fp in lists.Nodes() && fp.key == k else k !in lists.Contents()
      ensures candidate != null ==> candidate in lists.Nodes() && lists.hash(candidate.key) == bucket && FirstPast(bucket, candidate, now)
      ensures fp == null && candidate == null ==> forall e :: !Evictable(lists.Contents(), e, k, lists.hash, now)
      ensures fp == null ==> lastSeen == if lists.chains[bucket] == [] then null else lists.chains[bucket][|lists.chains[bucket]| - 1]
    {
      hide Lists.Links, Lists.Keyed, Lists.Contents, Ascending, Evictable;
      ghost var i, first, chain := 0, 0, lists.chains[bucket];
      lists.ChainAt(bucket, 0);
      lists.KeyInChain(k);
      fp := lists.heads[bucket];
      candidate, lastSeen := null, null;
      while fp != null
        invariant 0 <= i <= |chain| && fp == if i < |chain| then chain[i] else null
        invariant lastSeen == if i == 0 then null else chain[i - 1]
        invariant forall j :: 0 <= j < i ==> chain[j].key != k
        invariant candidate == null ==> forall j :: 0 <= j < i ==> chain[j].val.deadline >= now
        invariant candidate != null ==> candidate in lists.Nodes() && lists.hash(candidate.key) == bucket && candidate.val.deadline < now
        invariant candidate != null ==> first < i && chain[first] == candidate
        invariant candidate != null ==> forall j :: 0 <= j < first ==> chain[j].val.deadline >= now
        decreases |chain| - i
      {
        lists.ChainAt(bucket, i);
        if fp.key == k {
          return;
        }
        if fp.val.deadline < now && candidate == null {
          candidate := fp;
          first := i;
        }
        lastSeen := fp;
        fp := fp.next;
        i := i + 1;
      }
      if candidate == null {
        NothingEvictable(k, now);
      }
    }

    /** One fragment of datagram `k`.  `memory` says whether malloc() would succeed. */
    method FindFragment(now: nat, k: FragKey, f: Fragment, memory: bool) returns (out: Outcome, fault: bool)
      requires Valid() && clock <= now && now + IPF_TIMEOUT < U32
      modifies this`free, this`emergencyPrune, this`clock, lists, lists.heads, lists.lru
      ensures fault == (old(lists.stale) && !memory && old(PruneDue(now)))
      ensures !fault ==> Valid() && clock == now && lists.OnlyFresh()
      ensures !fault ==> FragStep(old(lists.Contents()), lists.Contents(), out, k, f, now, TheEnv(), memory, old(PruneDue(now)))
      ensures !fault ==> After(old(lists.stale), old(emergencyPrune), old(lists.Contents()), k, now, memory)
    {
      hide Lists.Links, Lists.Keyed, Lists.Alive, Lists.StaleLink, Lists.Contents, Meet, Take, IfDue, Ascending;
      var bucket := lists.hash(k);
      lists.Shape();
      StaleIsEmpty();
      var fp, candidate, lastSeen := Walk(now, k, bucket);
      if fp != null {
        lists.EntryOf(fp);
        if fp.val.deadline > now {
          out := MeetCell(fp, f);
          Advance(now);
          return out, false;
        }
        candidate := fp;
      }
      if candidate != null {
        out, fault := CreateFragment(now, candidate, true, bucket, k, f, memory);
      } else {
        out, fault := CreateFragment(now, lastSeen, false, bucket, k, f, memory);
      }
    }

    ghost function Now(): State
      requires lists.Keyed()
      reads this`pruneDeadline, this`emergencyPrune, lists, lists.lru
    {
      State(lists.Contents(), lists.stale, pruneDeadline, emergencyPrune)
    }

    /**
     * The entry point: the periodic prune, then the fragment.  It reads freed memory exactly if a prune
     * starts from a sentinel that still points at a freed node; otherwise it is the map's step.
     */
    method Handler(x: Input) returns (out: Outcome, fault: bool)
      requires Valid() && clock <= x.now && x.now + IPF_TIMEOUT < U32
      modifies this, lists, lists.heads, lists.lru
      ensures fault == Faults(old(Now()), x)
      ensures !fault ==> Valid() && clock == x.now && lists.OnlyFresh()
      ensures !fault ==> Handles(old(Now()), x, out, Now(), TheEnv())
    {
      hide Lists.Links, Lists.Keyed, Lists.Alive, Lists.StaleLink, Lists.Contents, FragStep, Pruned, Cutoff, Ascending, Refuses, Without, WithoutAll;
      StaleIsEmpty();
      ghost var s := Now();
      out := Outcome(false, x.frag.hdr, None);
      if x.now > pruneDeadline {
        fault := Prune(x.now, PRUNE_OFFSET);
        if fault {
          return;
        }
        Rearm(x.now);
      }
      assert lists.Contents() == Met(s, x);
      StaleTwice(s, x);
      out, fault := FindFragment(x.now, x.key, x.frag, x.memory);
    }

    /**
     * A trace of fragments through the table: `ss` are its states before and after each of them.  It stops
     * early exactly at the first fragment that makes the code read a freed node.
     */
    method Process(ins: seq<Input>) returns (outs: seq<Outcome>, fault: bool, ghost ss: seq<State>)
      requires Valid() && Timely(ins, clock)
      modifies this, lists, lists.heads, lists.lru
      ensures |outs| <= |ins| && Trace(ss, ins[..|outs|], outs, TheEnv()) && ss[0] == old(Now())
      ensures fault <==> |outs| < |ins|
      ensures fault ==> Faults(ss[|outs|], ins[|outs|])
      ensures !fault ==> Valid() && lists.OnlyFresh() && ss[|outs|] == Now()
    {
      hide Lists.Links, Lists.Keyed, Lists.Alive, Lists.StaleLink, Lists.Contents, Handles, Faults, Ascending;
      outs, ss := [], [Now()];
      for i := 0 to |ins|
        invariant Valid() && lists.OnlyFresh()
        invariant |outs| == i && Trace(ss, ins[..i], outs, TheEnv())
        invariant clock == if i == 0 then old(clock) else ins[i - 1].now
        invariant ss[0] == old(Now()) && ss[i] == Now()
      {
        var out;
        out, fault := Handler(ins[i]);
        if fault {
          return;
        }
        assert ins[..i + 1] == ins[..i] + [ins[i]];
        TraceNext(ss, ins[..i], outs, ins[i], out, Now(), TheEnv());
        outs, ss := outs + [out], ss + [Now()];
      }
      assert ins[..|ins|] == ins;
      return outs, false, ss;
    }
  }

  /** Fragments in order of time, from `clock` on, until the 32-bit clock is about to wrap. */
  predicate Timely(ins: seq<Input>, clock: nat) {
    forall i :: 0 <= i < |ins| ==> (if i == 0 then clock else ins[i - 1].now) <= ins[i].now && ins[i].now + IPF_TIMEOUT < U32
  }

  /** A fragment that comes to an empty table is stored. */
  lemma Stores(s: State, x: Input, out: Outcome, s': State, env: Env)
    requires Handles(s, x, out, s', env) && s.m == map[] && x.memory && env.capacity > 0
    ensures s' == State(map[x.key := Take(ZeroCell, x.frag, x.now, env.sampled)], false,
                        if PrunesNow(s, x) then NextPrune(x.now) else s.pruneDeadline, s.emergency)
  {
    hide Take;
    assert Met(s, x) == map[];
  }

  /** A fragment of another datagram that finds a full table of one expired cell empties it. */
  lemma Empties(s: State, x: Input, out: Outcome, s': State, env: Env, k: FragKey, c: Cell)
    requires Handles(s, x, out, s', env) && s.m == map[k := c] && x.key != k && env.capacity == 1 && EmergencyDue(s, x)
    requires c.deadline < x.now <= c.deadline + PRUNE_OFFSET && x.now < U32
    ensures s' == State(map[], true, if PrunesNow(s, x) then NextPrune(x.now) else s.pruneDeadline, x.now)
  {
    hide Cutoff, NextPrune, Meet, Take;
    CutoffAt(x.now, 0);
    if PrunesNow(s, x) {
      CutoffAt(x.now, PRUNE_OFFSET);
    }
    assert Met(s, x) == s.m;
    assert |s.m| == 1 && Pruned(s.m, Cutoff(x.now, 0)) == map[];
  }

  /**
   * The dangling link is reachable: a fragment, then one of another datagram that finds the table full of
   * expired cells and empties it.  The sentinel points at the freed node, and unless something is stored
   * first the periodic prune reads it, as does a fragment that gets no memory a minute later.
   */
  method EmptyingLeavesDanglingLink(k: FragKey, k2: FragKey, f: Fragment) returns (t: FragTable)
    requires k != k2
    ensures fresh(t) && t.Valid() && t.lists.Contents() == map[] && t.clock == 300
    ensures t.lists.root.lruNext != null && t.lists.root.lruNext.freed && t.lists.root.lruNext !in t.lists.lru
    ensures forall x: Input :: Faults(t.Now(), x) <==> x.now > 7200 || (x.now > 360 && !x.memory)
  {
    t := OneEmptied(0, Input(k, f, 100, true), Input(k2, f, 300, true));
  }

  /**
   * In the last two hours of the 32-bit clock the deadline of the periodic prune wraps, so a prune comes with every
   * fragment.  Here it has wrapped before an emergency prune leaves the link behind, and every later fragment faults.
   */
  method WrappedDeadlineFaults(k: FragKey, k2: FragKey, f: Fragment) returns (t: FragTable)
    requires k != k2
    ensures fresh(t) && t.Valid() && t.lists.Contents() == map[] && t.clock == U32 - 7000 && t.pruneDeadline == 200
    ensures forall x: Input :: t.clock <= x.now ==> Faults(t.Now(), x)
  {
    t := OneEmptied(U32 - 20000, Input(k, f, U32 - 7100, true), Input(k2, f, U32 - 7000, true));
  }

  /** A table for one datagram, set up at `start`, that one fragment fills and a later one of another datagram empties. */
  method OneEmptied(start: nat, x: Input, y: Input) returns (t: FragTable)
    requires x.key != y.key && x.memory && EMER_PRUNE_INTERVAL < y.now && y.now + IPF_TIMEOUT < U32
    requires x.now + IPF_TIMEOUT < y.now <= x.now + IPF_TIMEOUT + PRUNE_OFFSET
    ensures fresh(t) && t.Valid() && t.clock == y.now
    ensures t.lists.root.lruNext != null && t.lists.root.lruNext.freed && t.lists.root.lruNext !in t.lists.lru
    ensures
      var s := State(map[], false, start + PRUNE_INTERVAL, 0);
      var s' := s.(pruneDeadline := if PrunesNow(s, x) then NextPrune(x.now) else s.pruneDeadline);
      t.Now() == State(map[], true, if PrunesNow(s', y) then NextPrune(y.now) else s'.pruneDeadline, y.now)
  {
    hide Lists.Links, Lists.Keyed, Lists.Contents, Ascending, Take, Handles;
    t := new FragTable(1, 1, _ => 0, false, start);
    ghost var s := t.Now();
    ghost var c := Take(ZeroCell, x.frag, x.now, false);
    TakeDeadline(ZeroCell, x.frag, x.now, false);
    var out, fault := t.Handler(x);
    Stores(s, x, out, t.Now(), t.TheEnv());
    s := t.Now();
    out, fault := t.Handler(y);
    Empties(s, y, out, t.Now(), t.TheEnv(), x.key, c);
    t.lists.FirstNode();
  }
}
