/**
 * The link structure that the flow table and the fragment table share: every
 * node sits in one hash-bucket chain and in one global LRU list at once.
 *
 * `lru` and `chains` are the abstract contents.  `lru[0]` is the sentinel that
 * is never recycled or pruned; `chains[b]` holds the nodes of bucket `b`.
 */
module TwinLists {
  import opened SeqFilter

  class Node<K(0), V> {
    var key: K
    var val: V
    var bucket: nat
    var next: Node?<K, V>
    var prev: Node?<K, V>
    var lruNext: Node?<K, V>
    var lruPrev: Node?<K, V>
    var freed: bool          // free() has been called on it

    /** A zeroed node; `zero` is the all-zero payload. */
    constructor (zero: V)
      ensures val == zero && next == null && prev == null && lruNext == null && lruPrev == null && !freed
    {
      val, bucket, freed := zero, 0, false;
      next, prev, lruNext, lruPrev := null, null, null, null;
    }
  }

  /** Neighbours in `s` point at each other through the LRU links, and the list ends at the last one. */
  ghost predicate Ring<K(0), V>(s: seq<Node<K, V>>)
    reads s`lruNext, s`lruPrev
  {
    && (forall i {:trigger s[i].lruNext} :: 0 <= i < |s| - 1 ==> s[i].lruNext == s[i + 1])
    && (forall i {:trigger s[i].lruPrev} :: 0 < i < |s| ==> s[i].lruPrev == s[i - 1])
    && (s != [] ==> s[|s| - 1].lruNext == null)
  }

  /** `head` starts a doubly linked, null-terminated list of exactly the nodes `s`. */
  ghost predicate Linked<K(0), V>(head: Node?<K, V>, s: seq<Node<K, V>>)
    reads s`next, s`prev
  {
    && head == (if s == [] then null else s[0])
    && (s != [] ==> s[0].prev == null && s[|s| - 1].next == null)
    && (forall i {:trigger s[i].next} :: 0 <= i < |s| - 1 ==> s[i].next == s[i + 1])
    && (forall i {:trigger s[i].prev} :: 0 < i < |s| ==> s[i].prev == s[i - 1])
  }

  /** Takes node `n`, at index `k`, out of the LRU links; its own links keep their values. */
  method Cut<K(0), V>(n: Node<K, V>, ghost s: seq<Node<K, V>>, ghost k: nat)
    requires Distinct(s) && Ring(s) && 0 < k < |s| && s[k] == n
    modifies s`lruNext, s`lruPrev
    ensures Ring(CutAt(s, k))
  {
    assert n.lruPrev == s[k - 1] && n.lruNext == if k + 1 < |s| then s[k + 1] else null;
    NoOther(s, k - 1);
    if k + 1 < |s| {
      NoOther(s, k + 1);
    }
    hide Distinct;
    if n.lruNext != null {
      n.lruNext.lruPrev := n.lruPrev;
      n.lruPrev.lruNext := n.lruNext;
    } else {
      n.lruPrev.lruNext := null;
    }
  }

  /** Joins the sentinel to node `fp`, at index `i`. */
  method CutFront<K(0), V>(root: Node<K, V>, fp: Node<K, V>, ghost s: seq<Node<K, V>>, ghost i: nat)
    requires Distinct(s) && Ring(s) && 0 < i < |s| && s[0] == root && s[i] == fp
    modifies fp`lruPrev, root`lruNext
    ensures Ring([root] + s[i..])
  {
    fp.lruPrev := root;
    root.lruNext := fp;
  }

  /** Links `n` behind the last node `tail` of a chain. */
  method LinkAfter<K(0), V>(tail: Node<K, V>, n: Node<K, V>, ghost s: seq<Node<K, V>>)
    requires s != [] && Distinct(s) && Linked(s[0], s) && tail == s[|s| - 1] && n !in s && n.next == null
    modifies tail`next, n`prev
    ensures Linked(s[0], s + [n])
  {
    tail.next := n;
    n.prev := tail;
  }

  /** Of the nodes of `L`, those of `dead` before index `i` have been freed. */
  ghost predicate FreedUpTo<K(0), V>(L: seq<Node<K, V>>, dead: set<Node<K, V>>, i: nat)
    reads L`freed
  {
    forall j {:trigger L[j].freed} :: 0 <= j < |L| ==> (L[j].freed <==> j < i && L[j] in dead)
  }

  /** free() */
  method Free<K(0), V>(n: Node<K, V>, ghost L: seq<Node<K, V>>, ghost dead: set<Node<K, V>>, ghost i: nat)
    requires Distinct(L) && i < |L| && L[i] == n && n in dead && FreedUpTo(L, dead, i)
    modifies n`freed
    ensures n.freed && FreedUpTo(L, dead, i + 1)
  {
    NoOther(L, i);
    n.freed := true;
  }

  lemma FreedAll<K(0), V>(L: seq<Node<K, V>>, dead: set<Node<K, V>>, i: nat)
    requires FreedUpTo(L, dead, i) && i <= |L| && forall j :: i <= j < |L| ==> L[j] !in dead
    ensures FreedUpTo(L, dead, |L|)
    ensures forall j :: 0 <= j < i && L[j] in dead ==> L[j].freed
  {
  }

  lemma NotFreed<K(0), V>(L: seq<Node<K, V>>, dead: set<Node<K, V>>, i: nat)
    requires i < |L| && FreedUpTo(L, dead, i)
    ensures !L[i].freed && (L[i] !in dead ==> FreedUpTo(L, dead, i + 1))
  {
  }

  /** Every node of `nodes` is in exactly one chain, its `home`, and the chains hold no other node. */
  ghost predicate Partition<N>(chains: seq<seq<N>>, home: map<N, nat>, nodes: set<N>) {
    && (forall n :: n in nodes ==> n in home && home[n] < |chains| && n in chains[home[n]])
    && (forall b, j :: 0 <= b < |chains| && 0 <= j < |chains[b]| ==> chains[b][j] in nodes && home[chains[b][j]] == b)
  }

  lemma PartitionAppend<N>(chains: seq<seq<N>>, home: map<N, nat>, nodes: set<N>, b: nat, n: N)
    requires Partition(chains, home, nodes) && b < |chains| && n !in nodes
    ensures Partition(chains[b := chains[b] + [n]], home[n := b], nodes + {n})
  {
  }

  ghost predicate Apart<N>(chains: seq<seq<N>>, b: nat)
    requires b < |chains|
  {
    forall c, j :: 0 <= c < |chains| && c != b && 0 <= j < |chains[c]| ==> chains[c][j] !in chains[b]
  }

  ghost function AllNodes<N>(chains: seq<seq<N>>): set<N> {
    set c, j | 0 <= c < |chains| && 0 <= j < |chains[c]| :: chains[c][j]
  }

  lemma PartitionApart<N>(chains: seq<seq<N>>, home: map<N, nat>, nodes: set<N>, b: nat)
    requires Partition(chains, home, nodes) && b < |chains|
    ensures Apart(chains, b) && AllNodes(chains) == nodes
  {
  }

  lemma CutPartition<N>(chains: seq<seq<N>>, home: map<N, nat>, nodes: set<N>, b: nat, k: nat)
    requires Partition(chains, home, nodes) && b < |chains| && Distinct(chains[b]) && k < |chains[b]|
    ensures
      var n, rest := chains[b][k], CutAt(chains[b], k);
      && Partition(chains[b := rest], home, nodes - {n})
      && chains[b := rest] == WithoutAll(chains, {n})
  {
    var n := chains[b][k];
    WithoutOne(chains[b], k);
    WithoutMembers(chains[b], {n});
    forall c | 0 <= c < |chains| && c != b ensures Without(chains[c], {n}) == chains[c] {
      WithoutNone(chains[c], {n});
    }
  }

  /** Takes the node at index `k > 0` out of its chain. */
  method Unchain<K(0), V>(n: Node<K, V>, ghost s: seq<Node<K, V>>, ghost k: nat)
    requires 0 < k < |s| && Distinct(s) && Linked(s[0], s) && s[k] == n
    modifies s`next, s`prev
    ensures Linked(s[0], CutAt(s, k))
  {
    assert n.prev == s[k - 1] && n.next == if k + 1 < |s| then s[k + 1] else null;
    NoOther(s, k - 1);
    if k + 1 < |s| {
      NoOther(s, k + 1);
    }
    hide Distinct;
    if n.next != null {
      n.prev.next := n.next;
      n.next.prev := n.prev;
    } else {
      n.prev.next := null;
    }
  }

  /** Takes the first node out of its chain; the caller moves the chain's head. */
  method Behead<K(0), V>(n: Node<K, V>, ghost s: seq<Node<K, V>>)
    requires s != [] && Distinct(s) && Linked(n, s)
    modifies s`prev
    ensures Linked(n.next, CutAt(s, 0))
  {
    assert n.next == if 1 < |s| then s[1] else null;
    if n.next != null {
      n.next.prev := null;
    }
  }

  /**
   * Takes the node at index `k` out of the chain that starts at `heads[b]`, through the bucket the node
   * records.  Chain `b` then holds the rest exactly if that is `b`, or the node was not the first.
   */
  method Unlink<K(0), V>(heads: array<Node?<K, V>>, n: Node<K, V>, ghost b: nat, ghost s: seq<Node<K, V>>, ghost k: nat)
    requires b < heads.Length && n.bucket < heads.Length
    requires k < |s| && s[k] == n && Distinct(s) && Linked(heads[b], s)
    modifies heads, s`next, s`prev
    ensures Linked(heads[b], CutAt(s, k)) <==> n.bucket == b || k > 0
    ensures forall i :: 0 <= i < heads.Length && i != n.bucket ==> heads[i] == old(heads[i])
  {
    assert n.prev == if k > 0 then s[k - 1] else null;
    if n.prev != null {
      Unchain(n, s, k);
    } else {
      assert CutAt(s, 0) == s[1..] && (|s| > 1 ==> s[1] != n);
      heads[n.bucket] := n.next;
      Behead(n, s);
    }
  }

  class Lists<K(0), V> {
    const root: Node<K, V>
    const heads: array<Node?<K, V>>
    const hash: K -> nat
    var last: Node<K, V>
    ghost var lru: seq<Node<K, V>>
    ghost var chains: seq<seq<Node<K, V>>>
    ghost var home: map<Node<K, V>, nat>  // the chain each node is in
    ghost var stale: bool                 // the list is empty, but the sentinel still points at a freed node

    /** The LRU links form a list that starts at the sentinel; a stale one is empty, but the sentinel is still linked. */
    ghost predicate LruLinked()
      reads this`lru, this`stale, lru`lruNext, lru`lruPrev
    {
      && |lru| > 0 && lru[0] == root && Distinct(lru)
      && if stale then |lru| == 1 && root.lruNext != null && root.lruNext != root else Ring(lru)
    }

    /** No node of the list has been freed. */
    ghost predicate Alive()
      reads this`lru, root`freed, lru`freed
    {
      !root.freed && forall n :: n in Nodes() ==> !n.freed
    }

    lemma SweepNoneFreed(dead: set<Node<K, V>>)
      requires Links() && Alive() && dead <= Nodes()
      ensures FreedUpTo(lru, dead, 1) && Distinct(lru)
    {
    }

    /** If what was to go has been freed, and has left the list, what stays is alive. */
    lemma AliveIf(L: seq<Node<K, V>>, dead: set<Node<K, V>>)
      requires FreedUpTo(L, dead, |L|) && root in lru && forall n :: n in lru ==> n in L && n !in dead
      ensures Alive()
    {
    }

    /** What a stale list's sentinel points at has been. */
    ghost predicate StaleLink()
      reads this`stale, root`lruNext, root.lruNext
    {
      stale ==> root.lruNext != null && root.lruNext.freed
    }

    /** The nodes of the list were there before, or are new. */
    twostate predicate OnlyFresh()
      reads this`lru
    {
      forall i :: 0 <= i < |lru| ==> lru[i] in old(lru) || fresh(lru[i])
    }

    /** A pass over the list starts at a freed node exactly if the sentinel's link is stale. */
    lemma FirstNode()
      requires Links() && Alive() && StaleLink()
      ensures stale <==> root.lruNext != null && root.lruNext.freed
    {
      if !stale && |lru| > 1 {
        assert root.lruNext == lru[1];
      }
    }

    ghost predicate LruOk()
      reads this`lru, this`last, this`stale, lru`lruNext, lru`lruPrev
    {
      LruLinked() && last == lru[|lru| - 1]
    }

    ghost predicate ChainsLinked()
      reads this`chains, heads, AllNodes(chains)`next, AllNodes(chains)`prev
    {
      && |chains| == heads.Length
      && (forall b :: 0 <= b < |chains| ==> Distinct(chains[b]) && Linked(heads[b], chains[b]))
    }

    /** The nodes of the LRU list, without the sentinel. */
    ghost function Nodes(): (r: set<Node<K, V>>)
      reads this`lru
    {
      Others(lru, root)
    }

    lemma AtIndex(p: nat)
      requires LruLinked() && p < |lru|
      ensures lru[p] in Nodes() <==> 0 < p
      ensures stale || lru[p].lruNext == if p + 1 < |lru| then lru[p + 1] else null
    {
    }

    /** Both lists are well formed and hold exactly the same nodes, each once. */
    ghost predicate Links()
      reads this, heads, lru`lruNext, lru`lruPrev, lru`next, lru`prev
    {
      && LruOk()
      && Partition(chains, home, Nodes())
      && ChainsLinked()
    }

    lemma Shape()
      requires Links()
      ensures |chains| == heads.Length && |lru| > 0 && lru[0] == root && last in lru
    {
    }

    /** The only node of the table is alone in its chain. */
    lemma Alone(n: Node<K, V>)
      requires Links() && !stale && lru == [root, n] && n in home
      ensures n != root && Ring(lru) && home[n] < heads.Length && Linked(heads[home[n]], [n])
    {
      assert lru[0] == root && lru[1] == n;
      var chain := chains[home[n]];
      assert n in chain;
      assert forall j :: 0 <= j < |chain| ==> chain[j] == n;
      assert chain == [n];
    }

    /** Keys are unique, and a node is in the bucket that its key hashes to and that it records. */
    ghost predicate Keyed()
      reads this`lru, this`home, lru`bucket, lru`key
    {
      && (forall n :: n in Nodes() ==> n in home && n.bucket == home[n] == hash(n.key))
      && (forall n, m :: n in Nodes() && m in Nodes() && n.key == m.key ==> n == m)
    }

    lemma AllKeyed()
      requires Links() && Keyed()
      ensures lru[0] == root && forall n :: n in Nodes() ==> n in home && n.bucket == home[n]
    {
    }

    /** The table as a map from keys to payloads. */
    ghost function Contents(): (r: map<K, V>)
      requires Keyed()
      reads this`lru, this`home, lru`bucket, lru`key, lru`val
    {
      map n | n in Nodes() :: n.key := n.val
    }

    /** Walking chain `b`: its head, and what is at index `i`. */
    lemma ChainAt(b: nat, i: nat)
      requires Links() && Keyed() && b < |chains|
      ensures heads.Length == |chains| && heads[b] == if chains[b] == [] then null else chains[b][0]
      ensures i < |chains[b]| ==>
        && chains[b][i] in Nodes() && hash(chains[b][i].key) == b
        && chains[b][i].next == if i + 1 < |chains[b]| then chains[b][i + 1] else null
    {
    }

    /** A key is in the table exactly when some node of its own chain has it. */
    lemma KeyInChain(k: K)
      requires Links() && Keyed() && hash(k) < |chains|
      ensures k in Contents() <==> exists i :: 0 <= i < |chains[hash(k)]| && chains[hash(k)][i].key == k
    {
      var b := hash(k);
      if k in Contents() {
        var n :| n in Nodes() && n.key == k;
        assert n in chains[b];
      }
      forall i | 0 <= i < |chains[b]| && chains[b][i].key == k ensures k in Contents() {
        assert chains[b][i] in Nodes();
      }
    }

    lemma EntryOf(n: Node<K, V>)
      requires Keyed() && n in Nodes()
      ensures n.key in Contents() && Contents()[n.key] == n.val && n.bucket == hash(n.key)
    {
    }

    ghost function Keys(ns: set<Node<K, V>>): set<K>
      reads ns`key
    {
      set n | n in ns :: n.key
    }

    lemma {:induction false} KeysSize(ns: set<Node<K, V>>)
      requires Keyed() && ns <= Nodes()
      ensures |Keys(ns)| == |ns|
    {
      if ns != {} {
        var n :| n in ns;
        KeysSize(ns - {n});
        assert Keys(ns) == Keys(ns - {n}) + {n.key};
      }
    }

    lemma ContentsSize()
      requires Links() && Keyed()
      ensures |Contents()| == |lru| - 1
    {
      hide Linked, Ring, Partition, ChainsLinked;
      KeysSize(Nodes());
      assert Contents().Keys == Keys(Nodes());
      DistinctSize(lru);
      assert (set n | n in lru) == Nodes() + {root};
    }

    /** A node with a new key, everything else unchanged, adds one entry. */
    twostate lemma AddedOne(new n: Node<K, V>)
      requires old(Keyed()) && n !in old(Nodes()) && Nodes() == old(Nodes()) + {n}
      requires n.key !in old(Contents()) && home == old(home)[n := n.bucket] && n.bucket == hash(n.key)
      requires forall m :: m in old(Nodes()) ==> m.key == old(m.key) && m.val == old(m.val) && m.bucket == old(m.bucket)
      ensures Keyed() && Contents() == old(Contents())[n.key := n.val]
    {
    }

    /** A node whose key and payload are replaced swaps one entry for another. */
    twostate lemma ReplacedOne(n: Node<K, V>)
      requires old(Keyed()) && n in old(Nodes()) && Nodes() == old(Nodes()) && home == old(home)
      requires n.key !in old(Contents()) - {old(n.key)} && n.bucket == old(n.bucket) == hash(n.key)
      requires forall m :: m in Nodes() && m != n ==> m.key == old(m.key) && m.val == old(m.val) && m.bucket == old(m.bucket)
      ensures Keyed() && Contents() == (old(Contents()) - {old(n.key)})[n.key := n.val]
    {
    }

    constructor (size: nat, hash: K -> nat, zero: V)
      ensures Links() && Keyed() && Alive() && lru == [root] && !stale && fresh(root) && fresh(heads) && heads.Length == size
      ensures this.hash == hash
      ensures chains == seq(size, b => [])
    {
      var r := new Node<K, V>(zero);
      root, last, lru, stale, this.hash := r, r, [r], false, hash;
      heads := new Node?<K, V>[size](_ => null);
      chains, home := seq(size, b => []), map[];
    }

    /** Links a node at the LRU tail. */
    method LruAppend(n: Node<K, V>)
      requires LruOk() && n !in lru && n.lruNext == null
      modifies this`last, this`lru, this`stale, last`lruNext, n`lruPrev
      ensures LruOk() && lru == old(lru) + [n] && !stale
    {
      last.lruNext := n;
      n.lruPrev := last;
      last := n;
      lru, stale := lru + [n], false;
    }

    method LruMove(n: Node<K, V>)
      requires LruOk() && n in Nodes()
      modifies this`last, this`lru, this`stale, lru`lruNext, lru`lruPrev
      ensures LruOk() && !stale && lru == Without(old(lru), {n}) + [n] && Nodes() == old(Nodes()) && |lru| == |old(lru)|
      ensures Distinct(old(lru))
      ensures var k := IndexOf(old(lru), n); k > 0 && lru == CutAt(old(lru), k) + [n]
    {
      ghost var k := IndexOf(lru, n);
      WithoutOne(lru, k);
      CutDistinct(lru, k);
      MovedToEnd(lru, k);
      hide Others;
      assert n.lruNext == if k + 1 < |lru| then lru[k + 1] else null;
      if n.lruNext != null {
        hide Ring, Distinct;
        Cut(n, lru, k);
        lru := CutAt(lru, k);
        n.lruNext := null;
        LruAppend(n);
      } else {
        assert CutAt(lru, k) + [n] == lru;
      }
    }

    /** Links a node at the end of chain `b`, whose last node is `tail`. */
    method ChainAppend(b: nat, tail: Node?<K, V>, n: Node<K, V>)
      requires ChainsLinked() && b < |chains| && Apart(chains, b) && n !in AllNodes(chains)
      requires tail == if chains[b] == [] then null else chains[b][|chains[b]| - 1]
      requires n.next == null && n.prev == null
      modifies this`chains, heads, chains[b]`next, n`prev
      ensures ChainsLinked() && chains == old(chains)[b := old(chains[b]) + [n]]
    {
      if tail != null {
        LinkAfter(tail, n, chains[b]);
      } else {
        heads[b] := n;
      }
      forall i | 0 <= i < |chains| && i != b ensures Linked(heads[i], chains[i]) {
        assert old(Linked(heads[i], chains[i]));
      }
      chains := chains[b := chains[b] + [n]];
    }

    /** Takes a node out of its chain, as the pruning loops do. */
    method ChainRemove(n: Node<K, V>, ghost k: nat)
      requires ChainsLinked() && n.bucket < |chains| && Apart(chains, n.bucket)
      requires k < |chains[n.bucket]| && chains[n.bucket][k] == n
      modifies this`chains, heads, chains[n.bucket]`next, chains[n.bucket]`prev
      ensures ChainsLinked()
      ensures var b, c := n.bucket, old(chains[n.bucket]); chains == old(chains)[b := CutAt(c, k)]
    {
      ghost var b, c := n.bucket, chains[n.bucket];
      CutDistinct(c, k);
      Unlink(heads, n, b, c, k);
      forall i | 0 <= i < |chains| && i != b ensures Linked(heads[i], chains[i]) {
        assert old(Linked(heads[i], chains[i]));
      }
      chains := chains[b := CutAt(c, k)];
    }

    /** Links a zeroed node at the end of chain `b` and at the LRU tail. */
    method Append(b: nat, tail: Node?<K, V>, n: Node<K, V>)
      requires Links() && b < |chains| && n !in lru
      requires tail == if chains[b] == [] then null else chains[b][|chains[b]| - 1]
      requires n.next == null && n.prev == null && n.lruNext == null
      modifies this, heads, lru`next, lru`lruNext, n`prev, n`lruPrev
      ensures Links() && !stale && lru == old(lru) + [n] && home == old(home)[n := b]
      ensures chains == old(chains)[b := old(chains[b]) + [n]]
    {
      hide Linked, Ring, Distinct, Apart;
      ghost var nodes := Nodes();
      PartitionApart(chains, home, nodes, b);
      PartitionAppend(chains, home, nodes, b, n);
      home := home[n := b];
      ChainAppend(b, tail, n);
      assert Partition(chains, home, nodes + {n});
      LruAppend(n);
      assert Nodes() == nodes + {n};
    }

    /** Moves a node to the LRU tail; its chain is untouched. */
    method MoveToTail(n: Node<K, V>)
      requires Links() && n in Nodes()
      modifies this`last, this`lru, this`stale, lru`lruNext, lru`lruPrev
      ensures Links() && !stale && Nodes() == old(Nodes()) && |lru| == |old(lru)| && Distinct(old(lru))
      ensures lru == Without(old(lru), {n}) + [n]
      ensures var k := IndexOf(old(lru), n); k > 0 && lru == CutAt(old(lru), k) + [n]
    {
      hide LruLinked, Linked, Distinct, Partition;
      LruMove(n);
    }

    /** Allocates a zeroed node and links it at the end of chain `b` and at the LRU tail. */
    method Allocate(b: nat, tail: Node?<K, V>, zero: V) returns (n: Node<K, V>)
      requires Links() && b < |chains|
      requires tail == if chains[b] == [] then null else chains[b][|chains[b]| - 1]
      modifies this, heads, lru`next, lru`lruNext
      ensures fresh(n) && n.val == zero && !n.freed && Nodes() == old(Nodes()) + {n}
      ensures Links() && !stale && lru == old(lru) + [n] && home == old(home)[n := b]
    {
      hide LruOk, ChainsLinked, Partition, Distinct;
      n := new Node<K, V>(zero);
      Shape();
      Append(b, tail, n);
      assert Nodes() == old(Nodes()) + {n};
    }

    /** Takes a node out of its chain; `nodes` are the nodes still in some chain. */
    method ChainDrop(n: Node<K, V>, ghost nodes: set<Node<K, V>>)
      requires Partition(chains, home, nodes) && ChainsLinked()
      requires n in nodes && n.bucket == home[n]
      modifies this`chains, heads, AllNodes(chains)`next, AllNodes(chains)`prev
      ensures Partition(chains, home, nodes - {n}) && ChainsLinked()
      ensures chains == WithoutAll(old(chains), {n}) && AllNodes(chains) == nodes - {n}
    {
      hide Linked, Distinct, Apart;
      ghost var k := IndexOf(chains[n.bucket], n);
      PartitionApart(chains, home, nodes, n.bucket);
      CutPartition(chains, home, nodes, n.bucket, k);
      ChainRemove(n, k);
      PartitionApart(chains, home, nodes - {n}, n.bucket);
    }

    /** Takes node `n`, at index `p` of the LRU list, out of both lists; `last` is left to the caller. */
    method Remove(n: Node<K, V>, ghost p: nat)
      requires LruLinked() && Partition(chains, home, Nodes()) && ChainsLinked()
      requires 0 < p < |lru| && lru[p] == n && n.bucket == home[n]
      modifies this`lru, this`chains, heads, AllNodes(chains)`next, AllNodes(chains)`prev, lru`lruNext, lru`lruPrev
      ensures LruLinked() && Partition(chains, home, Nodes()) && ChainsLinked()
      ensures lru == CutAt(old(lru), p) && chains == WithoutAll(old(chains), {n})
      ensures Nodes() == old(Nodes()) - {n} && AllNodes(chains) == Nodes()
    {
      hide Linked, Ring, Distinct, Partition;
      ghost var nodes := Nodes();
      AtIndex(p);
      ChainDrop(n, nodes);
      CutDistinct(lru, p);
      Cut(n, lru, p);
      lru := CutAt(lru, p);
      assert Nodes() == nodes - {n};
    }

    /**
     * A sweep over the LRU list `L` (chains `C` at its start) that takes out the nodes of `dead` has
     * reached index `i` of `L`, which is index `p` of the list as it now is.
     */
    ghost predicate Sweeping(L: seq<Node<K, V>>, C: seq<seq<Node<K, V>>>, dead: set<Node<K, V>>, i: nat, p: nat)
      reads this, heads, lru`lruNext, lru`lruPrev, lru`next, lru`prev
    {
      && !stale && LruLinked() && Partition(chains, home, Nodes()) && ChainsLinked()
      && 0 < p <= |lru| && 0 < i <= |L| && lru[p..] == L[i..]
      && lru == Without(L, Taken(L, dead, i)) && chains == WithoutAll(C, Taken(L, dead, i))
      && (forall n :: n in dead ==> n in L)
    }

    lemma SweepStart(dead: set<Node<K, V>>)
      requires Links() && !stale && dead <= Nodes()
      ensures Sweeping(lru, chains, dead, 1, 1)
    {
      assert Taken(lru, dead, 1) == {};
      WithoutNone(lru, {});
      WithoutAllNone(chains);
    }

    /** What the sweep finds at its position. */
    lemma SweepAt(L: seq<Node<K, V>>, C: seq<seq<Node<K, V>>>, dead: set<Node<K, V>>, i: nat, p: nat)
      requires Sweeping(L, C, dead, i, p)
      ensures |lru| - p == |L| - i && lru[0] == root && (p < |lru| <==> i < |L|)
      ensures p < |lru| ==> lru[p] == L[i] && lru[p] in Nodes() && lru[p].lruNext == if i + 1 < |L| then L[i + 1] else null
      ensures lru[p - 1].lruNext == if p < |lru| then L[i] else null
      ensures forall j :: 0 <= j < |lru| ==> lru[j] in L
    {
      assert |lru[p..]| == |L[i..]|;
      AtIndex(p - 1);
      if p < |lru| {
        AtIndex(p);
        assert lru[p..][0] == L[i..][0];
        assert i + 1 < |L| ==> lru[p..][1] == L[i..][1];
      }
      WithoutMembers(L, Taken(L, dead, i));
    }

    lemma SweepSkip(L: seq<Node<K, V>>, C: seq<seq<Node<K, V>>>, dead: set<Node<K, V>>, i: nat, p: nat)
      requires Sweeping(L, C, dead, i, p) && p < |lru| && lru[p] !in dead
      ensures Sweeping(L, C, dead, i + 1, p + 1)
    {
      hide Ring, Linked, Distinct, Partition, Taken;
      SweepAt(L, C, dead, i, p);
      TakenNext(L, dead, i);
      assert lru[p + 1..] == lru[p..][1..] == L[i..][1..] == L[i + 1..];
    }

    method SweepRemove(n: Node<K, V>, ghost L: seq<Node<K, V>>, ghost C: seq<seq<Node<K, V>>>,
                       ghost dead: set<Node<K, V>>, ghost i: nat, ghost p: nat)
      requires Sweeping(L, C, dead, i, p) && p < |lru| && lru[p] == n && n in dead && n in home && n.bucket == home[n]
      modifies this`lru, this`chains, heads, lru`next, lru`prev, lru`lruNext, lru`lruPrev
      ensures Sweeping(L, C, dead, i + 1, p) && p <= |lru| && lru[p - 1] == old(lru[p - 1])
    {
      hide Ring, Linked, Distinct, Apart, Taken;
      SweepAt(L, C, dead, i, p);
      ghost var gone := Taken(L, dead, i);
      assert L[i + 1..] == L[i..][1..] == lru[p..][1..];
      Remove(n, p);
      assert lru[p..] == L[i + 1..];
      WithoutOne(old(lru), p);
      WithoutTwice(L, gone, {n});
      WithoutAllTwice(C, gone, {n});
      TakenNext(L, dead, i);
    }

    /** The removing iteration: out of both lists, and freed. */
    method SweepFree(n: Node<K, V>, ghost L: seq<Node<K, V>>, ghost C: seq<seq<Node<K, V>>>,
                     ghost dead: set<Node<K, V>>, ghost i: nat, ghost p: nat)
      requires Sweeping(L, C, dead, i, p) && p < |lru| && lru[p] == n && n in dead && n in home && n.bucket == home[n]
      requires Distinct(L) && i < |L| && L[i] == n && FreedUpTo(L, dead, i)
      modifies this`lru, this`chains, heads, lru`next, lru`prev, lru`lruNext, lru`lruPrev, n`freed
      ensures Sweeping(L, C, dead, i + 1, p) && p <= |lru| && lru[p - 1] == old(lru[p - 1]) && FreedUpTo(L, dead, i + 1)
    {
      hide Sweeping, Distinct, FreedUpTo;
      SweepRemove(n, L, C, dead, i, p);
      Free(n, L, dead, i);
    }

    method SweepEnd(tail: Node<K, V>, ghost L: seq<Node<K, V>>, ghost C: seq<seq<Node<K, V>>>,
                    ghost dead: set<Node<K, V>>, ghost i: nat, ghost p: nat)
      requires Sweeping(L, C, dead, i, p) && p == |lru| && i == |L| && tail == lru[p - 1]
      modifies this`last
      ensures Links() && lru == Without(L, dead) && chains == WithoutAll(C, dead)
    {
      TakenAll(L, dead);
      last := tail;
    }

    /**
     * A pass that takes the leading nodes of the LRU list `L` (chains `C` at its start) out of their chains
     * has reached index `i`; the LRU list itself is still whole.
     */
    ghost predicate Dropping(L: seq<Node<K, V>>, C: seq<seq<Node<K, V>>>, dead: set<Node<K, V>>, i: nat)
      reads this, heads, lru`lruNext, lru`lruPrev, lru`next, lru`prev
    {
      && LruOk() && !stale && lru == L && 0 < i <= |L| && (forall j :: 0 < j < i ==> L[j] in dead)
      && Partition(chains, home, From(L, i)) && ChainsLinked()
      && chains == WithoutAll(C, Taken(L, dead, i))
    }

    lemma DropStart(dead: set<Node<K, V>>)
      requires Links() && !stale && root !in dead
      ensures Dropping(lru, chains, dead, 1)
    {
      assert Taken(lru, dead, 1) == {};
      WithoutAllNone(chains);
      assert From(lru, 1) == Nodes();
    }

    lemma DropAt(L: seq<Node<K, V>>, C: seq<seq<Node<K, V>>>, dead: set<Node<K, V>>, i: nat)
      requires Dropping(L, C, dead, i)
      ensures L[0] == root && root.lruNext == (if 1 < |L| then L[1] else null) && forall j :: 0 < j < i ==> L[j] in dead
      ensures i < |L| ==> L[i] in Nodes() && L[i].lruNext == if i + 1 < |L| then L[i + 1] else null
    {
      AtIndex(0);
      if i < |L| {
        AtIndex(i);
      }
    }

    lemma DropFirst(L: seq<Node<K, V>>, C: seq<seq<Node<K, V>>>, dead: set<Node<K, V>>, i: nat)
      requires Dropping(L, C, dead, i)
      ensures |L| > 1 ==> root.lruNext != null && root.lruNext != root
    {
      DropAt(L, C, dead, i);
      if |L| > 1 {
        NoOther(L, 0);
      }
    }

    method DropNext(n: Node<K, V>, ghost L: seq<Node<K, V>>, ghost C: seq<seq<Node<K, V>>>, ghost dead: set<Node<K, V>>, ghost i: nat)
      requires Dropping(L, C, dead, i) && i < |L| && L[i] == n && n in dead && n in home && n.bucket == home[n]
      modifies this`chains, heads, lru`next, lru`prev
      ensures Dropping(L, C, dead, i + 1)
    {
      hide Ring, Linked, Taken;
      ghost var nodes := From(L, i);
      FromNext(L, i);
      ChainDrop(n, nodes);
      WithoutAllTwice(C, Taken(L, dead, i), {n});
      TakenNext(L, dead, i);
    }

    /** One iteration: out of its chain, and freed. */
    method DropFree(n: Node<K, V>, ghost L: seq<Node<K, V>>, ghost C: seq<seq<Node<K, V>>>, ghost dead: set<Node<K, V>>, ghost i: nat)
      requires Dropping(L, C, dead, i) && i < |L| && L[i] == n && n in dead && n in home && n.bucket == home[n]
      requires Distinct(L) && FreedUpTo(L, dead, i)
      modifies this`chains, heads, lru`next, lru`prev, n`freed
      ensures Dropping(L, C, dead, i + 1) && FreedUpTo(L, dead, i + 1)
    {
      hide Dropping, Distinct, FreedUpTo;
      DropNext(n, L, C, dead, i);
      Free(n, L, dead, i);
    }

    /** `fp` is the first node that stays, if any. */
    method DropEnd(fp: Node?<K, V>, ghost L: seq<Node<K, V>>, ghost C: seq<seq<Node<K, V>>>, ghost dead: set<Node<K, V>>, ghost i: nat)
      requires Dropping(L, C, dead, i) && fp == if i < |L| then L[i] else null
      requires root !in dead && (forall n :: n in dead ==> n in L)
      requires forall j :: i <= j < |L| ==> L[j] !in dead
      modifies this`lru, this`last, this`stale, lru`lruNext, lru`lruPrev
      ensures Links() && lru == Without(L, dead) && chains == WithoutAll(C, dead) && lru == [root] + L[i..]
      ensures stale == (|lru| == 1 && |L| > 1) && (stale ==> root.lruNext == old(root.lruNext))
    {
      hide Linked, Partition, Distinct, Ring, Without, Taken, Others;
      DropFirst(L, C, dead, i);
      TakenRun(L, dead, i);
      WithoutRun(L, dead, i);
      SuffixDistinct(L, i);
      RestNodes(L, i);
      if fp != null {
        CutFront(root, fp, L, i);
        stale := false;
      } else {
        last := root;
        stale := |L| > 1;
        assert [root] + L[i..] == [root] && (|L| == 1 ==> [root] == L);
      }
      lru := [root] + L[i..];
    }

    /** The end of the pass, all nodes of `dead` being freed: an emptied list points at the first of them. */
    method DropFinish(fp: Node?<K, V>, ghost L: seq<Node<K, V>>, ghost C: seq<seq<Node<K, V>>>, ghost dead: set<Node<K, V>>, ghost i: nat)
      requires Dropping(L, C, dead, i) && fp == if i < |L| then L[i] else null
      requires i <= |L| && FreedUpTo(L, dead, i) && root !in dead && (forall n :: n in dead ==> n in L)
      requires forall j :: i <= j < |L| ==> L[j] !in dead
      modifies this`lru, this`last, this`stale, lru`lruNext, lru`lruPrev
      ensures Links() && lru == Without(L, dead) && chains == WithoutAll(C, dead) && lru == [root] + L[i..]
      ensures stale == (|lru| == 1 && |L| > 1) && Alive() && StaleLink()
    {
      hide Links, Dropping, Distinct, Without, WithoutAll, Alive;
      DropAt(L, C, dead, i);
      FreedAll(L, dead, i);
      DropEnd(fp, L, C, dead, i);
      WithoutMembers(L, dead);
      AliveIf(L, dead);
    }

    lemma RestNodes(L: seq<Node<K, V>>, i: nat)
      requires Distinct(L) && 0 < i <= |L| && L[0] == root
      ensures Others([root] + L[i..], root) == From(L, i)
    {
      forall j | i <= j < |L| ensures L[j] != root {
        assert IndexOf(L, L[j]) == j && IndexOf(L, root) == 0;
      }
      assert forall j :: i <= j < |L| ==> L[j] == L[i..][j - i];
    }
  }
}
