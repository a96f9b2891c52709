/**
 * Flow keys and their canonical direction.  An address is its 32-bit words in
 * memory order: one word for IPv4, four for IPv6, so one model covers both.
 */
module FlowKeys {
  import opened FlowState

  type Addr = seq<nat>

  datatype FlowKey = FlowKey(src: Addr, dst: Addr, sport: nat, dport: nat, proto: nat) {
    /** The key of a packet travelling the other way. */
    function Mirror(): FlowKey { FlowKey(dst, src, dport, sport, proto) }

    predicate Valid() { |src| == |dst| }
  }

  /** Word-by-word comparison: negative, zero or positive. */
  function Cmp(a: Addr, b: Addr): int
    requires |a| == |b|
  {
    if a == [] then 0
    else if a[0] == b[0] then Cmp(a[1..], b[1..])
    else if a[0] > b[0] then 1 else -1
  }

  method AddrCmp(a: Addr, b: Addr) returns (r: int)
    requires |a| == |b|
    ensures r == Cmp(a, b)
  {
    var chunk := 0;
    while chunk < |a|
      invariant 0 <= chunk <= |a|
      invariant Cmp(a, b) == Cmp(a[chunk..], b[chunk..])
    {
      if a[chunk] != b[chunk] {
        return if a[chunk] > b[chunk] then 1 else -1;
      }
      assert a[chunk..][1..] == a[chunk + 1..] && b[chunk..][1..] == b[chunk + 1..];
      chunk := chunk + 1;
    }
    return 0;
  }

  lemma {:induction false} CmpZeroIsEqual(a: Addr, b: Addr)
    requires |a| == |b|
    ensures Cmp(a, b) == 0 <==> a == b
    ensures Cmp(a, b) == -Cmp(b, a)
  {
    if a != [] {
      CmpZeroIsEqual(a[1..], b[1..]);
      assert a == [a[0]] + a[1..] && b == [b[0]] + b[1..];
    }
  }

  lemma {:induction false} CmpTransitive(a: Addr, b: Addr, c: Addr)
    requires |a| == |b| == |c| && Cmp(a, b) <= 0 && Cmp(b, c) <= 0
    ensures Cmp(a, c) <= 0
  {
    if a != [] && a[0] == b[0] == c[0] {
      CmpTransitive(a[1..], b[1..], c[1..]);
    }
  }

  /** In the first word in which they differ, `a` has the larger one. */
  predicate Exceeds(a: Addr, b: Addr)
    requires |a| == |b|
  {
    exists i :: 0 <= i < |a| && a[i] > b[i] && forall j :: 0 <= j < i ==> a[j] == b[j]
  }

  lemma {:induction false} CmpLexicographic(a: Addr, b: Addr)
    requires |a| == |b|
    ensures (Cmp(a, b) > 0 <==> Exceeds(a, b)) && (Cmp(a, b) < 0 <==> Exceeds(b, a))
  {
    if a != [] {
      var x, y := a[1..], b[1..];
      CmpLexicographic(x, y);
      LaterWord(a, b);
      LaterWord(b, a);
    }
  }

  lemma LaterWord(a: Addr, b: Addr)
    requires |a| == |b| > 0
    ensures Exceeds(a, b) <==> a[0] > b[0] || (a[0] == b[0] && Exceeds(a[1..], b[1..]))
  {
    var x, y := a[1..], b[1..];
    if Exceeds(a, b) && a[0] == b[0] {
      var i :| 0 <= i < |a| && a[i] > b[i] && forall j :: 0 <= j < i ==> a[j] == b[j];
      assert x[i - 1] > y[i - 1] && forall j :: 0 <= j < i - 1 ==> x[j] == a[j + 1] && y[j] == b[j + 1];
    }
    if a[0] == b[0] && Exceeds(x, y) {
      var i :| 0 <= i < |x| && x[i] > y[i] && forall j :: 0 <= j < i ==> x[j] == y[j];
      assert a[i + 1] > b[i + 1] && forall j :: 0 < j < i + 1 ==> a[j] == x[j - 1] && b[j] == y[j - 1];
    }
  }

  /** The endpoint with the larger port, then the larger address, comes first. */
  predicate Ordered(k: FlowKey)
    requires k.Valid()
  {
    k.sport > k.dport || (k.sport == k.dport && Cmp(k.src, k.dst) >= 0)
  }

  function Canonical(k: FlowKey): FlowKey
    requires k.Valid()
  {
    if Ordered(k) then k else k.Mirror()
  }

  function DirectionOf(k: FlowKey): Direction
    requires k.Valid()
  {
    if Ordered(k) then Forward else Reverse
  }

  method Normalize(k: FlowKey) returns (c: FlowKey, d: Direction)
    requires k.Valid()
    ensures c == Canonical(k) && d == DirectionOf(k)
  {
    var src, dst, sport, dport := k.src, k.dst, k.sport, k.dport;
    d := Forward;
    if sport < dport {
      sport, dport := dport, sport;
      src, dst := dst, src;
      d := Reverse;
    } else if sport == dport {
      var cmp := AddrCmp(src, dst);
      if cmp < 0 {
        src, dst := dst, src;
        d := Reverse;
      }
    }
    c := FlowKey(src, dst, sport, dport, k.proto);
  }

  /**
   * Two keys share a canonical key exactly when they are equal or mirror images; mirror images are
   * told apart by the direction unless both endpoints are the same.
   */
  lemma CanonicalPairsMirrors(k: FlowKey, m: FlowKey)
    requires k.Valid() && m.Valid()
    ensures Canonical(k) == Canonical(m) <==> m == k || m == k.Mirror()
    ensures DirectionOf(k) == DirectionOf(k.Mirror()) <==> k.src == k.dst && k.sport == k.dport
    ensures Ordered(Canonical(k))
  {
    CmpZeroIsEqual(k.src, k.dst);
  }

  /** The endpoint with the smaller port, and for equal ports with the smaller address, goes second. */
  lemma CanonicalOrder(k: FlowKey)
    requires k.Valid()
    ensures
      var swapped := k.sport < k.dport || (k.sport == k.dport && Exceeds(k.dst, k.src));
      && Canonical(k) == (if swapped then FlowKey(k.dst, k.src, k.dport, k.sport, k.proto) else k)
      && DirectionOf(k) == if swapped then Reverse else Forward
  {
    CmpLexicographic(k.src, k.dst);
  }
}
