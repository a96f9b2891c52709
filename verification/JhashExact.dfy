/** The Jenkins hash and the buckets written out: the operations bit by bit, the shifts, the layout of the words. */
module JhashExact {
  import opened Jhash
  import TableHash
  import FlowKeys
  import FragSpec

  /** Bit `i` of a number. */
  function Bit(x: nat, i: nat): nat { x / Pow2(i) % 2 }

  lemma BitHalf(x: nat, i: nat)
    requires i > 0
    ensures Bit(x, i) == Bit(x / 2, i - 1)
  {
    var p := Pow2(i - 1);
    assert Pow2(i) == 2 * p;
    DivTwice(x, p);
  }

  lemma DivTwice(x: nat, p: nat)
    requires p > 0
    ensures x / (2 * p) == x / 2 / p
  {
    var q, r := x / 2 / p, x / 2 % p;
    assert x == 2 * (q * p + r) + x % 2 == q * (2 * p) + (2 * r + x % 2);
    Quotient(x, 2 * p, q, 2 * r + x % 2);
  }

  lemma Quotient(x: nat, d: nat, q: nat, r: nat)
    requires d > 0 && x == q * d + r && r < d
    ensures x / d == q && x % d == r
  {
    var m: int := x / d - q;
    assert m * d == x / d * d - q * d == r - x % d;
    NotBetween(m, d);
  }

  lemma NotBetween(m: int, d: int)
    requires d > 0
    ensures m >= 1 ==> m * d >= d
    ensures m <= -1 ==> m * d <= -d
  {
    if m >= 1 {
      assert m * d == d + (m - 1) * d && (m - 1) * d >= 0;
    } else if m <= -1 {
      assert m * d == -d + (m + 1) * d && (m + 1) * d <= 0;
    }
  }

  /** Exclusive or and the mask, bit by bit. */
  lemma {:induction false} XorBit(x: nat, y: nat, i: nat)
    ensures Bit(XorBits(x, y), i) == 1 <==> Bit(x, i) != Bit(y, i)
    ensures Bit(AndBits(x, y), i) == 1 <==> Bit(x, i) == 1 && Bit(y, i) == 1
    decreases i
  {
    HalfXor(x, y);
    if i > 0 {
      hide XorBits, AndBits;
      BitHalf(x, i);
      BitHalf(y, i);
      BitHalf(XorBits(x, y), i);
      BitHalf(AndBits(x, y), i);
      XorBit(x / 2, y / 2, i - 1);
    }
  }

  lemma HalfXor(x: nat, y: nat)
    ensures XorBits(x, y) / 2 == XorBits(x / 2, y / 2) && XorBits(x, y) % 2 == (if x % 2 == y % 2 then 0 else 1)
    ensures AndBits(x, y) / 2 == AndBits(x / 2, y / 2) && AndBits(x, y) % 2 == (if x % 2 == 1 && y % 2 == 1 then 1 else 0)
  {
  }

  lemma {:induction false} AtLeast(q: nat, p: nat)
    requires p > 0
    ensures q * p >= q
  {
    if q > 0 {
      AtLeast(q - 1, p);
      assert q * p == (q - 1) * p + p;
    }
  }

  function Divided(x: nat, p: nat): (q: nat)
    requires p > 0
    ensures q <= x
  {
    AtLeast(x / p, p);
    assert x / p * p <= x;
    x / p
  }

  /** x >> n */
  function Shr(x: Word, n: nat): Word { Divided(x, Pow2(n)) }

  /** x << n */
  function Shl(x: Word, n: nat): Word { x * Pow2(n) % LIMIT }

  lemma Shifts(x: Word)
    ensures R13(x) == Shr(x, 13) && R12(x) == Shr(x, 12) && R5(x) == Shr(x, 5) && R3(x) == Shr(x, 3) && R15(x) == Shr(x, 15)
    ensures L8(x) == Shl(x, 8) && L16(x) == Shl(x, 16) && L10(x) == Shl(x, 10)
  {
    assert Pow2(3) == 8;
    assert Pow2(5) == 0x20;
    assert Pow2(8) == 0x100;
    assert Pow2(10) == 0x400;
    assert Pow2(12) == 0x1000;
    assert Pow2(13) == 0x2000;
    assert Pow2(15) == 0x8000;
    assert Pow2(16) == 0x1_0000;
  }

  /** One of the nine lines: x -= y; x -= z; x ^= s. */
  function Line(x: Word, y: Word, z: Word, s: Word): Word { Xor(Minus(Minus(x, y), z), s) }

  /** The mixing step, line by line. */
  lemma MixAsWritten(a: Word, b: Word, c: Word)
    ensures
      var a1 := Line(a, b, c, Shr(c, 13));
      var b1 := Line(b, c, a1, Shl(a1, 8));
      var c1 := Line(c, a1, b1, Shr(b1, 13));
      var a2 := Line(a1, b1, c1, Shr(c1, 12));
      var b2 := Line(b1, c1, a2, Shl(a2, 16));
      var c2 := Line(c1, a2, b2, Shr(b2, 5));
      var a3 := Line(a2, b2, c2, Shr(c2, 3));
      var b3 := Line(b2, c2, a3, Shl(a3, 10));
      var c3 := Line(c2, a3, b3, Shr(b3, 15));
      Mix(State(a, b, c)) == State(a3, b3, c3)
  {
    hide Xor, Minus, Shr, Shl, R13, L8, R12, L16, R5, R3, L10, R15;
    forall x: Word
      ensures R13(x) == Shr(x, 13) && R12(x) == Shr(x, 12) && R5(x) == Shr(x, 5) && R3(x) == Shr(x, 3) && R15(x) == Shr(x, 15)
      ensures L8(x) == Shl(x, 8) && L16(x) == Shl(x, 16) && L10(x) == Shl(x, 10)
    {
      Shifts(x);
    }
  }

  /** Four bytes, lowest first, added to a word. */
  function Added(x: Word, b0: nat, b1: nat, b2: nat, b3: nat): Word {
    (x + b0 + b1 * 0x100 + b2 * 0x1_0000 + b3 * 0x100_0000) % LIMIT
  }

  lemma WordAdded(x: Word, k: seq<Byte>, i: nat)
    requires i + 4 <= |k|
    ensures Plus(x, WordAt(k, i)) == Added(x, k[i], k[i + 1], k[i + 2], k[i + 3])
  {
    ValueIsWord(k[i..i + 4]);
  }

  /** The next twelve bytes of a key. */
  lemma NextBytes(k: seq<Byte>, t: State, length: Word)
    requires |k| >= 12
    ensures HashBytesFrom(k, t, length) == HashBytesFrom(k[12..],
      Mix(State(Added(t.a, k[0], k[1], k[2], k[3]), Added(t.b, k[4], k[5], k[6], k[7]), Added(t.c, k[8], k[9], k[10], k[11]))), length)
  {
    hide Mix, Plus, WordAt, Added;
    WordAdded(t.a, k, 0);
    WordAdded(t.b, k, 4);
    WordAdded(t.c, k, 8);
  }

  lemma TailAdded(x: Word, k: seq<Byte>)
    requires |k| <= 4
    ensures Value(k) < LIMIT && Plus(x, Value(k)) == Added(x, At(k, 0), At(k, 1), At(k, 2), At(k, 3))
  {
    ValueIsWord(k);
    hide Value;
  }

  lemma HighAdded(x: Word, length: Word, k: seq<Byte>)
    requires |k| <= 3
    ensures Value(k) * 0x100 < LIMIT && Plus(Plus(x, length), Value(k) * 0x100) == Added(x, length, At(k, 0), At(k, 1), At(k, 2))
  {
    ValueIsWord(k);
    hide Value;
    var v: nat := Value(k) * 0x100;
    assert ((x + length) % LIMIT + v) % LIMIT == (x + length + v) % LIMIT;
  }

  /** The last bytes, and the length below those of the third word. */
  lemma LastBytesAre(k: seq<Byte>, t: State, length: Word)
    requires |k| < 12
    ensures HashBytesFrom(k, t, length) ==
      Mix(State(Added(t.a, At(k, 0), At(k, 1), At(k, 2), At(k, 3)), Added(t.b, At(k, 4), At(k, 5), At(k, 6), At(k, 7)),
                Added(t.c, length, At(k, 8), At(k, 9), At(k, 10)))).c
  {
    var i, j := Min(|k|, 4), Min(|k|, 8);
    hide Mix, Value, Added, Plus;
    TailAdded(t.a, k[..i]);
    TailAdded(t.b, k[i..j]);
    HighAdded(t.c, length, k[j..]);
    forall n | 0 <= n < 4
      ensures At(k[..i], n) == At(k, n) && At(k[i..j], n) == At(k, n + 4) && (n < 3 ==> At(k[j..], n) == At(k, n + 8))
    {
    }
  }

  /** Words, three at a time; the rest, and four times their number. */
  lemma NextWords(k: seq<Word>, t: State, length: Word)
    ensures HashWordsFrom(k, t, length) ==
      if |k| >= 3 then HashWordsFrom(k[3..], Mix(State((t.a + k[0]) % LIMIT, (t.b + k[1]) % LIMIT, (t.c + k[2]) % LIMIT)), length)
      else Mix(State(if |k| > 0 then (t.a + k[0]) % LIMIT else t.a, if |k| > 1 then (t.b + k[1]) % LIMIT else t.b,
                     (t.c + length * 4) % LIMIT)).c
  {
    hide Mix;
    if |k| < 3 {
      assert (t.c + length * 4 % LIMIT) % LIMIT == (t.c + length * 4) % LIMIT;
    }
  }

  /** Both start from the golden ratio, twice, and the seed. */
  lemma Starts(k: seq<Byte>, w: seq<Word>, initval: Word)
    requires |k| < LIMIT && |w| < LIMIT
    ensures HashBytes(k, initval) == HashBytesFrom(k, State(0x9e3779b9, 0x9e3779b9, initval), |k|)
    ensures HashWords(w, initval) == HashWordsFrom(w, State(0x9e3779b9, 0x9e3779b9, initval), |w|)
  {
    hide Mix, HashBytesFrom, HashWordsFrom;
  }

  // ----- buckets

  /** With a power of two of buckets, the mask is the remainder. */
  lemma {:induction false} MaskIsRemainder(x: nat, n: nat)
    ensures AndBits(x, Pow2(n) - 1) == x % Pow2(n)
    decreases n
  {
    if n == 0 {
      AndZero(x);
    } else {
      var p := Pow2(n - 1);
      assert Pow2(n) == 2 * p;
      MaskIsRemainder(x / 2, n - 1);
      hide AndBits, Pow2;
      HalfXor(x, 2 * p - 1);
      Odd(p);
      ModTwice(x, p);
      var r := AndBits(x, 2 * p - 1);
      assert r == r / 2 * 2 + r % 2;
    }
  }

  lemma Odd(p: nat)
    requires p > 0
    ensures (2 * p - 1) / 2 == p - 1 && (2 * p - 1) % 2 == 1
  {
  }

  lemma {:induction false} AndZero(x: nat)
    ensures AndBits(x, 0) == 0
  {
    if x > 0 {
      AndZero(x / 2);
    }
  }

  lemma ModTwice(x: nat, p: nat)
    requires p > 0
    ensures x % (2 * p) == x / 2 % p * 2 + x % 2
  {
    var q, r := x / 2 / p, x / 2 % p;
    assert x == 2 * (q * p + r) + x % 2 == q * (2 * p) + (2 * r + x % 2);
    Quotient(x, 2 * p, q, 2 * r + x % 2);
  }

  /** One mixing step from the start. */
  function OneMix(first: nat, second: nat, third: nat): State {
    Mix(State((first + 0x9e3779b9) % LIMIT, (second + 0x9e3779b9) % LIMIT, (third + 140281) % LIMIT))
  }

  /** One more, from state `t`. */
  function NextMix(t: State, first: nat, second: nat, third: nat): State {
    Mix(State((t.a + first) % LIMIT, (t.b + second) % LIMIT, (t.c + third) % LIMIT))
  }

  lemma Mixes(t: State, a: Word, b: Word, c: Word)
    ensures Absorb(Jhash.Start(140281), a, b, c) == OneMix(a, b, c) && Absorb(t, a, b, c) == NextMix(t, a, b, c)
  {
    hide Mix;
  }

  lemma AboveIs(x: Word, low: Byte)
    requires x < 0x1_0000
    ensures Above(x, low) == x * 0x1_0000 + (low as int)
  {
  }

  lemma Masked(t: State, n: nat)
    requires 0 < n && Pow2(n) < LIMIT
    ensures And(t.c, Pow2(n) - 1) == t.c % Pow2(n)
  {
    MaskIsRemainder(t.c, n);
  }

  lemma XorOfPorts(x: nat, y: nat)
    requires x < 0x1_0000 && y < 0x1_0000
    ensures XorBits(x, y) < 0x1_0000
  {
    assert Pow2(8) == 0x100;
    assert Pow2(16) == 0x1_0000;
    XorBound(16, x, y);
  }

  lemma FlowAbsorbs(k: FlowKeys.FlowKey, size: Word)
    requires size > 0 && |k.src| == 1 && |k.dst| == 1 && k.src[0] < LIMIT && k.dst[0] < LIMIT
    requires k.sport < 0x1_0000 && k.dport < 0x1_0000 && k.proto < 256
    ensures TableHash.FlowBucket(k, size)
      == And(Absorb(Jhash.Start(140281), Above(Xor(k.sport, k.dport), k.proto), k.src[0], k.dst[0]).c, size - 1)
  {
    hide Mix, AndBits, Absorb, Above, Xor, And;
    assert TableHash.Words(k.src, 1) && TableHash.Words(k.dst, 1);
  }

  /** An IPv4 flow: its ports, protocol and addresses in one mixing step. */
  lemma FlowBucketIs(k: FlowKeys.FlowKey, n: nat)
    requires 0 < n && Pow2(n) < LIMIT
    requires |k.src| == 1 && |k.dst| == 1 && k.src[0] < LIMIT && k.dst[0] < LIMIT
    requires k.sport < 0x1_0000 && k.dport < 0x1_0000 && k.proto < 256
    ensures TableHash.FlowBucket(k, Pow2(n)) ==
      OneMix(XorBits(k.sport, k.dport) * 0x1_0000 + k.proto, k.src[0], k.dst[0]).c % Pow2(n)
  {
    XorOfPorts(k.sport, k.dport);
    AboveIs(Xor(k.sport, k.dport), k.proto);
    FlowAbsorbs(k, Pow2(n));
    var first := Above(Xor(k.sport, k.dport), k.proto);
    assert first == XorBits(k.sport, k.dport) * 0x1_0000 + k.proto;
    hide *;
    Mixes(Jhash.Start(0), first, k.src[0], k.dst[0]);
    Masked(OneMix(first, k.src[0], k.dst[0]), n);
  }

  lemma FragAbsorbs(k: FragSpec.FragKey)
    requires |k.src| == 1 && |k.dst| == 1 && k.src[0] < LIMIT && k.dst[0] < LIMIT && k.id < 0x1_0000 && k.proto < 256
    ensures TableHash.FragBucket(k) == And(Absorb(Jhash.Start(140281), Above(k.id, k.proto), k.src[0], k.dst[0]).c, 255)
  {
    hide Mix, AndBits, Absorb, Above, And;
    assert TableHash.Words(k.src, 1) && TableHash.Words(k.dst, 1);
  }

  /** An IPv4 datagram. */
  lemma FragBucketIs(k: FragSpec.FragKey)
    requires |k.src| == 1 && |k.dst| == 1 && k.src[0] < LIMIT && k.dst[0] < LIMIT && k.id < 0x1_0000 && k.proto < 256
    ensures TableHash.FragBucket(k) == OneMix(k.id * 0x1_0000 + k.proto, k.src[0], k.dst[0]).c % 256
  {
    assert Pow2(8) == 256;
    var first := Above(k.id, k.proto);
    AboveIs(k.id, k.proto);
    FragAbsorbs(k);
    hide *;
    Mixes(Jhash.Start(0), first, k.src[0], k.dst[0]);
    Masked(OneMix(first, k.src[0], k.dst[0]), 8);
  }

  /** Over IPv6: the two addresses and an identifier, in three mixing steps. */
  lemma Bucket6Is(id: Word, src: seq<nat>, dst: seq<nat>, n: nat)
    requires TableHash.Words(src, 4) && TableHash.Words(dst, 4) && 0 < n && Pow2(n) < LIMIT
    ensures TableHash.Bucket6(id, src, dst, Pow2(n)) ==
      NextMix(NextMix(OneMix(src[0], src[1], src[2]), src[3], dst[0], dst[1]), dst[2], dst[3], id).c % Pow2(n)
  {
    hide Mix, AndBits, Pow2, OneMix, NextMix, Absorb, And;
    var t := OneMix(src[0], src[1], src[2]);
    var u := NextMix(t, src[3], dst[0], dst[1]);
    Mixes(t, src[0], src[1], src[2]);
    Mixes(t, src[3], dst[0], dst[1]);
    Mixes(u, dst[2], dst[3], id);
    Masked(NextMix(u, dst[2], dst[3], id), n);
  }

  /** The identifier is that of the datagram, or the two ports. */
  lemma Buckets6(k: FlowKeys.FlowKey, j: FragSpec.FragKey, size: Word)
    requires size > 0
    ensures TableHash.Words(k.src, 4) && TableHash.Words(k.dst, 4) && k.sport < 0x1_0000 && k.dport < 0x1_0000 ==>
      TableHash.FlowBucket(k, size) == TableHash.Bucket6(k.sport * 0x1_0000 + k.dport, k.src, k.dst, size)
    ensures TableHash.Words(j.src, 4) && TableHash.Words(j.dst, 4) && j.id < LIMIT ==>
      TableHash.FragBucket(j) == TableHash.Bucket6(j.id, j.src, j.dst, 256)
  {
    hide Mix, AndBits;
  }
}
