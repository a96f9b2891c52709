/** Bob Jenkins' hash (src/jhash.h).  A 32-bit word is a number below 2^32; shifts are divisions and products. */
module Jhash {
  const LIMIT := 0x1_0000_0000

  type Word = w: int | 0 <= w < LIMIT
  type Byte = b: int | 0 <= b < 256

  const GOLDEN_RATIO: Word := 0x9e3779b9

  datatype State = State(a: Word, b: Word, c: Word)

  // ----- operations on words

  function Pow2(n: nat): (p: nat)
    ensures p > 0
  {
    if n == 0 then 1 else 2 * Pow2(n - 1)
  }

  /** Exclusive or, bit by bit. */
  function XorBits(x: nat, y: nat): nat {
    if x == 0 && y == 0 then 0 else 2 * XorBits(x / 2, y / 2) + if x % 2 == y % 2 then 0 else 1
  }

  function AndBits(x: nat, y: nat): (r: nat)
    ensures r <= y
  {
    if x == 0 && y == 0 then 0 else 2 * AndBits(x / 2, y / 2) + if x % 2 == y % 2 == 1 then 1 else 0
  }

  lemma {:induction false} XorBound(n: nat, x: nat, y: nat)
    requires x < Pow2(n) && y < Pow2(n)
    ensures XorBits(x, y) < Pow2(n)
  {
    if n > 0 {
      XorBound(n - 1, x / 2, y / 2);
    }
  }

  lemma Pow2Of32()
    ensures Pow2(32) == LIMIT
  {
    assert Pow2(8) == 0x100;
    assert Pow2(16) == 0x1_0000;
    assert Pow2(24) == 0x100_0000;
  }

  function Xor(x: Word, y: Word): Word {
    Pow2Of32();
    XorBound(32, x, y);
    XorBits(x, y)
  }

  function And(x: Word, y: Word): Word { AndBits(x, y) }

  function Plus(x: Word, y: Word): Word { (x + y) % LIMIT }

  function Minus(x: Word, y: Word): Word { (x - y) % LIMIT }

  lemma {:induction false} XorBitsBack(x: nat, y: nat)
    ensures XorBits(XorBits(x, y), y) == x
  {
    if x != 0 || y != 0 {
      XorBitsBack(x / 2, y / 2);
      var r := XorBits(x, y);
      assert r / 2 == XorBits(x / 2, y / 2);
      assert XorBits(r, y) == 2 * XorBits(r / 2, y / 2) + if r % 2 == y % 2 then 0 else 1;
    }
  }

  lemma XorBack(x: Word, y: Word)
    ensures Xor(Xor(x, y), y) == x
  {
    XorBitsBack(x, y);
  }

  lemma MinusBack(x: Word, y: Word)
    ensures Plus(Minus(x, y), y) == x && Minus(Plus(x, y), y) == x
  {
  }

  // ----- the mixing step

  /** x -= y; x -= z; x ^= s, where s is z shifted. */
  function Stir(x: Word, y: Word, z: Word, s: Word): Word { Xor(Minus(Minus(x, y), z), s) }

  function Unstir(x: Word, y: Word, z: Word, s: Word): Word { Plus(Plus(Xor(x, s), z), y) }

  lemma StirBack(x: Word, y: Word, z: Word, s: Word)
    ensures Unstir(Stir(x, y, z, s), y, z, s) == x && Stir(Unstir(x, y, z, s), y, z, s) == x
  {
    hide Xor, Plus, Minus;
    var d, u := Minus(x, y), Xor(x, s);
    XorBack(Minus(d, z), s);
    MinusBack(d, z);
    MinusBack(x, y);
    MinusBack(Plus(u, z), y);
    MinusBack(u, z);
    XorBack(x, s);
  }

  /** A third of __jhash_mix: `a`, `b` and `c` are each changed once, with `b`'s shift to the left. */
  function Round(t: State, r: Word -> Word, l: Word -> Word, q: Word -> Word): State {
    var a := Stir(t.a, t.b, t.c, r(t.c));
    var b := Stir(t.b, t.c, a, l(a));
    State(a, b, Stir(t.c, a, b, q(b)))
  }

  function Unround(t: State, r: Word -> Word, l: Word -> Word, q: Word -> Word): State {
    var c := Unstir(t.c, t.a, t.b, q(t.b));
    var b := Unstir(t.b, c, t.a, l(t.a));
    State(Unstir(t.a, b, c, r(c)), b, c)
  }

  lemma RoundBack(t: State, r: Word -> Word, l: Word -> Word, q: Word -> Word)
    ensures Unround(Round(t, r, l, q), r, l, q) == t && Round(Unround(t, r, l, q), r, l, q) == t
  {
    hide Stir, Unstir;
    var u := Round(t, r, l, q);
    StirBack(t.a, t.b, t.c, r(t.c));
    StirBack(t.b, t.c, u.a, l(u.a));
    StirBack(t.c, u.a, u.b, q(u.b));
    var v := Unround(t, r, l, q);
    StirBack(t.c, t.a, t.b, q(t.b));
    StirBack(t.b, v.c, t.a, l(t.a));
    StirBack(t.a, v.b, v.c, r(v.c));
  }

  function R13(x: Word): Word { x / 0x2000 }
  function L8(x: Word): Word { x * 0x100 % LIMIT }
  function R12(x: Word): Word { x / 0x1000 }
  function L16(x: Word): Word { x * 0x1_0000 % LIMIT }
  function R5(x: Word): Word { x / 0x20 }
  function R3(x: Word): Word { x / 8 }
  function L10(x: Word): Word { x * 0x400 % LIMIT }
  function R15(x: Word): Word { x / 0x8000 }

  function Mix(t: State): State {
    Round(Round(Round(t, R13, L8, R13), R12, L16, R5), R3, L10, R15)
  }

  function Unmix(t: State): State {
    Unround(Unround(Unround(t, R3, L10, R15), R12, L16, R5), R13, L8, R13)
  }

  /** __jhash_mix is a bijection on triples of words. */
  lemma MixIsBijection(t: State)
    ensures Unmix(Mix(t)) == t && Mix(Unmix(t)) == t
  {
    hide Round, Unround;
    var u := Round(t, R13, L8, R13);
    var v := Round(u, R12, L16, R5);
    RoundBack(t, R13, L8, R13);
    RoundBack(u, R12, L16, R5);
    RoundBack(v, R3, L10, R15);
    var w := Unround(t, R3, L10, R15);
    RoundBack(t, R3, L10, R15);
    RoundBack(w, R12, L16, R5);
    RoundBack(Unround(w, R12, L16, R5), R13, L8, R13);
  }

  /** Different triples are mixed into different triples. */
  lemma MixIsInjective(t: State, u: State)
    ensures Mix(t) == Mix(u) ==> t == u
  {
    MixIsBijection(t);
    MixIsBijection(u);
  }

  method JhashMix(a0: Word, b0: Word, c0: Word) returns (a: Word, b: Word, c: Word)
    ensures State(a, b, c) == Mix(State(a0, b0, c0))
  {
    hide Xor, Minus, R13, L8, R12, L16, R5, R3, L10, R15;
    a, b, c := a0, b0, c0;
    a := Minus(a, b); a := Minus(a, c); a := Xor(a, R13(c));
    b := Minus(b, c); b := Minus(b, a); b := Xor(b, L8(a));
    c := Minus(c, a); c := Minus(c, b); c := Xor(c, R13(b));
    a := Minus(a, b); a := Minus(a, c); a := Xor(a, R12(c));
    b := Minus(b, c); b := Minus(b, a); b := Xor(b, L16(a));
    c := Minus(c, a); c := Minus(c, b); c := Xor(c, R5(b));
    a := Minus(a, b); a := Minus(a, c); a := Xor(a, R3(c));
    b := Minus(b, c); b := Minus(b, a); b := Xor(b, L10(a));
    c := Minus(c, a); c := Minus(c, b); c := Xor(c, R15(b));
  }

  // ----- hashing bytes and hashing words

  /** The number that bytes stand for, lowest byte first. */
  function Value(k: seq<Byte>): nat {
    if k == [] then 0 else k[0] + 0x100 * Value(k[1..])
  }

  lemma ValueIsWord(k: seq<Byte>)
    requires |k| <= 4
    ensures Value(k) < LIMIT && (|k| <= 3 ==> Value(k) * 0x100 < LIMIT)
    ensures Value(k) == At(k, 0) + 0x100 * At(k, 1) + 0x1_0000 * At(k, 2) + 0x100_0000 * At(k, 3)
  {
    if |k| > 1 {
      assert k[1..][1..] == k[2..];
    }
    if |k| > 2 {
      assert k[2..][1..] == k[3..];
    }
    if |k| > 3 {
      assert k[3..][1..] == [];
    }
  }

  function At(k: seq<Byte>, i: nat): nat {
    if i < |k| then k[i] else 0
  }

  function Start(initval: Word): State { State(GOLDEN_RATIO, GOLDEN_RATIO, initval) }

  function Absorb(t: State, a: Word, b: Word, c: Word): State {
    Mix(State(Plus(t.a, a), Plus(t.b, b), Plus(t.c, c)))
  }

  function WordAt(k: seq<Byte>, i: nat): Word
    requires i + 4 <= |k|
  {
    ValueIsWord(k[i..i + 4]);
    Value(k[i..i + 4])
  }

  /** The rest of the key hashed into state `t`: twelve bytes at a time, then what is left and the length. */
  function HashBytesFrom(k: seq<Byte>, t: State, length: Word): Word {
    if |k| >= 12
    then HashBytesFrom(k[12..], Absorb(t, WordAt(k, 0), WordAt(k, 4), WordAt(k, 8)), length)
    else Mix(FinishBytes(t, k, length)).c
  }

  function Min(a: nat, b: nat): nat { if a <= b then a else b }

  /** The last bytes; the length takes the place of the lowest byte of `c`. */
  function FinishBytes(t: State, k: seq<Byte>, length: Word): State
    requires |k| < 12
  {
    var i, j := Min(|k|, 4), Min(|k|, 8);
    ValueIsWord(k[..i]);
    ValueIsWord(k[i..j]);
    ValueIsWord(k[j..]);
    State(Plus(t.a, Value(k[..i])), Plus(t.b, Value(k[i..j])), Plus(Plus(t.c, length), Value(k[j..]) * 0x100))
  }

  function HashWordsFrom(k: seq<Word>, t: State, length: Word): Word {
    if |k| >= 3
    then HashWordsFrom(k[3..], Absorb(t, k[0], k[1], k[2]), length)
    else Mix(FinishWords(t, k, length)).c
  }

  function FinishWords(t: State, k: seq<Word>, length: Word): State {
    State(Plus(t.a, if |k| > 0 then k[0] else 0), Plus(t.b, if |k| > 1 then k[1] else 0), Plus(t.c, length * 4 % LIMIT))
  }

  function HashBytes(k: seq<Byte>, initval: Word): Word
    requires |k| < LIMIT
  {
    HashBytesFrom(k, Start(initval), |k|)
  }

  function HashWords(k: seq<Word>, initval: Word): Word
    requires |k| < LIMIT
  {
    HashWordsFrom(k, Start(initval), |k|)
  }

  // ----- the bytes of words

  function Bytes(w: Word): (k: seq<Byte>)
    ensures |k| == 4
  {
    [w % 0x100, w / 0x100 % 0x100, w / 0x1_0000 % 0x100, w / 0x100_0000]
  }

  /** The words in memory, lowest byte first. */
  function LittleEndian(ws: seq<Word>): (k: seq<Byte>)
    ensures |k| == 4 * |ws|
  {
    if ws == [] then [] else Bytes(ws[0]) + LittleEndian(ws[1..])
  }

  lemma BytesBack(w: Word)
    ensures Value(Bytes(w)) == w
  {
    hide Value;
    ValueIsWord(Bytes(w));
    Digits(w, w / 0x100, w / 0x1_0000, w / 0x100_0000);
  }

  lemma Digits(w: nat, x: nat, y: nat, z: nat)
    requires x == w / 0x100 && y == w / 0x1_0000 && z == w / 0x100_0000
    ensures w == w % 0x100 + 0x100 * (x % 0x100) + 0x1_0000 * (y % 0x100) + 0x100_0000 * z
  {
    assert w == w % 0x100 + 0x100 * x;
    assert x / 0x100 == y && y / 0x100 == z;
    assert x == x % 0x100 + 0x100 * y;
    assert y == y % 0x100 + 0x100 * z;
  }

  lemma LittleEndianFirst(ws: seq<Word>)
    requires ws != []
    ensures LittleEndian(ws)[0..4] == Bytes(ws[0]) && LittleEndian(ws)[4..] == LittleEndian(ws[1..])
  {
    hide Bytes;
    var b, rest := Bytes(ws[0]), LittleEndian(ws[1..]);
    assert LittleEndian(ws) == b + rest;
    hide LittleEndian;
    assert (b + rest)[0..4] == b && (b + rest)[4..] == rest;
  }

  lemma {:induction false} LittleEndianAt(ws: seq<Word>, i: nat)
    requires i < |ws|
    ensures LittleEndian(ws)[4 * i..4 * i + 4] == Bytes(ws[i]) && WordAt(LittleEndian(ws), 4 * i) == ws[i]
    ensures LittleEndian(ws)[4 * i + 4..] == LittleEndian(ws[i + 1..])
  {
    hide LittleEndian, Bytes, Value;
    LittleEndianFirst(ws);
    BytesBack(ws[i]);
    if i > 0 {
      LittleEndianAt(ws[1..], i - 1);
      assert ws[1..][i..] == ws[i + 1..];
      var k, m := LittleEndian(ws), LittleEndian(ws[1..]);
      assert k[4..] == m && ws[1..][i - 1] == ws[i];
      assert k[4 * i..4 * i + 4] == k[4..][4 * i - 4..4 * i];
      assert k[4 * i + 4..] == k[4..][4 * i..];
    }
  }

  /** Hashing words three at a time is hashing their bytes twelve at a time. */
  lemma {:induction false} WordsAreBytesFrom(ws: seq<Word>, t: State, length: Word)
    requires length * 4 < LIMIT
    ensures HashWordsFrom(ws, t, length) == HashBytesFrom(LittleEndian(ws), t, length * 4)
  {
    hide Mix, Plus, Value, Bytes, LittleEndian;
    var k := LittleEndian(ws);
    if |ws| >= 3 {
      LittleEndianAt(ws, 0);
      LittleEndianAt(ws, 1);
      LittleEndianAt(ws, 2);
      WordsAreBytesFrom(ws[3..], Absorb(t, ws[0], ws[1], ws[2]), length);
    } else {
      assert FinishWords(t, ws, length) == FinishBytes(t, k, length * 4) by { LastWords(ws, t, length); }
    }
  }

  lemma LastWords(ws: seq<Word>, t: State, length: Word)
    requires |ws| < 3 && length * 4 < LIMIT
    ensures FinishWords(t, ws, length) == FinishBytes(t, LittleEndian(ws), length * 4)
  {
    assert length * 4 % LIMIT == length * 4;
    hide LittleEndian, Value, Plus, Min;
    var k := LittleEndian(ws);
    PlusZero(Plus(t.c, length * 4));
    LastBytes(ws);
    var f, g := FinishWords(t, ws, length), FinishBytes(t, k, length * 4);
    assert f.a == g.a && f.b == g.b;
    assert f.c == g.c;
  }

  lemma PlusZero(x: Word)
    ensures Plus(x, 0) == x
  {
  }

  lemma LastBytes(ws: seq<Word>)
    requires |ws| < 3
    ensures var k := LittleEndian(ws);
      var i, j := Min(|k|, 4), Min(|k|, 8);
      && Value(k[..i]) == (if |ws| > 0 then ws[0] else 0)
      && Value(k[i..j]) == (if |ws| > 1 then ws[1] else 0) && Value(k[j..]) == 0
  {
    var k := LittleEndian(ws);
    if ws == [] {
      assert k == [];
    } else if |ws| == 1 {
      LittleEndianAt(ws, 0);
      assert k[..4] == k[0..4] && k[4..4] == [] && k[4..] == [];
    } else {
      LittleEndianAt(ws, 0);
      LittleEndianAt(ws, 1);
      assert k[..4] == k[0..4] && k[8..] == [];
    }
    hide LittleEndian, Bytes;
  }

  /** jhash2() of n words is jhash() of their bytes, for every n below 2^30 and every seed. */
  lemma WordsAreBytes(ws: seq<Word>, initval: Word)
    requires |ws| < 0x4000_0000
    ensures HashWords(ws, initval) == HashBytes(LittleEndian(ws), initval)
  {
    hide HashWordsFrom, HashBytesFrom, LittleEndian;
    WordsAreBytesFrom(ws, Start(initval), |ws|);
  }

  // ----- the functions as they run

  lemma PlusPlus(x: Word, y: nat, z: nat)
    requires y + z < LIMIT
    ensures Plus(Plus(x, y), z) == Plus(x, y + z)
  {
  }

  function Shl8(b: Byte): Word { (b as int) * 0x100 }
  function Shl16(b: Byte): Word { (b as int) * 0x1_0000 }
  function Shl24(b: Byte): Word { (b as int) * 0x100_0000 }

  /** Up to four bytes added from the last one down. */
  function Down(x: Word, k: seq<Byte>): Word {
    var x3 := if |k| >= 4 then Plus(x, Shl24(k[3])) else x;
    var x2 := if |k| >= 3 then Plus(x3, Shl16(k[2])) else x3;
    var x1 := if |k| >= 2 then Plus(x2, Shl8(k[1])) else x2;
    if |k| >= 1 then Plus(x1, k[0]) else x1
  }

  /** Up to three bytes, one place higher. */
  function DownHigh(x: Word, k: seq<Byte>): Word {
    var x2 := if |k| >= 3 then Plus(x, Shl24(k[2])) else x;
    var x1 := if |k| >= 2 then Plus(x2, Shl16(k[1])) else x2;
    if |k| >= 1 then Plus(x1, Shl8(k[0])) else x1
  }

  lemma DownAddsValue(x: Word, k: seq<Byte>)
    requires |k| <= 4
    ensures Value(k) < LIMIT && Down(x, k) == Plus(x, Value(k))
  {
    ValueIsWord(k);
    hide Plus, Value;
    var d, c, b := At(k, 3) * 0x100_0000, At(k, 2) * 0x1_0000, At(k, 1) * 0x100;
    PlusZero(x);
    if |k| >= 4 { PlusPlus(x, d, c); }
    if |k| >= 3 { PlusPlus(x, d + c, b); }
    if |k| >= 2 { PlusPlus(x, d + c + b, At(k, 0)); }
  }

  lemma DownHighAddsValue(x: Word, k: seq<Byte>)
    requires |k| <= 3
    ensures Value(k) * 0x100 < LIMIT && DownHigh(x, k) == Plus(x, Value(k) * 0x100)
  {
    ValueIsWord(k);
    hide Plus, Value;
    var d, c := At(k, 2) * 0x100_0000, At(k, 1) * 0x1_0000;
    PlusZero(x);
    if |k| >= 3 { PlusPlus(x, d, c); }
    if |k| >= 2 { PlusPlus(x, d + c, At(k, 0) * 0x100); }
  }

  function Combine(w: Byte, x: Byte, y: Byte, z: Byte): Word {
    (w as int) + Shl8(x) + Shl16(y) + Shl24(z)
  }

  lemma CombineIsWord(k: seq<Byte>, i: nat)
    requires i + 4 <= |k|
    ensures WordAt(k, i) == Combine(k[i], k[i + 1], k[i + 2], k[i + 3])
  {
    var q := k[i..i + 4];
    ValueIsWord(q);
    hide Value;
    assert q[0] == k[i] && q[1] == k[i + 1] && q[2] == k[i + 2] && q[3] == k[i + 3];
  }

  lemma Twelve(k: seq<Byte>, t: State, length: Word)
    requires |k| >= 12
    ensures HashBytesFrom(k, t, length) == HashBytesFrom(k[12..],
      Mix(State(Plus(t.a, Combine(k[0], k[1], k[2], k[3])), Plus(t.b, Combine(k[4], k[5], k[6], k[7])),
                Plus(t.c, Combine(k[8], k[9], k[10], k[11])))), length)
  {
    hide Mix, Plus, Combine, WordAt;
    CombineIsWord(k, 0);
    CombineIsWord(k, 4);
    CombineIsWord(k, 8);
  }

  /** The switch with its fall-through: at most eleven bytes, after the length has been added. */
  method FinishSwitch(a0: Word, b0: Word, c0: Word, k: seq<Byte>) returns (a: Word, b: Word, c: Word)
    requires |k| < 12
    ensures var i, j := Min(|k|, 4), Min(|k|, 8);
      a == Down(a0, k[..i]) && b == Down(b0, k[i..j]) && c == DownHigh(c0, k[j..])
  {
    hide Plus, Shl8, Shl16, Shl24;
    a, b, c := a0, b0, c0;
    if |k| >= 11 { c := Plus(c, Shl24(k[10])); }
    if |k| >= 10 { c := Plus(c, Shl16(k[9])); }
    if |k| >= 9 { c := Plus(c, Shl8(k[8])); }
    if |k| >= 8 { b := Plus(b, Shl24(k[7])); }
    if |k| >= 7 { b := Plus(b, Shl16(k[6])); }
    if |k| >= 6 { b := Plus(b, Shl8(k[5])); }
    if |k| >= 5 { b := Plus(b, k[4]); }
    if |k| >= 4 { a := Plus(a, Shl24(k[3])); }
    if |k| >= 3 { a := Plus(a, Shl16(k[2])); }
    if |k| >= 2 { a := Plus(a, Shl8(k[1])); }
    if |k| >= 1 { a := Plus(a, k[0]); }
  }

  lemma SwitchFinishes(t: State, k: seq<Byte>, length: Word)
    requires |k| < 12
    ensures var i, j := Min(|k|, 4), Min(|k|, 8);
      FinishBytes(t, k, length) == State(Down(t.a, k[..i]), Down(t.b, k[i..j]), DownHigh(Plus(t.c, length), k[j..]))
  {
    var i, j := Min(|k|, 4), Min(|k|, 8);
    DownAddsValue(t.a, k[..i]);
    DownAddsValue(t.b, k[i..j]);
    DownHighAddsValue(Plus(t.c, length), k[j..]);
    hide Down, DownHigh, Plus, Value, Min;
  }

  method Jhash(key: seq<Byte>, length: Word, initval: Word) returns (hash: Word)
    requires |key| == length
    ensures hash == HashBytes(key, initval)
  {
    hide Mix, Plus, Combine, HashBytesFrom, FinishBytes, Down, DownHigh, Min;
    var len := length;
    var a: Word, b: Word, c: Word := GOLDEN_RATIO, GOLDEN_RATIO, initval;
    var k: nat := 0;
    assert key[0..] == key;
    while len >= 12
      invariant k + len == |key|
      invariant HashBytesFrom(key[k..], State(a, b, c), length) == HashBytes(key, initval)
      decreases len
    {
      Twelve(key[k..], State(a, b, c), length);
      assert key[k..][12..] == key[k + 12..];
      a := Plus(a, Combine(key[k], key[k + 1], key[k + 2], key[k + 3]));
      b := Plus(b, Combine(key[k + 4], key[k + 5], key[k + 6], key[k + 7]));
      c := Plus(c, Combine(key[k + 8], key[k + 9], key[k + 10], key[k + 11]));
      a, b, c := JhashMix(a, b, c);
      k := k + 12;
      len := len - 12;
    }
    SwitchFinishes(State(a, b, c), key[k..], length);
    Short(key[k..], State(a, b, c), length);
    c := Plus(c, length);
    a, b, c := FinishSwitch(a, b, c, key[k..]);
    a, b, c := JhashMix(a, b, c);
    hash := c;
  }

  lemma Short(k: seq<Byte>, t: State, length: Word)
    requires |k| < 12
    ensures HashBytesFrom(k, t, length) == Mix(FinishBytes(t, k, length)).c
  {
  }

  method Jhash2(k: seq<Word>, length: Word, initval: Word) returns (hash: Word)
    requires |k| == length
    ensures hash == HashWords(k, initval)
  {
    hide Mix, Plus;
    var a: Word, b: Word, c: Word := GOLDEN_RATIO, GOLDEN_RATIO, initval;
    var len, i: nat := length, 0;
    assert k[0..] == k;
    while len >= 3
      invariant i + len == |k|
      invariant HashWordsFrom(k[i..], State(a, b, c), length) == HashWords(k, initval)
      decreases len
    {
      assert k[i..][3..] == k[i + 3..];
      a := Plus(a, k[i]);
      b := Plus(b, k[i + 1]);
      c := Plus(c, k[i + 2]);
      a, b, c := JhashMix(a, b, c);
      i := i + 3;
      len := len - 3;
    }
    PlusZero(a);
    PlusZero(b);
    c := Plus(c, length * 4 % LIMIT);
    if len >= 2 {
      b := Plus(b, k[i + 1]);
    }
    if len >= 1 {
      a := Plus(a, k[i]);
    }
    a, b, c := JhashMix(a, b, c);
    hash := c;
  }

  method Jhash3Words(a0: Word, b0: Word, c0: Word, initval: Word) returns (hash: Word)
    ensures hash == Absorb(Start(initval), a0, b0, c0).c
  {
    hide Mix;
    var a := Plus(a0, GOLDEN_RATIO);
    var b := Plus(b0, GOLDEN_RATIO);
    var c := Plus(c0, initval);
    a, b, c := JhashMix(a, b, c);
    hash := c;
  }

  lemma PlusSwaps(x: Word, y: Word)
    ensures Plus(x, y) == Plus(y, x)
  {
  }

  lemma PlusCancels(x: Word, y: Word, z: Word)
    requires Plus(x, y) == Plus(x, z)
    ensures y == z
  {
    PlusSwaps(x, y);
    PlusSwaps(x, z);
    MinusBack(y, x);
    MinusBack(z, x);
  }

  /** Nothing is lost in the mixing: from one state, different words lead to different states. */
  lemma AbsorbIsInjective(t: State, a: Word, b: Word, c: Word, x: Word, y: Word, z: Word)
    requires Absorb(t, a, b, c) == Absorb(t, x, y, z)
    ensures a == x && b == y && c == z
  {
    hide Mix, Plus;
    MixIsInjective(State(Plus(t.a, a), Plus(t.b, b), Plus(t.c, c)), State(Plus(t.a, x), Plus(t.b, y), Plus(t.c, z)));
    PlusCancels(t.a, a, x);
    PlusCancels(t.b, b, y);
    PlusCancels(t.c, c, z);
  }

  // ----- buckets

  /** jhash_3words() cut down to a table of `size` buckets, which need not be a power of two. */
  function Bucket(first: Word, src: Word, dst: Word, rnd: Word, size: Word): (b: nat)
    requires size > 0
    ensures b < size
  {
    And(Absorb(Start(rnd), first, src, dst).c, size - 1)
  }

  /** x << 16 | low */
  function Above(x: Word, low: Byte): Word { x % 0x1_0000 * 0x1_0000 + (low as int) }

  /** hash_flow */
  function HashFlow(src: Word, dst: Word, portSrc: nat, portDst: nat, proto: Byte, rnd: Word, size: Word): (b: nat)
    requires portSrc < 0x1_0000 && portDst < 0x1_0000 && size > 0
    ensures b < size
  {
    Bucket(Above(Xor(portSrc, portDst), proto), src, dst, rnd, size)
  }

  /** hash_fragment */
  function HashFragment(id: nat, src: Word, dst: Word, proto: Byte, rnd: Word, size: Word): (b: nat)
    requires id < 0x1_0000 && size > 0
    ensures b < size
  {
    Bucket(Above(id, proto), src, dst, rnd, size)
  }
}
