/** Which bits a Base64 letter carries: the encoding and the decoding as numbers, over the alphabet written in one piece. */
module Base64Bits {
  import opened Wrappers
  import opened Base64

  const ALPHABET := "ABCDEFGHIJKLMNOPQRSTUVWXYZabcdefghijklmnopqrstuvwxyz0123456789+/"

  /** The i-th byte, or zero bits where there is none. */
  function ByteAt(x: seq<Byte>, i: nat): Byte { if i < |x| then x[i] else 0 }

  /** The i-th group of three bytes, first byte highest. */
  function Group(x: seq<Byte>, i: nat): nat {
    ByteAt(x, 3 * i) * 65536 + ByteAt(x, 3 * i + 1) * 256 + ByteAt(x, 3 * i + 2)
  }

  /** Its m-th group of six bits, highest first. */
  function SixBits(n: nat, m: nat): nat
    requires m < 4
  {
    if m == 0 then n / 262144 else if m == 1 then n / 4096 % 64 else if m == 2 then n / 64 % 64 else n % 64
  }

  lemma AlphabetSize()
    ensures |ALPHABET| == 64
  {
  }

  function InAlphabet(v: nat): char
    requires v < 64
  {
    AlphabetSize();
    ALPHABET[v]
  }

  // The alphabet's beginnings, shorter and shorter, to compare it with the letters piece by piece.
  const UP_TO_Z := "ABCDEFGHIJKLMNOPQRSTUVWXYZabcdefghijklmnopqrstuvwxyz"
  const UP_TO_M := "ABCDEFGHIJKLMNOPQRSTUVWXYZabcdefghijklm"

  lemma Others(v: nat)
    requires v < 64
    ensures |ALPHABET| == 64 && |UP_TO_Z| == 52
    ensures ALPHABET[v] == if v < 52 then UP_TO_Z[v] else Letter(v)
  {
  }

  lemma LowerEnd(v: nat)
    requires v < 52
    ensures |UP_TO_Z| == 52 && |UP_TO_M| == 39
    ensures UP_TO_Z[v] == if v < 39 then UP_TO_M[v] else Letter(v)
  {
  }

  lemma LowerStart(v: nat)
    requires v < 39
    ensures |UP_TO_M| == 39 && |UPPER| == 26
    ensures UP_TO_M[v] == if v < 26 then UPPER[v] else Letter(v)
  {
  }

  lemma LetterIs(v: nat)
    requires v < 64
    ensures Letter(v) == InAlphabet(v)
  {
    Others(v);
    TableHolds(v);
    hide Letter;
    if v < 52 {
      LowerEnd(v);
      if v < 39 {
        LowerStart(v);
      }
    }
  }

  lemma SixBitsOf(x: Byte, y: Byte, z: Byte)
    ensures var n := x * 65536 + y * 256 + z;
      && SixBits(n, 0) == x / 4 && SixBits(n, 1) == x % 4 * 16 + y / 16
      && SixBits(n, 2) == y % 16 * 4 + z / 64 && SixBits(n, 3) == z % 64
  {
    var n := x * 65536 + y * 256 + z;
    var a, b, c, d := x / 4, x % 4 * 16 + y / 16, y % 16 * 4 + z / 64, z % 64;
    assert x == 4 * a + x % 4 && y == 16 * (y / 16) + y % 16 && z == 64 * (z / 64) + d;
    assert n == a * 262144 + b * 4096 + c * 64 + d;
    Split(a, b, c, d);
  }

  lemma Split(a: nat, b: nat, c: nat, d: nat)
    requires b < 64 && c < 64 && d < 64
    ensures var n := a * 262144 + b * 4096 + c * 64 + d;
      n / 262144 == a && n / 4096 % 64 == b && n / 64 % 64 == c && n % 64 == d
  {
    var n := a * 262144 + b * 4096 + c * 64 + d;
    assert n / 64 == a * 4096 + b * 64 + c;
    assert n / 4096 == a * 64 + b;
  }

  /** The characters of three bytes, and of a tail padded with zero bytes. */
  lemma QuadChar(x: Byte, y: Byte, z: Byte, m: nat)
    requires m < 4
    ensures var n := x * 65536 + y * 256 + z;
      SixBits(n, m) < 64 && Quad(x, y, z)[m] == InAlphabet(SixBits(n, m))
  {
    SixBitsOf(x, y, z);
    hide SixBits, InAlphabet, Letter;
    LetterIs(x / 4);
    LetterIs(x % 4 * 16 + y / 16);
    LetterIs(y % 16 * 4 + z / 64);
    LetterIs(z % 64);
  }

  lemma TailChar(x: seq<Byte>, m: nat)
    requires 0 < |x| < 3 && m < 4
    ensures Tail(x)[m] == if m > |x| then '=' else Quad(x[0], ByteAt(x, 1), 0)[m]
  {
    hide Letter;
  }

  lemma GroupAt(x: seq<Byte>, i: nat)
    ensures |x| >= 3 ==> Group(x, i + 1) == Group(x[3..], i)
    ensures x != [] ==> Group(x, 0) == x[0] * 65536 + ByteAt(x, 1) * 256 + ByteAt(x, 2)
  {
  }

  lemma FirstQuad(x: seq<Byte>)
    ensures |x| >= 3 ==> Encoded(x) == Quad(x[0], x[1], x[2]) + Encoded(x[3..])
    ensures 0 < |x| < 3 ==> Encoded(x) == Tail(x)
    ensures x == [] ==> Encoded(x) == ""
  {
  }

  /** The character of a letter, or padding. */
  function CharOf(x: seq<Byte>, k: nat): char
    requires SixBits(Group(x, k / 4), k % 4) < 64
  {
    if 3 * (k / 4) + k % 4 > |x| then '=' else InAlphabet(SixBits(Group(x, k / 4), k % 4))
  }

  lemma CharNext(x: seq<Byte>, k: nat)
    requires |x| >= 3 && k >= 4 && SixBits(Group(x[3..], (k - 4) / 4), (k - 4) % 4) < 64
    ensures SixBits(Group(x, k / 4), k % 4) < 64 && CharOf(x, k) == CharOf(x[3..], k - 4)
  {
    hide InAlphabet, SixBits, Group;
    assert k / 4 == (k - 4) / 4 + 1 && k % 4 == (k - 4) % 4;
    GroupAt(x, (k - 4) / 4);
  }

  lemma CharFirst(x: seq<Byte>, k: nat)
    requires k < 4 && SixBits(Group(x, 0), k) < 64
    ensures SixBits(Group(x, k / 4), k % 4) < 64
    ensures CharOf(x, k) == if k > |x| then '=' else InAlphabet(SixBits(Group(x, 0), k))
  {
    assert k / 4 == 0 && k % 4 == k;
  }

  lemma FirstChars(x: seq<Byte>, k: nat)
    requires x != [] && k < 4 && k < |Encoded(x)|
    ensures SixBits(Group(x, k / 4), k % 4) < 64 && Encoded(x)[k] == CharOf(x, k)
  {
    FirstQuad(x);
    GroupAt(x, 0);
    hide Encoded, InAlphabet, SixBits, Group, Quad, Tail, CharOf;
    QuadChar(x[0], ByteAt(x, 1), ByteAt(x, 2), k);
    CharFirst(x, k);
    if |x| < 3 {
      TailChar(x, k);
    }
  }

  /**
   * The k-th character of the encoding: letter number k % 4 of group k / 4, or padding if none of its bits are the
   * input's.
   */
  lemma {:induction false} EncodedChar(x: seq<Byte>, k: nat)
    requires k < |Encoded(x)|
    ensures SixBits(Group(x, k / 4), k % 4) < 64
    ensures Encoded(x)[k] == if 3 * (k / 4) + k % 4 > |x| then '=' else InAlphabet(SixBits(Group(x, k / 4), k % 4))
    decreases |x|
  {
    hide Encoded, InAlphabet, SixBits, Group, Quad, Tail;
    FirstQuad(x);
    if k < 4 {
      FirstChars(x, k);
    } else {
      EncodedChar(x[3..], k - 4);
      CharNext(x, k);
    }
  }

  /** Lines of 72: the k-th character comes after k / 72 line feeds. */
  lemma {:induction false} InLines(s: string, k: nat)
    requires k < |s|
    ensures k + k / 72 < |Lines(s)| && Lines(s)[k + k / 72] == s[k]
    decreases |s|
  {
    if |s| >= 72 {
      assert Lines(s) == s[..72] + "\n" + Lines(s[72..]);
      if k >= 72 {
        InLines(s[72..], k - 72);
        assert k / 72 == (k - 72) / 72 + 1;
      }
    }
  }

  /** Every character that base64_encode writes, and how many there are, line feeds included. */
  lemma OutputChar(x: seq<Byte>, k: nat)
    requires k < (|x| + 2) / 3 * 4
    ensures k + k / 72 < |Lines(Encoded(x))| && SixBits(Group(x, k / 4), k % 4) < 64
    ensures Lines(Encoded(x))[k + k / 72] == if 3 * (k / 4) + k % 4 > |x| then '=' else InAlphabet(SixBits(Group(x, k / 4), k % 4))
  {
    hide Encoded, Lines, InAlphabet, SixBits, Group;
    EncodedLength(x);
    EncodedChar(x, k);
    InLines(Encoded(x), k);
  }

  lemma OutputLength(x: seq<Byte>)
    ensures var e := (|x| + 2) / 3 * 4; |Lines(Encoded(x))| == e + (e + 71) / 72
  {
    hide Encoded, Broken;
    EncodedLength(x);
    BrokenLength(Encoded(x));
  }

  // ----- decoding

  /** What a character stands for: its index in the alphabet; '=' stands for zero. */
  predicate Stands(c: char, v: nat) {
    (v < 64 && InAlphabet(v) == c) || (c == '=' && v == 0)
  }

  ghost predicate Reads64(c: char) {
    exists v: nat :: Stands(c, v)
  }

  lemma ValueStands(c: char, v: nat)
    ensures Stands(c, v) <==> v < 64 && Value(c) == v
  {
    if v < 64 {
      LetterIs(v);
      if Value(c) == v && c != '=' {
        LetterOf(c);
      }
    }
  }

  lemma Skipped(c: char)
    ensures Value(c) < 64 <==> Reads64(c)
    ensures Value(c) == SKIP <==> !Reads64(c)
  {
    hide InAlphabet;
    ValueStands(c, Value(c));
    forall v: nat | Stands(c, v) ensures Value(c) == v < 64 {
      ValueStands(c, v);
    }
  }

  /** The number that a character stands for. */
  ghost function Digit(c: char): (v: nat)
    requires Reads64(c)
    ensures Stands(c, v)
  {
    var v: nat :| Stands(c, v);
    v
  }

  lemma DigitIs(c: char)
    requires Reads64(c)
    ensures Digit(c) == Value(c) < 64
  {
    ValueStands(c, Digit(c));
  }

  ghost predicate AllRead(t: string) {
    forall i :: 0 <= i < |t| ==> Reads64(t[i])
  }

  /** The characters of the alphabet, and '='. */
  ghost function Kept(s: string): string {
    if s == "" then "" else Kept(s[..|s| - 1]) + if Reads64(s[|s| - 1]) then [s[|s| - 1]] else ""
  }

  lemma {:induction false} KeptIsRead(s: string)
    ensures Significant(s) == Kept(s) && AllRead(Kept(s)) && AllSignificant(Kept(s))
  {
    hide Reads64, Value;
    if s != "" {
      KeptIsRead(s[..|s| - 1]);
      Skipped(s[|s| - 1]);
    }
  }

  /** The number that four characters stand for, first one highest. */
  ghost function QuadNumber(t: string, i: nat): nat
    requires AllRead(t) && 4 * i + 3 < |t|
  {
    Digit(t[4 * i]) * 262144 + Digit(t[4 * i + 1]) * 4096 + Digit(t[4 * i + 2]) * 64 + Digit(t[4 * i + 3])
  }

  /** The number that three bytes are, first one highest. */
  function Number(x: Byte, y: Byte, z: Byte): nat { (x as int) * 65536 + (y as int) * 256 + (z as int) }

  lemma ThreeIs(a: Byte, b: Byte, c: Byte, d: Byte)
    requires a < 64 && b < 64 && c < 64 && d < 64
    ensures var r := Three(a, b, c, d);
      Number(r[0], r[1], r[2]) == (a as int) * 262144 + (b as int) * 4096 + (c as int) * 64 + (d as int)
  {
    ShiftedOut(b, c);
    assert a * 4 % 256 == a * 4;
    assert b == b / 16 * 16 + b % 16 && c == c / 4 * 4 + c % 4;
  }

  lemma {:induction false} BytesLength(t: string)
    requires AllSignificant(t) && |t| % 4 == 0
    ensures |Bytes(t)| == |t| / 4 * 3
  {
    if |t| >= 4 {
      hide Value, Three;
      BytesLength(t[..|t| - 4]);
    }
  }

  lemma LastQuadIs(t: string, q: nat)
    requires AllSignificant(t) && AllRead(t) && |t| == 4 * q + 4
    ensures |Bytes(t)| == 3 * q + 3 && Bytes(t)[..3 * q] == Bytes(t[..4 * q])
    ensures Number(Bytes(t)[3 * q], Bytes(t)[3 * q + 1], Bytes(t)[3 * q + 2]) == QuadNumber(t, q)
  {
    var k := 4 * q;
    BytesLength(t[..k]);
    DigitIs(t[k]);
    DigitIs(t[k + 1]);
    DigitIs(t[k + 2]);
    DigitIs(t[k + 3]);
    hide Value, Three, Reads64, AllRead, Number;
    ThreeIs(Value(t[k]), Value(t[k + 1]), Value(t[k + 2]), Value(t[k + 3]));
  }

  /** Each quad's three bytes are its number. */
  lemma {:induction false} DecodedQuad(t: string, q: nat, i: nat)
    requires AllSignificant(t) && AllRead(t) && |t| == 4 * q && i < q
    ensures |Bytes(t)| == 3 * q
    ensures Number(Bytes(t)[3 * i], Bytes(t)[3 * i + 1], Bytes(t)[3 * i + 2]) == QuadNumber(t, i)
    decreases q
  {
    LastQuadIs(t, q - 1);
    if i + 1 < q {
      hide Value, Three, Reads64, Bytes, Number, Digit;
      var head, b := t[..4 * q - 4], Bytes(t);
      DecodedQuad(head, q - 1, i);
      QuadOfPrefix(t, 4 * q - 4, i);
      var c := b[..3 * q - 3];
      assert b[3 * i] == c[3 * i] && b[3 * i + 1] == c[3 * i + 1] && b[3 * i + 2] == c[3 * i + 2];
    }
  }

  lemma QuadOfPrefix(t: string, n: nat, i: nat)
    requires AllRead(t) && 4 * i + 3 < n <= |t|
    ensures AllRead(t[..n]) && QuadNumber(t[..n], i) == QuadNumber(t, i)
  {
    hide Reads64;
  }

  /** Byte `m` of a group of three, the first one highest. */
  function ByteOf(n: nat, m: nat): nat
    requires m < 3
  {
    if m == 0 then n / 65536 else if m == 1 then n / 256 % 256 else n % 256
  }

  lemma ThreeBytes(x: Byte, y: Byte, z: Byte)
    ensures var n := Number(x, y, z); ByteOf(n, 0) == x && ByteOf(n, 1) == y && ByteOf(n, 2) == z
  {
    assert Number(x, y, z) / 256 == (x as int) * 256 + (y as int);
  }

  /** What base64_decode answers, and how many bytes. */
  lemma DecodedLength(s: string)
    ensures Decoded(s).Some? <==> |Kept(s)| % 4 == 0
    ensures Decoded(s).Some? ==>
      var t := Kept(s);
      |Decoded(s).value| == |t| / 4 * 3 - if t == "" then 0 else if t[|t| - 2] == '=' then 2 else if t[|t| - 1] == '=' then 1 else 0
  {
    KeptIsRead(s);
    hide Value, Significant;
    if |Kept(s)| % 4 == 0 {
      BytesLength(Kept(s));
    }
  }

  lemma DecodedIsPrefix(s: string)
    requires Decoded(s).Some?
    ensures |Kept(s)| % 4 == 0 && AllSignificant(Kept(s)) && Decoded(s).value <= Bytes(Kept(s))
  {
    KeptIsRead(s);
    hide Value, Significant;
    BytesLength(Kept(s));
  }

  lemma ByteInQuad(t: string, q: nat, i: nat, m: nat)
    requires AllSignificant(t) && AllRead(t) && |t| == 4 * q && i < q && m < 3
    ensures |Bytes(t)| == 3 * q && Bytes(t)[3 * i + m] == ByteOf(QuadNumber(t, i), m)
  {
    DecodedQuad(t, q, i);
    hide *;
    ThreeBytes(Bytes(t)[3 * i], Bytes(t)[3 * i + 1], Bytes(t)[3 * i + 2]);
    assert m == 0 || m == 1 || m == 2;
  }

  lemma ThirdOf(j: nat, q: nat)
    requires j < 3 * q
    ensures j / 3 < q && j == 3 * (j / 3) + j % 3
  {
  }

  /** Every byte that it writes: the j-th is byte j % 3 of the number that quad j / 3 of the kept characters stands for. */
  lemma DecodedByte(s: string, j: nat)
    requires Decoded(s).Some? && j < |Decoded(s).value|
    ensures 4 * (j / 3) + 3 < |Kept(s)| && AllRead(Kept(s))
    ensures Decoded(s).value[j] == ByteOf(QuadNumber(Kept(s), j / 3), j % 3)
  {
    DecodedIsPrefix(s);
    KeptIsRead(s);
    BytesLength(Kept(s));
    hide *;
    var t, q := Kept(s), |Kept(s)| / 4;
    assert |t| == 4 * q;
    ThirdOf(j, q);
    ByteInQuad(t, q, j / 3, j % 3);
  }

  /** An example in both directions. */
  lemma Man()
    ensures Lines(Encoded([77, 97, 110])) == "TWFu\n" && Decoded("TWFu\n") == Some([77, 97, 110])
  {
    ManLetters();
    OneLine("TWFu");
    RoundTrip([77, 97, 110]);
    hide *;
  }

  lemma ManLetters()
    ensures Encoded([77, 97, 110]) == "TWFu"
  {
    var x: seq<Byte> := [77, 97, 110];
    FirstQuad(x);
    FirstQuad(x[3..]);
    hide Encoded;
    assert Quad(77, 97, 110) == "TWFu";
  }

  lemma OneLine(s: string)
    requires 0 < |s| < 72
    ensures Lines(s) == s + "\n"
  {
  }
}
