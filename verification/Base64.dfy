/** Base64 (src/base64.c): shifts and masks on bytes are written as division and remainder. */
module Base64 {
  import opened Wrappers

  type Byte = b: int | 0 <= b < 256

  const UPPER := "ABCDEFGHIJKLMNOPQRSTUVWXYZ"
  const LOWER := "abcdefghijklmnopqrstuvwxyz"
  const TABLE := UPPER + LOWER + "0123456789" + "+/"
  const SKIP: Byte := 0x80
  const SIZE_MAX := 0x1_0000_0000_0000_0000

  /** What a character stands for: '=' counts as zero, and everything outside the alphabet is skipped. */
  function Value(c: char): Byte {
    if 'A' <= c <= 'Z' then c as int - 'A' as int
    else if 'a' <= c <= 'z' then c as int - 'a' as int + 26
    else if '0' <= c <= '9' then c as int - '0' as int + 52
    else if c == '+' then 62
    else if c == '/' then 63
    else if c == '=' then 0
    else SKIP
  }

  function Letter(v: int): (c: char)
    requires 0 <= v < 64
    ensures Value(c) == v && c != '=' && c as int < 128 && c != '\n'
  {
    if v < 26 then (v + 'A' as int) as char
    else if v < 52 then (v - 26 + 'a' as int) as char
    else if v < 62 then (v - 52 + '0' as int) as char
    else if v == 62 then '+'
    else '/'
  }

  lemma TableHolds(v: int)
    requires 0 <= v < 64
    ensures |TABLE| == 64 && TABLE[v] == Letter(v)
  {
  }

  // ----- encoding

  function Quad(x: Byte, y: Byte, z: Byte): (q: string)
    ensures |q| == 4
  {
    [Letter(x / 4), Letter(x % 4 * 16 + y / 16), Letter(y % 16 * 4 + z / 64), Letter(z % 64)]
  }

  /** The last one or two bytes, padded. */
  function Tail(x: seq<Byte>): (q: string)
    requires 0 < |x| < 3
    ensures |q| == 4
  {
    if |x| == 1 then [Letter(x[0] / 4), Letter(x[0] % 4 * 16), '=', '=']
    else [Letter(x[0] / 4), Letter(x[0] % 4 * 16 + x[1] / 16), Letter(x[1] % 16 * 4), '=']
  }

  /** The encoding without line feeds. */
  function Encoded(x: seq<Byte>): string {
    if x == [] then ""
    else if |x| < 3 then Tail(x)
    else Quad(x[0], x[1], x[2]) + Encoded(x[3..])
  }

  lemma {:induction false} EncodedLength(x: seq<Byte>)
    ensures |Encoded(x)| == (|x| + 2) / 3 * 4
  {
    if |x| >= 3 {
      EncodedLength(x[3..]);
      hide Encoded, Quad;
      EncodedTriple(x);
      assert (|x| - 1) / 3 + 1 == (|x| + 2) / 3;
    }
  }

  /** A line feed after every 72 characters. */
  function Broken(s: string): string {
    if |s| < 72 then s else s[..72] + "\n" + Broken(s[72..])
  }

  /** Where the next character goes on its line. */
  function Column(s: string): nat { |s| % 72 }

  /** The same, with the last line ended too. */
  function Lines(s: string): string {
    Broken(s) + if Column(s) != 0 then "\n" else ""
  }

  /** What is allocated for `len` bytes, in 64-bit arithmetic. */
  function AllocSize(len: nat): nat {
    var olen := len * 4 % SIZE_MAX / 3 + 4;
    (olen + olen / 72 + 1) % SIZE_MAX
  }

  lemma {:induction false} BrokenLength(s: string)
    ensures |Broken(s)| == |s| + |s| / 72
  {
    if |s| >= 72 {
      BrokenLength(s[72..]);
    }
  }

  /** The output and its terminator fit in the allocation, exactly so for a single byte. */
  lemma AllocationSuffices(x: seq<Byte>)
    requires |x| * 4 < SIZE_MAX
    ensures |Lines(Encoded(x))| < AllocSize(|x|)
    ensures |x| == 1 ==> |Lines(Encoded(x))| + 1 == AllocSize(|x|)
  {
    BrokenLength(Encoded(x));
    EncodedLength(x);
    Sizes(|x|);
    hide Encoded, Broken;
  }

  lemma Sizes(n: nat)
    requires n * 4 < SIZE_MAX
    ensures var e := (n + 2) / 3 * 4; e + e / 72 + 1 < AllocSize(n)
    ensures n == 1 ==> AllocSize(n) == 6
  {
    var q, r := n / 3, n % 3;
    var e, o := (q + if r == 0 then 0 else 1) * 4, 4 * q + r + 4;
    assert n * 4 / 3 == 4 * q + r && (n + 2) / 3 * 4 == e < o;
    assert n * 4 % SIZE_MAX == n * 4;
    Monotone(e, o);
    assert (o + o / 72 + 1) % SIZE_MAX == o + o / 72 + 1;
  }

  lemma Monotone(e: nat, o: nat)
    requires e <= o
    ensures e / 72 <= o / 72 <= o
  {
  }

  lemma {:induction false} LineFeeds(s: string, k: nat)
    requires k < |Lines(s)| && k % 73 == 72
    ensures Lines(s)[k] == '\n'
    decreases |s|
  {
    BrokenLength(s);
    if k > 72 {
      assert Lines(s) == s[..72] + "\n" + Lines(s[72..]);
      LineFeeds(s[72..], k - 73);
    }
  }

  /** No line is longer than 72 characters: there is a line feed in any 73 of them. */
  lemma LinesAreShort(s: string, i: nat)
    requires i + 73 <= |Lines(s)|
    ensures '\n' in Lines(s)[i..i + 73]
  {
    var k := i + (72 - i % 73);
    LineFeeds(s, k);
    assert Lines(s)[i..i + 73][k - i] == '\n';
  }

  lemma EncodedTriple(x: seq<Byte>)
    ensures Encoded([]) == "" && (|x| >= 3 ==> Encoded(x) == Quad(x[0], x[1], x[2]) + Encoded(x[3..]))
  {
  }

  lemma {:induction false} EncodedNext(x: seq<Byte>, y: seq<Byte>)
    requires |x| % 3 == 0
    ensures Encoded(x + y) == Encoded(x) + Encoded(y)
  {
    hide Encoded, Quad;
    EncodedTriple(x);
    EncodedTriple(x + y);
    if x == [] {
      assert x + y == y;
    } else {
      EncodedNext(x[3..], y);
      assert (x + y)[3..] == x[3..] + y;
    }
  }

  predicate Triples(k: nat) { k % 3 == 0 }

  predicate Quads(s: string) { |s| % 4 == 0 }

  /** Whether four more characters fill the line. */
  predicate Fills(s: string) { Column(s) + 4 == 72 }

  lemma ColumnNext(s: string, q: string)
    requires Quads(s) && |q| == 4
    ensures Quads(s + q) && Column(s) <= 68 && Column(s + q) == (if Fills(s) then 0 else Column(s) + 4)
    ensures Fills(s) <==> (|s| + 4) % 72 == 0
  {
  }

  lemma BrokenLine(s: string)
    ensures Broken(s) == if |s| < 72 then s else s[..72] + "\n" + Broken(s[72..])
  {
  }

  lemma ColumnLine(s: string)
    ensures |s| < 72 ==> Column(s) == |s|
    ensures |s| >= 72 ==> Column(s[72..]) == Column(s) && (Quads(s) ==> Quads(s[72..]))
  {
  }

  lemma {:induction false} BrokenNext(s: string, q: string)
    requires Quads(s) && |q| == 4
    ensures Broken(s + q) == Broken(s) + q + if Fills(s) then "\n" else ""
  {
    BrokenLine(s);
    BrokenLine(s + q);
    BrokenLine("");
    ColumnLine(s);
    ColumnNext(s, q);
    hide Broken, Column, Quads;
    if |s| >= 72 {
      BrokenNext(s[72..], q);
      assert (s + q)[..72] == s[..72] && (s + q)[72..] == s[72..] + q;
    } else if |s| == 68 {
      assert (s + q)[..72] == s + q && (s + q)[72..] == "";
    }
  }

  const NUL := 0 as char

  method PutQuad(out: array<char>, pos: nat, a: char, b: char, c: char, d: char)
    requires pos + 4 <= out.Length
    modifies out
    ensures out[..pos + 4] == old(out[..pos]) + [a, b, c, d]
  {
    out[pos], out[pos + 1], out[pos + 2], out[pos + 3] := a, b, c, d;
  }

  /** What has been written when the first `k` bytes are encoded leaves room for one more quad and its line feed. */
  lemma RoomForNext(x: seq<Byte>, k: nat)
    requires k < |x| && Triples(k) && |x| * 4 < SIZE_MAX
    ensures var s := Encoded(x[..k]);
      && Quads(s) && |Broken(s)| + 4 + (if Fills(s) then 1 else 0) < AllocSize(|x|)
      && (k + 3 > |x| ==> |Broken(s)| + 5 < AllocSize(|x|))
  {
    hide Encoded, Broken, AllocSize;
    BrokenLength(Encoded(x[..k]));
    BrokenLength(Encoded(x));
    EncodedLength(x[..k]);
    EncodedLength(x);
    AllocationSuffices(x);
    Thirds(k, |x|);
    Grows(|Encoded(x[..k])|, |Encoded(x)|);
  }

  lemma Thirds(k: nat, n: nat)
    requires k < n && k % 3 == 0
    ensures var e, f := (k + 2) / 3 * 4, (n + 2) / 3 * 4;
      e % 4 == 0 && e + 4 <= f && (k + 3 > n ==> e + 4 == f)
  {
  }

  lemma Grows(e: nat, f: nat)
    requires e + 4 <= f && e % 4 == 0
    ensures e + e / 72 + 4 + (if (e + 4) % 72 == 0 then 1 else 0) <= f + f / 72
    ensures e + 4 == f ==> e + e / 72 + 4 + 1 <= f + f / 72 + (if f % 72 != 0 then 1 else 0)
  {
  }

  lemma LastQuad(s: string, q: string)
    requires Quads(s) && |q| == 4
    ensures Lines(s + q) == Broken(s) + q + "\n"
  {
    BrokenNext(s, q);
    ColumnNext(s, q);
    hide Broken, Column, Fills;
  }

  /** Three bytes become four characters, and a line feed if they fill the line; `s` is the encoding so far. */
  method EncodeTriple(out: array<char>, at: nat, length: nat, x: Byte, y: Byte, z: Byte, ghost s: string)
    returns (pos: nat, lineLen: nat)
    requires at + 4 + (if Fills(s) then 1 else 0) <= out.Length && out[..at] == Broken(s)
    requires Quads(s) && length == Column(s)
    modifies out
    ensures pos == at + 4 + (if Fills(s) then 1 else 0)
    ensures out[..pos] == Broken(s + Quad(x, y, z)) && lineLen == Column(s + Quad(x, y, z))
  {
    TableIsLetters();
    ghost var q := Quad(x, y, z);
    BrokenNext(s, q);
    ColumnNext(s, q);
    hide Broken, Letter, Column;
    PutQuad(out, at, TABLE[x / 4], TABLE[x % 4 * 16 + y / 16], TABLE[y % 16 * 4 + z / 64], TABLE[z % 64]);
    pos, lineLen := at + 4, length + 4;
    assert out[..pos] == Broken(s) + q;
    if lineLen >= 72 {
      out[pos] := '\n';
      pos := pos + 1;
      lineLen := 0;
    }
  }

  lemma EncodedStep(x: seq<Byte>, k: nat)
    requires k < |x| && Triples(k)
    ensures var more := if k + 3 <= |x| then x[k..k + 3] else x[k..];
      Encoded(x[..k + |more|]) == Encoded(x[..k]) + Encoded(more)
    ensures k + 3 <= |x| ==> Triples(k + 3) && Encoded(x[k..k + 3]) == Quad(x[k], x[k + 1], x[k + 2])
  {
    var more := if k + 3 <= |x| then x[k..k + 3] else x[k..];
    assert x[..k + |more|] == x[..k] + more;
    EncodedNext(x[..k], more);
    EncodedTriple(more);
  }

  /** The bytes left over, padded. */
  method EncodeTail(out: array<char>, at: nat, length: nat, x: seq<Byte>) returns (pos: nat, lineLen: nat)
    requires at + 4 <= out.Length && 0 < |x| < 3
    modifies out
    ensures pos == at + 4 && lineLen == length + 4 && out[..pos] == old(out[..at]) + Tail(x)
  {
    TableIsLetters();
    if |x| == 1 {
      PutQuad(out, at, TABLE[x[0] / 4], TABLE[x[0] % 4 * 16], '=', '=');
    } else {
      PutQuad(out, at, TABLE[x[0] / 4], TABLE[x[0] % 4 * 16 + x[1] / 16], TABLE[x[1] % 16 * 4], '=');
    }
    return at + 4, length + 4;
  }

  /** Encodes into the allocation, which is large enough. */
  method EncodeInto(src: seq<Byte>, out: array<char>) returns (outLen: nat)
    requires |src| * 4 < SIZE_MAX && out.Length == AllocSize(|src|)
    modifies out
    ensures outLen < out.Length && out[..outLen] == Lines(Encoded(src)) && out[outLen] == NUL
  {
    assert src[..0] == [] && Triples(0) && Quads("") && Column("") == 0;
    hide *;
    BrokenLine("");
    EncodedTriple([]);
    var pos, lineLen, k: nat := 0, 0, 0;
    ghost var s := "";
    while |src| - k >= 3
      invariant Triples(k) && k <= |src| && pos < out.Length && s == Encoded(src[..k])
      invariant out[..pos] == Broken(s) && lineLen == Column(s) && Quads(s)
    {
      RoomForNext(src, k);
      EncodedStep(src, k);
      pos, lineLen := EncodeTriple(out, pos, lineLen, src[k], src[k + 1], src[k + 2], s);
      ColumnNext(s, Quad(src[k], src[k + 1], src[k + 2]));
      s := s + Quad(src[k], src[k + 1], src[k + 2]);
      k := k + 3;
    }
    outLen := EncodeEnd(src, out, pos, lineLen, k);
  }

  /** What is left after the whole triples, and the end of the last line. */
  method EncodeEnd(src: seq<Byte>, out: array<char>, at: nat, length: nat, k: nat) returns (pos: nat)
    requires |src| * 4 < SIZE_MAX && out.Length == AllocSize(|src|)
    requires Triples(k) && k <= |src| < k + 3 && at < out.Length
    requires out[..at] == Broken(Encoded(src[..k])) && length == Column(Encoded(src[..k]))
    modifies out
    ensures pos < out.Length && out[..pos] == Lines(Encoded(src)) && out[pos] == NUL
  {
    hide *;
    AllocationSuffices(src);
    Ends(src, k);
    pos := at;
    var lineLen := length;
    if |src| > k {
      RoomForNext(src, k);
      pos, lineLen := EncodeTail(out, pos, lineLen, src[k..]);
    }
    if lineLen != 0 {
      out[pos] := '\n';
      pos := pos + 1;
    }
    out[pos] := NUL;
  }

  /** base64_encode; `memory` is whether malloc() succeeds. */
  method Encode(src: seq<Byte>, memory: bool) returns (out: array?<char>, outLen: nat)
    requires |src| * 4 < SIZE_MAX
    ensures out != null <==> memory
    ensures memory ==> fresh(out) && out.Length == AllocSize(|src|) && outLen < out.Length && out[outLen] == NUL
    ensures memory ==> out[..outLen] == Lines(Encoded(src))
  {
    var olen := AllocSize(|src|);
    if !memory {
      return null, 0;
    }
    out := new char[olen];
    outLen := EncodeInto(src, out);
  }

  /** The last one or two bytes. */
  lemma Ends(x: seq<Byte>, k: nat)
    requires k <= |x| < k + 3 && Triples(k)
    ensures k == |x| ==> Lines(Encoded(x)) == Broken(Encoded(x[..k])) + if Column(Encoded(x[..k])) != 0 then "\n" else ""
    ensures k < |x| ==> Lines(Encoded(x)) == Broken(Encoded(x[..k])) + Tail(x[k..]) + "\n"
  {
    if k == |x| {
      assert x[..k] == x;
    } else {
      var tail := x[k..];
      assert x[..k] + tail == x;
      EncodedNext(x[..k], tail);
      assert Encoded(tail) == Tail(tail);
      hide Encoded, Tail, Broken, Lines;
      EncodedLength(x[..k]);
      Thirds(k, |x|);
      LastQuad(Encoded(x[..k]), Tail(tail));
    }
  }

  lemma TableIsLetters()
    ensures |TABLE| == 64 && forall v :: 0 <= v < 64 ==> TABLE[v] == Letter(v)
  {
    forall v | 0 <= v < 64 ensures |TABLE| == 64 && TABLE[v] == Letter(v) {
      TableHolds(v);
    }
    TableHolds(0);
  }

  // ----- decoding

  /** The characters that the decoder looks at: the alphabet and '='. */
  function Significant(s: string): string {
    if s == "" then "" else
    Significant(s[..|s| - 1]) + if Value(s[|s| - 1]) != SKIP then [s[|s| - 1]] else ""
  }

  predicate AllSignificant(s: string) {
    forall i :: 0 <= i < |s| ==> Value(s[i]) < 64
  }

  function Three(a: Byte, b: Byte, c: Byte, d: Byte): (r: seq<Byte>)
    requires a < 64 && b < 64 && c < 64 && d < 64
    ensures |r| == 3
  {
    [a * 4 % 256 + b / 16, b * 16 % 256 + c / 4, c * 64 % 256 + d]
  }

  function Bytes(t: string): (r: seq<Byte>)
    requires AllSignificant(t)
    ensures |t| >= 4 ==> |r| >= 3
  {
    if |t| < 4 then [] else
    Bytes(t[..|t| - 4]) + Three(Value(t[|t| - 4]), Value(t[|t| - 3]), Value(t[|t| - 2]), Value(t[|t| - 1]))
  }

  /** How many of the last three bytes are padding. */
  function Padding(t: string): (n: nat)
    ensures n <= 2
  {
    if |t| < 4 then 0 else if t[|t| - 2] == '=' then 2 else if t[|t| - 1] == '=' then 1 else 0
  }

  lemma {:induction false} SignificantOnly(s: string)
    ensures AllSignificant(Significant(s)) && |Significant(s)| <= |s|
  {
    if s != "" {
      SignificantOnly(s[..|s| - 1]);
    }
  }

  /** The meaning of a text, if it is well-formed. */
  function Decoded(s: string): Option<seq<Byte>> {
    SignificantOnly(s);
    var t := Significant(s);
    if |t| % 4 != 0 then None else
    var all := Bytes(t);
    Some(if |t| < 4 then [] else all[..|all| - Padding(t)])
  }

  lemma {:induction false} SignificantAppend(a: string, b: string)
    ensures Significant(a + b) == Significant(a) + Significant(b)
  {
    if b == "" {
      assert a + b == a;
    } else {
      var c := a + b;
      assert c[..|c| - 1] == a + b[..|b| - 1] && c[|c| - 1] == b[|b| - 1];
      SignificantAppend(a, b[..|b| - 1]);
    }
  }

  /** Characters outside the alphabet change nothing, wherever they are. */
  lemma NoiseIsIgnored(a: string, noise: string, b: string)
    requires forall i :: 0 <= i < |noise| ==> Value(noise[i]) == SKIP
    ensures Decoded(a + noise + b) == Decoded(a + b)
  {
    SignificantAppend(a + noise, b);
    SignificantAppend(a, noise);
    SignificantAppend(a, b);
    NoneSignificant(noise);
    hide Significant;
    assert Significant(a + noise + b) == Significant(a + b);
  }

  lemma {:induction false} NoneSignificant(noise: string)
    requires forall i :: 0 <= i < |noise| ==> Value(noise[i]) == SKIP
    ensures Significant(noise) == ""
  {
    if noise != "" {
      NoneSignificant(noise[..|noise| - 1]);
    }
  }

  lemma {:induction false} AllAreSignificant(s: string)
    requires AllSignificant(s)
    ensures Significant(s) == s
  {
    hide Value;
    if s != "" {
      var init, last := s[..|s| - 1], s[|s| - 1];
      AllAreSignificant(init);
      assert Value(last) != SKIP;
      assert Significant(s) == init + [last] == s;
    }
  }

  // ----- the round trip

  lemma {:induction false} LinesAreNoise(s: string)
    requires AllSignificant(s)
    ensures Significant(Lines(s)) == s
    decreases |s|
  {
    AllAreSignificant(s);
    NoneSignificant("\n");
    hide Significant, Value;
    if |s| < 72 {
      SignificantAppend(s, "\n");
      assert s + "" == s;
    } else {
      var head, rest := s[..72], s[72..];
      var line := head + "\n";
      assert Lines(s) == line + Lines(rest);
      LinesAreNoise(rest);
      AllAreSignificant(head);
      SignificantAppend(head, "\n");
      assert Significant(line) == head;
      SignificantAppend(line, Lines(rest));
      assert s == head + rest;
    }
  }

  lemma Sixteens(h: nat, l: nat)
    requires l < 16
    ensures (h * 16 + l) / 16 == h && (h * 16 + l) % 16 == l
  {
  }

  lemma Fours(h: nat, l: nat)
    requires l < 4
    ensures (h * 4 + l) / 4 == h && (h * 4 + l) % 4 == l
  {
  }

  /** Shifting the top bits of a byte out. */
  lemma ShiftedOut(b: nat, c: nat)
    ensures b * 16 % 256 == b % 16 * 16 && c * 64 % 256 == c % 4 * 64
  {
  }

  lemma TripleBack(x: Byte, y: Byte, z: Byte)
    ensures var q := Quad(x, y, z);
      AllSignificant(q) && Three(Value(q[0]), Value(q[1]), Value(q[2]), Value(q[3])) == [x, y, z] && Padding(q) == 0
  {
    hide Letter, Value;
    var b, c := x % 4 * 16 + y / 16, y % 16 * 4 + z / 64;
    Sixteens(x % 4, y / 16);
    Fours(y % 16, z / 64);
    ShiftedOut(b, c);
    var q := Quad(x, y, z);
    assert Value(q[0]) == x / 4 && Value(q[1]) == b && Value(q[2]) == c && Value(q[3]) == z % 64;
    assert x / 4 * 4 % 256 + b / 16 == x;
    assert b * 16 % 256 + c / 4 == y;
    assert c * 64 % 256 + z % 64 == z;
  }

  /** Padding characters stand for zero bits. */
  lemma TailBack(x: seq<Byte>)
    requires 0 < |x| < 3
    ensures var q := Tail(x);
      AllSignificant(q) && Three(Value(q[0]), Value(q[1]), Value(q[2]), Value(q[3]))[..|x|] == x && Padding(q) == 3 - |x|
  {
    var y := if |x| == 2 then x[1] else 0;
    var q, r := Tail(x), Quad(x[0], y, 0);
    TripleBack(x[0], y, 0);
    assert Value('=') == 0;
    hide Letter, Value, Three;
    assert q[0] != '=' && q[1] != '=' && (|x| == 2 ==> q[2] != '=');
    assert forall i :: 0 <= i < 4 ==> Value(q[i]) == Value(r[i]);
    hide Quad, Tail;
    assert x == [x[0], y, 0][..|x|];
  }

  /** The characters are whole quads, without padding, of exactly these bytes. */
  ghost predicate Reads(t: string, x: seq<Byte>) {
    AllSignificant(t) && Quads(t) && Bytes(t) == x && Padding(t) == 0
  }

  lemma TripleStep(s: string, head: seq<Byte>, x: Byte, y: Byte, z: Byte)
    requires Reads(s, head)
    ensures Reads(s + Quad(x, y, z), head + [x, y, z])
  {
    TripleBack(x, y, z);
    hide Quad, Three, Value, Padding, Bytes, Quads, AllSignificant;
    QuadBack(s, Quad(x, y, z));
  }

  lemma {:induction false} TriplesBack(x: seq<Byte>)
    requires Triples(|x|)
    ensures Reads(Encoded(x), x)
  {
    if x != [] {
      var n := |x| - 3;
      assert Triples(n) && x[..n + 3] == x && x[..n] + [x[n], x[n + 1], x[n + 2]] == x;
      TriplesBack(x[..n]);
      hide Encoded, Quad, Reads, Triples;
      EncodedStep(x, n);
      TripleStep(Encoded(x[..n]), x[..n], x[n], x[n + 1], x[n + 2]);
    }
  }

  /** Decoding one more quad. */
  lemma QuadBack(s: string, q: string)
    requires AllSignificant(s) && Quads(s) && |q| == 4 && AllSignificant(q)
    ensures AllSignificant(s + q) && Quads(s + q) && Padding(s + q) == Padding(q)
    ensures Bytes(s + q) == Bytes(s) + Three(Value(q[0]), Value(q[1]), Value(q[2]), Value(q[3]))
  {
    hide Three, Value;
    assert (s + q)[..|s|] == s;
  }

  lemma EncodedBack(x: seq<Byte>)
    ensures var t := Encoded(x);
      AllSignificant(t) && Quads(t) && (x == [] <==> t == "") && |x| == |Bytes(t)| - Padding(t) && Bytes(t)[..|x|] == x
  {
    var n := |x| - |x| % 3;
    var head, tail := x[..n], x[n..];
    assert head + tail == x;
    EncodedNext(head, tail);
    TriplesBack(head);
    EncodedLength(x);
    if tail != [] {
      TailBack(tail);
      assert Encoded(tail) == Tail(tail);
      hide Encoded, Tail, Three, Value;
      QuadBack(Encoded(head), Tail(tail));
    } else {
      assert head == x;
    }
  }

  /** Decoding what was encoded gives back the bytes, for every byte string. */
  lemma RoundTrip(x: seq<Byte>)
    ensures Decoded(Lines(Encoded(x))) == Some(x)
  {
    EncodedBack(x);
    LinesAreNoise(Encoded(x));
    hide Encoded, Lines, Significant;
  }

  // ----- the decoder as it runs

  lemma LetterOf(c: char)
    requires Value(c) < 64 && c != '='
    ensures Letter(Value(c)) == c
  {
  }

  method BuildTable() returns (dtable: array<Byte>)
    ensures fresh(dtable) && dtable.Length == 256
    ensures forall c: char :: c as int < 256 ==> dtable[c as int] == Value(c)
  {
    TableIsLetters();
    dtable := new Byte[256](_ => SKIP);
    var i := 0;
    while i < 64
      invariant 0 <= i <= 64
      invariant forall c: char :: c as int < 256 ==> dtable[c as int] == if Value(c) < i && c != '=' then Value(c) else SKIP
    {
      forall c: char | Value(c) == i && c != '=' ensures c == Letter(i) {
        LetterOf(c);
      }
      hide Value, Letter;
      dtable[TABLE[i] as int] := i;
      i := i + 1;
    }
    dtable['=' as int] := 0;
  }

  lemma SignificantNext(s: string, i: nat)
    requires i < |s|
    ensures Significant(s[..i + 1]) == Significant(s[..i]) + if Value(s[i]) != SKIP then [s[i]] else ""
    ensures |Significant(s[..i + 1])| <= |Significant(s)|
  {
    assert s[..i + 1][..i] == s[..i];
    assert s == s[..i + 1] + s[i + 1..];
    SignificantAppend(s[..i + 1], s[i + 1..]);
  }

  method CountSignificant(src: string, dtable: array<Byte>) returns (count: nat)
    requires dtable.Length == 256 && forall c: char :: c as int < 256 ==> dtable[c as int] == Value(c)
    requires forall i :: 0 <= i < |src| ==> src[i] as int < 256
    ensures count == |Significant(src)|
  {
    count := 0;
    var i := 0;
    while i < |src|
      invariant 0 <= i <= |src| && count == |Significant(src[..i])|
    {
      SignificantNext(src, i);
      if dtable[src[i] as int] != SKIP {
        count := count + 1;
      }
      i := i + 1;
    }
    assert src[..i] == src;
  }

  /** The characters of the quad being read, and of the last one when none is. */
  ghost predicate Window(t: string, count: nat, chars: seq<char>, block: seq<Byte>) {
    && |chars| == |block| == 4 && count == |t| % 4
    && (forall k :: 0 <= k < count ==> chars[k] == t[|t| - count + k] && block[k] == Value(chars[k]))
    && (count == 0 && t != "" ==> chars == t[|t| - 4..])
  }

  /** The decoder has read the characters `t`: whole quads are in the output, the rest in the window. */
  ghost predicate Reading(t: string, count: nat, pos: nat, out: seq<Byte>, chars: seq<char>, block: seq<Byte>) {
    && AllSignificant(t) && Window(t, count, chars, block)
    && pos == |t| / 4 * 3 <= |out| && out[..pos] == Bytes(t[..|t| - count])
  }

  lemma Quarter(m: nat)
    ensures if m % 4 == 3 then (m + 1) / 4 == m / 4 + 1 && (m + 1) % 4 == 0
            else (m + 1) / 4 == m / 4 && (m + 1) % 4 == m % 4 + 1
  {
  }

  /** One more character, when that does not complete a quad. */
  lemma ReadOne(t: string, count: nat, pos: nat, out: seq<Byte>, chars: seq<char>, block: seq<Byte>, c: char)
    requires Reading(t, count, pos, out, chars, block) && Value(c) < 64 && count < 3
    ensures Reading(t + [c], count + 1, pos, out, chars[count := c], block[count := Value(c)])
  {
    Quarter(|t|);
    hide Value, Bytes;
    assert (t + [c])[..|t| - count] == t[..|t| - count];
  }

  /** One more character, when that completes a quad, whose bytes are then written. */
  lemma ReadQuad(t: string, pos: nat, out: seq<Byte>, chars: seq<char>, block: seq<Byte>, c: char, more: seq<Byte>)
    requires Reading(t, 3, pos, out, chars, block) && Value(c) < 64 && InRange(block[3 := Value(c)])
    requires var b := block[3 := Value(c)];
      pos + 3 <= |more| && more[..pos + 3] == out[..pos] + Three(b[0], b[1], b[2], b[3])
    ensures Reading(t + [c], 0, pos + 3, more, chars[3 := c], block[3 := Value(c)])
  {
    Quarter(|t|);
    var head, q := t[..|t| - 3], t[|t| - 3..] + [c];
    QuadOf(t, chars, block, c);
    assert t + [c] == head + q && (t + [c])[|t| - 3..] == q;
    hide Value, Three, Window;
    QuadBack(head, q);
    assert (t + [c])[..|t| + 1] == t + [c];
    WindowShut(t + [c], chars[3 := c], block[3 := Value(c)]);
  }

  lemma WindowShut(t: string, chars: seq<char>, block: seq<Byte>)
    requires |chars| == |block| == 4 && |t| % 4 == 0 && t != "" && chars == t[|t| - 4..]
    ensures Window(t, 0, chars, block)
  {
  }

  lemma QuadOf(t: string, chars: seq<char>, block: seq<Byte>, c: char)
    requires Window(t, 3, chars, block) && AllSignificant(t) && Value(c) < 64
    ensures |t| >= 3 && |t[..|t| - 3]| % 4 == 0
    ensures var q := t[|t| - 3..] + [c];
      && q == chars[3 := c] && AllSignificant(q) && InRange(block[3 := Value(c)])
      && forall k :: 0 <= k < 4 ==> block[3 := Value(c)][k] == Value(q[k])
  {
    hide Value;
  }

  predicate InRange(b: seq<Byte>) {
    |b| == 4 && b[0] < 64 && b[1] < 64 && b[2] < 64 && b[3] < 64
  }

  method PutTriple(out: array<Byte>, pos: nat, block: array<Byte>)
    requires block.Length == 4 && pos + 3 <= out.Length && out != block
    requires block[0] < 64 && block[1] < 64 && block[2] < 64 && block[3] < 64
    modifies out
    ensures out[..pos + 3] == old(out[..pos]) + Three(block[0], block[1], block[2], block[3])
  {
    var r := Three(block[0], block[1], block[2], block[3]);
    out[pos], out[pos + 1], out[pos + 2] := r[0], r[1], r[2];
  }

  lemma ReadSoFar(t: string, count: nat, pos: nat, out: seq<Byte>, chars: seq<char>, block: seq<Byte>)
    requires Reading(t, count, pos, out, chars, block)
    ensures |chars| == |block| == 4 && count == |t| % 4 && pos == |t| / 4 * 3
  {
  }

  lemma QuadInRange(t: string, pos: nat, out: seq<Byte>, chars: seq<char>, block: seq<Byte>, c: char)
    requires Reading(t, 3, pos, out, chars, block) && Value(c) < 64
    ensures |block| == 4 && InRange(block[3 := Value(c)])
  {
    hide Value, Bytes;
    QuadOf(t, chars, block, c);
  }

  /** The loop body for a character that counts. */
  method Feed(out: array<Byte>, at: nat, chars: array<char>, block: array<Byte>, n: nat, c: char, tmp: Byte, ghost t: string)
    returns (pos: nat, count: nat)
    requires out != block && Reading(t, n, at, out[..], chars[..], block[..]) && tmp == Value(c) < 64
    requires (|t| + 1) / 4 * 3 <= out.Length
    modifies out, chars, block
    ensures Reading(t + [c], count, pos, out[..], chars[..], block[..])
  {
    hide Value, Three, Reading;
    ghost var o, cs, b := out[..], chars[..], block[..];
    ReadSoFar(t, n, at, o, cs, b);
    Quarter(|t|);
    chars[n], block[n] := c, tmp;
    count, pos := n + 1, at;
    assert chars[..] == cs[n := c] && block[..] == b[n := tmp];
    if count == 4 {
      QuadInRange(t, at, o, cs, b, c);
      PutTriple(out, pos, block);
      assert out[..][..at + 3] == out[..at + 3] && o[..at] == old(out[..at]);
      ReadQuad(t, at, o, cs, b, c, out[..]);
      pos := pos + 3;
      count := 0;
    } else {
      ReadOne(t, n, at, o, cs, b, c);
    }
  }

  /** The second pass: decodes into an allocation of one byte for each character that counts. */
  method DecodeInto(src: string, dtable: array<Byte>, out: array<Byte>) returns (outLen: nat)
    requires forall i :: 0 <= i < |src| ==> src[i] as int < 256
    requires dtable.Length == 256 && forall c: char :: c as int < 256 ==> dtable[c as int] == Value(c)
    requires out != dtable && out.Length == |Significant(src)| && |Significant(src)| % 4 == 0
    modifies out
    ensures Decoded(src).Some? && outLen <= out.Length && out[..outLen] == Decoded(src).value
  {
    var chars, block := new char[4], new Byte[4];
    var pos: nat, i: nat, count: nat := 0, 0, 0;
    ghost var t := "";
    assert src[..0] == "" && Reading(t, count, pos, out[..], chars[..], block[..]);
    hide *;
    while i < |src|
      invariant i <= |src| && t == Significant(src[..i]) && |t| <= out.Length
      invariant Reading(t, count, pos, out[..], chars[..], block[..])
    {
      SignificantNext(src, i);
      var tmp := dtable[src[i] as int];
      if tmp != SKIP {
        Readable(src, i, t);
        Smaller(|t| + 1, out.Length);
        pos, count := Feed(out, pos, chars, block, count, src[i], tmp, t);
        t := t + [src[i]];
      }
      i := i + 1;
    }
    assert src[..i] == src;
    Trimmed(src, count, pos, out[..], chars[..], block[..]);
    outLen := LessPadding(pos, chars);
    assert out[..][..outLen] == out[..outLen];
  }

  /** The padding of the last quad is not part of the output. */
  method LessPadding(pos: nat, chars: array<char>) returns (outLen: nat)
    requires pos > 0 ==> chars.Length == 4 && pos >= 3
    ensures outLen == pos - if pos == 0 then 0 else if chars[2] == '=' then 2 else if chars[3] == '=' then 1 else 0
  {
    outLen := pos;
    if pos > 0 {
      if chars[2] == '=' {
        outLen := pos - 2;
      } else if chars[3] == '=' {
        outLen := pos - 1;
      }
    }
  }

  /** base64_decode; `memory` is whether malloc() succeeds. */
  method Decode(src: string, memory: bool) returns (out: array?<Byte>, outLen: nat)
    requires forall i :: 0 <= i < |src| ==> src[i] as int < 256
    ensures out != null <==> memory && Decoded(src).Some?
    ensures out != null ==> fresh(out) && outLen <= out.Length && out[..outLen] == Decoded(src).value
  {
    var dtable := BuildTable();
    var count := CountSignificant(src, dtable);
    assert Decoded(src).Some? <==> count % 4 == 0;
    hide *;
    if count % 4 != 0 || !memory {
      return null, 0;
    }
    out := new Byte[count];
    outLen := DecodeInto(src, dtable, out);
  }

  lemma Readable(s: string, i: nat, t: string)
    requires i < |s| && t == Significant(s[..i]) && Significant(s[..i + 1]) == t + if Value(s[i]) != SKIP then [s[i]] else ""
    ensures Value(s[i]) != SKIP ==> Value(s[i]) < 64
  {
    SignificantOnly(s[..i + 1]);
    if Value(s[i]) != SKIP {
      assert (t + [s[i]])[|t|] == s[i];
    }
  }

  lemma DecodedIs(src: string)
    requires |Significant(src)| % 4 == 0
    ensures AllSignificant(Significant(src))
    ensures var t := Significant(src);
      Decoded(src) == Some(if |t| < 4 then [] else Bytes(t)[..|Bytes(t)| - Padding(t)])
  {
    SignificantOnly(src);
  }

  /** What the last characters say about the padding. */
  lemma Trimmed(src: string, count: nat, pos: nat, out: seq<Byte>, chars: seq<char>, block: seq<Byte>)
    requires Reading(Significant(src), count, pos, out, chars, block) && |Significant(src)| % 4 == 0
    ensures pos > 0 ==> |chars| == 4 && pos >= 3
    ensures var cut := if pos == 0 then 0 else if chars[2] == '=' then 2 else if chars[3] == '=' then 1 else 0;
      Decoded(src).Some? && pos <= |out| && out[..pos - cut] == Decoded(src).value
  {
    hide *;
    DecodedIs(src);
    LastQuadRead(Significant(src), count, pos, out, chars, block);
    if pos > 0 {
      var cut := Padding(Significant(src));
      assert out[..pos][..pos - cut] == out[..pos - cut];
    }
  }

  lemma LastQuadRead(t: string, count: nat, pos: nat, out: seq<Byte>, chars: seq<char>, block: seq<Byte>)
    requires Reading(t, count, pos, out, chars, block) && |t| % 4 == 0
    ensures pos == |Bytes(t)| <= |out| && out[..pos] == Bytes(t) && (pos > 0 <==> |t| >= 4) && (pos > 0 ==> |chars| == 4 && pos >= 3)
    ensures pos > 0 ==> Padding(t) == if chars[2] == '=' then 2 else if chars[3] == '=' then 1 else 0
  {
    hide Value, Bytes;
    assert t[..|t|] == t;
  }

  lemma Smaller(m: nat, n: nat)
    requires m <= n
    ensures m / 4 * 3 <= n
  {
  }
}
