/** base64Decode of the HTTP server (lab5/myhttpd.cc), against the encoding of section 4 of RFC 4648. */
module Base64 {
  import opened Numbers

  type Byte = x: int | 0 <= x < 256
  type Sextet = x: int | 0 <= x < 64

  // The alphabet of table 1 of RFC 4648.
  function Symbol(v: Sextet): char {
    if v < 26 then (65 + v) as char
    else if v < 52 then (97 + (v - 26)) as char
    else if v < 62 then (48 + (v - 52)) as char
    else if v == 62 then '+' else '/'
  }

  // The place of c in the alphabet, and 0 for every other character.
  function Value(c: char): Sextet {
    if 'A' <= c <= 'Z' then c as int - 65
    else if 'a' <= c <= 'z' then c as int - 97 + 26
    else if '0' <= c <= '9' then c as int - 48 + 52
    else if c == '+' then 62 else if c == '/' then 63 else 0
  }

  lemma ValueOfSymbol(v: Sextet)
    ensures Value(Symbol(v)) == v && Symbol(v) != '='
  {
  }

  /** The alphabet runs from A to Z, from a to z and from 0 to 9, and ends with + and /. */
  lemma Alphabet(v: Sextet)
    ensures Symbol(0) == 'A' && Symbol(25) == 'Z' && Symbol(26) == 'a' && Symbol(51) == 'z'
    ensures Symbol(52) == '0' && Symbol(61) == '9' && Symbol(62) == '+' && Symbol(63) == '/'
    ensures v < 61 && v != 25 && v != 51 ==> Symbol(v + 1) as int == Symbol(v) as int + 1
  {
  }

  // ---- the encoding ----

  // The four characters for one to three bytes, padded.
  function Quartet(b: seq<Byte>): (s: string)
    requires b != []
    ensures |s| == 4
  {
    var b1, b2 := if |b| > 1 then b[1] else 0, if |b| > 2 then b[2] else 0;
    [Symbol(b[0] / 4), Symbol(b[0] % 4 * 16 + b1 / 16), if |b| > 1 then Symbol(b1 % 16 * 4 + b2 / 64) else '=',
     if |b| > 2 then Symbol(b2 % 64) else '=']
  }

  /** Three bytes are one number of 24 bits, and its four digits of 6 bits are the symbols, the highest first; with
      fewer bytes the bits that are missing are 0, and a symbol that has none of the others is an equals sign. */
  lemma QuartetIs24Bits(b: seq<Byte>)
    requires b != []
    ensures var x := Bits24(b[0], if |b| > 1 then b[1] else 0, if |b| > 2 then b[2] else 0);
      0 <= x < 0x100_0000 && Quartet(b) == [Symbol(x / 0x4_0000), Symbol(x / 0x1000 % 64),
        if |b| > 1 then Symbol(x / 0x40 % 64) else '=', if |b| > 2 then Symbol(x % 64) else '=']
  {
    hide Symbol, Bits24;
    Digits(b[0], if |b| > 1 then b[1] else 0, if |b| > 2 then b[2] else 0);
  }

  function Bits24(a: int, b: int, c: int): int { a * 0x1_0000 + b * 0x100 + c }

  lemma Digits(a: Byte, b: Byte, c: Byte)
    ensures var x := Bits24(a, b, c);
      && 0 <= x < 0x100_0000 && x / 0x4_0000 == a / 4 && x / 0x1000 % 64 == a % 4 * 16 + b / 16
      && x / 0x40 % 64 == b % 16 * 4 + c / 64 && x % 64 == c % 64
  {
    var x, p, q, r, s := Bits24(a, b, c), a / 4, a % 4 * 16 + b / 16, b % 16 * 4 + c / 64, c % 64;
    assert x == p * 0x4_0000 + q * 0x1000 + r * 0x40 + s;
    assert 0 <= q < 64 && 0 <= r < 64 && 0 <= s < 64;
    assert x / 0x40 == p * 0x1000 + q * 0x40 + r;
    assert x / 0x1000 == p * 0x40 + q;
  }

  function Encode(b: seq<Byte>): string {
    if b == [] then "" else Quartet(b) + Encode(b[Min(3, |b|)..])
  }

  // ---- the decoder ----

  // The value of character j, 0 behind the end and for the padding.
  function At(s: string, j: nat): Sextet { if j >= |s| || s[j] == '=' then 0 else Value(s[j]) }

  predicate Present(s: string, j: nat) { j < |s| && s[j] != '=' }

  // What one turn of the loop writes for the characters from the front of s. A shift of a sextet and the bits shifted
  // out of the next do not overlap, so that the bitwise or is a sum.
  function Group(s: string): (r: seq<Byte>)
    ensures 1 <= |r| <= 3
  {
    [At(s, 0) * 4 + At(s, 1) / 16]
    + (if Present(s, 2) then [At(s, 1) % 16 * 16 + At(s, 2) / 4] else [])
    + (if Present(s, 3) then [At(s, 2) % 4 * 64 + At(s, 3)] else [])
  }

  function Tail(s: string): string
    requires s != ""
  {
    if |s| < 4 then "" else s[4..]
  }

  // All groups, as long as three more bytes and the NUL have room after the n bytes written so far.
  function Decoded(s: string, n: nat, maxLen: int): seq<Byte>
    decreases |s|
  {
    if s == "" || n >= maxLen - 3 then [] else Group(s) + Decoded(Tail(s), n + |Group(s)|, maxLen)
  }

  /** The four values of the group at i. */
  method ReadGroup(input: string, i: nat) returns (val: array<int>)
    requires i < |input|
    ensures fresh(val) && val.Length == 4 && forall k | 0 <= k < 4 :: val[k] == At(input[i..], k)
  {
    val := new int[4];
    for j := 0 to 4
      invariant forall k | 0 <= k < j :: val[k] == At(input[i..], k)
    {
      if i + j >= |input| || input[i + j] == '=' {
        val[j] := 0;
      } else {
        val[j] := Value(input[i + j]);
      }
    }
  }

  /** The one to three bytes of the group at i, at position n of the output. */
  method WriteGroup(input: string, i: nat, output: array<Byte>, n: nat) returns (m: nat)
    requires i < |input| && n + 3 < output.Length
    modifies output
    ensures m == n + |Group(input[i..])| && output[..m] == old(output[..n]) + Group(input[i..])
    ensures forall k | n + 3 <= k < output.Length :: output[k] == old(output[k])
  {
    var val := ReadGroup(input, i);
    m := n;
    output[m] := val[0] * 4 + val[1] / 16;
    m := m + 1;
    if i + 2 < |input| && input[i + 2] != '=' {
      output[m] := val[1] % 16 * 16 + val[2] / 4;
      m := m + 1;
    }
    if i + 3 < |input| && input[i + 3] != '=' {
      output[m] := val[2] % 4 * 64 + val[3];
      m := m + 1;
    }
    assert output[n..m] == Group(input[i..]);
  }

  /** For every input the bytes of Decoded are written, then a NUL, and nothing behind output[maxLen - 1]. */
  method Base64Decode(input: string, output: array<Byte>, maxLen: int) returns (outputLen: nat)
    requires 1 <= maxLen <= output.Length
    modifies output
    ensures outputLen < maxLen && output[..outputLen] == Decoded(input, 0, maxLen) && output[outputLen] == 0
    ensures forall k | maxLen <= k < output.Length :: output[k] == old(output[k])
  {
    hide Group, Decoded, Value;
    outputLen := 0;
    var i := 0;
    ghost var rest := input;
    while i < |input| && outputLen < maxLen - 3
      invariant outputLen < maxLen && 0 <= i && rest == if i < |input| then input[i..] else ""
      invariant output[..outputLen] + Decoded(rest, outputLen, maxLen) == Decoded(input, 0, maxLen)
      invariant forall k | maxLen <= k < output.Length :: output[k] == old(output[k])
      decreases |input| - i
    {
      DecodedStep(output[..outputLen], rest, maxLen);
      outputLen := WriteGroup(input, i, output, outputLen);
      i, rest := i + 4, Tail(rest);
    }
    DecodedEnd(rest, outputLen, maxLen);
    output[outputLen] := 0;
  }

  lemma DecodedEnd(rest: string, n: nat, maxLen: int)
    requires rest == "" || n >= maxLen - 3
    ensures Decoded(rest, n, maxLen) == []
  {
  }

  lemma Regroup(a: seq<Byte>, b: seq<Byte>, c: seq<Byte>)
    ensures a + (b + c) == a + b + c
  {
  }

  lemma DecodedStep(done: seq<Byte>, rest: string, maxLen: int)
    requires rest != "" && |done| < maxLen - 3
    ensures done + Decoded(rest, |done|, maxLen)
      == done + Group(rest) + Decoded(Tail(rest), |done| + |Group(rest)|, maxLen)
  {
    Regroup(done, Group(rest), Decoded(Tail(rest), |done| + |Group(rest)|, maxLen));
  }

  // ---- decoding undoes encoding ----

  lemma TripleDecodes(a: Byte, b: Byte, c: Byte)
    ensures a / 4 * 4 + (a % 4 * 16 + b / 16) / 16 == a
    ensures (a % 4 * 16 + b / 16) % 16 * 16 + (b % 16 * 4 + c / 64) / 4 == b
    ensures (b % 16 * 4 + c / 64) % 4 * 64 + c % 64 == c
  {
  }

  lemma QuartetDecodes(b: seq<Byte>, t: string)
    requires b != []
    ensures Group(Quartet(b) + t) == b[..Min(3, |b|)]
  {
    var s := Quartet(b) + t;
    var c0, c1, c2 := b[0], if |b| > 1 then b[1] else 0, if |b| > 2 then b[2] else 0;
    TripleDecodes(c0, c1, c2);
    ValueOfSymbol(c0 / 4);
    ValueOfSymbol(c0 % 4 * 16 + c1 / 16);
    ValueOfSymbol(c1 % 16 * 4 + c2 / 64);
    ValueOfSymbol(c2 % 64);
    assert forall k | 0 <= k < 4 :: s[k] == Quartet(b)[k];
    assert b[..Min(3, |b|)] == [c0] + (if |b| > 1 then [c1] else []) + (if |b| > 2 then [c2] else []);
  }

  // After i groups, with room for c groups in all.
  lemma {:induction false} DecodedPrefix(b: seq<Byte>, i: nat, c: nat, maxLen: int)
    requires 3 * c < maxLen <= 3 * c + 3 && i <= c
    ensures Decoded(Encode(b), 3 * i, maxLen) == b[..Min(|b|, 3 * c - 3 * i)]
    decreases |b|
  {
    hide Group, Quartet;
    if b != [] && i < c {
      var k := Min(3, |b|);
      QuartetDecodes(b, Encode(b[k..]));
      assert Tail(Encode(b)) == Encode(b[k..]);
      assert Decoded(Encode(b), 3 * i, maxLen) == b[..k] + Decoded(Encode(b[k..]), 3 * i + k, maxLen);
      if |b| > 3 {
        DecodedPrefix(b[3..], i + 1, c, maxLen);
        assert b == b[..3] + b[3..];
      }
    }
  }

  lemma Groups(n: nat, c: nat, maxLen: int)
    requires 3 * c < maxLen <= 3 * c + 3
    ensures (maxLen - 1) / 3 == c
    ensures n <= 3 * c <==> (n + 2) / 3 * 3 < maxLen
  {
  }

  /** Of the padded encoding of any bytes the decoder gives back the longest part that it has room for, in groups of
      three: all of them exactly when three times the number of groups is less than maxLen. */
  lemma DecodingInvertsEncoding(b: seq<Byte>, maxLen: int)
    requires 1 <= maxLen
    ensures Decoded(Encode(b), 0, maxLen) == b[..Min(|b|, (maxLen - 1) / 3 * 3)]
    ensures Decoded(Encode(b), 0, maxLen) == b <==> (|b| + 2) / 3 * 3 < maxLen
  {
    var c := (maxLen - 1) / 3;
    DecodedPrefix(b, 0, c, maxLen);
    Groups(|b|, c, maxLen);
  }

  // ---- encodings without padding ----

  // The encoding with the equals signs left off.
  function Unpadded(b: seq<Byte>): string {
    if b == [] then "" else if |b| < 3 then Quartet(b)[..|b| + 1] else Quartet(b[..3]) + Unpadded(b[3..])
  }

  lemma GroupOfThree(b: seq<Byte>, t: string)
    requires |b| >= 3
    ensures Group(Quartet(b[..3]) + t) == b[..3] && Quartet(b[..3]) == Quartet(b)
  {
    QuartetDecodes(b[..3], t);
  }

  lemma LastGroup(b: seq<Byte>)
    requires 0 < |b| < 3
    ensures Group(Quartet(b)[..|b| + 1]) == b && Tail(Quartet(b)[..|b| + 1]) == ""
  {
    var s, q := Quartet(b)[..|b| + 1], Quartet(b);
    QuartetDecodes(b, "");
    assert q + "" == q && b[..|b|] == b;
    assert forall k | 0 <= k < |s| :: s[k] == q[k];
    assert q[3] == '=' && (|b| == 1 ==> q[2] == '=');
    assert forall j: nat | j < 4 :: At(s, j) == At(q, j) && Present(s, j) == Present(q, j);
  }

  /** Leaving the padding off changes nothing: a last group of two characters gives one byte, one of three gives two. */
  lemma {:induction false} PaddingOptional(b: seq<Byte>, n: nat, maxLen: int)
    ensures Decoded(Unpadded(b), n, maxLen) == Decoded(Encode(b), n, maxLen)
    decreases |b|
  {
    hide Group, Quartet;
    if |b| >= 3 {
      var t, u := Unpadded(b[3..]), Encode(b[3..]);
      GroupOfThree(b, t);
      GroupOfThree(b, u);
      assert Tail(Quartet(b[..3]) + t) == t && Tail(Quartet(b) + u) == u;
      PaddingOptional(b[3..], n + 3, maxLen);
    } else if b != [] {
      LastGroup(b);
      QuartetDecodes(b, "");
      assert b[|b|..] == [] && Encode([]) == "" && Quartet(b) + "" == Quartet(b) && b[..|b|] == b;
      assert Encode(b) == Quartet(b) && Tail(Quartet(b)) == "";
    }
  }

  /** A last group of one character gives one byte, four times the value of the character. */
  lemma OneCharacterLeft(c: char, n: nat, maxLen: int)
    requires n < maxLen - 3
    ensures Decoded([c], n, maxLen) == [if c == '=' then 0 else 4 * Value(c)]
  {
    assert Group([c]) == [At([c], 0) * 4 + At([c], 1) / 16];
    assert Tail([c]) == "";
  }

  /** Characters outside the alphabet have the value 0. */
  lemma ValueOutside(c: char)
    requires forall v: Sextet :: Symbol(v) != c
    ensures Value(c) == 0
  {
    var v := Value(c);
    assert Symbol(v) != c;
  }

  // The character that is read for c at place i.
  ghost function ReadAs(c: char, i: nat): char {
    if (forall v: Sextet :: Symbol(v) != c) && (c != '=' || i % 4 < 2) then 'A' else c
  }

  lemma ReadAsSame(s: string, t: string, j: nat)
    requires |s| == |t| && j < 4 && (j < |s| ==> t[j] == ReadAs(s[j], j))
    ensures At(t, j) == At(s, j) && (j >= 2 ==> Present(t, j) == Present(s, j))
  {
    if j < |s| && t[j] != s[j] && s[j] != '=' {
      ValueOutside(s[j]);
    }
  }

  lemma SameGroup(s: string, t: string)
    requires forall j: nat | j < 4 :: At(t, j) == At(s, j)
    requires Present(t, 2) == Present(s, 2) && Present(t, 3) == Present(s, 3)
    ensures Group(t) == Group(s)
  {
  }

  /** They are read as if they were the first letter of the alphabet, an equals sign in the first two places too. */
  lemma {:induction false} OutsideIsA(s: string, t: string, n: nat, maxLen: int)
    requires |s| == |t| && forall i: nat | i < |s| :: t[i] == ReadAs(s[i], i)
    ensures Decoded(t, n, maxLen) == Decoded(s, n, maxLen)
    decreases |s|
  {
    hide Group, At, Present, ReadAs;
    if s != "" {
      forall j: nat | j < 4 ensures At(t, j) == At(s, j) && (j >= 2 ==> Present(t, j) == Present(s, j)) {
        ReadAsSame(s, t, j);
      }
      SameGroup(s, t);
      if |s| >= 4 {
        forall i: nat | i < |s[4..]| ensures t[4..][i] == ReadAs(s[4..][i], i) {
          FourOn(s[i + 4], i);
        }
        OutsideIsA(s[4..], t[4..], n + |Group(s)|, maxLen);
      }
    }
  }

  lemma FourOn(c: char, i: nat)
    ensures ReadAs(c, i + 4) == ReadAs(c, i)
  {
  }
}
