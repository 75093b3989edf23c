/** Decoding of form data (lab5/http-root-dir/cgi-src/util.c and query.c). Characters stand for bytes. */
module FormDecoding {
  import opened CStrings

  // ---- x2c ----

  // The byte as a C char, which is taken to be signed.
  function Signed(c: char): int { if c as int < 128 then c as int else c as int - 256 }

  // c & 0xdf, on a byte.
  function Fold(c: char): int { if (c as int / 32) % 2 == 1 then c as int - 32 else c as int }

  function Digit(c: char): int { if Signed(c) >= 65 then Fold(c) - 65 + 10 else Signed(c) - 48 }

  // The result is kept in a char: 8 bits.
  function X2C(high: char, low: char): char { ((Digit(high) * 16 + Digit(low)) % 256) as char }

  // ---- what the functions do to a string ----

  function PlusDecoded(s: string): (r: string)
    ensures |r| == |s| && forall i | 0 <= i < |s| :: r[i] == if s[i] == '+' then ' ' else s[i]
  {
    seq(|s|, i requires 0 <= i < |s| => if s[i] == '+' then ' ' else s[i])
  }

  // Every percent sign is followed by the two characters that unescape_url reads.
  predicate Complete(s: string) {
    if s == "" then true else if s[0] == '%' then |s| >= 3 && Complete(s[3..]) else Complete(s[1..])
  }

  function Unescaped(s: string): string
    requires Complete(s)
  {
    if s == "" then "" else if s[0] == '%' then [X2C(s[1], s[2])] + Unescaped(s[3..]) else [s[0]] + Unescaped(s[1..])
  }

  // ---- the functions, in place ----

  /** The part of line up to stop goes to word, and line keeps what comes after it. */
  method GetWord(word: array<char>, line: array<char>, stop: char)
    requires word != line && '\0' in line[..] && stop != '\0'
    requires |Before(CString(line[..]), stop)| < word.Length
    modifies word, line
    ensures '\0' in word[..] && CString(word[..]) == Before(old(CString(line[..])), stop)
    ensures '\0' in line[..] && CString(line[..]) == After(old(CString(line[..])), stop)
  {
    hide CString;
    ghost var s := CString(line[..]);
    ghost var n := StopAt(s, stop);
    var x := 0;
    while line[x] != '\0' && line[x] != stop
      invariant x <= n && word[..x] == s[..x]
      invariant line[..] == old(line[..])
      decreases n - x
    {
      assert s[x] == line[x];
      word[x] := line[x];
      x := x + 1;
    }
    word[x] := '\0';
    assert word[..x] == s[..x];
    EndsAt(word[..], x);
    if line[x] != '\0' {
      x := x + 1;
    }
    ghost var rest := After(s, stop);
    assert rest == s[x..];
    ShiftLeft(line, x, s);
  }

  // while (line[y++] = line[x++]);
  method ShiftLeft(line: array<char>, from: nat, ghost s: string)
    requires from <= |s| < line.Length && line[..|s|] == s && line[|s|] == '\0'
    requires forall k | 0 <= k < |s| :: s[k] != '\0'
    modifies line
    ensures '\0' in line[..] && CString(line[..]) == s[from..]
  {
    var x, y := from, 0;
    while line[x] != '\0'
      invariant y + from == x <= |s|
      invariant forall k | 0 <= k < y :: line[k] == s[from + k]
      invariant forall k | x <= k < |s| :: line[k] == s[k]
      invariant line[|s|] == '\0'
      decreases |s| - x
    {
      line[y] := line[x];
      x, y := x + 1, y + 1;
    }
    line[y] := '\0';
    assert line[..y] == s[from..];
    EndsAt(line[..], y);
  }

  method PlusToSpace(str: array<char>)
    requires '\0' in str[..]
    modifies str
    ensures '\0' in str[..] && CString(str[..]) == PlusDecoded(old(CString(str[..])))
  {
    ghost var s := CString(str[..]);
    var x := 0;
    while str[x] != '\0'
      invariant x <= |s| && str[|s|] == '\0'
      invariant str[..x] == PlusDecoded(s)[..x]
      invariant forall k | x <= k < |s| :: str[k] == s[k]
      decreases |s| - x
    {
      if str[x] == '+' {
        str[x] := ' ';
      }
      x := x + 1;
    }
    EndsAt(str[..], x);
  }

  // One character decoded: how much of s it takes, and what has been decoded with it.
  lemma UnescapeStep(s: string, y: nat, done: string, all: string) returns (n: nat, next: string)
    requires y < |s| && Complete(s[y..]) && done + Unescaped(s[y..]) == all
    ensures n == (if s[y] == '%' then 3 else 1) && y + n <= |s| && Complete(s[y + n..])
    ensures next == done + [if s[y] == '%' then X2C(s[y + 1], s[y + 2]) else s[y]]
    ensures next + Unescaped(s[y + n..]) == all
  {
    n := if s[y] == '%' then 3 else 1;
    assert s[y..][n..] == s[y + n..];
    var c := if s[y] == '%' then X2C(s[y + 1], s[y + 2]) else s[y];
    next := done + [c];
    assert Unescaped(s[y..]) == [c] + Unescaped(s[y + n..]);
  }

  lemma NothingUnescaped(s: string)
    requires s == ""
    ensures Complete(s) && Unescaped(s) == ""
  {
  }

  /** The decoded characters are written behind the reading position, so none is overwritten before it is read. */
  method UnescapeUrl(url: array<char>)
    requires '\0' in url[..] && Complete(CString(url[..]))
    modifies url
    ensures '\0' in url[..] && CString(url[..]) == CString(Unescaped(old(CString(url[..]))))
  {
    hide X2C, Unescaped, Complete;
    ghost var s := CString(url[..]);
    ghost var done := "";
    var x, y := 0, 0;
    assert s[0..] == s;
    while url[y] != '\0'
      invariant x <= y <= |s| && url[|s|] == '\0'
      invariant |done| == x && forall k | 0 <= k < x :: url[k] == done[k]
      invariant Complete(s[y..]) && done + Unescaped(s[y..]) == Unescaped(s)
      invariant forall k | y <= k < |s| :: url[k] == s[k]
      decreases |s| - y
    {
      ghost var _, next := UnescapeStep(s, y, done, Unescaped(s));
      done := next;
      url[x] := url[y];
      if url[x] == '%' {
        url[x] := X2C(url[y + 1], url[y + 2]);
        y := y + 2;
      }
      x, y := x + 1, y + 1;
    }
    NothingUnescaped(s[y..]);
    assert done + "" == done;
    url[x] := '\0';
    assert url[..x] == done;
    CutAt(url[..], x);
  }

  // The first NUL is in the first n characters or right behind them.
  lemma {:induction false} CutAt(s: seq<char>, n: nat)
    requires n < |s| && s[n] == '\0'
    ensures CString(s) == CString(s[..n]) && '\0' in s
  {
    if n > 0 {
      assert s[1..][..n - 1] == s[..n][1..] && s[1..][n - 1] == s[n];
      CutAt(s[1..], n - 1);
    }
  }

  // ---- the query loop ----

  // val is 128 bytes: every part fits and is complete.
  predicate PartsFit(s: string)
    decreases |s|
  {
    s != "" ==>
      |Before(s, '&')| < 128 && Complete(Before(s, '&')) && |After(s, '&')| < |s| && PartsFit(After(s, '&'))
  }

  function DecodedPair(part: string): (string, string)
    requires Complete(PlusDecoded(part))
  {
    var u := CString(Unescaped(PlusDecoded(part)));
    (Before(u, '='), After(u, '='))
  }

  lemma {:induction false} PlusKeepsComplete(s: string)
    requires Complete(s)
    ensures Complete(PlusDecoded(s))
  {
    if s != "" {
      var k := if s[0] == '%' then 3 else 1;
      assert PlusDecoded(s)[k..] == PlusDecoded(s[k..]);
      PlusKeepsComplete(s[k..]);
    }
  }

  function DecodedQuery(s: string): seq<(string, string)>
    requires PartsFit(s)
    decreases |s|
  {
    if s == "" then []
    else
      PlusKeepsComplete(Before(s, '&'));
      [DecodedPair(Before(s, '&'))] + DecodedQuery(After(s, '&'))
  }

  lemma {:induction false} UnescapedShrinks(s: string)
    requires Complete(s)
    ensures |Unescaped(s)| <= |s|
  {
    if s != "" {
      UnescapedShrinks(s[if s[0] == '%' then 3 else 1..]);
    }
  }

  method DecodePart(cl: array<char>) returns (name: string, value: string)
    requires '\0' in cl[..] && CString(cl[..]) != "" && PartsFit(CString(cl[..]))
    modifies cl
    ensures Complete(PlusDecoded(old(Before(CString(cl[..]), '&'))))
    ensures (name, value) == DecodedPair(old(Before(CString(cl[..]), '&')))
    ensures '\0' in cl[..] && CString(cl[..]) == After(old(CString(cl[..])), '&')
  {
    ghost var part := Before(CString(cl[..]), '&');
    PlusKeepsComplete(part);
    UnescapedShrinks(PlusDecoded(part));
    var val := new char[128];
    var nam := new char[128];
    GetWord(val, cl, '&');
    PlusToSpace(val);
    UnescapeUrl(val);
    GetWord(nam, val, '=');
    name, value := CString(nam[..]), CString(val[..]);
  }

  method DecodeQuery(cl: array<char>) returns (entries: seq<(string, string)>)
    requires '\0' in cl[..] && PartsFit(CString(cl[..])) && |DecodedQuery(CString(cl[..]))| <= 10000
    modifies cl
    ensures entries == DecodedQuery(old(CString(cl[..])))
  {
    hide DecodedPair, Before, After, Complete, PlusDecoded;
    ghost var s := CString(cl[..]);
    entries := [];
    while cl[0] != '\0'
      invariant '\0' in cl[..] && PartsFit(CString(cl[..]))
      invariant entries + DecodedQuery(CString(cl[..])) == DecodedQuery(s)
      decreases |CString(cl[..])|
    {
      var name, value := DecodePart(cl);
      entries := entries + [(name, value)];
    }
  }

  // ---- form encoding ----

  // How one character is encoded: as itself, a blank as a plus sign, any character as a percent sign and two
  // hexadecimal digits (section 17.13.4 of HTML 4.01, section 2.1 of RFC 3986).
  datatype Code = Raw(c: char) | Plus | Hex(high: char, low: char)

  predicate IsHex(c: char) { '0' <= c <= '9' || 'A' <= c <= 'F' || 'a' <= c <= 'f' }

  function HexValue(c: char): (v: nat)
    requires IsHex(c)
    ensures v < 16
  {
    if c <= '9' then c as int - '0' as int
    else if c <= 'F' then c as int - 'A' as int + 10
    else c as int - 'a' as int + 10
  }

  predicate CodeOk(k: Code) {
    match k
    case Raw(c) => c != '%' && c != '+' && c != '&' && c != '=' && c != '\0'
    case Plus => true
    case Hex(h, l) => IsHex(h) && IsHex(l) && 16 * HexValue(h) + HexValue(l) != 0
  }

  // The same, with the equals sign between name and value.
  predicate CodeOrEquals(k: Code) { CodeOk(k) || k == Raw('=') }

  predicate AllCodes(ks: seq<Code>) { forall i | 0 <= i < |ks| :: CodeOrEquals(ks[i]) }

  function Character(k: Code): char
    requires CodeOrEquals(k)
  {
    match k
    case Raw(c) => c
    case Plus => ' '
    case Hex(h, l) => (16 * HexValue(h) + HexValue(l)) as char
  }

  function CodeText(k: Code): string {
    match k
    case Raw(c) => [c]
    case Plus => "+"
    case Hex(h, l) => ['%', h, l]
  }

  function Text(ks: seq<Code>): string { if ks == [] then "" else CodeText(ks[0]) + Text(ks[1..]) }

  function Plain(ks: seq<Code>): (s: string)
    requires AllCodes(ks)
    ensures |s| == |ks| && forall i | 0 <= i < |ks| :: s[i] == Character(ks[i])
  {
    seq(|ks|, i requires 0 <= i < |ks| => Character(ks[i]))
  }

  lemma HexDecodes(h: char, l: char)
    requires IsHex(h) && IsHex(l)
    ensures X2C(h, l) == (16 * HexValue(h) + HexValue(l)) as char
  {
    hide Digit, HexValue;
    HexDigit(h);
    HexDigit(l);
  }

  lemma HexDigit(c: char)
    requires IsHex(c)
    ensures Digit(c) == HexValue(c)
  {
  }

  lemma PlusConcat(a: string, b: string)
    ensures PlusDecoded(a + b) == PlusDecoded(a) + PlusDecoded(b)
  {
  }

  lemma CodeDecodes(k: Code, rest: string)
    requires CodeOrEquals(k) && Complete(rest)
    ensures Complete(CodeText(k) + rest)
    ensures Unescaped(PlusDecoded(CodeText(k)) + rest) == [Character(k)] + Unescaped(rest)
      && Complete(PlusDecoded(CodeText(k)) + rest)
  {
    var t := PlusDecoded(CodeText(k));
    assert (CodeText(k) + rest)[|t|..] == rest && (t + rest)[|t|..] == rest;
    match k
    case Hex(h, l) => HexDecodes(h, l);
    case _ => assert t == [Character(k)];
  }

  lemma {:induction false} CodesDecode(ks: seq<Code>)
    requires AllCodes(ks)
    ensures Complete(Text(ks)) && Complete(PlusDecoded(Text(ks))) && Unescaped(PlusDecoded(Text(ks))) == Plain(ks)
  {
    if ks != [] {
      CodesDecode(ks[1..]);
      var rest := Text(ks[1..]);
      assert CodeOrEquals(ks[0]);
      assert Plain(ks) == [Character(ks[0])] + Plain(ks[1..]);
      PlusConcat(CodeText(ks[0]), rest);
      CodeDecodes(ks[0], rest);
      CodeDecodes(ks[0], PlusDecoded(rest));
    }
  }

  datatype Pair = Pair(name: seq<Code>, value: seq<Code>) {
    ghost predicate Ok() {
      && AllCodes(name) && AllCodes(value)
      && (forall i | 0 <= i < |name| :: Character(name[i]) != '=')
      && (forall i | 0 <= i < |value| :: value[i] != Raw('='))
    }

    function Codes(): seq<Code> { name + [Raw('=')] + value }
  }

  function Query(ps: seq<Pair>): string {
    if ps == [] then ""
    else if |ps| == 1 then Text(ps[0].Codes())
    else Text(ps[0].Codes()) + ['&'] + Query(ps[1..])
  }

  ghost function Meaning(ps: seq<Pair>): seq<(string, string)>
    requires forall i | 0 <= i < |ps| :: ps[i].Ok()
  {
    if ps == [] then []
    else
      assert ps[0].Ok();
      [(Plain(ps[0].name), Plain(ps[0].value))] + Meaning(ps[1..])
  }

  lemma {:induction false} TextClean(ks: seq<Code>)
    requires AllCodes(ks)
    ensures '&' !in Text(ks) && '\0' !in Text(ks)
  {
    if ks != [] {
      assert CodeOrEquals(ks[0]);
      TextClean(ks[1..]);
    }
  }

  lemma PairDecodes(p: Pair)
    requires p.Ok()
    ensures AllCodes(p.Codes()) && AllCodes(p.name) && AllCodes(p.value)
    ensures Text(p.Codes()) != "" && Complete(PlusDecoded(Text(p.Codes())))
    ensures DecodedPair(Text(p.Codes())) == (Plain(p.name), Plain(p.value))
  {
    hide Unescaped;
    var ks := p.Codes();
    CodesDecode(ks);
    var u := Plain(ks);
    assert u == Plain(p.name) + ['='] + Plain(p.value);
    forall i | 0 <= i < |u| ensures u[i] != '\0' {
      assert CodeOrEquals(ks[i]);
    }
    EndsAt(u + "\0", |u|);
    CutAt(u + "\0", |u|);
    assert (u + "\0")[..|u|] == u;
    SplitAtStop(Plain(p.name), Plain(p.value), '=');
    assert ks != [];
  }

  ghost predicate Short(ps: seq<Pair>) {
    forall i | 0 <= i < |ps| :: ps[i].Ok() && |Text(ps[i].Codes())| < 128
  }

  lemma QuerySplits(ps: seq<Pair>)
    requires ps != [] && ps[0].Ok()
    ensures Before(Query(ps), '&') == Text(ps[0].Codes()) && After(Query(ps), '&') == Query(ps[1..])
    ensures Query(ps) != "" && |After(Query(ps), '&')| < |Query(ps)|
  {
    PairDecodes(ps[0]);
    TextClean(ps[0].Codes());
    SplitAtStop(Text(ps[0].Codes()), Query(ps[1..]), '&');
  }

  /** Decoding undoes encoding: for every list of names and values without NUL, the names without an equals sign, and
      every way to encode them, the loop returns the list; given that each encoded pair fits in 127 characters. */
  lemma {:induction false} DecodingInvertsEncoding(ps: seq<Pair>)
    requires Short(ps)
    ensures PartsFit(Query(ps)) && DecodedQuery(Query(ps)) == Meaning(ps)
  {
    if ps != [] {
      assert ps[0].Ok();
      DecodingInvertsEncoding(ps[1..]);
      QuerySplits(ps);
      PairDecodes(ps[0]);
      CodesDecode(ps[0].Codes());
    }
  }

  // ---- parts of any form ----

  // The parts with an ampersand between neighbours.
  function Joined(parts: seq<seq<Code>>): string {
    if parts == [] then ""
    else if |parts| == 1 then Text(parts[0])
    else Text(parts[0]) + ['&'] + Joined(parts[1..])
  }

  // u is cut at its first equals sign; without one it is all name, and the value is empty.
  predicate IsPair(u: string, pair: (string, string)) {
    if '=' in u then '=' !in pair.0 && u == pair.0 + "=" + pair.1 else pair == (u, "")
  }

  lemma CutIsPair(u: string)
    ensures IsPair(u, (Before(u, '='), After(u, '=')))
  {
    var n := StopAt(u, '=');
    if n < |u| {
      assert u == u[..n] + "=" + u[n + 1..];
    } else {
      assert u[..n] == u;
    }
  }

  lemma PartDecodes(ks: seq<Code>)
    requires AllCodes(ks)
    ensures Complete(Text(ks)) && Complete(PlusDecoded(Text(ks))) && IsPair(Plain(ks), DecodedPair(Text(ks)))
  {
    hide Unescaped, IsPair, Complete;
    CodesDecode(ks);
    var u := Plain(ks);
    forall i | 0 <= i < |u| ensures u[i] != '\0' {
      assert CodeOrEquals(ks[i]);
    }
    EndsAt(u + "\0", |u|);
    CutAt(u + "\0", |u|);
    assert (u + "\0")[..|u|] == u;
    CutIsPair(u);
  }

  // One part in front.
  lemma QueryStep(ks: seq<Code>, rest: string)
    requires AllCodes(ks) && |Text(ks)| < 128 && PartsFit(rest)
    ensures var s := Text(ks) + "&" + rest;
      PartsFit(s) && Complete(PlusDecoded(Text(ks))) && DecodedQuery(s) == [DecodedPair(Text(ks))] + DecodedQuery(rest)
    ensures Text(ks) != "" ==> PartsFit(Text(ks)) && DecodedQuery(Text(ks)) == [DecodedPair(Text(ks))]
  {
    hide Complete, DecodedPair;
    PartDecodes(ks);
    TextClean(ks);
    SplitAtStop(Text(ks), rest, '&');
  }

  /** Whatever the parts of a query are, with an equals sign or several or none, encoded or not, empty or not: each
      gives one pair, cut at the first equals sign of what it decodes to.  Only an empty part at the very end gives
      none. */
  lemma {:induction false} PartsDecode(parts: seq<seq<Code>>, end: string)
    requires parts != [] && (forall i | 0 <= i < |parts| :: AllCodes(parts[i]) && |Text(parts[i])| < 128)
    requires end == "&" || (end == "" && Text(parts[|parts| - 1]) != "")
    ensures PartsFit(Joined(parts) + end)
    ensures var pairs := DecodedQuery(Joined(parts) + end);
      |pairs| == |parts| && forall i | 0 <= i < |parts| :: IsPair(Plain(parts[i]), pairs[i])
  {
    hide Text, DecodedPair, Complete, IsPair, PartsFit, DecodedQuery;
    var ks, rest := parts[0], parts[1..];
    PartDecodes(ks);
    if |parts| == 1 {
      NothingToDecode();
      QueryStep(ks, "");
      assert Text(ks) + "&" + "" == Text(ks) + "&" && Text(ks) + "" == Text(ks);
    } else {
      PartsDecode(rest, end);
      QueryStep(ks, Joined(rest) + end);
      assert Text(ks) + "&" + (Joined(rest) + end) == Joined(parts) + end;
      var pairs := DecodedQuery(Joined(parts) + end);
      var later := DecodedQuery(Joined(rest) + end);
      assert pairs[0] == DecodedPair(Text(ks));
      forall i | 0 < i < |parts| ensures IsPair(Plain(parts[i]), pairs[i]) {
        assert parts[i] == rest[i - 1] && pairs[i] == later[i - 1];
      }
    }
  }

  lemma NothingToDecode()
    ensures PartsFit("") && DecodedQuery("") == []
  {
  }

  // ---- two characters that are no hexadecimal digits ----

  /** What x2c makes of every pair of bytes, by the ranges that clearing bit 5 and the sign tell apart. */
  lemma AnyBytesDecode(high: char, low: char)
    requires high as int < 256 && low as int < 256
    ensures X2C(high, low) as int == (16 * ByteDigit(high as int) + ByteDigit(low as int)) % 256
  {
  }

  function ByteDigit(c: int): int {
    if c < 65 then c - 48 else if c < 96 then c - 55 else if c < 128 then c - 87 else c - 304
  }
}
