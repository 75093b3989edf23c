/** wildcardToRegex (lab3/shell.l): a glob compiled to an extended regular expression. The expression it emits is
    read as section 9.4 of the Base Definitions volume of POSIX.1-2017 says, and compared with the meaning that
    section 2.13 of the Shell and Utilities volume gives to the pattern, but for one thing: the left bracket, which
    opens a bracket expression in 2.13.1, stands for itself, since the code quotes it. */
module Glob {
  import opened Options

  // ---- the meaning of a pattern ----

  ghost predicate Matches(pattern: string, name: string) {
    if pattern == "" then name == ""
    else if pattern[0] == '*' then exists k :: 0 <= k <= |name| && Matches(pattern[1..], name[k..])
    else if pattern[0] == '\\' && |pattern| > 1 then
      name != "" && pattern[1] == name[0] && Matches(pattern[2..], name[1..])
    else name != "" && (pattern[0] == '?' || pattern[0] == name[0]) && Matches(pattern[1..], name[1..])
  }

  // ---- extended regular expressions: anchors, and single characters that may be repeated ----

  datatype Atom = Any | Lit(c: char)

  datatype Item = Start | End | One(atom: Atom) | Many(atom: Atom) | Maybe(atom: Atom)

  predicate Accepts(a: Atom, c: char) { a.Any? || a.c == c }

  // Some match of re begins at position i of name.
  predicate MatchesAt(re: seq<Item>, name: string, i: nat)
    requires i <= |name|
    decreases |re|, |name| - i
  {
    if re == [] then true
    else match re[0]
      case Start => i == 0 && MatchesAt(re[1..], name, i)
      case End => i == |name| && MatchesAt(re[1..], name, i)
      case One(a) => i < |name| && Accepts(a, name[i]) && MatchesAt(re[1..], name, i + 1)
      case Many(a) => MatchesAt(re[1..], name, i) || (i < |name| && Accepts(a, name[i]) && MatchesAt(re, name, i + 1))
      case Maybe(a) =>
        MatchesAt(re[1..], name, i) || (i < |name| && Accepts(a, name[i]) && MatchesAt(re[1..], name, i + 1))
  }

  // regexec: a match anywhere in name.
  ghost predicate Found(re: seq<Item>, name: string) {
    exists i: nat :: i <= |name| && MatchesAt(re, name, i)
  }

  // Special where a character is expected. A closing parenthesis is so only behind an opening one (9.4.3).
  predicate Opens(c: char) { c == '[' || c == '(' || c == '|' || Repeats(c) }

  // These repeat the character before them.
  predicate Repeats(c: char) { c == '*' || c == '+' || c == '?' || c == '{' }

  // regcomp, on the part of the notation without groups, bracket expressions, alternatives and intervals; None outside
  // that part, on a repetition of nothing and on a backslash at the end.
  function Parse(s: string): Option<seq<Item>>
    decreases |s|, 0
  {
    if s == "" then Some([])
    else if s[0] == '^' then Prepend(Start, Parse(s[1..]))
    else if s[0] == '$' then Prepend(End, Parse(s[1..]))
    else if s[0] == '\\' then if |s| == 1 then None else ParseAfter(Lit(s[1]), s[2..])
    else if s[0] == '.' then ParseAfter(Any, s[1..])
    else if Opens(s[0]) then None
    else ParseAfter(Lit(s[0]), s[1..])
  }

  // What follows a single character.
  function ParseAfter(a: Atom, s: string): Option<seq<Item>>
    decreases |s|, 1
  {
    if s == "" then Some([One(a)])
    else if Repeats(s[0]) then Repeated(a, s[0], Parse(s[1..]))
    else Prepend(One(a), Parse(s))
  }

  // The character a, repeated as c says, and then r.
  function Repeated(a: Atom, c: char, r: Option<seq<Item>>): Option<seq<Item>>
    requires Repeats(c)
  {
    if c == '*' then Prepend(Many(a), r)
    else if c == '+' then Prepend(One(a), Prepend(Many(a), r))
    else if c == '?' then Prepend(Maybe(a), r)
    else None
  }

  function Prepend(i: Item, r: Option<seq<Item>>): Option<seq<Item>> {
    if r.None? then None else Some([i] + r.value)
  }

  // ---- the translation ----

  predicate Quoted(c: char) {
    || c == '^' || c == '$' || c == '[' || c == ']' || c == '(' || c == ')' || c == '{' || c == '}' || c == '+'
    || c == '|'
  }

  // The text for the first character of the pattern, and how much of the pattern it stands for.
  function Piece(p: string): (string, nat)
    requires p != ""
    ensures 1 <= Piece(p).1 <= |p|
  {
    if p[0] == '*' then (".*", 1)
    else if p[0] == '?' then (".", 1)
    else if p[0] == '.' then ("\\.", 1)
    else if p[0] == '\\' && |p| > 1 then ([p[1]], 2)
    else if Quoted(p[0]) then (['\\', p[0]], 1)
    else ([p[0]], 1)
  }

  // The text for the pattern between the anchors.
  function Body(p: string): string {
    if p == "" then "" else Piece(p).0 + Body(p[Piece(p).1..])
  }

  lemma BodyStep(pattern: string, i: nat)
    requires i < |pattern|
    ensures var (piece, n) := Piece(pattern[i..]);
      i + n <= |pattern| && Body(pattern[i..]) == piece + Body(pattern[i + n..])
  {
    var (piece, n) := Piece(pattern[i..]);
    assert pattern[i..][n..] == pattern[i + n..];
  }

  method WildcardToRegex(pattern: string) returns (regex: string)
    ensures regex == "^" + Body(pattern) + "$"
  {
    regex := "^";
    var i := 0;
    while i < |pattern|
      invariant 0 <= i <= |pattern|
      invariant regex + Body(pattern[i..]) == "^" + Body(pattern)
    {
      BodyStep(pattern, i);
      ghost var k := i;
      var c := pattern[i];
      var piece := [c];
      if c == '*' {
        piece := ".*";
      } else if c == '?' {
        piece := ".";
      } else if c == '.' {
        piece := "\\.";
      } else if c == '\\' && i + 1 < |pattern| {
        i := i + 1;
        piece := [pattern[i]];
      } else if Quoted(c) {
        piece := ['\\', c];
      }
      i := i + 1;
      assert (piece, i - k) == Piece(pattern[k..]);
      assert regex + (piece + Body(pattern[i..])) == regex + piece + Body(pattern[i..]);
      regex := regex + piece;
    }
    regex := regex + "$";
  }

  // ---- the translation keeps the meaning ----

  predicate Ordinary(c: char) { !Opens(c) && c != '^' && c != '$' && c != '.' && c != '\\' }

  // Quoted in the translation without need.
  predicate Closing(c: char) { c == ')' || c == ']' || c == '}' }

  // Every backslash stands before a character that is ordinary in an expression, or before another backslash that a
  // closing parenthesis, bracket or brace follows, whose own quoting then completes the pair.
  predicate PlainEscapes(p: string) {
    if p == "" then true
    else if p[0] == '\\' then
      |p| > 1 && if p[1] == '\\' then |p| > 2 && Closing(p[2]) && PlainEscapes(p[3..])
                 else Ordinary(p[1]) && PlainEscapes(p[2..])
    else PlainEscapes(p[1..])
  }

  lemma {:induction false} NoBackslashIsPlain(p: string)
    requires '\\' !in p
    ensures PlainEscapes(p)
  {
    if p != "" {
      NoBackslashIsPlain(p[1..]);
    }
  }

  // The items that the pattern stands for.
  function Items(p: string): seq<Item> {
    if p == "" then [End]
    else if p[0] == '*' then [Many(Any)] + Items(p[1..])
    else if p[0] == '?' then [One(Any)] + Items(p[1..])
    else if p[0] == '\\' && |p| > 1 then [One(Lit(p[1]))] + Items(p[2..])
    else [One(Lit(p[0]))] + Items(p[1..])
  }

  // A character that is not repeated by what follows.
  predicate Follows(s: string) { s != "" && !Repeats(s[0]) }

  lemma ParseOne(c: char, rest: string)
    requires Follows(rest)
    ensures Parse(['\\', c] + rest) == Prepend(One(Lit(c)), Parse(rest))
    ensures Parse(['.'] + rest) == Prepend(One(Any), Parse(rest))
    ensures Ordinary(c) ==> Parse([c] + rest) == Prepend(One(Lit(c)), Parse(rest))
  {
    assert (['\\', c] + rest)[2..] == rest && (['.'] + rest)[1..] == rest && ([c] + rest)[1..] == rest;
  }

  lemma ParseMany(rest: string)
    ensures Parse(".*" + rest) == Prepend(Many(Any), Parse(rest))
  {
    assert (".*" + rest)[1..] == "*" + rest && ("*" + rest)[1..] == rest;
  }

  lemma BodySplits(p: string)
    requires p != ""
    ensures var (piece, n) := Piece(p); Body(p) + "$" == piece + (Body(p[n..]) + "$")
  {
  }

  lemma Pair(c: char, d: char, rest: string)
    ensures [c, d] + rest == [c] + ([d] + rest)
  {
  }

  lemma EmptyBody()
    ensures Body("") + "$" == "$"
  {
  }

  lemma ParseEnd()
    ensures Parse("$") == Some([End])
  {
    assert "$"[1..] == "" && Parse("") == Some([]) && [End] + [] == [End];
  }

  lemma {:induction false} ParseBody(p: string)
    requires PlainEscapes(p)
    ensures Parse(Body(p) + "$") == Some(Items(p)) && Follows(Body(p) + "$")
    decreases |p|
  {
    hide Parse, ParseAfter, Body;
    if p == "" {
      EmptyBody();
      ParseEnd();
    } else {
      BodySplits(p);
      var n := Piece(p).1;
      if p[0] == '\\' && p[1] == '\\' {
        var rest := Body(p[3..]) + "$";
        assert p[2..][1..] == p[3..];
        ParseBody(p[3..]);
        BodySplits(p[2..]);
        Pair('\\', p[2], rest);
        Pair('\\', '\\', [p[2]] + rest);
        ParseOne(p[2], rest);
        ParseOne('\\', [p[2]] + rest);
      } else {
        var rest := Body(p[n..]) + "$";
        ParseBody(p[n..]);
        ParseOne(p[n - 1], rest);
        ParseMany(rest);
      }
    }
  }

  // A match of re begins at position i, or at some later one.
  predicate At(re: seq<Item>, name: string, i: nat) { i <= |name| && MatchesAt(re, name, i) }

  ghost predicate Later(re: seq<Item>, name: string, i: nat) { exists j: nat :: i <= j && At(re, name, j) }

  lemma {:induction false} StarSkips(re: seq<Item>, name: string, i: nat)
    requires i <= |name|
    ensures At([Many(Any)] + re, name, i) <==> Later(re, name, i)
    decreases |name| - i
  {
    var m := [Many(Any)] + re;
    assert m[0] == Many(Any) && m[1..] == re;
    assert At(m, name, i) <==> At(re, name, i) || (i < |name| && At(m, name, i + 1));
    if i < |name| {
      StarSkips(re, name, i + 1);
    }
  }

  lemma AtOne(a: Atom, re: seq<Item>, name: string, i: nat)
    ensures At([One(a)] + re, name, i) <==> i < |name| && Accepts(a, name[i]) && At(re, name, i + 1)
  {
    assert ([One(a)] + re)[1..] == re;
  }

  lemma AtEnd(name: string, i: nat)
    ensures At([End], name, i) <==> i == |name|
  {
    assert [End][1..] == [];
    assert i <= |name| ==> MatchesAt([], name, i);
  }

  lemma AtInside(re: seq<Item>, name: string, i: nat)
    requires At(re, name, i)
    ensures i <= |name|
  {
  }

  lemma {:induction false} ItemsMeaning(p: string, name: string, i: nat)
    requires i <= |name|
    ensures At(Items(p), name, i) <==> Matches(p, name[i..])
    decreases |p|
  {
    hide MatchesAt, At;
    var n := name[i..];
    if p == "" {
      AtEnd(name, i);
    } else if p[0] == '*' {
      StarSkips(Items(p[1..]), name, i);
      forall j: nat | i <= j <= |name| ensures At(Items(p[1..]), name, j) <==> Matches(p[1..], n[j - i..]) {
        ItemsMeaning(p[1..], name, j);
        assert name[j..] == n[j - i..];
      }
      if Later(Items(p[1..]), name, i) {
        var j: nat :| i <= j && At(Items(p[1..]), name, j);
        AtInside(Items(p[1..]), name, j);
        assert Matches(p[1..], n[j - i..]);
      }
      if Matches(p, n) {
        var k :| 0 <= k <= |n| && Matches(p[1..], n[k..]);
        var j: nat := i + k;
        assert n[j - i..] == n[k..] && At(Items(p[1..]), name, j);
      }
    } else {
      var m := if p[0] == '\\' && |p| > 1 then 2 else 1;
      AtOne(if p[0] == '?' then Any else Lit(p[m - 1]), Items(p[m..]), name, i);
      if i < |name| {
        ItemsMeaning(p[m..], name, i + 1);
        assert name[i + 1..] == n[1..];
      }
    }
  }

  /** For every pattern whose backslashes, if any, are plain the emitted expression compiles, and it finds a name
      exactly when the pattern matches that name as a glob. */
  lemma TranslationKeepsMeaning(pattern: string, name: string)
    requires PlainEscapes(pattern)
    ensures var re := Parse("^" + Body(pattern) + "$"); re.Some? && (Found(re.value, name) <==> Matches(pattern, name))
  {
    ParseBody(pattern);
    var s := "^" + Body(pattern) + "$";
    assert s[1..] == Body(pattern) + "$";
    var re := [Start] + Items(pattern);
    assert re[1..] == Items(pattern);
    ItemsMeaning(pattern, name, 0);
    assert name[0..] == name;
    assert MatchesAt(re, name, 0) <==> At(Items(pattern), name, 0);
  }

  // ---- and no other translation does ----

  // The single characters that every match of re consumes.
  function Singles(re: seq<Item>): seq<Atom> {
    if re == [] then [] else if re[0].One? then [re[0].atom] + Singles(re[1..]) else Singles(re[1..])
  }

  ghost predicate Fits(q: seq<Atom>, w: string) {
    |w| == |q| && forall k | 0 <= k < |q| :: Accepts(q[k], w[k])
  }

  // The shortest names that an expression can match are those that fit its singles.
  lemma {:induction false} Least(re: seq<Item>, name: string, i: nat)
    requires At(re, name, i)
    ensures |name| - i >= |Singles(re)| && (|name| - i == |Singles(re)| ==> Fits(Singles(re), name[i..]))
    decreases |re|, |name| - i
  {
    if re != [] {
      if re[0].Many? && !At(re[1..], name, i) {
        Least(re, name, i + 1);
      } else if re[0].Maybe? && !At(re[1..], name, i) {
        Least(re[1..], name, i + 1);
      } else if re[0].One? {
        Least(re[1..], name, i + 1);
        assert name[i..] == [name[i]] + name[i + 1..];
      } else {
        Least(re[1..], name, i);
      }
    }
  }

  // If an expression matches anything, it matches all names that fit its singles.
  lemma {:induction false} Shrinks(re: seq<Item>, name: string, i: nat, u: string, w: string)
    requires At(re, name, i) && Fits(Singles(re), w) && (i == 0 ==> u == "")
    ensures At(re, u + w, |u|)
    decreases |re|, |name| - i
  {
    if re != [] {
      if re[0].Many? && !At(re[1..], name, i) {
        Shrinks(re, name, i + 1, u, w);
      } else if re[0].Maybe? && !At(re[1..], name, i) {
        Shrinks(re[1..], name, i + 1, u, w);
      } else if re[0].One? {
        Shrinks(re[1..], name, i + 1, u + [w[0]], w[1..]);
        assert u + w == u + [w[0]] + w[1..];
      } else {
        if re[0].End? { Least(re[1..], name, i); }
        Shrinks(re[1..], name, i, u, w);
      }
    }
  }

  function Sample(q: seq<Atom>): (w: string)
    ensures Fits(q, w)
  {
    if q == [] then "" else [if q[0].Any? then 'x' else q[0].c] + Sample(q[1..])
  }

  lemma SameFits(q1: seq<Atom>, q2: seq<Atom>)
    requires forall w :: Fits(q1, w) <==> Fits(q2, w)
    ensures q1 == q2
  {
    assert Fits(q1, Sample(q1)) && Fits(q2, Sample(q1));
    forall k | 0 <= k < |q1| ensures q1[k] == q2[k] {
      var c := if q1[k].Lit? then q1[k].c else if q2[k].Lit? then q2[k].c else 'x';
      var d := if c == 'x' then 'y' else 'x';
      var v, w := Sample(q1)[k := d], Sample(q2)[k := d];
      assert Accepts(q1[k], d) ==> Fits(q1, v) && Accepts(q2[k], v[k]);
      assert Accepts(q2[k], d) ==> Fits(q2, w) && Accepts(q1[k], w[k]);
      assert Accepts(q1[k], Sample(q1)[k]) && Accepts(q2[k], Sample(q1)[k]);
    }
  }

  // Two expressions that match the same names have the same singles.
  lemma SameSingles(r1: seq<Item>, r2: seq<Item>, name: string)
    requires At(r1, name, 0) && forall x :: At(r1, x, 0) <==> At(r2, x, 0)
    ensures Singles(r1) == Singles(r2)
  {
    forall w ensures Fits(Singles(r1), w) <==> Fits(Singles(r2), w) {
      var w1, w2 := Sample(Singles(r1)), Sample(Singles(r2));
      Shrinks(r1, name, 0, "", w1);
      Shrinks(r2, name, 0, "", w2);
      assert "" + w1 == w1 && "" + w2 == w2 && "" + w == w && w[0..] == w;
      Least(r2, w1, 0);
      Least(r1, w2, 0);
      if Fits(Singles(r1), w) { Shrinks(r1, name, 0, "", w); Least(r2, w, 0); }
      if Fits(Singles(r2), w) { Shrinks(r2, name, 0, "", w); Least(r1, w, 0); }
    }
    SameFits(Singles(r1), Singles(r2));
  }

  // What the rest of the pattern is read as: by itself, behind the character a, or behind a backslash.
  function Fresh(p: string): Option<seq<Item>> { Parse(Body(p) + "$") }

  function Behind(a: Atom, p: string): Option<seq<Item>> { ParseAfter(a, Body(p) + "$") }

  // Behind a character that an escape has put into the expression as it is.
  function Raw(c: char, p: string): Option<seq<Item>> { Parse([c] + (Body(p) + "$")) }

  // The singles of an expression fall short of what the pattern stands for, or are that.
  predicate Short(r: Option<seq<Item>>, q: seq<Atom>) { r.Some? ==> |Singles(r.value)| <= |q| }

  predicate Same(r: Option<seq<Item>>, q: seq<Atom>) { r.Some? && Singles(r.value) == q }

  lemma SinglesOf(i: Item, r: Option<seq<Item>>)
    ensures var r' := Prepend(i, r);
      && r'.Some? == r.Some?
      && (r.Some? ==> Singles(r'.value) == if i.One? then [i.atom] + Singles(r.value) else Singles(r.value))
  {
    if r.Some? {
      assert ([i] + r.value)[1..] == r.value;
    }
  }

  // A repetition adds at most one single.
  lemma SinglesOfRepeated(a: Atom, c: char, r: Option<seq<Item>>)
    requires Repeats(c)
    ensures var r' := Repeated(a, c, r); r'.Some? ==> r.Some? && |Singles(r'.value)| <= 1 + |Singles(r.value)|
  {
    SinglesOf(Many(a), r);
    SinglesOf(Maybe(a), r);
    SinglesOf(One(a), Prepend(Many(a), r));
  }

  lemma SinglesOfItems(p: string)
    requires p != ""
    ensures var m := if p[0] == '\\' && |p| > 1 then 2 else 1;
      var q := Singles(Items(p[m..]));
      Singles(Items(p)) == if p[0] == '*' then q else [if p[0] == '?' then Any else Lit(p[m - 1])] + q
  {
    var m := if p[0] == '\\' && |p| > 1 then 2 else 1;
    assert Items(p)[1..] == Items(p[m..]);
  }

  lemma RawReads(c: char, p: string)
    ensures Raw(c, p) == if c == '^' then Prepend(Start, Fresh(p)) else if c == '$' then Prepend(End, Fresh(p))
                         else if c == '\\' then Raw(c, p) else if c == '.' then Behind(Any, p)
                         else if Opens(c) then None else Behind(Lit(c), p)
  {
    assert ([c] + (Body(p) + "$"))[1..] == Body(p) + "$";
  }

  lemma AfterNothing(a: Atom)
    ensures ParseAfter(a, "") == Some([One(a)])
  {
  }

  lemma ParseAny(rest: string)
    ensures Parse("." + rest) == ParseAfter(Any, rest)
  {
    assert ("." + rest)[1..] == rest;
  }

  lemma AfterBackslash(c: char, rest: string)
    ensures Parse(['\\'] + ([c] + rest)) == ParseAfter(Lit(c), rest)
  {
    assert (['\\'] + ([c] + rest))[2..] == rest;
  }

  lemma FreshReads(p: string)
    requires p != ""
    ensures var c := p[0];
      Fresh(p) == if c == '*' then Prepend(Many(Any), Fresh(p[1..])) else if c == '?' then Behind(Any, p[1..])
                  else if c == '\\' && |p| > 1 then Raw(p[1], p[2..])
                  else if c == '\\' then Some([One(Lit('$'))])
                  else Behind(Lit(c), p[1..])
  {
    hide Parse, ParseAfter, Body;
    BodySplits(p);
    var rest := Body(p[Piece(p).1..]) + "$";
    if p[0] == '*' {
      ParseMany(rest);
    } else if p[0] == '?' {
      ParseAny(rest);
    } else if p[0] == '.' || Quoted(p[0]) {
      Pair('\\', p[0], rest);
      AfterBackslash(p[0], rest);
    } else if p[0] == '\\' && |p| == 1 {
      EmptyBody();
      assert p[1..] == "";
      assert ['$'] + "" == "$";
      AfterBackslash('$', "");
      AfterNothing(Lit('$'));
    } else if p[0] != '\\' {
      RawReads(p[0], p[1..]);
    }
  }

  // The pattern begins with an escaped character that repeats what is before it.
  predicate Repeating(p: string) { |p| > 1 && p[0] == '\\' && Repeats(p[1]) }

  lemma BehindReads(a: Atom, p: string)
    ensures Behind(a, p) == if Repeating(p) then Repeated(a, p[1], Fresh(p[2..])) else Prepend(One(a), Fresh(p))
  {
    if p != "" {
      BodySplits(p);
      if Repeating(p) {
        assert (Body(p) + "$")[1..] == Body(p[2..]) + "$";
      }
    }
  }

  lemma AfterAtom(a: Atom, c: char, rest: string)
    ensures var r := ParseAfter(a, [c] + rest);
      r == if Repeats(c) then Repeated(a, c, Parse(rest)) else Prepend(One(a), Parse([c] + rest))
  {
    assert ([c] + rest)[1..] == rest;
  }

  // Behind a backslash that an escape has put into the expression as it is.
  lemma DanglingReads(p: string)
    requires p != ""
    ensures var r, c := Raw('\\', p), p[0];
      if c == '*' then r == Prepend(Many(Lit('.')), Fresh(p[1..])) else if c == '?' then r == Behind(Lit('.'), p[1..])
      else if c == '+' || c == '{' then r == Repeated(Lit('\\'), c, Fresh(p[1..]))
      else if c == '.' || Quoted(c) then r == Prepend(One(Lit('\\')), Raw(c, p[1..]))
      else if c == '\\' && |p| > 1 then r == Behind(Lit(p[1]), p[2..])
      else if c == '\\' then r == Prepend(One(Lit('\\')), Fresh(""))
      else r == Behind(Lit(c), p[1..])
  {
    hide Parse, ParseAfter, Body;
    BodySplits(p);
    var rest := Body(p[Piece(p).1..]) + "$";
    if p[0] == '*' {
      Pair('.', '*', rest);
      AfterBackslash('.', ['*'] + rest);
      AfterAtom(Lit('.'), '*', rest);
    } else if p[0] == '.' || Quoted(p[0]) {
      Pair('\\', p[0], rest);
      AfterBackslash('\\', [p[0]] + rest);
      AfterAtom(Lit('\\'), p[0], rest);
    } else if p[0] == '\\' && |p| == 1 {
      EmptyBody();
      assert p[1..] == "";
      assert "$" == ['$'] + "";
      AfterBackslash('\\', "$");
      AfterAtom(Lit('\\'), '$', "");
    } else {
      AfterBackslash(Piece(p).0[0], rest);
    }
  }

  lemma Cancel(a: Atom, b: Atom, q: seq<Atom>, r: seq<Atom>)
    ensures [a] + q == [b] + r <==> a == b && q == r
  {
    assert ([a] + q)[0] == a && ([b] + r)[0] == b && ([a] + q)[1..] == q && ([b] + r)[1..] == r;
  }

  lemma {:induction false} FreshSingles(p: string)
    ensures Short(Fresh(p), Singles(Items(p)))
    ensures Same(Fresh(p), Singles(Items(p))) ==> PlainEscapes(p)
    decreases |p|, 1
  {
    if p == "" {
      assert Body(p) + "$" == "$" && "$"[1..] == "" && Parse("") == Some([]) && [End] + [] == [End];
    } else {
      SinglesOfItems(p);
      FreshReads(p);
      if p[0] == '*' {
        FreshSingles(p[1..]);
        SinglesOf(Many(Any), Fresh(p[1..]));
      } else if p[0] == '\\' && |p| > 1 {
        RawSingles(p[1], p[2..]);
      } else if p[0] == '\\' {
        assert [One(Lit('$'))][1..] == [] && Singles([One(Lit('$'))]) == [Lit('$')];
      } else {
        BehindSingles(if p[0] == '?' then Any else Lit(p[0]), p[1..]);
      }
    }
  }

  lemma {:induction false} BehindSingles(a: Atom, p: string)
    ensures var q := Singles(Items(p)); Short(Behind(a, p), [a] + q)
    ensures forall b :: Same(Behind(a, p), [b] + Singles(Items(p))) ==> b == a && PlainEscapes(p)
    decreases |p|, 2
  {
    BehindReads(a, p);
    if Repeating(p) {
      SinglesOfItems(p);
      FreshSingles(p[2..]);
      SinglesOfRepeated(a, p[1], Fresh(p[2..]));
    } else {
      FreshSingles(p);
      SinglesOf(One(a), Fresh(p));
      forall b ensures Same(Behind(a, p), [b] + Singles(Items(p))) ==> b == a && PlainEscapes(p) {
        if Fresh(p).Some? { Cancel(a, b, Singles(Fresh(p).value), Singles(Items(p))); }
      }
    }
  }

  // The character c, escaped in the pattern, goes into the expression as it is.
  lemma {:induction false} RawSingles(c: char, p: string)
    ensures Short(Raw(c, p), [Lit(c)] + Singles(Items(p)))
    ensures Same(Raw(c, p), [Lit(c)] + Singles(Items(p))) ==>
      if c == '\\' then p != "" && Closing(p[0]) && PlainEscapes(p[1..]) else Ordinary(c) && PlainEscapes(p)
    decreases |p|, 3
  {
    RawReads(c, p);
    if c == '\\' {
      DanglingSingles(p);
    } else if c == '^' || c == '$' {
      FreshSingles(p);
      SinglesOf(if c == '^' then Start else End, Fresh(p));
    } else if !Opens(c) {
      BehindSingles(if c == '.' then Any else Lit(c), p);
    }
  }

  lemma {:induction false} DanglingSingles(p: string)
    ensures Short(Raw('\\', p), [Lit('\\')] + Singles(Items(p)))
    ensures Same(Raw('\\', p), [Lit('\\')] + Singles(Items(p))) ==> p != "" && Closing(p[0]) && PlainEscapes(p[1..])
    decreases |p|, 2
  {
    if p == "" {
      assert ['\\'] + (Body(p) + "$") == "\\$" && "\\$"[2..] == "";
      var re := [One(Lit('$'))];
      assert Raw('\\', p) == Some(re) && re[1..] == [] && Singles(re)[0] == Lit('$');
      assert ([Lit('\\')] + Singles(Items(p)))[0] == Lit('\\');
    } else {
      SinglesOfItems(p);
      DanglingReads(p);
      var c := p[0];
      if c == '*' {
        FreshSingles(p[1..]);
        SinglesOf(Many(Lit('.')), Fresh(p[1..]));
      } else if c == '+' || c == '{' {
        FreshSingles(p[1..]);
        SinglesOfRepeated(Lit('\\'), c, Fresh(p[1..]));
      } else if c == '.' || Quoted(c) {
        QuotedSingles(c, p[1..]);
        SinglesOf(One(Lit('\\')), Raw(c, p[1..]));
        if Raw(c, p[1..]).Some? {
          Cancel(Lit('\\'), Lit('\\'), Singles(Raw(c, p[1..]).value), Singles(Items(p)));
        }
      } else if c == '\\' && |p| > 1 {
        BehindSingles(Lit(p[1]), p[2..]);
      } else if c == '\\' {
        FreshSingles("");
        SinglesOf(One(Lit(c)), Fresh(""));
      } else {
        BehindSingles(Lit(if c == '?' then '.' else c), p[1..]);
      }
    }
  }

  // What follows when the backslash that quotes c has been taken for an escaped one.
  lemma {:induction false} QuotedSingles(c: char, p: string)
    requires c == '.' || Quoted(c)
    ensures Short(Raw(c, p), [Lit(c)] + Singles(Items(p)))
    ensures Same(Raw(c, p), [Lit(c)] + Singles(Items(p))) ==> Closing(c) && PlainEscapes(p)
    decreases |p|, 4
  {
    RawSingles(c, p);
  }

  lemma FitsTail(a: Atom, q: seq<Atom>, w: string)
    requires Fits([a] + q, w)
    ensures w != "" && Accepts(a, w[0]) && Fits(q, w[1..])
  {
    assert ([a] + q)[0] == a;
    forall k | 0 <= k < |q| ensures Accepts(q[k], w[1..][k]) {
      assert ([a] + q)[k + 1] == q[k];
    }
  }

  // A pattern matches every name that fits its singles.
  lemma {:induction false} ItemsMatch(p: string, u: string, w: string)
    requires Fits(Singles(Items(p)), w)
    ensures At(Items(p), u + w, |u|)
    decreases |p|
  {
    hide MatchesAt, At, Singles;
    if p == "" {
      SinglesOfEnd();
      AtEnd(u + w, |u|);
    } else {
      SinglesOfItems(p);
      var m := if p[0] == '\\' && |p| > 1 then 2 else 1;
      var re := Items(p[m..]);
      if p[0] == '*' {
        ItemsMatch(p[1..], u, w);
        StarSkips(re, u + w, |u|);
      } else {
        var a := if p[0] == '?' then Any else Lit(p[m - 1]);
        FitsTail(a, Singles(re), w);
        ItemsMatch(p[m..], u + [w[0]], w[1..]);
        assert u + [w[0]] + w[1..] == u + w;
        AtOne(a, re, u + w, |u|);
      }
    }
  }

  lemma SinglesOfEnd()
    ensures Singles([End]) == []
  {
    assert [End][1..] == [];
  }

  // The expression without its first anchor.
  lemma Anchored(pattern: string)
    ensures var re := Parse("^" + Body(pattern) + "$");
      && re.Some? == Fresh(pattern).Some?
      && (re.Some? ==> forall name :: Found(re.value, name) <==> At(Fresh(pattern).value, name, 0))
  {
    var s, re, t := "^" + Body(pattern) + "$", Parse("^" + Body(pattern) + "$"), Fresh(pattern);
    assert s[1..] == Body(pattern) + "$";
    if t.Some? {
      assert re.value[1..] == t.value;
      forall name ensures Found(re.value, name) <==> At(t.value, name, 0) {
        assert MatchesAt(re.value, name, 0) <==> At(t.value, name, 0);
      }
    }
  }

  lemma KeptIsPlain(pattern: string)
    requires Fresh(pattern).Some?
    requires forall name :: At(Fresh(pattern).value, name, 0) <==> Matches(pattern, name)
    ensures PlainEscapes(pattern)
  {
    var items, re := Items(pattern), Fresh(pattern).value;
    var name := Sample(Singles(items));
    ItemsMatch(pattern, "", name);
    assert "" + name == name;
    forall x ensures At(items, x, 0) <==> At(re, x, 0) {
      ItemsMeaning(pattern, x, 0);
      assert x[0..] == x;
    }
    SameSingles(items, re, name);
    FreshSingles(pattern);
  }

  /** The exact condition: the emitted expression compiles, within the notation read here, and finds the names that the
      pattern matches and no others, if and only if every backslash of the pattern stands before an ordinary character,
      or before a backslash that a closing parenthesis, bracket or brace follows. */
  lemma MeaningKeptIff(pattern: string)
    ensures var re := Parse("^" + Body(pattern) + "$");
      (re.Some? && forall name :: Found(re.value, name) <==> Matches(pattern, name)) <==> PlainEscapes(pattern)
  {
    var re := Parse("^" + Body(pattern) + "$");
    if PlainEscapes(pattern) {
      TranslationKeepsMeaning(pattern, "");
      forall name ensures Found(re.value, name) <==> Matches(pattern, name) {
        TranslationKeepsMeaning(pattern, name);
      }
    } else {
      Anchored(pattern);
      if re.Some? && forall name :: Found(re.value, name) <==> Matches(pattern, name) {
        KeptIsPlain(pattern);
      }
    }
  }

  lemma EscapedStarParses()
    ensures Parse("^" + Body("x\\*") + "$") == Some([Start, Many(Lit('x')), End])
  {
    hide Parse, ParseAfter, Body;
    FreshReads("x\\*");
    BehindReads(Lit('x'), "\\*");
    assert "x\\*"[1..] == "\\*" && "\\*"[2..] == "";
    assert Fresh("") == Some([End]) by {
      EmptyBody();
      ParseEnd();
    }
    StartsParse("x\\*");
    assert [Many(Lit('x'))] + [End] == [Many(Lit('x')), End];
    assert [Start] + [Many(Lit('x')), End] == [Start, Many(Lit('x')), End];
  }

  lemma StartsParse(p: string)
    ensures Parse("^" + Body(p) + "$") == Prepend(Start, Fresh(p))
  {
    assert ("^" + Body(p) + "$")[1..] == Body(p) + "$";
  }

  /** Any other backslash can change the meaning: the escaped star of the pattern x\* is emitted raw, so the name x
      with a star, which the pattern is there to match, is refused, and the empty name is accepted. */
  lemma BackslashLosesMeaning()
    ensures var re := Parse("^" + Body("x\\*") + "$");
      re.Some? && Matches("x\\*", "x*") && !Found(re.value, "x*") && !Matches("x\\*", "") && Found(re.value, "")
  {
    hide Parse, ParseAfter, Body;
    EscapedStarParses();
    var re := [Start, Many(Lit('x')), End];
    assert re[1..] == [Many(Lit('x')), End] && [Many(Lit('x')), End][1..] == [End];
    AtEnd("", 0);
    assert At(re, "", 0);
    AtEnd("x*", 0);
    AtEnd("x*", 1);
    assert !At([Many(Lit('x')), End], "x*", 1);
    assert !At(re, "x*", 0);
    assert "x\\*"[1..] == "\\*" && "\\*"[2..] == "" && "x*"[1..] == "*" && "*"[1..] == "";
    assert Matches("\\*", "*") by { assert Matches("", ""); }
  }
}
