/** escape_shell_cmd (lab5/http-root-dir/cgi-src/util.c). */
module EscapeShell {
  import opened CStrings
  import opened Options

  predicate Special(c: char) {
    || c == '&' || c == ';' || c == '`' || c == '\'' || c == '"' || c == '|' || c == '*' || c == '?' || c == '~'
    || c == '<' || c == '>' || c == '^' || c == '(' || c == ')' || c == '[' || c == ']' || c == '{' || c == '}'
    || c == '$' || c == '\\' || c == '\n'
  }

  function Quoted(c: char): string { if Special(c) then ['\\', c] else [c] }

  function Escaped(s: string): string { if s == "" then "" else Quoted(s[0]) + Escaped(s[1..]) }

  // One place is opened at x by moving what is behind it, up to and with the NUL at l.
  method OpenGap(cmd: array<char>, x: nat, l: nat)
    requires x <= l && l + 1 < cmd.Length
    modifies cmd
    ensures forall k | 0 <= k <= x :: cmd[k] == old(cmd[k])
    ensures forall k | x < k <= l + 1 :: cmd[k] == old(cmd[k - 1])
    ensures cmd[..l + 2] == old(cmd[..x + 1] + cmd[x..l + 1])
  {
    var y := l + 1;
    while y > x
      invariant x <= y <= l + 1
      invariant forall k | 0 <= k <= y && k <= l :: cmd[k] == old(cmd[k])
      invariant forall k | y < k <= l + 1 :: cmd[k] == old(cmd[k - 1])
    {
      cmd[y] := cmd[y - 1];
      y := y - 1;
    }
  }

  lemma EscapeStep(s: string, i: nat, done: string, all: string) returns (next: string)
    requires i < |s| && done + Escaped(s[i..]) == all
    ensures next == done + Quoted(s[i]) && forall k | 0 <= k < |Quoted(s[i])| && s[i] != '\0' :: Quoted(s[i])[k] != '\0'
    ensures next + Escaped(s[i + 1..]) == all
  {
    assert s[i..][1..] == s[i + 1..];
    next := done + Quoted(s[i]);
  }

  method StrLen(s: array<char>) returns (l: nat)
    requires '\0' in s[..]
    ensures l == |CString(s[..])|
  {
    l := 0;
    while s[l] != '\0'
      invariant l <= |CString(s[..])|
      decreases |CString(s[..])| - l
    {
      l := l + 1;
    }
  }

  // What the array holds: the escaped text so far, the rest of s from i on, and the NUL.
  ghost function Holding(done: string, s: string, i: nat): seq<char>
    requires i <= |s|
  {
    done + s[i..] + ['\0']
  }

  lemma NextHolding(done: string, s: string, i: nat)
    requires i < |s|
    ensures var (h, x) := (Holding(done, s, i), |done|);
      && h[x] == s[i] && Holding(done + [s[i]], s, i + 1) == h
      && Holding(done + ['\\', s[i]], s, i + 1) == h[..x] + ['\\'] + h[x..]
  {
    assert s[i..] == [s[i]] + s[i + 1..];
    var h := Holding(done, s, i);
    assert h[..|done|] == done && h[|done|..] == s[i..] + ['\0'];
  }

  // One turn of the loop: s[i] gets its backslash if it needs one.
  method EscapeAt(cmd: array<char>, x: nat, l: nat, ghost s: string, ghost i: nat, ghost done: string,
                  ghost next: string) returns (n: nat)
    requires i < |s| && x == |done| && l == x + |s| - i && next == done + Quoted(s[i])
    requires l + |next| - |done| <= cmd.Length && cmd[..l + 1] == Holding(done, s, i)
    modifies cmd
    ensures n == |next| - |done| - 1 && cmd[..l + n + 1] == Holding(next, s, i + 1)
  {
    ghost var h := cmd[..l + 1];
    NextHolding(done, s, i);
    n := 0;
    if Special(cmd[x]) {
      OpenGap(cmd, x, l);
      ghost var g := cmd[..l + 2];
      cmd[x] := '\\';
      n := 1;
      assert cmd[..l + 2] == g[x := '\\'];
      assert g[x := '\\'] == h[..x] + ['\\'] + h[x..];
    }
  }

  // The state of the loop at x: `done` stands for the first i characters of s.
  ghost predicate Underway(cmd: array<char>, x: int, l: int, s: string, i: int, done: string)
    reads cmd
  {
    && 0 <= i <= |s| && x == |done| && l == x + |s| - i < cmd.Length
    && done + Escaped(s[i..]) == Escaped(s) && (forall k | 0 <= k < |done| :: done[k] != '\0')
    && cmd[..l + 1] == Holding(done, s, i) && cmd[x] == if i < |s| then s[i] else '\0'
  }

  method Advance(cmd: array<char>, x: nat, l: nat, ghost s: string, ghost i: nat, ghost done: string)
    returns (x': nat, l': nat, ghost i': nat, ghost next: string)
    requires Underway(cmd, x, l, s, i, done) && cmd[x] != '\0' && |Escaped(s)| < cmd.Length
    requires forall k | 0 <= k < |s| :: s[k] != '\0'
    modifies cmd
    ensures i' == i + 1 && Underway(cmd, x', l', s, i', next)
  {
    next := EscapeStep(s, i, done, Escaped(s));
    LongEnough(s[i + 1..]);
    var n := EscapeAt(cmd, x, l, s, i, done, next);
    x', l', i' := x + n + 1, l + n, i + 1;
    assert cmd[x'] == Holding(next, s, i')[x'];
  }

  method EscapeShellCmd(cmd: array<char>)
    requires '\0' in cmd[..] && |Escaped(CString(cmd[..]))| < cmd.Length
    modifies cmd
    ensures '\0' in cmd[..] && CString(cmd[..]) == Escaped(old(CString(cmd[..])))
  {
    ghost var s := CString(cmd[..]);
    ghost var done, i: nat := "", 0;
    var l := StrLen(cmd);
    var x: nat := 0;
    assert s[0..] == s && cmd[..l + 1] == Holding("", s, 0);
    while cmd[x] != '\0'
      invariant Underway(cmd, x, l, s, i, done)
      decreases |s| - i
    {
      x, l, i, done := Advance(cmd, x, l, s, i, done);
    }
    assert cmd[..x] == Holding(done, s, i)[..x] == done;
    EndsAt(cmd[..], x);
  }

  lemma {:induction false} LongEnough(s: string)
    ensures |s| <= |Escaped(s)|
  {
    if s != "" {
      LongEnough(s[1..]);
    }
  }

  /** Which characters get a backslash, wherever they stand; every other character stays as it is. */
  lemma {:induction false} EachCharacterEscaped(a: string, c: char, b: string)
    ensures Escaped(a + [c] + b)
      == Escaped(a) + (if c in "&;`'\"|*?~<>^()[]{}$\\\n" then ['\\', c] else [c]) + Escaped(b)
  {
    var s := a + [c] + b;
    if a == "" {
      assert s[0] == c && s[1..] == b && Escaped("") == "";
      assert "" + Quoted(c) + Escaped(b) == Escaped(s);
    } else {
      assert s[0] == a[0] && s[1..] == a[1..] + [c] + b;
      EachCharacterEscaped(a[1..], c, b);
    }
  }

  // ---- how a shell reads the result ----

  // The words a shell finds, or Acting when some character has its special meaning.
  datatype Reading = Acting | Words(words: seq<string>)

  // <blank> of the POSIX locale.
  predicate Blank(c: char) { c == ' ' || c == '\t' }

  // Unquoted, these are operators, quotes, expansions or patterns in any part of an argument (sections 2.2, 2.3, 2.6,
  // 2.10 and 2.13 of the Shell and Utilities volume of POSIX.1-2017).
  predicate Acts(c: char) {
    || c == '|' || c == '&' || c == ';' || c == '<' || c == '>' || c == '(' || c == ')' || c == '\n'
    || c == '"' || c == '\'' || c == '$' || c == '`' || c == '*' || c == '?' || c == '['
  }

  // The characters of the word being read, none between two words.
  function SoFar(word: Option<string>): string { if word.None? then "" else word.value }

  function Emit(word: Option<string>, r: Reading): Reading {
    if r.Acting? then r else Words((if word.None? then [] else [word.value]) + r.words)
  }

  // Token recognition (section 2.3) of text that stands where a shell expects the arguments of a command. A backslash
  // quotes the next character, and disappears together with a newline (2.2.1); between two words # starts a comment
  // up to the next newline, and ~ an expansion (2.6.1). What a backslash at the end does is not specified.
  function Read(s: string, word: Option<string>): Reading
    decreases |s|
  {
    if s == "" then Emit(word, Words([]))
    else if s[0] == '\\' then
      if |s| == 1 then Acting
      else if s[1] == '\n' then Read(s[2..], word)
      else Read(s[2..], Some(SoFar(word) + [s[1]]))
    else if Blank(s[0]) then Emit(word, Read(s[1..], None))
    else if s[0] == '#' && word.None? then if '\n' in s then Acting else Words([])
    else if Acts(s[0]) || (s[0] == '~' && word.None?) then Acting
    else Read(s[1..], Some(SoFar(word) + [s[0]]))
  }

  // What is left of the original text: newlines are lost, blanks separate words, a comment swallows the rest.
  function Kept(s: string, word: Option<string>): Reading
    decreases |s|
  {
    if s == "" then Emit(word, Words([]))
    else if s[0] == '\n' then Kept(s[1..], word)
    else if Blank(s[0]) then Emit(word, Kept(s[1..], None))
    else if s[0] == '#' && word.None? then if '\n' in s then Acting else Words([])
    else Kept(s[1..], Some(SoFar(word) + [s[0]]))
  }

  lemma {:induction false} EscapedNewline(s: string)
    ensures '\n' in Escaped(s) <==> '\n' in s
  {
    if s != "" {
      EscapedNewline(s[1..]);
      assert s == [s[0]] + s[1..];
    }
  }

  // Reading the escaped text is as simple as reading the original.
  lemma {:induction false} ReadEscaped(s: string, word: Option<string>)
    ensures Read(Escaped(s), word) == Kept(s, word)
    decreases |s|
  {
    if s != "" {
      var c, rest := s[0], Escaped(s[1..]);
      EscapedNewline(s);
      if Special(c) {
        var t := ['\\', c] + rest;
        assert Escaped(s) == t && t[0] == '\\' && t[1] == c && t[2..] == rest;
        ReadEscaped(s[1..], if c == '\n' then word else Some(SoFar(word) + [c]));
      } else {
        assert Escaped(s) == [c] + rest && ([c] + rest)[1..] == rest;
        ReadEscaped(s[1..], if Blank(c) then None else Some(SoFar(word) + [c]));
      }
    }
  }

  // A new token would start at i: what is before it, but for newlines, which disappear, is a blank or nothing.
  predicate StartsToken(s: string, i: nat, between: bool)
    requires i <= |s|
  {
    if i == 0 then between else Blank(s[i - 1]) || (s[i - 1] == '\n' && StartsToken(s, i - 1, between))
  }

  lemma {:induction false} StartsTokenTail(s: string, i: nat, between: bool)
    requires 0 < i <= |s|
    ensures StartsToken(s, i, between)
      == StartsToken(s[1..], i - 1, Blank(s[0]) || (s[0] == '\n' && between))
  {
    if i > 1 {
      StartsTokenTail(s, i - 1, between);
    }
  }

  // A comment starts at i and hides the backslash in front of a later newline.
  ghost predicate CommentAt(s: string, i: int, between: bool) {
    0 <= i < |s| && s[i] == '#' && StartsToken(s, i, between) && '\n' in s[i..]
  }

  ghost predicate Commented(s: string, between: bool) { exists i :: CommentAt(s, i, between) }

  lemma CommentedTail(s: string, between: bool)
    requires s != ""
    ensures Commented(s, between) <==>
      (s[0] == '#' && between && '\n' in s) || Commented(s[1..], Blank(s[0]) || (s[0] == '\n' && between))
  {
    var between' := Blank(s[0]) || (s[0] == '\n' && between);
    assert s[0..] == s;
    forall i | 0 < i < |s| ensures CommentAt(s, i, between) == CommentAt(s[1..], i - 1, between') {
      StartsTokenTail(s, i, between);
      assert s[1..][i - 1..] == s[i..];
    }
    if s[0] == '#' && between && '\n' in s {
      assert CommentAt(s, 0, between);
    }
    if i :| CommentAt(s[1..], i, between') {
      assert CommentAt(s, i + 1, between);
    }
    if i :| CommentAt(s, i, between) && i > 0 {
      assert CommentAt(s[1..], i - 1, between');
    }
  }

  lemma {:induction false} KeptActs(s: string, word: Option<string>)
    ensures Kept(s, word).Acting? <==> Commented(s, word.None?)
    decreases |s|
  {
    if s != "" {
      CommentedTail(s, word.None?);
      if s[0] == '\n' {
        KeptActs(s[1..], word);
      } else if Blank(s[0]) {
        KeptActs(s[1..], None);
      } else if s[0] == '#' && word.None? {
        NoNewlineNoComment(s);
      } else {
        KeptActs(s[1..], Some(SoFar(word) + [s[0]]));
      }
    }
  }

  lemma NoNewlineNoComment(s: string)
    ensures '\n' !in s ==> forall between :: !Commented(s, between)
  {
    forall i | 0 <= i <= |s| ensures '\n' in s[i..] ==> '\n' in s {
      assert forall k | 0 <= k < |s[i..]| :: s[i..][k] == s[i + k];
    }
  }

  /** In the escaped text no operator, quote, expansion or pattern is left to act, exactly unless a # that starts a
      comment stands somewhere in front of a newline: the comment ends at that newline, its backslash unread, and the
      newline ends the command. */
  lemma NothingActs(s: string)
    ensures Read(Escaped(s), None).Acting? <==>
      exists i :: 0 <= i < |s| && s[i] == '#' && StartsToken(s, i, true) && '\n' in s[i..]
  {
    ReadEscaped(s, None);
    KeptActs(s, None);
    if i :| 0 <= i < |s| && s[i] == '#' && StartsToken(s, i, true) && '\n' in s[i..] {
      assert CommentAt(s, i, true);
    }
    if i :| CommentAt(s, i, true) {
      assert s[i] == '#' && StartsToken(s, i, true);
    }
  }

  // No blank and no newline.
  predicate Solid(s: string) { forall i | 0 <= i < |s| :: !Blank(s[i]) && s[i] != '\n' }

  predicate AllSolid(r: Reading) { r.Words? ==> forall i | 0 <= i < |r.words| :: Solid(r.words[i]) }

  lemma EmitSolid(word: Option<string>, r: Reading)
    requires Solid(SoFar(word)) && AllSolid(r)
    ensures AllSolid(Emit(word, r))
  {
    var e := Emit(word, r);
    if e.Words? && word.Some? {
      forall i | 0 <= i < |e.words| ensures Solid(e.words[i]) {
        assert e.words[i] == if i == 0 then word.value else r.words[i - 1];
      }
    } else if e.Words? {
      assert e.words == r.words;
    }
  }

  lemma {:induction false} KeptSolid(s: string, word: Option<string>)
    requires Solid(SoFar(word))
    ensures AllSolid(Kept(s, word))
    ensures word.Some? && Solid(s) ==> Kept(s, word) == Words([word.value + s])
    decreases |s|
  {
    if s == "" {
      EmitSolid(word, Words([]));
      assert word.Some? ==> word.value + "" == word.value;
    } else if s[0] == '\n' {
      KeptSolid(s[1..], word);
    } else if Blank(s[0]) {
      KeptSolid(s[1..], None);
      EmitSolid(word, Kept(s[1..], None));
    } else {
      KeptSolid(s[1..], Some(SoFar(word) + [s[0]]));
      assert SoFar(word) + [s[0]] + s[1..] == SoFar(word) + s;
    }
  }

  lemma KeptWhole(s: string)
    requires s != "" && s[0] != '#' && Solid(s)
    ensures Kept(s, None) == Words([s])
  {
    KeptSolid(s[1..], Some([s[0]]));
    assert SoFar(None) + [s[0]] == [s[0]] && [s[0]] + s[1..] == s;
  }

  lemma WholeKept(s: string)
    requires Kept(s, None) == Words([s])
    ensures s != "" && s[0] != '#' && Solid(s)
  {
    KeptSolid(s, None);
    assert Solid(Words([s]).words[0]);
  }

  /** A shell reads the escaped text back as one word, the original text, exactly when that has no blank and no newline
      in it, does not start with #, and is not empty. */
  lemma EscapedReadsBack(s: string)
    ensures Read(Escaped(s), None) == Words([s]) <==> s != "" && s[0] != '#' && Solid(s)
  {
    ReadEscaped(s, None);
    if Kept(s, None) == Words([s]) {
      WholeKept(s);
    } else if s != "" && s[0] != '#' && Solid(s) {
      KeptWhole(s);
    }
  }
}
