/** The bytes that the line editor of the shell (lab3/read-line.c) reads: which key each sequence is, and what lines
    typed with them come to. */
module KeyBytes {
  import opened Numbers
  import opened Options
  import opened LineEditor

  // ---- which bytes are which key ----

  const ESC := 27 as char

  /** The codes of the keys other than the printable characters. */
  predicate IsCode(code: string, k: Key) {
    match k
    case Enter => code == [10 as char] || code == [13 as char]
    case Usage => code == [31 as char]
    case Delete => code == [4 as char] || code == [ESC, '[', '3', '~']
    case Backspace => code == [8 as char] || code == [127 as char]
    case Home => code == [1 as char] || code == [ESC, '[', 'H']
    case End => code == [5 as char] || code == [ESC, '[', 'F']
    case Up => code == [ESC, '[', 'A']
    case Down => code == [ESC, '[', 'B']
    case Right => code == [ESC, '[', 'C']
    case Left => code == [ESC, '[', 'D']
    case Char(c) => code == [c] && 32 <= c as int < 127
    case Other => false
  }

  /** Whatever follows it, a code is read as its key, to its last byte. */
  lemma CodesAreRead(code: string, k: Key, rest: string)
    requires IsCode(code, k)
    ensures code != "" && Decode(code + rest) == (k, |code|)
  {
    var s := code + rest;
    assert forall i | 0 <= i < |code| :: s[i] == code[i];
  }

  /** What is read as a key begins with one of its codes, and takes no more than that.  Anything else is skipped: one
      byte, or behind an escape the bytes that an escape sequence would have, as far as there are any. */
  lemma NothingElseIsRead(s: string)
    requires s != ""
    ensures var (k, n) := Decode(s);
      && 0 < n <= |s| && (!k.Other? ==> IsCode(s[..n], k))
      && (k.Other? ==>
            && (forall j: nat, l | j <= |s| :: !IsCode(s[..j], l))
            && n == if s[0] != ESC then 1
                    else if |s| < 3 then |s|
                    else if s[1] == '[' && s[2] == '3' && |s| > 3 then 4
                    else 3)
  {
    var (k, n) := Decode(s);
    if k.Other? {
      forall j: nat, l | j <= |s| ensures !IsCode(s[..j], l) {
        if IsCode(s[..j], l) {
          CodesAreRead(s[..j], l, s[j..]) by { assert s[..j] + s[j..] == s; }
        }
      }
    }
  }

  // ---- keys one after the other ----

  lemma {:induction false} Feed(s: Session, code: string, k: Key, rest: string)
    requires SessionOk(s) && IsCode(code, k) && !k.Enter? && !k.Usage?
    ensures SessionOk(Press(s, k)) && RunKeys(s, code + rest) == RunKeys(Press(s, k), rest)
  {
    CodesAreRead(code, k, rest);
    PressOk(s, k);
    assert (code + rest)[|code|..] == rest;
  }

  lemma Arrows()
    ensures IsCode([ESC, '[', 'A'], Up) && IsCode([ESC, '[', 'B'], Down)
    ensures IsCode([ESC, '[', 'C'], Right) && IsCode([ESC, '[', 'D'], Left)
  {
  }

  lemma IndexOk(s: Session)
    requires SessionOk(s)
    ensures s.index <= |s.history|
  {
  }

  function Repeat(code: string, n: nat): string { if n == 0 then "" else code + Repeat(code, n - 1) }

  function Presses(s: Session, k: Key, n: nat): (r: Session)
    requires s.index <= |s.history|
    ensures r.index <= |r.history|
    decreases n
  {
    if n == 0 then s else Presses(Press(s, k), k, n - 1)
  }

  lemma {:induction false} FeedMany(s: Session, code: string, k: Key, n: nat, rest: string)
    requires SessionOk(s) && IsCode(code, k) && !k.Enter? && !k.Usage?
    ensures SessionOk(Presses(s, k, n))
    ensures RunKeys(s, Repeat(code, n) + rest) == RunKeys(Presses(s, k, n), rest)
    decreases n
  {
    hide RunKeys, IsCode, Press, SessionOk;
    IndexOk(s);
    if n == 0 {
      assert Repeat(code, n) + rest == rest;
    } else {
      Feed(s, code, k, Repeat(code, n - 1) + rest);
      FeedMany(Press(s, k), code, k, n - 1, rest);
      assert Repeat(code, n) + rest == code + (Repeat(code, n - 1) + rest);
    }
  }

  // Characters typed, as many as the line has room for.
  function Typed(s: Session, w: string): (r: Session)
    requires s.index <= |s.history|
    ensures r.index <= |r.history|
    decreases |w|
  {
    if w == "" then s else Typed(Press(s, Char(w[0])), w[1..])
  }

  lemma {:induction false} FeedText(s: Session, w: string, rest: string)
    requires SessionOk(s) && AllPrintable(w)
    ensures SessionOk(Typed(s, w)) && RunKeys(s, w + rest) == RunKeys(Typed(s, w), rest)
    decreases |w|
  {
    hide RunKeys, SessionOk, Press, IsCode, AllPrintable;
    IndexOk(s);
    if w == "" {
      assert w + rest == rest;
    } else {
      var t := Press(s, Char(w[0]));
      PrintableText(w);
      Feed(s, [w[0]], Char(w[0]), w[1..] + rest);
      FeedText(t, w[1..], rest);
      assert w + rest == [w[0]] + (w[1..] + rest);
    }
  }

  lemma PrintableText(w: string)
    requires AllPrintable(w) && w != ""
    ensures IsCode([w[0]], Char(w[0])) && AllPrintable(w[1..])
  {
  }

  // The line of s has become left and right of the cursor, and its history is the same.
  predicate Shows(s: Session, r: Session, left: string, right: string) {
    r.z == Zipper(left, right) && r.history == s.history && r.index == s.index
  }

  lemma {:induction false} TypedShows(s: Session, w: string)
    requires s.index <= |s.history| && |s.z.Text()| <= 2046
    ensures var n := Min(|w|, 2046 - |s.z.Text()|);
      0 <= n && Shows(s, Typed(s, w), s.z.left + w[..n], s.z.right)
    ensures if w != "" then !Typed(s, w).browsing else Typed(s, w) == s
    decreases |w|
  {
    if w == "" {
      assert s.z.left + "" == s.z.left;
    } else {
      var t := Press(s, Char(w[0]));
      var x := w[1..];
      TypedShows(t, x);
      if |s.z.Text()| < 2046 {
        var n := Min(|x|, 2046 - |t.z.Text()|);
        assert w[..n + 1] == [w[0]] + x[..n];
        assert s.z.left + [w[0]] + x[..n] == s.z.left + w[..n + 1];
      }
    }
  }

  lemma {:induction false} PressesLeft(s: Session, n: nat)
    requires s.index <= |s.history| && n <= |s.z.left|
    ensures var k := |s.z.left| - n;
      Shows(s, Presses(s, Left, n), s.z.left[..k], s.z.left[k..] + s.z.right)
    decreases n
  {
    if n == 0 {
      assert s.z.left[..|s.z.left|] == s.z.left && s.z.left[|s.z.left|..] + s.z.right == s.z.right;
    } else {
      var l := s.z.left;
      var k := |l| - n;
      PressesLeft(Press(s, Left), n - 1);
      LastMoves(l, k, s.z.right);
    }
  }

  lemma LastMoves(l: string, k: nat, r: string)
    requires k < |l|
    ensures l[..|l| - 1][..k] == l[..k] && l[..|l| - 1][k..] + ([l[|l| - 1]] + r) == l[k..] + r
  {
    assert l[k..] == l[..|l| - 1][k..] + [l[|l| - 1]];
  }

  lemma {:induction false} PressesRight(s: Session, n: nat)
    requires s.index <= |s.history| && n <= |s.z.right|
    ensures Shows(s, Presses(s, Right, n), s.z.left + s.z.right[..n], s.z.right[n..])
    decreases n
  {
    var r := s.z.right;
    if n == 0 {
      assert s.z.left + r[..0] == s.z.left;
    } else {
      PressesRight(Press(s, Right), n - 1);
      assert s.z.left + [r[0]] + r[1..][..n - 1] == s.z.left + r[..n] && r[1..][n - 1..] == r[n..];
    }
  }

  lemma {:induction false} PressesBackspace(s: Session, n: nat)
    requires s.index <= |s.history| && n <= |s.z.left|
    ensures Shows(s, Presses(s, Backspace, n), s.z.left[..|s.z.left| - n], s.z.right)
    decreases n
  {
    var l := s.z.left;
    if n == 0 {
      assert l[..|l|] == l;
    } else {
      assert Press(s, Backspace).z == Zipper(l[..|l| - 1], s.z.right);
      PressesBackspace(Press(s, Backspace), n - 1);
      assert l[..|l| - 1][..|l| - n] == l[..|l| - n];
    }
  }

  lemma {:induction false} PressesDelete(s: Session, n: nat)
    requires s.index <= |s.history| && n <= |s.z.right|
    ensures Shows(s, Presses(s, Delete, n), s.z.left, s.z.right[n..])
    decreases n
  {
    if n > 0 {
      PressesDelete(Press(s, Delete), n - 1);
      assert s.z.right[1..][n - 1..] == s.z.right[n..];
    }
  }

  // ---- whole lines ----

  function Fresh(h: seq<string>, saved: string): Session { Session(Zipper("", ""), h, |h|, false, saved) }

  ghost predicate FreshOk(h: seq<string>, saved: string) { SessionOk(Fresh(h, saved)) }

  // The line returned, and what is remembered: nothing of an empty line.
  ghost predicate Gives(h: seq<string>, saved: string, input: string, line: string)
    requires FreshOk(h, saved)
  {
    RunKeys(Fresh(h, saved), input) == Result(Some(line + "\n"), if line == "" then h else Remember(h, line + "\n"))
  }

  lemma Entered(s: Session, code: string, rest: string)
    requires SessionOk(s) && IsCode(code, Enter)
    ensures var line := s.z.Text();
      RunKeys(s, code + rest)
        == Result(Some(line + "\n"), if line == "" then s.history else Remember(s.history, line + "\n"))
  {
    CodesAreRead(code, Enter, rest);
  }

  // All of a text typed into a fresh session.
  lemma FreshTyped(h: seq<string>, saved: string, w: string)
    requires FreshOk(h, saved) && AllPrintable(w) && |w| <= 2046
    ensures var r := Typed(Fresh(h, saved), w);
      Shows(Fresh(h, saved), r, w, "") && r.z.Text() == w && !r.browsing
  {
    TypedShows(Fresh(h, saved), w);
    assert w[..|w|] == w && "" + w == w && w + "" == w;
  }

  // Some text and any number of Lefts.
  lemma TextAndLefts(h: seq<string>, saved: string, w: string, n: nat, rest: string) returns (r: Session)
    requires FreshOk(h, saved) && AllPrintable(w) && n <= |w| <= 2046
    ensures SessionOk(r) && Shows(Fresh(h, saved), r, w[..|w| - n], w[|w| - n..])
    ensures RunKeys(Fresh(h, saved), w + (Repeat([ESC, '[', 'D'], n) + rest)) == RunKeys(r, rest)
  {
    var s := Fresh(h, saved);
    FeedText(s, w, Repeat([ESC, '[', 'D'], n) + rest);
    FreshTyped(h, saved, w);
    var t := Typed(s, w);
    FeedMany(t, [ESC, '[', 'D'], Left, n, rest);
    PressesLeft(t, n);
    r := Presses(t, Left, n);
    assert w[|w| - n..] + "" == w[|w| - n..];
  }

  /** Printable characters and a newline give the line typed, of which the first 2046 characters count. */
  lemma TypedLine(h: seq<string>, saved: string, w: string, enter: string, rest: string)
    requires FreshOk(h, saved) && AllPrintable(w) && IsCode(enter, Enter)
    ensures Gives(h, saved, w + (enter + rest), w[..Min(|w|, 2046)])
  {
    var s := Fresh(h, saved);
    FeedText(s, w, enter + rest);
    TypedShows(s, w);
    var line := w[..Min(|w|, 2046)];
    assert "" + line == line && line + "" == line;
    Entered(Typed(s, w), enter, rest);
  }

  /** n times left, then m times right: what is typed then goes to that place. */
  lemma InsertedInside(h: seq<string>, saved: string, w: string, n: nat, m: nat, v: string, enter: string, rest: string)
    requires FreshOk(h, saved) && AllPrintable(w) && AllPrintable(v) && |w| + |v| <= 2046
    requires m <= n <= |w| && IsCode(enter, Enter)
    ensures var k := |w| - n + m;
      Gives(h, saved, w + (Repeat([ESC, '[', 'D'], n) + (Repeat([ESC, '[', 'C'], m) + (v + (enter + rest)))),
            w[..k] + v + w[k..])
  {
    hide RunKeys, IsCode, SessionOk, Repeat, AllPrintable, Remember;
    var tail := v + (enter + rest);
    var k := |w| - n + m;
    var r := TextAndLefts(h, saved, w, n, Repeat([ESC, '[', 'C'], m) + tail);
    Arrows();
    FeedMany(r, [ESC, '[', 'C'], Right, m, tail);
    PressesRight(r, m);
    var u := Presses(r, Right, m);
    assert w[..|w| - n] + w[|w| - n..][..m] == w[..k] && w[|w| - n..][m..] == w[k..];
    assert |u.z.Text()| == |w|;
    FeedText(u, v, enter + rest);
    TypedShows(u, v);
    assert v[..|v|] == v && w[..k] + v + w[k..] == (w[..k] + v) + w[k..];
    Entered(Typed(u, v), enter, rest);
  }

  /** Home goes to the beginning and End to the end. */
  lemma HomeAndEnd(h: seq<string>, saved: string, w: string, home: string, v: string, end: string, u: string,
                   enter: string, rest: string)
    requires FreshOk(h, saved) && AllPrintable(w) && AllPrintable(v) && AllPrintable(u) && |w| + |v| + |u| <= 2046
    requires IsCode(home, Home) && IsCode(end, End) && IsCode(enter, Enter)
    ensures Gives(h, saved, w + (home + (v + (end + (u + (enter + rest))))), v + w + u)
  {
    hide RunKeys, IsCode, SessionOk, AllPrintable, Remember;
    var s0 := Fresh(h, saved);
    FeedText(s0, w, home + (v + (end + (u + (enter + rest)))));
    FreshTyped(h, saved, w);
    var s1 := Typed(s0, w);
    Feed(s1, home, Home, v + (end + (u + (enter + rest))));
    var s2 := Press(s1, Home);
    assert s2.z == Zipper("", w);
    FeedText(s2, v, end + (u + (enter + rest)));
    TypedShows(s2, v);
    var s3 := Typed(s2, v);
    assert "" + v[..|v|] == v;
    Feed(s3, end, End, u + (enter + rest));
    var s4 := Press(s3, End);
    assert s4.z == Zipper(v + w, "");
    FeedText(s4, u, enter + rest);
    TypedShows(s4, u);
    assert u[..|u|] == u && v + w + u + "" == v + w + u;
    Entered(Typed(s4, u), enter, rest);
  }

  /** j backspaces take away what is left of the cursor, i deletes what is under it and to its right. */
  lemma Erased(h: seq<string>, saved: string, w: string, n: nat, backspace: string, j: nat, delete: string, i: nat,
               enter: string, rest: string)
    requires FreshOk(h, saved) && AllPrintable(w) && i <= n <= |w| <= 2046 && j <= |w| - n
    requires IsCode(backspace, Backspace) && IsCode(delete, Delete) && IsCode(enter, Enter)
    ensures var k := |w| - n;
      Gives(h, saved, w + (Repeat([ESC, '[', 'D'], n) + (Repeat(backspace, j) + (Repeat(delete, i) + (enter + rest)))),
            w[..k - j] + w[k + i..])
  {
    hide RunKeys, IsCode, SessionOk, Repeat, AllPrintable, Remember;
    var k := |w| - n;
    var r := TextAndLefts(h, saved, w, n, Repeat(backspace, j) + (Repeat(delete, i) + (enter + rest)));
    FeedMany(r, backspace, Backspace, j, Repeat(delete, i) + (enter + rest));
    PressesBackspace(r, j);
    assert w[..k][..k - j] == w[..k - j];
    var u := Presses(r, Backspace, j);
    FeedMany(u, delete, Delete, i, enter + rest);
    PressesDelete(u, i);
    assert w[k..][i..] == w[k + i..];
    Entered(Presses(u, Delete, i), enter, rest);
  }

  lemma {:induction false} PressesUpDown(s: Session, n: nat, d: nat)
    requires s.index <= |s.history|
    ensures Presses(s, Up, n) == Ups(s, n) && Presses(Ups(s, n), Down, d) == Downs(Ups(s, n), d)
  {
    PressesUp(s, n);
    PressesDown(Ups(s, n), d);
  }

  lemma {:induction false} PressesUp(s: Session, n: nat)
    requires s.index <= |s.history|
    ensures Presses(s, Up, n) == Ups(s, n)
    decreases n
  {
    if n > 0 {
      PressesUp(PressUp(s), n - 1);
      UpFirst(s, n - 1);
    }
  }

  lemma {:induction false} UpFirst(s: Session, n: nat)
    requires s.index <= |s.history|
    ensures Ups(PressUp(s), n) == Ups(s, n + 1)
    decreases n
  {
    if n > 0 {
      UpFirst(s, n - 1);
    }
  }

  lemma {:induction false} PressesDown(s: Session, n: nat)
    requires s.index <= |s.history|
    ensures Presses(s, Down, n) == Downs(s, n)
    decreases n
  {
    if n > 0 {
      PressesDown(PressDown(s), n - 1);
    }
  }

  // The line after n Ups and d Downs from a line being typed.
  lemma RecalledLine(s: Session, n: nat, d: nat)
    requires s.index == |s.history| && 0 < n && !s.browsing
    ensures var (r, k) := (Downs(Ups(s, n), d), |s.history| - Min(n, |s.history|) + d);
      r.history == s.history && r.z.Text() == if k < |s.history| then s.history[k] else s.z.Text()
  {
    UpsMeaning(s, n);
    if d > 0 {
      UpsThenDowns(s, n, d);
      ReachedText(s, s.index - Min(n, s.index) + d);
    } else if s.history != [] {
      var e := s.history[|s.history| - Min(n, |s.history|)];
      assert e + "" == e;
    }
  }

  /** n times up recalls the n-th entry from the newest one, or stays at the oldest; d times down goes back as many, to
      the line typed before when there is no newer entry. */
  lemma Recalled(h: seq<string>, saved: string, w: string, n: nat, d: nat, enter: string, rest: string)
    requires FreshOk(h, saved) && AllPrintable(w) && |w| <= 2046 && 0 < n && IsCode(enter, Enter)
    ensures var k := |h| - Min(n, |h|) + d;
      Gives(h, saved, w + (Repeat([ESC, '[', 'A'], n) + (Repeat([ESC, '[', 'B'], d) + (enter + rest))),
            if k < |h| then h[k] else w)
  {
    hide RunKeys, IsCode, SessionOk, Repeat, AllPrintable, Remember, Ups, Downs, Typed, Presses;
    var s0 := Fresh(h, saved);
    FeedText(s0, w, Repeat([ESC, '[', 'A'], n) + (Repeat([ESC, '[', 'B'], d) + (enter + rest)));
    FreshTyped(h, saved, w);
    var s := Typed(s0, w);
    Arrows();
    FeedMany(s, [ESC, '[', 'A'], Up, n, Repeat([ESC, '[', 'B'], d) + (enter + rest));
    PressesUpDown(s, n, d);
    FeedMany(Ups(s, n), [ESC, '[', 'B'], Down, d, enter + rest);
    var r := Downs(Ups(s, n), d);
    RecalledLine(s, n, d);
    Entered(r, enter, rest);
  }

  /** The usage key gives up the line: an empty string, or a newline when nothing was typed, and nothing is
      remembered. */
  lemma UsageGivesUp(h: seq<string>, saved: string, w: string, rest: string)
    requires FreshOk(h, saved) && AllPrintable(w) && |w| <= 2046
    ensures RunKeys(Fresh(h, saved), w + ([31 as char] + rest)) == Result(Some(if w == "" then "\n" else ""), h)
  {
    var s := Fresh(h, saved);
    FeedText(s, w, [31 as char] + rest);
    FreshTyped(h, saved, w);
    var t := Typed(s, w);
    CodesAreRead([31 as char], Usage, rest);
    assert RunKeys(t, [31 as char] + rest) == Finished(t, true) && t.history == h && t.z.Text() == w;
    RememberNothing(h);
    assert "" + "\n" == "\n";
  }

  /** Bytes that are no key change nothing. */
  lemma OthersIgnored(s: Session, other: string, rest: string)
    requires SessionOk(s) && other != "" && Decode(other + rest) == (Key.Other, |other|)
    ensures RunKeys(s, other + rest) == RunKeys(s, rest)
  {
    assert (other + rest)[|other|..] == rest;
  }

  /** Input that ends before the line does gives no line. */
  lemma EndOfInput(h: seq<string>, saved: string, w: string)
    requires FreshOk(h, saved) && AllPrintable(w)
    ensures RunKeys(Fresh(h, saved), w) == Result(None, h)
  {
    var s := Fresh(h, saved);
    FeedText(s, w, "");
    TypedShows(s, w);
    assert w + "" == w;
  }
}
