/** The raw-mode line editor of the shell (lab3/read-line.c): the edit buffer, what it writes to the terminal, and the
    history. */
module LineEditor {
  import opened Numbers
  import opened CStrings
  import opened Options

  const MAX_BUFFER_LINE := 2048
  const MAX_HISTORY := 100

  const BACK := 8 as char

  predicate Printable(c: char) { ' ' <= c < 127 as char }

  predicate AllPrintable(s: string) { forall i | 0 <= i < |s| :: Printable(s[i]) }

  // ---- the terminal: one unbounded row; a character overwrites, a backspace moves left ----

  datatype Terminal = Terminal(cells: string, col: nat)

  function Put(t: Terminal, c: char): Terminal {
    if c == BACK then t.(col := if t.col == 0 then 0 else t.col - 1)
    else if t.col < |t.cells| then Terminal(t.cells[t.col := c], t.col + 1)
    else Terminal(t.cells + seq(t.col - |t.cells|, _ => ' ') + [c], t.col + 1)
  }

  function Emit(t: Terminal, s: string): Terminal
    decreases |s|
  {
    if s == "" then t else Emit(Put(t, s[0]), s[1..])
  }

  // The row shows exactly `line`, followed by blanks.
  ghost predicate Shows(t: Terminal, line: string) {
    && |line| <= |t.cells| && t.cells[..|line|] == line
    && forall i | |line| <= i < |t.cells| :: t.cells[i] == ' '
  }

  function Times(c: char, n: nat): (s: string)
    ensures |s| == n && forall i | 0 <= i < n :: s[i] == c
  {
    seq(n, _ => c)
  }

  lemma {:induction false} EmitConcat(t: Terminal, a: string, b: string)
    ensures Emit(t, a + b) == Emit(Emit(t, a), b)
    decreases |a|
  {
    if a == "" {
      assert a + b == b;
    } else {
      assert (a + b)[1..] == a[1..] + b;
      EmitConcat(Put(t, a[0]), a[1..], b);
    }
  }

  // Printable characters overwrite the row from the cursor on.
  lemma PutText(t: Terminal, c: char)
    requires Printable(c) && t.col <= |t.cells|
    ensures var u := Put(t, c);
      && u.col == t.col + 1 <= |u.cells| && u.cells[..t.col] == t.cells[..t.col] && u.cells[t.col] == c
      && |u.cells| == (if t.col < |t.cells| then |t.cells| else t.col + 1)
      && forall i | t.col < i < |u.cells| :: u.cells[i] == t.cells[i]
  {
  }

  lemma {:induction false} EmitText(t: Terminal, s: string)
    requires AllPrintable(s) && t.col <= |t.cells|
    ensures var r := Emit(t, s);
      && r.col == t.col + |s| <= |r.cells| && r.cells[..t.col] == t.cells[..t.col]
      && r.cells[t.col..t.col + |s|] == s
      && |r.cells| == (if t.col + |s| < |t.cells| then |t.cells| else t.col + |s|)
      && forall i | t.col + |s| <= i < |r.cells| :: r.cells[i] == t.cells[i]
    decreases |s|
  {
    if s != "" {
      hide Put;
      var u := Put(t, s[0]);
      PutText(t, s[0]);
      EmitText(u, s[1..]);
      var r := Emit(u, s[1..]);
      assert u.cells[..t.col] == t.cells[..t.col] == r.cells[..u.col][..t.col];
      assert r.cells[t.col] == r.cells[..u.col][t.col] == s[0];
      SliceSplits(r.cells, t.col, t.col + |s|);
    }
  }

  lemma SliceSplits(q: string, i: nat, j: nat)
    requires i < j <= |q|
    ensures q[i..j] == [q[i]] + q[i + 1..j]
  {
  }

  lemma {:induction false} EmitBack(t: Terminal, n: nat)
    requires n <= t.col
    ensures Emit(t, Times(BACK, n)) == t.(col := t.col - n)
    decreases n
  {
    if n == 0 {
    } else {
      assert Times(BACK, n)[1..] == Times(BACK, n - 1);
      EmitBack(Put(t, BACK), n - 1);
    }
  }

  // What the text s and k backspaces after it leave of a row that showed left + right at column |left|.
  lemma Redrawn(t: Terminal, left: string, right: string, s: string, k: nat)
    requires Shows(t, left + right) && t.col == |left| && AllPrintable(s) && |right| <= |s| && k <= |s|
    ensures var r := Emit(Emit(t, s), Times(BACK, k)); Shows(r, left + s) && r.col == |left| + |s| - k
  {
    hide Put, Emit;
    assert t.cells[..|left|] == (left + right)[..|left|] == left;
    EmitText(t, s);
    var r := Emit(t, s);
    assert r.cells[..|left + s|] == r.cells[..|left|] + r.cells[|left|..|left| + |s|];
    EmitBack(r, k);
  }

  // ---- the line as a zipper: what is left of the cursor, and what is under it and to its right ----

  datatype Zipper = Zipper(left: string, right: string) {
    function Text(): string { left + right }

    function Insert(c: char): Zipper {
      if |Text()| >= MAX_BUFFER_LINE - 2 then this else Zipper(left + [c], right)
    }

    function Delete(): Zipper {
      if right == "" then this else Zipper(left, right[1..])
    }

    function Left(): Zipper {
      if left == "" then this else Zipper(left[..|left| - 1], [left[|left| - 1]] + right)
    }

    function Right(): Zipper {
      if right == "" then this else Zipper(left + [right[0]], right[1..])
    }

    function Backspace(): Zipper {
      if left == "" then this else Left().Delete()
    }

    function Home(): Zipper { Zipper("", Text()) }

    function End(): Zipper { Zipper(Text(), "") }
  }

  /** Backspace takes back what was typed, exactly when the line was not full or the cursor was at its beginning. */
  lemma BackspaceUndoesInsert(z: Zipper, c: char)
    ensures z.Insert(c).Backspace() == z <==> |z.Text()| < MAX_BUFFER_LINE - 2 || z.left == ""
  {
    if |z.Text()| < MAX_BUFFER_LINE - 2 {
      assert (z.left + [c])[..|z.left|] == z.left;
      assert ([c] + z.right)[1..] == z.right;
    } else if z.left != "" {
      assert |z.Backspace().left| == |z.left| - 1;
    }
  }

  // ---- the whole state of a session ----

  datatype Session = Session(z: Zipper, history: seq<string>, index: nat, browsing: bool, saved: string)

  datatype Key = Char(c: char) | Enter | Usage | Delete | Backspace | Home | End | Left | Right | Up | Down | Other

  // Bytes to keys. An escape sequence cut off by the end of the input counts as no key.
  function Decode(input: seq<char>): (r: (Key, nat))
    requires input != []
    ensures 0 < r.1 <= |input|
    ensures r.0.Char? <==> Printable(input[0])
    ensures r.0.Char? ==> r.0.c == input[0]
  {
    var code := input[0] as int;
    if Printable(input[0]) then (Char(input[0]), 1)
    else if code == 10 || code == 13 then (Enter, 1)
    else if code == 31 then (Usage, 1)
    else if code == 4 then (Delete, 1)
    else if code == 8 || code == 127 then (Backspace, 1)
    else if code == 1 then (Home, 1)
    else if code == 5 then (End, 1)
    else if code != 27 then (Other, 1)
    else if |input| < 3 then (Other, |input|)
    else if input[1] != '[' then (Other, 3)
    else match input[2]
      case 'A' => (Up, 3)
      case 'B' => (Down, 3)
      case 'C' => (Right, 3)
      case 'D' => (Left, 3)
      case '3' => if |input| < 4 then (Other, 3) else (if input[3] == '~' then Delete else Other, 4)
      case 'H' => (Home, 3)
      case 'F' => (End, 3)
      case _ => (Other, 3)
  }

  function Load(s: Session, line: string): Session { s.(z := Zipper(line, "")) }

  function PressUp(s: Session): Session
    requires s.index <= |s.history|
  {
    var u := if s.browsing then s else s.(browsing := true, saved := s.z.Text());
    if u.index == 0 then u else Load(u.(index := u.index - 1), u.history[u.index - 1])
  }

  function PressDown(s: Session): Session {
    if !s.browsing then s
    else if s.index + 1 < |s.history| then Load(s.(index := s.index + 1), s.history[s.index + 1])
    else Load(s.(browsing := false, index := |s.history|), s.saved)
  }

  // What a key other than Enter and Usage does.
  function Press(s: Session, k: Key): Session
    requires s.index <= |s.history|
  {
    match k
    case Char(c) =>
      s.(z := s.z.Insert(c), browsing := false, saved := if !s.browsing && s.z.Text() == "" then "" else s.saved)
    case Delete => s.(z := s.z.Delete())
    case Backspace => s.(z := s.z.Backspace())
    case Home => s.(z := s.z.Home())
    case End => s.(z := s.z.End())
    case Left => s.(z := s.z.Left())
    case Right => s.(z := s.z.Right())
    case Up => PressUp(s)
    case Down => PressDown(s)
    case _ => s
  }

  predicate LineOk(s: string) { |s| <= MAX_BUFFER_LINE - 2 && AllPrintable(s) }

  predicate SessionOk(s: Session) {
    && LineOk(s.z.Text()) && LineOk(s.saved) && s.index <= |s.history| <= MAX_HISTORY
    && forall i | 0 <= i < |s.history| :: LineOk(s.history[i])
  }

  lemma PrintableConcat(a: string, b: string)
    ensures AllPrintable(a + b) <==> AllPrintable(a) && AllPrintable(b)
  {
    assert forall i | 0 <= i < |a| :: (a + b)[i] == a[i];
    assert forall i | 0 <= i < |b| :: (a + b)[|a| + i] == b[i];
  }

  lemma InsertOk(z: Zipper, c: char)
    requires LineOk(z.Text()) && Printable(c)
    ensures LineOk(z.Insert(c).Text())
  {
    PrintableConcat(z.left, z.right);
    PrintableConcat(z.left + [c], z.right);
  }

  lemma MovesKeepText(z: Zipper)
    ensures z.Left().Text() == z.Text() == z.Right().Text()
    ensures z.Home().Text() == z.Text() == z.End().Text()
  {
  }

  lemma DeleteOk(z: Zipper)
    requires LineOk(z.Text())
    ensures LineOk(z.Delete().Text())
  {
    PrintableConcat(z.left, z.right);
    if z.right != "" {
      PrintableConcat(z.left, z.right[1..]);
    }
  }

  /** Every key keeps the line, the saved line and all of the history within 2046 printable characters. */
  lemma PressOk(s: Session, k: Key)
    requires SessionOk(s) && (k.Char? ==> Printable(k.c))
    ensures SessionOk(Press(s, k)) && Press(s, k).history == s.history
  {
    match k
    case Char(c) => InsertOk(s.z, c);
    case Delete => DeleteOk(s.z);
    case Backspace =>
      MovesKeepText(s.z);
      DeleteOk(s.z.Left());
    case Up =>
      assert forall i | 0 <= i < |s.history| :: Zipper(s.history[i], "").Text() == s.history[i];
    case Down =>
      assert Zipper(s.saved, "").Text() == s.saved;
      assert forall i | 0 <= i < |s.history| :: Zipper(s.history[i], "").Text() == s.history[i];
    case _ => MovesKeepText(s.z);
  }

  function Ups(s: Session, n: nat): (r: Session)
    requires s.index <= |s.history|
    ensures r.index <= |r.history|
  {
    if n == 0 then s else PressUp(Ups(s, n - 1))
  }

  function Downs(s: Session, n: nat): Session
    decreases n
  {
    if n == 0 then s else Downs(PressDown(s), n - 1)
  }

  // The line that Down brings back in the end: the one saved when browsing began.
  function Edited(s: Session): string { if s.browsing then s.saved else s.z.Text() }

  // Browsing at entry k, or back at the edited line when k is past the newest entry.
  function Reached(s: Session, k: nat): Session {
    if k < |s.history| then
      s.(index := k, browsing := true, saved := Edited(s), z := Zipper(s.history[k], ""))
    else
      s.(index := |s.history|, browsing := false, saved := Edited(s), z := Zipper(Edited(s), ""))
  }

  // The line that is shown there.
  function ShownAt(s: Session, k: nat): string { if k < |s.history| then s.history[k] else Edited(s) }

  lemma {:induction false} UpsMeaning(s: Session, n: nat)
    requires s.index <= |s.history| && 0 < n
    ensures var m := Min(n, s.index);
      Ups(s, n) == s.(index := s.index - m, browsing := true, saved := Edited(s),
                      z := if m == 0 then s.z else Zipper(s.history[s.index - m], ""))
  {
    if n == 1 {
      assert Ups(s, 1) == PressUp(Ups(s, 0));
    } else {
      UpsMeaning(s, n - 1);
    }
  }

  lemma {:induction false} DownsIdle(s: Session, n: nat)
    requires !s.browsing
    ensures Downs(s, n) == s
    decreases n
  {
    if n > 0 {
      DownsIdle(s, n - 1);
    }
  }

  lemma {:induction false} DownsMeaning(s: Session, n: nat)
    requires s.browsing && 0 < n
    ensures Downs(s, n) == Reached(s, s.index + n)
    decreases n
  {
    if s.index + 1 >= |s.history| {
      DownsIdle(PressDown(s), n - 1);
    } else if n > 1 {
      DownsMeaning(PressDown(s), n - 1);
    } else {
      assert Downs(s, 1) == Downs(PressDown(s), 0) == PressDown(s);
    }
  }

  /** Where any number of Ups and any number of Downs lead, from every session. */
  lemma UpsThenDowns(s: Session, n: nat, d: nat)
    requires s.index <= |s.history| && 0 < n && 0 < d
    ensures Downs(Ups(s, n), d) == Reached(s, s.index - Min(n, s.index) + d)
  {
    UpsMeaning(s, n);
    DownsMeaning(Ups(s, n), d);
  }

  /** Up any number of times and Down as often, from any session: the walk ends at the place k, the greater of the
      number and the position. It brings back the line that is shown exactly when k is behind the newest entry and
      the line is the one being edited, or k is an entry that reads the same. */
  lemma UpDownRestores(s: Session, n: nat)
    requires s.index <= |s.history| && 0 < n
    ensures var (r, k) := (Downs(Ups(s, n), n), Max(n, s.index));
      && r == Reached(s, k)
      && (r.z.Text() == s.z.Text() <==> ShownAt(s, k) == s.z.Text())
  {
    UpsThenDowns(s, n, n);
    ReachedText(s, Max(n, s.index));
  }

  lemma ReachedText(s: Session, k: nat)
    ensures Reached(s, k).z.Text() == ShownAt(s, k)
  {
    assert forall line: string :: line + "" == line;
  }

  /** As many more Downs as entries lie from the position on always bring back the line being edited: the line shown,
      or, in a session that is browsing, the line that was there when browsing began. */
  lemma MoreDownsRecover(s: Session, n: nat)
    requires s.index <= |s.history| && 0 < n
    ensures Downs(Ups(s, n), n + |s.history| - s.index).z == Zipper(Edited(s), "")
  {
    UpsThenDowns(s, n, n + |s.history| - s.index);
  }

  // Up n times and Down d times show the line again.
  ghost predicate Returns(s: Session, n: nat, d: nat)
    requires s.index <= |s.history|
  {
    0 < n && 0 < d && Downs(Ups(s, n), d).z.Text() == s.z.Text()
  }

  lemma ReturnsIff(s: Session, n: nat, d: nat)
    requires s.index <= |s.history| && 0 < n && 0 < d
    ensures Returns(s, n, d) <==> ShownAt(s, s.index - Min(n, s.index) + d) == s.z.Text()
  {
    UpsThenDowns(s, n, d);
    ReachedText(s, s.index - Min(n, s.index) + d);
  }

  /** Some Ups followed by some Downs bring back the line that is shown, exactly when it is the line being edited or
      reads as an entry other than the oldest. */
  lemma RecoverableIff(s: Session)
    requires s.index <= |s.history|
    ensures (exists n: nat, d: nat :: Returns(s, n, d))
      <==> Edited(s) == s.z.Text() || exists k :: 1 <= k < |s.history| && s.history[k] == s.z.Text()
  {
    hide Returns;
    var n, e := s.index + 1, |s.history| + 1;
    ReturnsIff(s, n, e);
    forall k | 1 <= k < |s.history| && s.history[k] == s.z.Text() ensures Returns(s, n, k) {
      ReturnsIff(s, n, k);
    }
    if n: nat, d: nat :| Returns(s, n, d) {
      ReturnsPositive(s, n, d);
      ReturnsIff(s, n, d);
    }
  }

  lemma ReturnsPositive(s: Session, n: nat, d: nat)
    requires s.index <= |s.history| && Returns(s, n, d)
    ensures 0 < n && 0 < d
  {
  }

  // ---- a line that does not come back ----

  function Walk(s: Session, ups: seq<bool>): (r: Session)
    requires s.index <= |s.history|
    ensures r.index <= |r.history|
    decreases |ups|
  {
    if ups == [] then s else Walk(if ups[0] then PressUp(s) else PressDown(s), ups[1..])
  }

  // The line is neither shown nor saved nor an entry.
  ghost predicate Gone(s: Session, line: string) { line != s.z.Text() && line != Edited(s) && line !in s.history }

  lemma {:induction false} GoneForever(s: Session, line: string, ups: seq<bool>)
    requires s.index <= |s.history| && Gone(s, line)
    ensures Gone(Walk(s, ups), line)
    decreases |ups|
  {
    if ups != [] {
      var t := if ups[0] then PressUp(s) else PressDown(s);
      assert forall x: string :: x + "" == x;
      GoneForever(t, line, ups[1..]);
    }
  }

  /** Down, or Up from an entry that is not the oldest, loses for good a line that is changed while browsing, without a
      character typed, into something that is neither the saved line nor an entry. */
  lemma ChangedEntryLost(s: Session, up: bool, ups: seq<bool>)
    requires s.index <= |s.history| && s.browsing && (up ==> s.index > 0)
    requires s.z.Text() != s.saved && s.z.Text() !in s.history
    ensures Walk(s, [up] + ups).z.Text() != s.z.Text()
  {
    var t := if up then PressUp(s) else PressDown(s);
    assert ([up] + ups)[0] == up && ([up] + ups)[1..] == ups;
    assert forall x: string :: x + "" == x;
    GoneForever(t, s.z.Text(), ups);
  }

  /** Keys that lead there: in a fresh session recall the newest of at least two entries and take its last character
      away. Unless what is left is empty or an entry, no Ups and Downs bring it back. */
  lemma RecalledAndCut(h: seq<string>, saved: string, up: bool, ups: seq<bool>)
    requires |h| >= 2 && h[|h| - 1] != ""
    requires var e := h[|h| - 1]; e[..|e| - 1] != "" && e[..|e| - 1] !in h
    ensures var s := Press(Press(Session(Zipper("", ""), h, |h|, false, saved), Up), Backspace);
      var e := h[|h| - 1];
      s.z.Text() == e[..|e| - 1] && Walk(s, [up] + ups).z.Text() != s.z.Text()
  {
    var e := h[|h| - 1];
    var s1 := Press(Session(Zipper("", ""), h, |h|, false, saved), Up);
    assert s1.z == Zipper(e, "") && s1.saved == "" && s1.index == |h| - 1;
    var s := Press(s1, Backspace);
    assert s.z == Zipper(e[..|e| - 1], "") && s.z.Text() == e[..|e| - 1];
    ChangedEntryLost(s, up, ups);
  }

  /** Keys that lead there: in a fresh session recall the newest of at least two entries, type a character into it,
      go up and down once. The entry stands there, not the line typed; one more Down brings the line. */
  lemma TypedOverRecalled(h: seq<string>, saved: string, c: char)
    requires |h| >= 2 && |h[|h| - 1]| < MAX_BUFFER_LINE - 2
    ensures var s0 := Session(Zipper("", ""), h, |h|, false, saved);
      var typed := Press(Press(s0, Up), Char(c));
      var r := Press(Press(typed, Up), Down);
      && typed.z.Text() == h[|h| - 1] + [c] && r.z.Text() == h[|h| - 1] != typed.z.Text()
      && Press(r, Down).z.Text() == typed.z.Text()
  {
    var newest := h[|h| - 1];
    var s0 := Session(Zipper("", ""), h, |h|, false, saved);
    var s1 := Press(s0, Up);
    assert s1.z == Zipper(newest, "") && s1.z.Text() == newest && s1.index == |h| - 1;
    var typed := Press(s1, Char(c));
    assert typed.z == Zipper(newest + [c], "") && typed.z.Text() == newest + [c];
    var s2 := Press(typed, Up);
    assert s2.index == |h| - 2 && s2.saved == newest + [c];
    var r := Press(s2, Down);
    assert r.z == Zipper(newest, "") && r.z.Text() == newest && r.browsing && r.index == |h| - 1;
    assert Press(r, Down).z == Zipper(newest + [c], "");
  }

  // ---- the history ----

  function Remember(h: seq<string>, line: string): seq<string> {
    if |line| <= 1 then h
    else
      var cmd := if line[|line| - 1] == '\n' then line[..|line| - 1] else line;
      if h != [] && h[|h| - 1] == cmd then h
      else if |h| < MAX_HISTORY then h + [cmd]
      else h[1..] + [cmd]
  }

  // No two neighbours are equal.
  predicate NoRepeats(h: seq<string>) {
    forall i | 0 < i < |h| :: h[i - 1] != h[i]
  }

  predicate HistoryOk(h: seq<string>) {
    |h| <= MAX_HISTORY && NoRepeats(h) && forall i | 0 <= i < |h| :: LineOk(h[i])
  }

  lemma RememberOk(h: seq<string>, cmd: string)
    requires HistoryOk(h) && LineOk(cmd)
    ensures HistoryOk(Remember(h, cmd + "\n"))
  {
    assert (cmd + "\n")[..|cmd|] == cmd;
    hide LineOk;
    var r := Remember(h, cmd + "\n");
    if r != h {
      var d := if |h| < MAX_HISTORY then 0 else 1;
      forall i | 0 <= i < |r| ensures r[i] == if i < |r| - 1 then h[i + d] else cmd {
      }
    }
  }

  lemma FinishedOk(s: Session, usage: bool)
    requires SessionOk(s) && NoRepeats(s.history)
    ensures HistoryOk(Finished(s, usage).history)
  {
    hide LineOk, Remember;
    RememberOk(s.history, s.z.Text());
    assert usage && s.z.Text() != "" ==> Remember(s.history, "") == s.history by { RememberNothing(s.history); }
  }

  lemma RememberNothing(h: seq<string>)
    ensures Remember(h, "") == h
  {
  }

  /** After a command line the newest entry is that command, the history stays within its 100 places, equal commands
      in a row are kept once, and what was there before is kept, but for the oldest entry of a full history. */
  lemma RememberMeaning(h: seq<string>, cmd: string)
    requires |h| <= MAX_HISTORY && NoRepeats(h) && cmd != ""
    ensures var r := Remember(h, cmd + "\n");
      && 0 < |r| <= 100 && r[|r| - 1] == cmd && NoRepeats(r)
      && Remember(r, cmd + "\n") == r
      && (h == r || exists k :: 0 <= k <= 1 && k <= |h| && h[k..] == r[..|r| - 1] && (k == 1 ==> |h| == 100))
  {
    assert (cmd + "\n")[..|cmd|] == cmd;
    var r := Remember(h, cmd + "\n");
    if h == r {
    } else if |h| < MAX_HISTORY {
      assert h[0..] == r[..|r| - 1];
    } else {
      assert h[1..] == r[..|r| - 1];
    }
  }

  // ---- a whole line ----

  datatype Result = Result(line: Option<string>, history: seq<string>)

  function Finished(s: Session, usage: bool): Result {
    var line := if usage && s.z.Text() != "" then "" else s.z.Text() + "\n";
    Result(Some(line), if s.z.Text() == "" then s.history else Remember(s.history, line))
  }

  function RunKeys(s: Session, input: seq<char>): Result
    requires s.index <= |s.history|
    requires SessionOk(s)
    decreases |input|
  {
    if input == [] then Result(None, s.history)
    else
      var (k, n) := Decode(input);
      if k.Enter? || k.Usage? then Finished(s, k.Usage?)
      else
        PressOk(s, k);
        RunKeys(Press(s, k), input[n..])
  }

  // What the buffer holds at the end, read as a string.
  lemma Terminated(buffer: string, text: string, usage: bool)
    requires LineOk(text) && |text| + 2 <= |buffer|
    requires usage && text != "" ==> buffer[0] == '\0'
    requires !(usage && text != "") ==> buffer[..|text|] == text && buffer[|text|] == '\n' && buffer[|text| + 1] == '\0'
    ensures CString(buffer) == if usage && text != "" then "" else text + "\n"
  {
    if !(usage && text != "") {
      assert forall i | 0 <= i < |text| :: buffer[i] == text[i] && Printable(text[i]);
      assert buffer[..|text| + 1] == text + "\n";
      EndsAt(buffer, |text| + 1);
    }
  }

  // Typing c redraws c and what is right of it; deleting redraws the rest and one blank.
  lemma InsertRedrawn(t: Terminal, z: Zipper, c: char)
    requires Shows(t, z.Text()) && t.col == |z.left| && AllPrintable(z.Text()) && Printable(c)
    ensures var r := Emit(Emit(t, [c] + z.right), Times(BACK, |z.right|));
      Shows(r, z.left + [c] + z.right) && r.col == |z.left| + 1
  {
    PrintableConcat(z.left, z.right);
    PrintableConcat([c], z.right);
    Redrawn(t, z.left, z.right, [c] + z.right, |z.right|);
    assert z.left + ([c] + z.right) == z.left + [c] + z.right;
  }

  lemma DeleteRedrawn(t: Terminal, z: Zipper)
    requires Shows(t, z.Text()) && t.col == |z.left| && z.right != "" && AllPrintable(z.right[1..])
    ensures var r := Emit(Emit(Emit(t, z.right[1..]), " "), Times(BACK, |z.right|));
      Shows(r, z.left + z.right[1..]) && r.col == |z.left|
  {
    var s := z.right[1..] + " ";
    PrintableConcat(z.right[1..], " ");
    EmitConcat(t, z.right[1..], " ");
    Redrawn(t, z.left, z.right, s, |s|);
    var r := Emit(Emit(t, s), Times(BACK, |s|));
    assert |z.left + s| <= |r.cells| && r.cells[..|z.left + s|] == z.left + s;
    assert r.cells[..|z.left + z.right[1..]|] == (z.left + s)[..|z.left + z.right[1..]|] == z.left + z.right[1..];
    assert r.cells[|z.left + z.right[1..]|] == (z.left + s)[|z.left + s| - 1];
  }

  // Blanks over the whole line leave an empty row.
  lemma Blanked(t: Terminal, n: nat)
    requires t.col == 0 && n <= |t.cells| && forall i | n <= i < |t.cells| :: t.cells[i] == ' '
    ensures var r := Emit(Emit(t, Times(' ', n)), Times(BACK, n)); Shows(r, "") && r.col == 0
  {
    EmitText(t, Times(' ', n));
    EmitBack(Emit(t, Times(' ', n)), n);
    var r := Emit(t, Times(' ', n));
    assert forall i | 0 <= i < n :: r.cells[i] == r.cells[0..n][i];
  }

  class Editor {
    const buffer: array<char>
    var length: nat
    var cursor: nat
    const entries: array<string>
    var historyLength: nat
    var historyIndex: nat
    var browsing: bool
    var saved: string
    var screen: Terminal

    ghost predicate Wired()
      reads this
    {
      && buffer.Length == MAX_BUFFER_LINE && entries.Length == MAX_HISTORY
      && cursor <= length <= MAX_BUFFER_LINE - 2 && historyLength <= MAX_HISTORY
    }

    ghost function View(): Zipper
      reads this, buffer
      requires Wired()
    {
      Zipper(buffer[..cursor], buffer[cursor..length])
    }

    ghost function State(): Session
      reads this, buffer, entries
      requires Wired()
    {
      Session(View(), entries[..historyLength], historyIndex, browsing, saved)
    }

    // The terminal shows exactly the line, its column at the cursor.
    ghost predicate Agrees()
      reads this, buffer
      requires Wired()
    {
      Shows(screen, View().Text()) && screen.col == cursor && AllPrintable(View().Text())
    }

    ghost predicate Valid()
      reads this, buffer, entries
    {
      Wired() && Agrees() && SessionOk(State())
    }

    constructor ()
      ensures Idle() && historyLength == 0 && screen == Terminal("", 0)
    {
      buffer := new char[MAX_BUFFER_LINE](_ => '\0');
      entries := new string[MAX_HISTORY](_ => "");
      length, cursor, historyLength, historyIndex, browsing, saved, screen := 0, 0, 0, 0, false, "", Terminal("", 0);
    }

    // ---- output ----

    method Write(s: string)
      modifies `screen
      ensures screen == Emit(old(screen), s)
    {
      screen := Emit(screen, s);
    }

    method WriteTimes(c: char, n: nat)
      modifies `screen
      ensures screen == Emit(old(screen), Times(c, n))
    {
      ghost var t := screen;
      assert Times(c, 0) == "";
      for i := 0 to n
        invariant screen == Emit(t, Times(c, i))
      {
        EmitConcat(t, Times(c, i), [c]);
        assert Times(c, i + 1) == Times(c, i) + [c];
        Write([c]);
      }
    }

    // ---- editing ----

    /** Everything from the cursor on moves one place to the right. */
    method OpenGap()
      requires Wired()
      modifies buffer
      ensures buffer[..cursor] == old(buffer[..cursor]) && buffer[cursor + 1..length + 1] == old(buffer[cursor..length])
    {
      var i := length;
      while i > cursor
        modifies buffer
        invariant cursor <= i <= length
        invariant forall j | 0 <= j <= i :: buffer[j] == old(buffer[j])
        invariant forall j | i < j <= length :: buffer[j] == old(buffer[j - 1])
      {
        buffer[i] := buffer[i - 1];
        i := i - 1;
      }
      forall k | 0 <= k < length - cursor
        ensures buffer[cursor + 1..length + 1][k] == old(buffer[cursor..length])[k]
      {
        assert buffer[cursor + 1 + k] == old(buffer[cursor + k]);
      }
    }

    /** Everything right of the cursor moves one place to the left. */
    method CloseGap()
      requires Wired() && cursor < length
      modifies buffer
      ensures buffer[..cursor] == old(buffer[..cursor]) && buffer[cursor..length - 1] == old(buffer[cursor + 1..length])
    {
      var i := cursor;
      while i < length - 1
        modifies buffer
        invariant cursor <= i <= length - 1
        invariant forall j | 0 <= j < cursor || i <= j < length :: buffer[j] == old(buffer[j])
        invariant forall j | cursor <= j < i :: buffer[j] == old(buffer[j + 1])
      {
        buffer[i] := buffer[i + 1];
        i := i + 1;
      }
    }

    method InsertChar(ch: char)
      requires Wired() && Agrees() && Printable(ch)
      modifies `length, `cursor, `screen, buffer
      ensures Wired() && Agrees() && View() == old(View()).Insert(ch)
    {
      hide Emit;
      ghost var z := View();
      InsertOk(z, ch);
      if length >= MAX_BUFFER_LINE - 2 {
        return;
      }
      OpenGap();
      buffer[cursor] := ch;
      cursor := cursor + 1;
      length := length + 1;
      assert View() == z.Insert(ch) by {
        assert buffer[..cursor] == z.left + [ch];
        assert buffer[cursor..length] == z.right;
      }
      assert buffer[cursor - 1..length] == [ch] + z.right;
      InsertRedrawn(screen, z, ch);
      Write(buffer[cursor - 1..length]);
      WriteTimes(BACK, length - cursor);
    }

    method DeleteChar()
      requires Wired() && Agrees()
      modifies `length, `screen, buffer
      ensures Wired() && Agrees() && View() == old(View()).Delete()
    {
      hide Emit, Shows;
      if cursor < length {
        ghost var z := View();
        DeleteOk(z);
        CloseGap();
        length := length - 1;
        assert buffer[cursor..length] == z.right[1..];
        PrintableConcat(z.left, z.right[1..]);
        DeleteRedrawn(screen, z);
        Write(buffer[cursor..length]);
        Write(" ");
        WriteTimes(BACK, length - cursor + 1);
      }
    }

    method MoveLeft()
      requires Wired() && Agrees()
      modifies `cursor, `screen
      ensures Wired() && Agrees() && View() == old(View()).Left()
    {
      if cursor > 0 {
        ghost var z := View();
        MovesKeepText(z);
        cursor := cursor - 1;
        Write([BACK]);
        assert View() == z.Left();
      }
    }

    method BackspaceChar()
      requires Wired() && Agrees()
      modifies `length, `cursor, `screen, buffer
      ensures Wired() && Agrees() && View() == old(View()).Backspace()
    {
      if cursor > 0 {
        MoveLeft();
        DeleteChar();
      }
    }

    method MoveRight()
      requires Wired() && Agrees()
      modifies `cursor, `screen
      ensures Wired() && Agrees() && View() == old(View()).Right()
      ensures length == old(length) && cursor == if old(cursor) < length then old(cursor) + 1 else old(cursor)
    {
      if cursor < length {
        ghost var z := View();
        MovesKeepText(z);
        assert screen.cells[..length][cursor] == z.Text()[cursor] == buffer[cursor];
        Write([buffer[cursor]]);
        cursor := cursor + 1;
        assert View() == z.Right();
      }
    }

    method MoveHome()
      requires Wired() && Agrees()
      modifies `cursor, `screen
      ensures Wired() && Agrees() && View() == old(View()).Home()
    {
      ghost var z := View();
      while cursor > 0
        invariant Wired() && Agrees() && View().Text() == z.Text()
      {
        MovesKeepText(View());
        MoveLeft();
      }
      assert View().left == "";
    }

    method MoveEnd()
      requires Wired() && Agrees()
      modifies `cursor, `screen
      ensures Wired() && Agrees() && View() == old(View()).End()
    {
      ghost var z := View();
      while cursor < length
        invariant Wired() && Agrees() && View().Text() == z.Text()
        decreases length - cursor
      {
        MovesKeepText(View());
        MoveRight();
      }
      assert View().right == "";
    }

    method ClearLine()
      requires Wired() && Agrees()
      modifies `length, `cursor, `screen
      ensures Wired() && Agrees() && View() == Zipper("", "")
    {
      MoveHome();
      assert View().Text() == View().right;
      Blanked(screen, length);
      WriteTimes(' ', length);
      WriteTimes(BACK, length);
      length := 0;
      cursor := 0;
    }

    // strcpy(line_buffer, line)
    method CopyLine(line: string)
      requires buffer.Length == MAX_BUFFER_LINE && LineOk(line)
      modifies buffer
      ensures buffer[..|line|] == line
    {
      for i := 0 to |line|
        invariant buffer[..i] == line[..i]
      {
        buffer[i] := line[i];
      }
      buffer[|line|] := '\0';
    }

    /** strcpy into the buffer, then the line is written. */
    method ShowLine(line: string)
      requires Wired() && Agrees() && LineOk(line)
      modifies `length, `cursor, `screen, buffer
      ensures Wired() && Agrees() && View() == Zipper(line, "")
    {
      ClearLine();
      CopyLine(line);
      length := |line|;
      cursor := length;
      Redrawn(screen, "", "", line, 0);
      assert Times(BACK, 0) == "" && "" + line == line;
      Write(buffer[..length]);
      assert View().Text() == line;
    }

    method LoadHistory(index: int)
      requires Valid()
      modifies `length, `cursor, `screen, buffer
      ensures Valid()
      ensures State() == if 0 <= index < historyLength then Load(old(State()), entries[index]) else old(State())
    {
      if index < 0 || index >= historyLength {
        return;
      }
      assert entries[index] == entries[..historyLength][index];
      ShowLine(entries[index]);
      assert View().Text() == entries[index];
    }

    // ---- history ----

    /** The entries of a full history move one place down. */
    method DropOldest()
      requires entries.Length == MAX_HISTORY
      modifies entries
      ensures entries[..MAX_HISTORY - 1] == old(entries[1..])
    {
      var i := 0;
      while i < MAX_HISTORY - 1
        modifies entries
        invariant 0 <= i <= MAX_HISTORY - 1
        invariant forall j | 0 <= j < i :: entries[j] == old(entries[j + 1])
        invariant forall j | i <= j < MAX_HISTORY :: entries[j] == old(entries[j])
      {
        entries[i] := entries[i + 1];
        i := i + 1;
      }
    }

    method AddToHistory(line: string)
      requires entries.Length == MAX_HISTORY && historyLength <= MAX_HISTORY
      modifies `historyLength, entries
      ensures historyLength <= MAX_HISTORY
      ensures entries[..historyLength] == Remember(old(entries[..historyLength]), line)
    {
      if |line| <= 1 {
        return;
      }
      var cmd := line;
      if cmd[|cmd| - 1] == '\n' {
        cmd := cmd[..|cmd| - 1];
      }
      if historyLength > 0 && entries[historyLength - 1] == cmd {
        return;
      }
      ghost var h := entries[..historyLength];
      if historyLength < MAX_HISTORY {
        entries[historyLength] := cmd;
        historyLength := historyLength + 1;
      } else {
        DropOldest();
        entries[MAX_HISTORY - 1] := cmd;
      }
    }

    method Up()
      requires Valid()
      modifies `length, `cursor, `screen, buffer, `browsing, `saved, `historyIndex
      ensures Valid() && State() == PressUp(old(State()))
    {
      if !browsing {
        assert View().Text() == buffer[..length];
        saved := buffer[..length];
        browsing := true;
      }
      if historyIndex > 0 {
        historyIndex := historyIndex - 1;
        LoadHistory(historyIndex);
      }
    }

    method Down()
      requires Valid()
      modifies `length, `cursor, `screen, buffer, `browsing, `historyIndex
      ensures Valid() && State() == PressDown(old(State()))
    {
      if browsing {
        if historyIndex < historyLength - 1 {
          historyIndex := historyIndex + 1;
          LoadHistory(historyIndex);
        } else {
          browsing := false;
          historyIndex := historyLength;
          ShowLine(saved);
          assert View().Text() == saved;
        }
      }
    }

    /** The key dispatch: every key leaves the buffer, the history position and the saved line as Press says, and the
        terminal in agreement with the buffer. */
    method Dispatch(k: Key)
      requires Valid() && !k.Enter? && !k.Usage? && (k.Char? ==> Printable(k.c))
      modifies `length, `cursor, `screen, buffer, `browsing, `saved, `historyIndex
      ensures Valid() && State() == Press(old(State()), k)
    {
      hide Shows, Printable;
      PressOk(State(), k);
      match k
      case Char(c) =>
        if !browsing && length == 0 {
          saved := "";
        }
        browsing := false;
        InsertChar(c);
      case Delete => DeleteChar();
      case Backspace => BackspaceChar();
      case Home => MoveHome();
      case End => MoveEnd();
      case Left => MoveLeft();
      case Right => MoveRight();
      case Up => Up();
      case Down => Down();
      case _ =>
    }

    /** The end of a line: the newline and the NUL fit in the buffer behind any line. */
    method Finish(usage: bool) returns (line: string)
      requires Valid()
      modifies `length, buffer, `historyLength, entries
      ensures line == Finished(old(State()), usage).line.value
      ensures historyLength <= entries.Length && entries[..historyLength] == Finished(old(State()), usage).history
    {
      ghost var text := View().Text();
      ghost var h := entries[..historyLength];
      assert text == buffer[..length];
      if usage {
        buffer[0] := '\0';
      }
      buffer[length] := '\n';
      buffer[length + 1] := '\0';
      line := buffer[..];
      Terminated(line, text, usage);
      line := CString(line);
      if length + 1 > 1 {
        AddToHistory(line);
      }
      length := length + 1;
    }

    // Between two lines.
    ghost predicate Idle()
      reads this, entries
    {
      && buffer.Length == MAX_BUFFER_LINE && entries.Length == MAX_HISTORY && historyLength <= MAX_HISTORY
      && HistoryOk(entries[..historyLength]) && LineOk(saved)
    }

    /** A whole line, for every input: the result and the history are those of RunKeys. The terminal is taken from
        the end of the prompt on. */
    method ReadLine(input: seq<char>) returns (line: Option<string>)
      requires Idle() && screen == Terminal("", 0)
      modifies this, buffer, entries
      ensures Idle()
      ensures Result(line, entries[..historyLength])
        == RunKeys(Session(Zipper("", ""), old(entries[..historyLength]), old(historyLength), false, old(saved)), input)
    {
      length := 0;
      cursor := 0;
      browsing := false;
      historyIndex := historyLength;
      ghost var start := State();
      assert start.z == Zipper("", "");
      var rest := input;
      while rest != []
        invariant Valid() && HistoryOk(entries[..historyLength])
        invariant RunKeys(State(), rest) == RunKeys(start, input)
        decreases |rest|
      {
        var (k, n) := Decode(rest);
        if k.Enter? || k.Usage? {
          FinishedOk(State(), k.Usage?);
          var l := Finish(k.Usage?);
          return Some(l);
        }
        Dispatch(k);
        rest := rest[n..];
      }
      line := None;
    }
  }
}
