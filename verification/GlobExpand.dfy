/** expandWildcard and the wildcard part of the WORD action (lab3/shell.l) on a model of the directory tree. */
module GlobExpand {
  import opened Glob

  // The directories that opendir can open, by the path it is given, with their entries in the order of readdir.
  type Tree = map<string, seq<string>>

  // ---- sorting: std::sort on std::string ----

  predicate Leq(a: string, b: string) {
    if a == "" then true else b != "" && (a[0] < b[0] || (a[0] == b[0] && Leq(a[1..], b[1..])))
  }

  lemma {:induction false} LeqOrder(a: string, b: string, c: string)
    ensures Leq(a, b) || Leq(b, a)
    ensures Leq(a, b) && Leq(b, a) ==> a == b
    ensures Leq(a, b) && Leq(b, c) ==> Leq(a, c)
  {
    if a != "" && b != "" {
      LeqOrder(a[1..], b[1..], if c == "" then "" else c[1..]);
      assert a == [a[0]] + a[1..] && b == [b[0]] + b[1..];
    }
  }

  predicate Sorted(s: seq<string>) { forall i, j | 0 <= i < j < |s| :: Leq(s[i], s[j]) }

  function Insert(x: string, s: seq<string>): (r: seq<string>)
    ensures multiset(r) == multiset(s) + multiset{x}
  {
    if s == [] then [x]
    else if Leq(x, s[0]) then [x] + s
    else
      assert s == [s[0]] + s[1..];
      [s[0]] + Insert(x, s[1..])
  }

  function Sort(s: seq<string>): (r: seq<string>)
    ensures multiset(r) == multiset(s)
  {
    if s == [] then []
    else
      assert s == [s[0]] + s[1..];
      Insert(s[0], Sort(s[1..]))
  }

  lemma InMultiset(s: seq<string>, x: string)
    ensures x in s <==> x in multiset(s)
  {
  }

  lemma {:induction false} InsertSorted(x: string, s: seq<string>)
    requires Sorted(s)
    ensures Sorted(Insert(x, s))
  {
    if s == [] {
    } else if Leq(x, s[0]) {
      forall j | 0 <= j < |s| ensures Leq(x, s[j]) {
        LeqOrder(x, s[0], s[j]);
      }
    } else {
      InsertSorted(x, s[1..]);
      var r := Insert(x, s[1..]);
      LeqOrder(x, s[0], x);
      forall j | 0 <= j < |r| ensures Leq(s[0], r[j]) {
        assert r[j] in multiset(r);
        assert r[j] == x || r[j] in s[1..];
      }
    }
  }

  /** Sort returns its elements in order. */
  lemma {:induction false} SortSorted(s: seq<string>)
    ensures Sorted(Sort(s))
  {
    if s != [] {
      SortSorted(s[1..]);
      InsertSorted(s[0], Sort(s[1..]));
    }
  }

  lemma SortedHead(a: seq<string>, b: seq<string>)
    requires Sorted(a) && Sorted(b) && multiset(a) == multiset(b) && a != []
    ensures |a| == |b| && a[0] == b[0]
  {
    assert |b| == |multiset(b)| == |multiset(a)| == |a|;
    assert a[0] in multiset(b) && b[0] in multiset(a);
    var i :| 0 <= i < |b| && b[i] == a[0];
    var j :| 0 <= j < |a| && a[j] == b[0];
    LeqOrder(a[0], b[0], b[0]);
    LeqOrder(a[0], a[0], a[0]);
  }

  lemma TailMultiset(a: seq<string>)
    requires a != []
    ensures multiset(a[1..]) == multiset(a) - multiset{a[0]}
  {
    assert a == [a[0]] + a[1..];
  }

  /** There is only one order: sorted sequences with the same elements are equal, however they were produced. */
  lemma {:induction false} SortedUnique(a: seq<string>, b: seq<string>)
    requires Sorted(a) && Sorted(b) && multiset(a) == multiset(b)
    ensures a == b
  {
    if a == [] {
      assert |b| == |multiset(b)| == 0;
    } else {
      SortedHead(a, b);
      TailMultiset(a);
      TailMultiset(b);
      assert a == [a[0]] + a[1..] && b == [a[0]] + b[1..];
      SortedUnique(a[1..], b[1..]);
    }
  }

  // ---- paths ----

  function SlashAt(s: string): (n: nat)
    ensures n <= |s| && '/' !in s[..n] && (n < |s| ==> s[n] == '/')
  {
    if s == "" || s[0] == '/' then 0
    else
      assert forall k | 0 < k <= |s| :: s[..k] == [s[0]] + s[1..][..k - 1];
      1 + SlashAt(s[1..])
  }

  function Component(suffix: string): string { suffix[..SlashAt(suffix)] }

  function Rest(suffix: string): (r: string)
    ensures suffix != "" ==> |r| < |suffix|
  {
    if SlashAt(suffix) < |suffix| then suffix[SlashAt(suffix) + 1..] else ""
  }

  function Components(suffix: string): seq<string>
    decreases |suffix|
  {
    if suffix == "" then [] else [Component(suffix)] + Components(Rest(suffix))
  }

  predicate Wild(component: string) { '*' in component || '?' in component }

  // The patterns for which the compiled expression is known to mean the glob.
  ghost predicate Plain(suffix: string) {
    forall c | c in Components(suffix) && Wild(c) :: PlainEscapes(c)
  }

  /** Every suffix without a backslash is one of them. */
  lemma {:induction false} NoBackslashPlain(suffix: string)
    requires '\\' !in suffix
    ensures Plain(suffix)
    decreases |suffix|
  {
    if suffix != "" {
      NoBackslashPlain(Rest(suffix));
      NoBackslashIsPlain(Component(suffix));
    }
  }

  lemma PlainRest(suffix: string)
    requires suffix != "" && Plain(suffix)
    ensures Plain(Rest(suffix)) && (Wild(Component(suffix)) ==> PlainEscapes(Component(suffix)))
  {
    assert forall c | c in Components(Rest(suffix)) :: c in Components(suffix);
    assert Component(suffix) in Components(suffix);
  }

  function Join(prefix: string, name: string): string {
    if prefix == "" then name else if prefix == "/" then "/" + name else prefix + "/" + name
  }

  function DirOf(prefix: string): string { if prefix == "" then "." else prefix }

  // Entries that start with a dot need a component that starts with one.
  predicate Eligible(component: string, name: string)
    requires component != ""
  {
    && (name == "." || name == ".." ==> component[0] == '.' && |component| != 1)
    && (name != "" && name[0] == '.' ==> component[0] == '.')
  }

  // ---- what the expansion is ----

  ghost function Select(component: string, names: seq<string>): (r: seq<string>)
    requires component != ""
    ensures forall x :: x in r <==> x in names && Eligible(component, x) && Matches(component, x)
  {
    if names == [] then []
    else
      (if Eligible(component, names[0]) && Matches(component, names[0]) then [names[0]] else [])
      + Select(component, names[1..])
  }

  ghost function Expand(t: Tree, prefix: string, suffix: string): seq<string>
    decreases |suffix|, 0
  {
    if suffix == "" then [prefix]
    else
      var (component, rest) := (Component(suffix), Rest(suffix));
      if !Wild(component) then Expand(t, Join(prefix, component), rest)
      else if DirOf(prefix) !in t then []
      else ExpandEach(t, prefix, Sort(Select(component, t[DirOf(prefix)])), rest)
  }

  ghost function ExpandEach(t: Tree, prefix: string, names: seq<string>, rest: string): seq<string>
    decreases |rest|, |names| + 1
  {
    if names == [] then []
    else Expand(t, Join(prefix, names[0]), rest) + ExpandEach(t, prefix, names[1..], rest)
  }

  // ---- the method ----

  class PathList {
    var items: seq<string>

    constructor ()
      ensures items == []
    {
      items := [];
    }
  }

  method RegExec(re: seq<Item>, name: string) returns (found: bool)
    ensures found <==> Found(re, name)
  {
    for i := 0 to |name| + 1
      invariant forall j: nat | j < i :: !MatchesAt(re, name, j)
    {
      if MatchesAt(re, name, i) {
        return true;
      }
    }
    return false;
  }

  lemma {:induction false} SelectAppend(component: string, names: seq<string>, x: string)
    requires component != ""
    ensures Select(component, names + [x])
      == Select(component, names) + if Eligible(component, x) && Matches(component, x) then [x] else []
  {
    if names == [] {
      assert ([] + [x])[1..] == [];
    } else {
      assert (names + [x])[1..] == names[1..] + [x];
      SelectAppend(component, names[1..], x);
    }
  }

  /** The directory loop: compile the component, keep the entries that the dot rules and regexec let through. */
  method Scan(component: string, entries: seq<string>) returns (matches: seq<string>)
    requires component != "" && PlainEscapes(component)
    ensures matches == Select(component, entries)
  {
    var regex := WildcardToRegex(component);
    var re := Parse(regex);
    ParseBody(component);
    TranslationKeepsMeaning(component, "");
    matches := [];
    for i := 0 to |entries|
      invariant matches == Select(component, entries[..i])
    {
      var name := entries[i];
      assert entries[..i + 1] == entries[..i] + [name];
      SelectAppend(component, entries[..i], name);
      TranslationKeepsMeaning(component, name);
      if name == "." || name == ".." {
        if component[0] != '.' {
          continue;
        }
        if |component| == 1 {
          continue;
        }
      }
      if name != "" && name[0] == '.' {
        if component[0] != '.' {
          continue;
        }
      }
      var found := RegExec(re.value, name);
      if found {
        matches := matches + [name];
      }
    }
    assert entries[..|entries|] == entries;
  }

  // The results of one more name move from what is left to what is done.
  lemma EachStep(t: Tree, prefix: string, names: seq<string>, i: nat, rest: string, was: seq<string>,
                 done: seq<string>) returns (one: seq<string>, next: seq<string>)
    requires i < |names| && done + ExpandEach(t, prefix, names[i..], rest) == ExpandEach(t, prefix, names, rest)
    ensures one == Expand(t, Join(prefix, names[i]), rest) && was + done + one == was + next
    ensures next + ExpandEach(t, prefix, names[i + 1..], rest) == ExpandEach(t, prefix, names, rest)
  {
    hide Expand, Join;
    assert names[i..][1..] == names[i + 1..];
    one := Expand(t, Join(prefix, names[i]), rest);
    next := done + one;
  }

  /** The results are those of Expand, appended in its order; the recursion ends because the suffix gets shorter. */
  method ExpandWildcard(t: Tree, prefix: string, suffix: string, results: PathList)
    requires Plain(suffix)
    modifies results
    ensures results.items == old(results.items) + Expand(t, prefix, suffix)
    decreases |suffix|, 0
  {
    if suffix == "" {
      results.items := results.items + [prefix];
      return;
    }
    var component, rest := Component(suffix), Rest(suffix);
    PlainRest(suffix);
    if !Wild(component) {
      ExpandWildcard(t, Join(prefix, component), rest, results);
      return;
    }
    if DirOf(prefix) !in t {
      return;
    }
    var matches := Scan(component, t[DirOf(prefix)]);
    if matches == [] {
      return;
    }
    ExpandMatches(t, prefix, Sort(matches), rest, results);
  }

  method ExpandMatches(t: Tree, prefix: string, matches: seq<string>, rest: string, results: PathList)
    requires Plain(rest)
    modifies results
    ensures results.items == old(results.items) + ExpandEach(t, prefix, matches, rest)
    decreases |rest|, 1
  {
    ghost var done, was := [], results.items;
    assert matches[0..] == matches;
    for i := 0 to |matches|
      invariant results.items == was + done
      invariant done + ExpandEach(t, prefix, matches[i..], rest) == ExpandEach(t, prefix, matches, rest)
    {
      ghost var one, next := EachStep(t, prefix, matches, i, rest, was, done);
      if rest == "" {
        assert one == [Join(prefix, matches[i])];
        results.items := results.items + [Join(prefix, matches[i])];
      } else {
        ExpandWildcard(t, Join(prefix, matches[i]), rest, results);
      }
      done := next;
    }
    assert done + [] == done;
  }

  /** A text that begins with a slash, without that slash: however the first component is treated, it expands from
      the root. */
  method ExpandAbsolute(t: Tree, text: string, results: PathList)
    requires text != "" && Plain(text)
    modifies results
    ensures results.items == old(results.items) + Expand(t, "/", text)
  {
    if SlashAt(text) == |text| {
      ExpandWildcard(t, "/", text, results);
    } else if Wild(Component(text)) {
      ExpandWildcard(t, "/", text, results);
    } else {
      PlainRest(text);
      ExpandWildcard(t, "/" + Component(text), Rest(text), results);
    }
  }

  /** The WORD action for text with a wildcard: the sorted results, or the text itself when there are none. */
  method Word(t: Tree, text: string) returns (words: seq<string>)
    requires Wild(text) && Plain(if text[0] == '/' then text[1..] else text)
    ensures var all := if text[0] == '/' then Expand(t, "/", text[1..]) else Expand(t, "", text);
      words == if all == [] then [text] else Sort(all)
  {
    var results := new PathList();
    if text[0] == '/' {
      assert text == ['/'] + text[1..] && text[1..] != "";
      ExpandAbsolute(t, text[1..], results);
      assert results.items == Expand(t, "/", text[1..]);
    } else {
      ExpandWildcard(t, "", text, results);
      assert results.items == Expand(t, "", text);
    }
    words := if results.items == [] then [text] else Sort(results.items);
  }

  // ---- component by component ----

  function JoinAll(prefix: string, names: seq<string>): string
    decreases |names|
  {
    if names == [] then prefix else JoinAll(Join(prefix, names[0]), names[1..])
  }

  // In the directory named dir, name may stand for component: itself, unchecked, when there is no wildcard.
  ghost predicate Fits(t: Tree, dir: string, component: string, name: string) {
    if Wild(component) then
      DirOf(dir) in t && name in t[DirOf(dir)] && Eligible(component, name) && Matches(component, name)
    else name == component
  }

  ghost predicate Choice(t: Tree, prefix: string, components: seq<string>, names: seq<string>) {
    && |names| == |components|
    && forall i | 0 <= i < |names| :: Fits(t, JoinAll(prefix, names[..i]), components[i], names[i])
  }

  lemma ChoiceCons(t: Tree, prefix: string, components: seq<string>, names: seq<string>)
    requires names != [] && components != []
    ensures Choice(t, prefix, components, names) <==>
      Fits(t, prefix, components[0], names[0]) && Choice(t, Join(prefix, names[0]), components[1..], names[1..])
  {
    assert JoinAll(prefix, names[..0]) == prefix;
    forall i | 0 < i < |names|
      ensures JoinAll(prefix, names[..i]) == JoinAll(Join(prefix, names[0]), names[1..][..i - 1])
    {
      assert names[..i][1..] == names[1..][..i - 1];
    }
    if Choice(t, prefix, components, names) {
      forall i | 0 <= i < |names[1..]|
        ensures Fits(t, JoinAll(Join(prefix, names[0]), names[1..][..i]), components[1..][i], names[1..][i])
      {
        assert Fits(t, JoinAll(prefix, names[..i + 1]), components[i + 1], names[i + 1]);
      }
    }
    if Fits(t, prefix, components[0], names[0]) && Choice(t, Join(prefix, names[0]), components[1..], names[1..])
      && |names| == |components|
    {
      forall i | 0 <= i < |names| ensures Fits(t, JoinAll(prefix, names[..i]), components[i], names[i]) {
        if i > 0 {
          var from := JoinAll(Join(prefix, names[0]), names[1..][..i - 1]);
          assert Fits(t, from, components[1..][i - 1], names[1..][i - 1]);
        }
      }
    }
  }

  ghost predicate Yields(t: Tree, prefix: string, suffix: string, path: string) {
    exists names :: Choice(t, prefix, Components(suffix), names) && path == JoinAll(prefix, names)
  }

  lemma YieldsStep(t: Tree, prefix: string, suffix: string, path: string)
    requires suffix != ""
    ensures Yields(t, prefix, suffix, path) <==>
      exists x :: Fits(t, prefix, Component(suffix), x) && Yields(t, Join(prefix, x), Rest(suffix), path)
  {
    var cs := Components(suffix);
    assert cs[0] == Component(suffix) && cs[1..] == Components(Rest(suffix));
    if names :| Choice(t, prefix, cs, names) && path == JoinAll(prefix, names) {
      ChoiceCons(t, prefix, cs, names);
      assert Yields(t, Join(prefix, names[0]), Rest(suffix), path);
    }
    if x :| Fits(t, prefix, Component(suffix), x) && Yields(t, Join(prefix, x), Rest(suffix), path) {
      var names :| Choice(t, Join(prefix, x), cs[1..], names) && path == JoinAll(Join(prefix, x), names);
      assert ([x] + names)[1..] == names;
      ChoiceCons(t, prefix, cs, [x] + names);
      assert JoinAll(prefix, [x] + names) == path;
    }
  }

  lemma {:induction false} InEach(t: Tree, prefix: string, names: seq<string>, rest: string, path: string)
    ensures path in ExpandEach(t, prefix, names, rest) <==>
      exists x :: x in names && path in Expand(t, Join(prefix, x), rest)
    decreases |names|
  {
    if names != [] {
      InEach(t, prefix, names[1..], rest, path);
      assert forall x :: x in names <==> x == names[0] || x in names[1..];
    }
  }

  /** A path is among the results exactly when its components can be chosen one after the other: a component without
      a wildcard is taken as it is, unchecked, and a wildcard component stands for the entries, of the directory named
      by the choices so far, that the pattern matches and the dot rules let through. */
  lemma {:induction false} ExpandIsComponentwise(t: Tree, prefix: string, suffix: string, path: string)
    ensures path in Expand(t, prefix, suffix) <==> Yields(t, prefix, suffix, path)
    decreases |suffix|
  {
    if suffix == "" {
      assert Choice(t, prefix, [], []) && JoinAll(prefix, []) == prefix;
    } else {
      YieldsStep(t, prefix, suffix, path);
      var (component, rest) := (Component(suffix), Rest(suffix));
      if !Wild(component) {
        ExpandIsComponentwise(t, Join(prefix, component), rest, path);
        assert Fits(t, prefix, component, component);
      } else if DirOf(prefix) in t {
        var names := Select(component, t[DirOf(prefix)]);
        InEach(t, prefix, Sort(names), rest, path);
        forall x ensures x in Sort(names) <==> Fits(t, prefix, component, x) {
          InMultiset(names, x);
          InMultiset(Sort(names), x);
        }
        forall x ensures path in Expand(t, Join(prefix, x), rest) <==> Yields(t, Join(prefix, x), rest, path) {
          ExpandIsComponentwise(t, Join(prefix, x), rest, path);
        }
      }
    }
  }

  // ---- the order of readdir ----

  ghost predicate SameEntries(t: Tree, u: Tree) {
    t.Keys == u.Keys && forall d | d in t :: multiset(t[d]) == multiset(u[d])
  }

  lemma {:induction false} SelectMultiset(component: string, a: seq<string>, x: string)
    requires component != ""
    ensures multiset(Select(component, a))[x]
      == if Eligible(component, x) && Matches(component, x) then multiset(a)[x] else 0
  {
    if a != [] {
      assert a == [a[0]] + a[1..];
      SelectMultiset(component, a[1..], x);
    }
  }

  lemma SelectOrder(component: string, a: seq<string>, b: seq<string>)
    requires component != "" && multiset(a) == multiset(b)
    ensures Sort(Select(component, a)) == Sort(Select(component, b))
  {
    var sa, sb := Select(component, a), Select(component, b);
    forall x ensures multiset(sa)[x] == multiset(sb)[x] {
      SelectMultiset(component, a, x);
      SelectMultiset(component, b, x);
    }
    assert multiset(sa) == multiset(sb);
    SortSorted(sa);
    SortSorted(sb);
    SortedUnique(Sort(sa), Sort(sb));
  }

  /** Whatever the order in which readdir lists the directories, the results are the same, in the same order. */
  lemma {:induction false} ReaddirOrderIrrelevant(t: Tree, u: Tree, prefix: string, suffix: string)
    requires SameEntries(t, u)
    ensures Expand(t, prefix, suffix) == Expand(u, prefix, suffix)
    decreases |suffix|, 0
  {
    if suffix != "" {
      var (component, rest) := (Component(suffix), Rest(suffix));
      if !Wild(component) {
        ReaddirOrderIrrelevant(t, u, Join(prefix, component), rest);
      } else {
        assert DirOf(prefix) in t.Keys <==> DirOf(prefix) in u.Keys;
        if DirOf(prefix) in t {
          SelectOrder(component, t[DirOf(prefix)], u[DirOf(prefix)]);
          EachOrderIrrelevant(t, u, prefix, Sort(Select(component, t[DirOf(prefix)])), rest);
        }
      }
    }
  }

  lemma {:induction false} EachOrderIrrelevant(t: Tree, u: Tree, prefix: string, names: seq<string>, rest: string)
    requires SameEntries(t, u)
    ensures ExpandEach(t, prefix, names, rest) == ExpandEach(u, prefix, names, rest)
    decreases |rest|, |names| + 1
  {
    if names != [] {
      ReaddirOrderIrrelevant(t, u, Join(prefix, names[0]), rest);
      EachOrderIrrelevant(t, u, prefix, names[1..], rest);
    }
  }

  // ---- the results as paths, character by character ----

  /** The names with one slash between neighbours. */
  function Slashed(names: seq<string>): string {
    if names == [] then "" else if |names| == 1 then names[0] else names[0] + "/" + Slashed(names[1..])
  }

  predicate SlashFree(names: seq<string>) { forall i | 0 <= i < |names| :: '/' !in names[i] }

  predicate Proper(names: seq<string>) { SlashFree(names) && forall i | 0 <= i < |names| :: names[i] != "" }

  lemma SlashAtEnd(a: string, rest: string)
    requires '/' !in a
    ensures SlashAt(a) == |a| && SlashAt(a + "/" + rest) == |a|
  {
    var s := a + "/" + rest;
    assert s[|a|] == '/' && forall k | 0 <= k < |a| :: s[k] == a[k];
  }

  lemma ComponentsStep(a: string, rest: string)
    requires '/' !in a
    ensures a != "" ==> Components(a) == [a]
    ensures Components(a + "/" + rest) == [a] + Components(rest)
  {
    SlashAtEnd(a, rest);
    var s := a + "/" + rest;
    assert s[..|a|] == a && s[|a| + 1..] == rest && a[..|a|] == a;
    assert a != "" ==> Component(a) == a && Rest(a) == "";
  }

  lemma SlashedCons(a: string, names: seq<string>)
    requires names != []
    ensures Slashed([a]) == a && Slashed([a] + names) == a + "/" + Slashed(names)
  {
    assert ([a] + names)[1..] == names;
  }

  /** Cutting at the slashes gives the names back; a slash at the end makes no further component, so that the names
      and the slash give back also a last name that is empty. */
  lemma {:induction false} ComponentsOfSlashed(names: seq<string>)
    requires names != [] && SlashFree(names)
    ensures names[|names| - 1] != "" ==> Components(Slashed(names)) == names
    ensures Components(Slashed(names) + "/") == names
  {
    hide Components, Slashed;
    var a, rest := names[0], names[1..];
    assert [a] + rest == names;
    if |names| == 1 {
      SlashedCons(a, [a]);
      ComponentsStep(a, "");
      NoComponents();
      assert a + "/" + "" == a + "/" && [a] + [] == [a] == names;
    } else {
      var t := Slashed(rest);
      ComponentsOfSlashed(rest);
      SlashedCons(a, rest);
      ComponentsStep(a, t);
      ComponentsStep(a, t + "/");
      assert a + "/" + (t + "/") == a + "/" + t + "/";
    }
  }

  lemma NoComponents()
    ensures Components("") == []
  {
  }

  // suffix is made of these components, with or without a slash at the end.
  predicate MadeOf(suffix: string, components: seq<string>) {
    && components != [] && SlashFree(components)
    && ((suffix == Slashed(components) && components[|components| - 1] != "") || suffix == Slashed(components) + "/")
  }

  lemma {:induction false} MadeOfComponents(suffix: string)
    requires suffix != ""
    ensures MadeOf(suffix, Components(suffix))
    decreases |suffix|
  {
    hide Components, Slashed;
    var n := SlashAt(suffix);
    var a := suffix[..n];
    SlashedCons(a, [a]);
    if n == |suffix| {
      ComponentsStep(a, "");
      assert a == suffix;
    } else {
      var rest := suffix[n + 1..];
      assert suffix == a + "/" + rest;
      ComponentsStep(a, rest);
      if rest == "" {
        NoComponents();
        assert a + "/" + "" == a + "/" && [a] + [] == [a];
      } else {
        MadeOfComponents(rest);
        var cs := Components(rest);
        SlashedCons(a, cs);
        assert ([a] + cs)[|cs|] == cs[|cs| - 1];
        assert a + "/" + (Slashed(cs) + "/") == a + "/" + Slashed(cs) + "/";
      }
    }
  }

  /** Every suffix but the empty one is made of its components and of no others. */
  lemma SuffixMadeOf(suffix: string)
    requires suffix != ""
    ensures forall cs :: MadeOf(suffix, cs) <==> cs == Components(suffix)
  {
    hide Components, Slashed;
    MadeOfComponents(suffix);
    forall cs | MadeOf(suffix, cs) ensures cs == Components(suffix) {
      ComponentsOfSlashed(cs);
    }
  }

  // The path of the names from the root, or from where the shell is.
  function PathOf(root: bool, names: seq<string>): string { (if root then "/" else "") + Slashed(names) }

  lemma {:induction false} SlashedSnoc(names: seq<string>, x: string)
    requires names != []
    ensures Slashed(names + [x]) == Slashed(names) + "/" + x
  {
    assert (names + [x])[1..] == names[1..] + [x];
    if |names| > 1 {
      SlashedSnoc(names[1..], x);
    } else {
      assert names[1..] + [x] == [x];
    }
  }

  lemma JoinPath(root: bool, names: seq<string>, x: string)
    requires SlashFree(names) && (names != [] ==> names[0] != "")
    ensures Join(PathOf(root, names), x) == PathOf(root, names + [x])
  {
    if names == [] {
      assert [] + [x] == [x];
    } else {
      SlashedSnoc(names, x);
      var s := Slashed(names);
      assert s != "" && s[0] == names[0][0] != '/';
      assert if root then |PathOf(root, names)| > 1 else PathOf(root, names)[0] != '/';
    }
  }

  lemma {:induction false} JoinAllPath(root: bool, done: seq<string>, names: seq<string>)
    requires SlashFree(done + names) && (done + names != [] ==> (done + names)[0] != "")
    ensures JoinAll(PathOf(root, done), names) == PathOf(root, done + names)
    decreases |names|
  {
    if names == [] {
      assert done + names == done;
    } else {
      assert done + names == done + [names[0]] + names[1..];
      assert SlashFree(done) by {
        assert forall i | 0 <= i < |done| :: done[i] == (done + names)[i];
      }
      assert done != [] ==> done[0] == (done + names)[0];
      JoinPath(root, done, names[0]);
      JoinAllPath(root, done + [names[0]], names[1..]);
    }
  }

  // The directory that the names so far lead to.
  function DirName(root: bool, names: seq<string>): string {
    if root || names != [] then PathOf(root, names) else "."
  }

  // name stands for component in dir: a component without a wildcard for itself, one with a wildcard for the entries
  // it matches, those that begin with a dot only if it does too.
  ghost predicate Stands(t: Tree, dir: string, component: string, name: string) {
    if '*' in component || '?' in component then
      && dir in t && name in t[dir] && Matches(component, name)
      && (name != "" && name[0] == '.' ==> component[0] == '.')
    else name == component
  }

  ghost predicate Selects(t: Tree, root: bool, components: seq<string>, names: seq<string>)
    requires EntriesOk(t)
  {
    && |names| == |components|
    && forall i | 0 <= i < |names| :: Stands(t, DirName(root, names[..i]), components[i], names[i])
  }

  /** No entry of a directory is empty or contains a slash. */
  ghost predicate EntriesOk(t: Tree) {
    forall d, k | d in t && 0 <= k < |t[d]| :: t[d][k] != "" && '/' !in t[d][k]
  }

  lemma FitsStands(t: Tree, root: bool, names: seq<string>, component: string, name: string)
    requires EntriesOk(t) && SlashFree(names) && (names != [] ==> names[0] != "")
    ensures Fits(t, PathOf(root, names), component, name) <==> Stands(t, DirName(root, names), component, name)
  {
    assert names != [] ==> Slashed(names) != "";
    assert DirOf(PathOf(root, names)) == DirName(root, names);
  }

  // What stands for a component is no more empty than it, and free of slashes.
  lemma StandsProper(t: Tree, dir: string, component: string, name: string)
    requires EntriesOk(t) && '/' !in component && Stands(t, dir, component, name)
    ensures '/' !in name && (component != "" ==> name != "")
  {
  }

  lemma {:induction false} ChoiceSelects(t: Tree, root: bool, components: seq<string>, names: seq<string>)
    requires EntriesOk(t) && components != [] && SlashFree(components) && components[0] != ""
    ensures Choice(t, PathOf(root, []), components, names) <==> Selects(t, root, components, names)
    ensures Selects(t, root, components, names) ==>
      SlashFree(names) && names[0] != "" && (Proper(components) ==> Proper(names))
  {
    if |names| == |components| {
      ChoiceUpTo(t, root, components, names, |names|);
    }
  }

  lemma {:induction false} ChoiceUpTo(t: Tree, root: bool, components: seq<string>, names: seq<string>, n: nat)
    requires EntriesOk(t) && SlashFree(components) && components != [] && components[0] != ""
    requires |names| == |components| && n <= |names|
    ensures (forall i | 0 <= i < n :: Fits(t, JoinAll(PathOf(root, []), names[..i]), components[i], names[i]))
      <==> forall i | 0 <= i < n :: Stands(t, DirName(root, names[..i]), components[i], names[i])
    ensures (forall i | 0 <= i < n :: Stands(t, DirName(root, names[..i]), components[i], names[i])) ==>
      && SlashFree(names[..n]) && (n > 0 ==> names[0] != "")
      && (Proper(components) ==> Proper(names[..n]))
  {
    hide Fits, Stands, JoinAll, DirName, PathOf;
    if n > 0 {
      var i := n - 1;
      ChoiceUpTo(t, root, components, names, i);
      if forall k | 0 <= k < i :: Stands(t, DirName(root, names[..k]), components[k], names[k]) {
        assert [] + names[..i] == names[..i];
        JoinAllPath(root, [], names[..i]);
        FitsStands(t, root, names[..i], components[i], names[i]);
        if Stands(t, DirName(root, names[..i]), components[i], names[i]) {
          StandsProper(t, DirName(root, names[..i]), components[i], names[i]);
          assert names[..n] == names[..i] + [names[i]];
        }
      }
    }
  }

  /** The results of a suffix whose first component is not empty: exactly the paths of the names that can be chosen
      for its components one after the other, with one slash between neighbours, behind a slash when they start from
      the root. */
  lemma ResultsArePaths(t: Tree, root: bool, suffix: string, components: seq<string>, path: string)
    requires EntriesOk(t) && MadeOf(suffix, components) && components[0] != ""
    ensures path in Expand(t, if root then "/" else "", suffix) <==>
      exists names :: Selects(t, root, components, names) && path == (if root then "/" else "") + Slashed(names)
  {
    var prefix := PathOf(root, []);
    assert suffix != "" && prefix == if root then "/" else "";
    SuffixMadeOf(suffix);
    ExpandIsComponentwise(t, prefix, suffix, path);
    forall names ensures Choice(t, prefix, components, names) <==> Selects(t, root, components, names) {
      ChoiceSelects(t, root, components, names);
    }
    forall names | Selects(t, root, components, names) ensures JoinAll(prefix, names) == PathOf(root, names) {
      ChoiceSelects(t, root, components, names);
      assert [] + names == names;
      JoinAllPath(root, [], names);
    }
    if path in Expand(t, prefix, suffix) {
      var names :| Choice(t, prefix, components, names) && path == JoinAll(prefix, names);
      assert Selects(t, root, components, names);
    }
    if names :| Selects(t, root, components, names) && path == PathOf(root, names) {
      assert Choice(t, prefix, components, names) && path == JoinAll(prefix, names);
      assert Yields(t, prefix, suffix, path);
    }
  }

  /** When no component is empty, cutting a result at its slashes gives back exactly the names chosen. */
  lemma ResultSplits(t: Tree, root: bool, components: seq<string>, names: seq<string>)
    requires EntriesOk(t) && components != [] && Proper(components) && Selects(t, root, components, names)
    ensures Components(Slashed(names)) == names && |names| == |components|
    ensures forall i | 0 <= i < |names| :: names[i] != "" && '/' !in names[i]
  {
    ChoiceSelects(t, root, components, names);
    ComponentsOfSlashed(names);
  }

  /** Slashes behind the one at the front make no difference. */
  lemma RootSlashes(t: Tree, suffix: string)
    ensures Expand(t, "/", "/" + suffix) == Expand(t, "/", suffix)
  {
    SlashAtEnd("", suffix);
    assert "" + "/" + suffix == "/" + suffix && ("/" + suffix)[1..] == suffix && "/" + "" == "/";
  }

  // ---- each result once, in the order of the characters ----

  // a is a prefix of b, or differs from b first in a smaller character.
  ghost predicate Before(a: string, b: string) {
    a <= b || exists k :: FirstSmaller(a, b, k)
  }

  ghost predicate FirstSmaller(a: string, b: string, k: int) {
    0 <= k < |a| && k < |b| && a[..k] == b[..k] && a[k] < b[k]
  }

  lemma SmallerLater(c: char, a: string, b: string, k: nat)
    ensures FirstSmaller([c] + a, [c] + b, k + 1) <==> FirstSmaller(a, b, k)
  {
    var x, y := [c] + a, [c] + b;
    if k < |a| && k < |b| {
      assert x[..k + 1] == [c] + a[..k] && y[..k + 1] == [c] + b[..k];
      assert x[..k + 1][1..] == a[..k] && y[..k + 1][1..] == b[..k];
    }
  }

  lemma BeforeStep(a: string, b: string)
    requires a != "" && b != ""
    ensures Before(a, b) <==> a[0] < b[0] || (a[0] == b[0] && Before(a[1..], b[1..]))
  {
    var x, y := a[1..], b[1..];
    assert a == [a[0]] + x && b == [b[0]] + y;
    if a[0] < b[0] {
      assert FirstSmaller(a, b, 0);
    } else if a[0] == b[0] {
      assert a <= b <==> x <= y;
      if k :| FirstSmaller(x, y, k) { SmallerLater(a[0], x, y, k); }
      if k :| FirstSmaller(a, b, k) {
        assert k > 0;
        SmallerLater(a[0], x, y, k - 1);
      }
    }
  }

  lemma {:induction false} LeqIsLexicographic(a: string, b: string)
    ensures Leq(a, b) <==> Before(a, b)
  {
    if a != "" && b != "" {
      hide Before;
      LeqIsLexicographic(a[1..], b[1..]);
      BeforeStep(a, b);
    }
  }

  ghost predicate Unique(s: seq<string>) { forall x :: multiset(s)[x] <= 1 }

  lemma UniqueTail(s: seq<string>)
    requires Unique(s) && s != []
    ensures Unique(s[1..]) && s[0] !in s[1..]
  {
    assert s == [s[0]] + s[1..];
    forall x ensures multiset(s)[x] == multiset(s[1..])[x] + if x == s[0] then 1 else 0 {
      assert multiset(s) == multiset{s[0]} + multiset(s[1..]);
    }
    InMultiset(s[1..], s[0]);
    assert multiset(s)[s[0]] <= 1;
    forall x ensures multiset(s[1..])[x] <= 1 {
      assert multiset(s)[x] <= 1;
    }
  }

  lemma UniqueAppend(a: seq<string>, b: seq<string>)
    requires Unique(a) && Unique(b) && forall x | x in a :: x !in b
    ensures Unique(a + b)
  {
    forall x ensures multiset(a + b)[x] <= 1 {
      assert multiset(a + b)[x] == multiset(a)[x] + multiset(b)[x];
      InMultiset(a, x);
      InMultiset(b, x);
    }
  }

  /** No directory lists an entry twice. */
  ghost predicate EntriesUnique(t: Tree) { forall d | d in t :: Unique(t[d]) }

  lemma {:induction false} EachUnique(t: Tree, root: bool, done: seq<string>, names: seq<string>, rest: string)
    requires EntriesOk(t) && EntriesUnique(t) && Proper(done) && Proper(names) && Unique(names)
    requires rest == "" || Proper(Components(rest))
    ensures Unique(ExpandEach(t, PathOf(root, done), names, rest))
    decreases |rest|, |names| + 1
  {
    hide Expand, Join, PathOf, Unique;
    if names != [] {
      var x := names[0];
      UniqueTail(names);
      JoinPath(root, done, x);
      assert Proper(done + [x]);
      ExpandUnique(t, root, done + [x], rest);
      EachUnique(t, root, done, names[1..], rest);
      var a, b := Expand(t, PathOf(root, done + [x]), rest), ExpandEach(t, PathOf(root, done), names[1..], rest);
      forall path | path in a ensures path !in b {
        if path in b {
          NameOfResult(t, root, done, x, names[1..], rest, path);
        }
      }
      UniqueAppend(a, b);
    } else {
      NothingUnique();
    }
  }

  lemma NothingUnique()
    ensures Unique([])
  {
  }

  // A result under one name is not one under another.
  lemma NameOfResult(t: Tree, root: bool, done: seq<string>, x: string, names: seq<string>, rest: string, path: string)
    requires EntriesOk(t) && Proper(done) && Proper([x]) && Proper(names) && (rest == "" || Proper(Components(rest)))
    requires path in Expand(t, PathOf(root, done + [x]), rest)
    requires path in ExpandEach(t, PathOf(root, done), names, rest)
    ensures x in names
  {
    hide Expand, ExpandEach, Join, PathOf;
    InEach(t, PathOf(root, done), names, rest, path);
    var y :| y in names && path in Expand(t, Join(PathOf(root, done), y), rest);
    JoinPath(root, done, y);
    assert Proper(done + [x]) && Proper(done + [y]);
    ResultBegins(t, root, done + [x], rest, path);
    ResultBegins(t, root, done + [y], rest, path);
    SameName(path, root, done, x, y);
  }

  // The components of a result, without the slash of the root, begin with these names.
  predicate Begins(root: bool, path: string, names: seq<string>) {
    names <= Components(if root && path != "" then path[1..] else path)
  }

  lemma SameName(path: string, root: bool, done: seq<string>, x: string, y: string)
    requires Begins(root, path, done + [x]) && Begins(root, path, done + [y])
    ensures x == y
  {
    assert (done + [x])[|done|] == x && (done + [y])[|done|] == y;
  }

  lemma ResultBegins(t: Tree, root: bool, names: seq<string>, rest: string, path: string)
    requires EntriesOk(t) && names != [] && Proper(names) && (rest == "" || Proper(Components(rest)))
    requires path in Expand(t, PathOf(root, names), rest)
    ensures Begins(root, path, names)
  {
    hide Expand, JoinAll, Choice, Components, Slashed;
    ExpandIsComponentwise(t, PathOf(root, names), rest, path);
    var more :| Choice(t, PathOf(root, names), Components(rest), more) && path == JoinAll(PathOf(root, names), more);
    if rest == "" { NoComponents(); }
    ChoiceProper(t, PathOf(root, names), Components(rest), more);
    var all := names + more;
    assert forall i | 0 <= i < |all| :: all[i] == if i < |names| then names[i] else more[i - |names|];
    JoinAllPath(root, names, more);
    ComponentsOfSlashed(all);
    assert ("/" + Slashed(all))[1..] == Slashed(all) && "" + Slashed(all) == Slashed(all);
    NoComponents();
  }

  lemma ChoiceProper(t: Tree, prefix: string, components: seq<string>, names: seq<string>)
    requires EntriesOk(t) && Proper(components) && Choice(t, prefix, components, names)
    ensures Proper(names)
  {
    forall i | 0 <= i < |names| ensures '/' !in names[i] && names[i] != "" {
      assert Fits(t, JoinAll(prefix, names[..i]), components[i], names[i]);
    }
  }

  lemma {:induction false} ExpandUnique(t: Tree, root: bool, done: seq<string>, suffix: string)
    requires EntriesOk(t) && EntriesUnique(t) && Proper(done) && (suffix == "" || Proper(Components(suffix)))
    ensures Unique(Expand(t, PathOf(root, done), suffix))
    decreases |suffix|, 0
  {
    if suffix != "" {
      var prefix, component, rest := PathOf(root, done), Component(suffix), Rest(suffix);
      var cs := Components(suffix);
      assert cs[0] == component && cs[1..] == Components(rest);
      assert Proper(Components(rest)) by {
        assert forall i | 0 <= i < |cs[1..]| :: cs[1..][i] == cs[i + 1];
      }
      if !Wild(component) {
        JoinPath(root, done, component);
        assert Proper(done + [component]);
        ExpandUnique(t, root, done + [component], rest);
      } else if DirOf(prefix) in t {
        var names := Select(component, t[DirOf(prefix)]);
        SelectUnique(component, t[DirOf(prefix)]);
        assert multiset(Sort(names)) == multiset(names);
        forall i | 0 <= i < |Sort(names)| ensures '/' !in Sort(names)[i] && Sort(names)[i] != "" {
          InMultiset(Sort(names), Sort(names)[i]);
          InMultiset(names, Sort(names)[i]);
        }
        EachUnique(t, root, done, Sort(names), rest);
      }
    }
  }

  lemma SelectUnique(component: string, entries: seq<string>)
    requires component != "" && Unique(entries)
    ensures Unique(Select(component, entries))
  {
    forall x ensures multiset(Select(component, entries))[x] <= 1 {
      SelectMultiset(component, entries, x);
    }
  }

  /** The words that a text without empty components expands to when there are any: every path whose names can be
      chosen for the components occurs exactly once, nothing else does, and they are in the order of their
      characters. */
  lemma WordsAre(t: Tree, root: bool, suffix: string, components: seq<string>, words: seq<string>)
    requires EntriesOk(t) && EntriesUnique(t) && MadeOf(suffix, components) && Proper(components)
    requires words == Sort(Expand(t, if root then "/" else "", suffix))
    ensures forall path :: path in words <==>
      exists names :: Selects(t, root, components, names) && path == (if root then "/" else "") + Slashed(names)
    ensures forall i, j | 0 <= i < j < |words| :: Before(words[i], words[j]) && words[i] != words[j]
  {
    var all := Expand(t, PathOf(root, []), suffix);
    assert suffix != "" && PathOf(root, []) == if root then "/" else "";
    SuffixMadeOf(suffix);
    ExpandUnique(t, root, [], suffix);
    SortSorted(all);
    forall path ensures path in words <==>
      exists names :: Selects(t, root, components, names) && path == (if root then "/" else "") + Slashed(names)
    {
      InMultiset(all, path);
      InMultiset(words, path);
      ResultsArePaths(t, root, suffix, components, path);
    }
    forall i, j | 0 <= i < j < |words| ensures Before(words[i], words[j]) && words[i] != words[j] {
      LeqIsLexicographic(words[i], words[j]);
      TwiceCounted(words, i, j);
    }
  }

  lemma {:induction false} TwiceCounted(s: seq<string>, i: nat, j: nat)
    requires i < j < |s| && Unique(s)
    ensures s[i] != s[j]
  {
    UniqueTail(s);
    if i > 0 {
      TwiceCounted(s[1..], i - 1, j - 1);
    } else {
      assert s[j] == s[1..][j - 1];
    }
  }
}
