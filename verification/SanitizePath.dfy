/** sanitizePath of the HTTP server (lab5/myhttpd.cc). */
module SanitizePath {
  import opened CStrings

  // ---- what the loop does to a string ----

  // s begins with "/../" or is "/..".
  predicate AtDotDot(s: string) {
    |s| >= 3 && s[0] == '/' && s[1] == '.' && s[2] == '.' && (|s| == 3 || s[3] == '/')
  }

  function Stripped(s: string): string
    decreases |s|
  {
    if s == "" then "" else if AtDotDot(s) then Stripped(s[3..]) else [s[0]] + Stripped(s[1..])
  }

  ghost predicate HasDotDot(s: string) { exists i :: 0 <= i < |s| - 1 && s[i] == '.' && s[i + 1] == '.' }

  // ---- in place ----

  // The array holds `done` before p, then `rest`, then a NUL.
  ghost predicate Holds(path: array<char>, p: nat, done: string, rest: string)
    reads path
  {
    && p == |done| && |done| + |rest| < path.Length
    && path[..|done| + |rest| + 1] == done + rest + ['\0']
    && (forall k | 0 <= k < |rest| :: rest[k] != '\0')
  }

  lemma HoldsAt(path: array<char>, p: nat, done: string, rest: string, k: nat)
    requires Holds(path, p, done, rest) && k <= |rest|
    ensures path[p + k] == if k < |rest| then rest[k] else '\0'
  {
    assert path[p + k] == path[..|done| + |rest| + 1][p + k];
  }

  /** strncmp(p, "/../", 4) == 0 || strcmp(p, "/..") == 0 */
  method IsDotDot(path: array<char>, p: nat, ghost done: string, ghost rest: string) returns (b: bool)
    requires Holds(path, p, done, rest)
    ensures b == AtDotDot(rest)
  {
    HoldsAt(path, p, done, rest, 0);
    if |rest| > 0 { HoldsAt(path, p, done, rest, 1); }
    if |rest| > 1 { HoldsAt(path, p, done, rest, 2); }
    if |rest| > 2 { HoldsAt(path, p, done, rest, 3); }
    b := path[p] == '/' && path[p + 1] == '.' && path[p + 2] == '.' && (path[p + 3] == '/' || path[p + 3] == '\0');
  }

  /** strcpy(p, p + 3), read as the shift to the left it is there for. */
  method Remove3(path: array<char>, p: nat, ghost done: string, ghost rest: string)
    requires Holds(path, p, done, rest) && |rest| >= 3
    modifies path
    ensures Holds(path, p, done, rest[3..])
  {
    ghost var n := p + |rest|;
    var k := p;
    HoldsAt(path, p, done, rest, 3);
    while path[k + 3] != '\0'
      invariant p <= k <= n - 3
      invariant forall j | 0 <= j < p || k <= j <= n :: path[j] == old(path[j])
      invariant forall j | p <= j < k :: path[j] == old(path[j + 3])
      invariant path[k + 3] == old(path[k + 3]) && (path[k + 3] == '\0' <==> k + 3 == n)
      decreases n - k
    {
      path[k] := path[k + 3];
      k := k + 1;
      assert old(Holds(path, p, done, rest));
      assert old(path[k + 3]) == old(path[..n + 1])[k + 3];
    }
    path[k] := '\0';
    assert path[..n - 2] == old(path[..n + 1])[..p] + old(path[..n + 1])[p + 3..];
  }

  /** strstr(path, "..") != NULL */
  method FindDotDot(path: array<char>) returns (found: bool)
    requires '\0' in path[..]
    ensures found == HasDotDot(CString(path[..]))
  {
    ghost var s := CString(path[..]);
    var i := 0;
    while path[i] != '\0'
      invariant i <= |s| && forall k | 0 <= k < i && k < |s| - 1 :: !(s[k] == '.' && s[k + 1] == '.')
      decreases |s| - i
    {
      if path[i] == '.' && path[i + 1] == '.' {
        assert s[i] == '.' && s[i + 1] == '.';
        return true;
      }
      i := i + 1;
    }
    return false;
  }

  /** One turn of the loop. */
  method Advance(path: array<char>, p: nat, ghost done: string, ghost rest: string)
    returns (q: nat, ghost done': string, ghost rest': string)
    requires Holds(path, p, done, rest) && rest != ""
    modifies path
    ensures Holds(path, q, done', rest') && |rest'| < |rest|
    ensures done' + Stripped(rest') == done + Stripped(rest)
    ensures (forall k | 0 <= k < |done| :: done[k] != '\0') ==> forall k | 0 <= k < |done'| :: done'[k] != '\0'
  {
    var b := IsDotDot(path, p, done, rest);
    q, done', rest' := p, done, rest;
    if b {
      Remove3(path, p, done, rest);
      rest' := rest[3..];
    } else {
      assert done + [rest[0]] + rest[1..] == done + rest;
      q, done', rest' := p + 1, done + [rest[0]], rest[1..];
    }
  }

  method Strip(path: array<char>)
    requires '\0' in path[..]
    modifies path
    ensures '\0' in path[..] && CString(path[..]) == Stripped(old(CString(path[..])))
  {
    ghost var s := CString(path[..]);
    ghost var done, rest := "", s;
    var p: nat := 0;
    HoldsAt(path, p, done, rest, 0);
    while path[p] != '\0'
      invariant Holds(path, p, done, rest) && (path[p] == '\0' <==> rest == "")
      invariant done + Stripped(rest) == Stripped(s) && forall k | 0 <= k < |done| :: done[k] != '\0'
      decreases |rest|
    {
      p, done, rest := Advance(path, p, done, rest);
      HoldsAt(path, p, done, rest, 0);
    }
    assert path[..p + 1][..p] == path[..p] == done == Stripped(s);
    EndsAt(path[..], p);
  }

  /** The loop strips, and what still has two dots in a row afterwards is replaced by the root; so no two dots in a
      row are left, whatever the path. */
  method Sanitize(path: array<char>)
    requires '\0' in path[..]
    modifies path
    ensures '\0' in path[..]
    ensures var s := Stripped(old(CString(path[..]))); CString(path[..]) == if HasDotDot(s) then "/" else s
    ensures !HasDotDot(CString(path[..]))
  {
    Strip(path);
    var found := FindDotDot(path);
    if found {
      path[0], path[1] := '/', '\0';
      EndsAt(path[..], 1);
    }
  }

  // ---- what stripping means ----

  // The path made of segments, each behind a slash.
  function Flat(segments: seq<string>): string {
    if segments == [] then "" else "/" + (segments[0] + Flat(segments[1..]))
  }

  predicate AreSegments(segments: seq<string>) { forall i | 0 <= i < |segments| :: '/' !in segments[i] }

  function Kept(segments: seq<string>): seq<string> {
    if segments == [] then [] else (if segments[0] == ".." then [] else [segments[0]]) + Kept(segments[1..])
  }

  lemma {:induction false} StrippedCopies(a: string, b: string)
    requires '/' !in a
    ensures Stripped(a + b) == a + Stripped(b)
  {
    if a == "" {
      assert a + b == b;
    } else {
      assert (a + b)[0] == a[0] != '/' && (a + b)[1..] == a[1..] + b;
      StrippedCopies(a[1..], b);
    }
  }

  lemma OnlyDotDot(x: string, rest: string)
    requires '/' !in x && (rest == "" || rest[0] == '/')
    ensures AtDotDot("/" + (x + rest)) <==> x == ".."
  {
    var s := "/" + (x + rest);
    assert forall i | 0 <= i < |x| :: s[1 + i] == x[i];
    assert rest != "" ==> s[1 + |x|] == rest[0];
    assert |x| > 2 ==> s[3] == x[2] != '/';
    assert |x| == 2 ==> s[1] == x[0] && s[2] == x[1];
    assert x == ".." <==> |x| == 2 && x[0] == '.' && x[1] == '.';
  }

  lemma StrippedSlash(t: string)
    ensures Stripped("/" + t) == if AtDotDot("/" + t) then Stripped(t[2..]) else "/" + Stripped(t)
  {
    var s := "/" + t;
    assert s[1..] == t;
    if AtDotDot(s) {
      assert s[3..] == t[2..];
    }
  }

  // One segment at the front: dropped or copied.
  lemma StrippedSegment(x: string, rest: string)
    requires '/' !in x && (rest == "" || rest[0] == '/')
    ensures Stripped("/" + (x + rest)) == if x == ".." then Stripped(rest) else "/" + (x + Stripped(rest))
  {
    OnlyDotDot(x, rest);
    StrippedSlash(x + rest);
    if x == ".." {
      assert (x + rest)[2..] == rest;
    } else {
      StrippedCopies(x, rest);
    }
  }

  lemma {:induction false} StrippedSegments(segments: seq<string>)
    requires AreSegments(segments)
    ensures Stripped(Flat(segments)) == Flat(Kept(segments))
  {
    if segments != [] {
      var kept := Kept(segments[1..]);
      StrippedSegments(segments[1..]);
      StrippedSegment(segments[0], Flat(segments[1..]));
      assert [] + kept == kept && ([segments[0]] + kept)[1..] == kept;
    }
  }

  /** For every path the loop drops exactly the segments that are "..": whatever stands before the first slash stays,
      and so do all other segments, in their order. */
  lemma StrippingDropsDotDotSegments(first: string, segments: seq<string>)
    requires '/' !in first && AreSegments(segments)
    ensures Stripped(first + Flat(segments)) == first + Flat(Kept(segments))
  {
    StrippedCopies(first, Flat(segments));
    StrippedSegments(segments);
  }

  /** Every path has segments. */
  lemma {:induction false} SegmentsExist(s: string) returns (first: string, segments: seq<string>)
    ensures s == first + Flat(segments) && '/' !in first && AreSegments(segments)
  {
    if s == "" {
      first, segments := "", [];
    } else {
      var f, r := SegmentsExist(s[1..]);
      if s[0] == '/' {
        first, segments := "", [f] + r;
        assert segments[1..] == r && Flat(segments) == "/" + (f + Flat(r));
      } else {
        first, segments := [s[0]] + f, r;
      }
    }
  }

  // ---- when the path is replaced by the root ----

  // Two dots in a row are not torn apart by what separates a from b.
  lemma DotDotApart(a: string, b: string)
    requires b == "" || b[0] == '/'
    ensures HasDotDot(a + b) <==> HasDotDot(a) || HasDotDot(b)
  {
    var s := a + b;
    if i :| 0 <= i < |a| - 1 && a[i] == '.' && a[i + 1] == '.' {
      assert s[i] == '.' && s[i + 1] == '.';
    }
    if i :| 0 <= i < |b| - 1 && b[i] == '.' && b[i + 1] == '.' {
      assert s[|a| + i] == '.' && s[|a| + i + 1] == '.';
    }
    if i :| 0 <= i < |s| - 1 && s[i] == '.' && s[i + 1] == '.' {
      if i + 1 < |a| {
        assert a[i] == '.' && a[i + 1] == '.';
      } else {
        var j := i - |a|;
        assert s[i + 1] == b[j + 1];
        assert b[j] == '.' && b[j + 1] == '.';
      }
    }
  }

  lemma DotDotBehindSlash(t: string)
    ensures HasDotDot("/" + t) <==> HasDotDot(t)
  {
    var s := "/" + t;
    if i :| 0 <= i < |s| - 1 && s[i] == '.' && s[i + 1] == '.' {
      assert t[i - 1] == '.' && t[i] == '.';
    }
    if i :| 0 <= i < |t| - 1 && t[i] == '.' && t[i + 1] == '.' {
      assert s[i + 1] == '.' && s[i + 2] == '.';
    }
  }

  // Segment i contains two dots in a row but is not "..".
  ghost predicate Dotted(segments: seq<string>, i: int) {
    0 <= i < |segments| && segments[i] != ".." && HasDotDot(segments[i])
  }

  lemma {:induction false} DotDotInSegments(segments: seq<string>)
    requires AreSegments(segments)
    ensures HasDotDot(Flat(Kept(segments))) <==> exists i :: Dotted(segments, i)
  {
    if segments != [] {
      var x, rest := segments[0], segments[1..];
      var kept := Kept(rest);
      DotDotInSegments(rest);
      if x == ".." {
        assert Kept(segments) == kept;
      } else {
        assert Kept(segments)[0] == x && Kept(segments)[1..] == kept;
        DotDotBehindSlash(x + Flat(kept));
        DotDotApart(x, Flat(kept));
      }
      if i :| Dotted(segments, i) {
        assert i == 0 || Dotted(rest, i - 1);
      }
      if i :| Dotted(rest, i) {
        assert Dotted(segments, i + 1);
      }
      assert x != ".." && HasDotDot(x) ==> Dotted(segments, 0);
    }
  }

  /** The path that a request asks for is replaced by the root exactly when what stands before its first slash, or some
      segment other than "..", contains two dots in a row. */
  lemma RootIffDotsInSegment(first: string, segments: seq<string>)
    requires '/' !in first && AreSegments(segments)
    ensures HasDotDot(Stripped(first + Flat(segments))) <==> HasDotDot(first) || exists i :: Dotted(segments, i)
  {
    StrippingDropsDotDotSegments(first, segments);
    DotDotApart(first, Flat(Kept(segments)));
    DotDotInSegments(segments);
  }
}
