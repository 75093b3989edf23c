/** Strings kept in character arrays and ended by a NUL. */
module CStrings {
  // What the characters of an array read as: those before the first NUL.
  function CString(s: seq<char>): (r: string)
    ensures |r| <= |s| && r == s[..|r|] && '\0' !in r && forall k | 0 <= k < |r| :: s[k] != '\0'
    ensures '\0' in s ==> |r| < |s| && s[|r|] == '\0'
  {
    if s == [] || s[0] == '\0' then "" else [s[0]] + CString(s[1..])
  }

  lemma {:induction false} EndsAt(s: seq<char>, n: nat)
    requires n < |s| && '\0' !in s[..n] && s[n] == '\0'
    ensures CString(s) == s[..n]
  {
    if n > 0 {
      assert s[0] == s[..n][0];
      assert s[1..][..n - 1] == s[..n][1..];
      EndsAt(s[1..], n - 1);
    }
  }

  // Where `stop` first occurs in s, or the length of s.
  function StopAt(s: string, stop: char): (n: nat)
    ensures n <= |s| && (n < |s| ==> s[n] == stop) && forall k | 0 <= k < n :: s[k] != stop
  {
    if s == "" || s[0] == stop then 0
    else
      1 + StopAt(s[1..], stop)
  }

  function Before(s: string, stop: char): string { s[..StopAt(s, stop)] }

  function After(s: string, stop: char): string {
    if StopAt(s, stop) < |s| then s[StopAt(s, stop) + 1..] else ""
  }

  lemma SplitAtStop(a: string, b: string, stop: char)
    requires stop !in a
    ensures Before(a + [stop] + b, stop) == a && After(a + [stop] + b, stop) == b
    ensures Before(a, stop) == a && After(a, stop) == ""
  {
    var s := a + [stop] + b;
    assert forall k | 0 <= k < |a| :: s[k] == a[k];
    assert s[|a|] == stop && s[|a| + 1..] == b;
    assert s[..|a|] == a && a[..|a|] == a;
    assert StopAt(s, stop) == |a| && StopAt(a, stop) == |a|;
  }
}
