/**
 The three Windows path operations the organiser relies on (Python's `ntpath`):
 `join`, `basename` and `splitext`. The backslash is the separator, the forward
 slash is accepted as an alternative one, and `X:` at the start is a drive.
 */
module Paths {

  const Sep: char := '\\'
  const AltSep: char := '/'
  const ExtSep: char := '.'

  predicate IsSep(c: char) {
    c == Sep || c == AltSep
  }

  predicate NoSeparator(s: string) {
    forall i :: 0 <= i < |s| ==> !IsSep(s[i])
  }

  predicate IsAbsolute(s: string) {
    |s| > 0 && IsSep(s[0])
  }

  /** The drive prefix `X:` of a path, or the empty string; UNC shares are not treated as drives. */
  function Drive(p: string): (d: string)
    ensures d <= p && |d| <= 2
  {
    if |p| >= 2 && p[1] == ':' then p[..2] else ""
  }

  /**
   The separator `join` inserts between `a` and a relative `b`: one backslash,
   unless the part of `a` after its drive is empty or already ends in a separator.
   */
  function Glue(a: string): (g: string)
    ensures |g| <= 1
  {
    var rest := a[|Drive(a)|..];
    if |rest| == 0 || IsSep(rest[|rest| - 1]) then "" else [Sep]
  }

  /**
   `os.path.join(a, b)`: a relative `b` is appended to `a` after the glue; an
   absolute `b` replaces everything of `a` but its drive.
   */
  function Join(a: string, b: string): (r: string)
    ensures !IsAbsolute(b) ==> r == a + Glue(a) + b
    ensures IsAbsolute(b) ==> r == Drive(a) + b
  {
    if IsAbsolute(b) then Drive(a) + b else a + Glue(a) + b
  }

  /** Joining the same directory with two relative names gives the same path only for the same name. */
  lemma JoinCancel(a: string, b: string, c: string)
    requires !IsAbsolute(b) && !IsAbsolute(c)
    requires Join(a, b) == Join(a, c)
    ensures b == c
  {
    var k := |a + Glue(a)|;
    assert b == Join(a, b)[k..];
    assert c == Join(a, c)[k..];
  }

  /** The last component of `s`: everything after its last separator. */
  function AfterLastSep(s: string): (r: string)
    ensures |r| <= |s| && r == s[|s| - |r|..]
    ensures NoSeparator(r)
    ensures |r| < |s| ==> IsSep(s[|s| - |r| - 1])
  {
    if |s| == 0 || IsSep(s[|s| - 1]) then ""
    else AfterLastSep(s[..|s| - 1]) + [s[|s| - 1]]
  }

  /** `os.path.basename(p)`: the last component of `p` once its drive is removed. */
  function Basename(p: string): (r: string)
    ensures NoSeparator(r)
    ensures |r| <= |p| && r == p[|p| - |r|..]
    ensures |r| < |p| - |Drive(p)| ==> IsSep(p[|p| - |r| - 1])
  {
    AfterLastSep(p[|Drive(p)|..])
  }

  /** Index of the last `.` in `s`, or -1 when there is none. */
  function LastDot(s: string): (k: int)
    ensures -1 <= k < |s|
    ensures k >= 0 ==> s[k] == ExtSep
    ensures forall j :: k < j < |s| ==> s[j] != ExtSep
  {
    if |s| == 0 then -1
    else if s[|s| - 1] == ExtSep then |s| - 1
    else LastDot(s[..|s| - 1])
  }

  /** Characters without a dot after the last dot do not move it. */
  lemma {:induction false} LastDotSkip(s: string, tail: string)
    requires forall i :: 0 <= i < |tail| ==> tail[i] != ExtSep
    ensures LastDot(s + tail) == LastDot(s)
  {
    if |tail| > 0 {
      var init := tail[..|tail| - 1];
      assert (s + tail)[..|s + tail| - 1] == s + init;
      assert (s + tail)[|s + tail| - 1] == tail[|tail| - 1] != ExtSep;
      LastDotSkip(s, init);
      assert LastDot(s + tail) == LastDot(s + init);
    } else {
      assert s + tail == s;
    }
  }

  /** A separator-free path is its own last component. */
  lemma {:induction false} NoSeparatorLastSep(s: string)
    requires NoSeparator(s)
    ensures AfterLastSep(s) == s
  {
    if |s| > 0 {
      NoSeparatorLastSep(s[..|s| - 1]);
    }
  }

  predicate HasNonDot(s: string) {
    exists i :: 0 <= i < |s| && s[i] != ExtSep
  }

  /**
   `os.path.splitext(p)`: the extension runs from the last dot of the last
   component to the end, unless everything before that dot in the component is
   dots (so `.profile` has no extension); the stem is the rest.
   */
  function SplitExt(p: string): (r: (string, string))
    ensures r.0 + r.1 == p
    ensures r.1 == "" || (r.1[0] == ExtSep && NoSeparator(r.1))
    ensures forall i :: 0 < i < |r.1| ==> r.1[i] != ExtSep
    ensures NoSeparator(p) ==>
              (r.1 != "" <==> exists i, j :: 0 <= i < j < |p| && p[i] != ExtSep && p[j] == ExtSep)
  {
    var start := |p| - |AfterLastSep(p)|;
    var dot := LastDot(p);
    if start <= dot && HasNonDot(p[start..dot]) then
      assert NoSeparator(p[dot..]) by {
        assert p[dot..] == AfterLastSep(p)[dot - start..];
      }
      (p[..dot], p[dot..])
    else
      assert NoSeparator(p) ==> start == 0;
      (p, "")
  }
}
