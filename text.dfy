/** Character classes and the .NET string trimming operations the row rules rely on. */
module Text {

  /** Space or horizontal tab: the only characters an indentation run is made of. */
  predicate IsSpaceOrTab(c: char) {
    c == ' ' || c == '\t'
  }

  /** The characters for which .NET's `char.IsWhiteSpace` holds: the controls U+0009 to U+000D,
      U+0085, and the space, line and paragraph separators of Unicode. `TrimEnd()` and `Trim()`
      remove exactly these. */
  predicate IsWhiteSpace(c: char) {
    ('\t' <= c <= '\r') || c == ' ' || c == '\U{85}' || c == '\U{A0}' || c == '\U{1680}'
    || ('\U{2000}' <= c <= '\U{200A}') || c == '\U{2028}' || c == '\U{2029}'
    || c == '\U{202F}' || c == '\U{205F}' || c == '\U{3000}'
  }

  /** Every space or tab is white space, so trimming also removes spaces and tabs. */
  lemma SpaceOrTabIsWhiteSpace(c: char)
    requires IsSpaceOrTab(c)
    ensures IsWhiteSpace(c)
  {
  }

  /** `s.All(c => c == ' ' || c == '\t')`; true of the empty string. */
  predicate AllSpaceOrTab(s: string) {
    forall i | 0 <= i < |s| :: IsSpaceOrTab(s[i])
  }

  /** `s.EndsWith(' ') || s.EndsWith('\t')`; false of the empty string. */
  predicate EndsWithSpaceOrTab(s: string) {
    |s| > 0 && IsSpaceOrTab(s[|s| - 1])
  }

  /** `new string(' ', n)`. */
  function Spaces(n: nat): (r: string)
    ensures |r| == n
    ensures forall i | 0 <= i < n :: r[i] == ' '
  {
    seq(n, _ => ' ')
  }

  /** `s.TrimEnd()`: the longest prefix of `s` that does not end in white space. */
  function TrimEnd(s: string): (r: string)
    ensures |r| <= |s| && r == s[..|r|]
    ensures forall i | |r| <= i < |s| :: IsWhiteSpace(s[i])
    ensures r == [] || !IsWhiteSpace(r[|r| - 1])
  {
    if s == [] || !IsWhiteSpace(s[|s| - 1]) then s else TrimEnd(s[..|s| - 1])
  }

  /** `s.TrimStart()`: the longest suffix of `s` that does not start with white space. */
  function TrimStart(s: string): (r: string)
    ensures |r| <= |s| && r == s[|s| - |r|..]
    ensures forall i | 0 <= i < |s| - |r| :: IsWhiteSpace(s[i])
    ensures r == [] || !IsWhiteSpace(r[0])
  {
    if s == [] || !IsWhiteSpace(s[0]) then s else TrimStart(s[1..])
  }

  /** `s.Trim()`: `s` without its leading and trailing white space. */
  function Trim(s: string): (r: string)
    ensures r == [] || (!IsWhiteSpace(r[0]) && !IsWhiteSpace(r[|r| - 1]))
    ensures |r| <= |s|
  {
    TrimStart(TrimEnd(s))
  }

  /** Trimming the end twice is trimming it once. */
  lemma TrimEndIdempotent(s: string)
    ensures TrimEnd(TrimEnd(s)) == TrimEnd(s)
  {
  }

  /** A string made only of white space trims to nothing, and only such a string does. */
  lemma {:induction false} TrimEmptyIffAllWhiteSpace(s: string)
    ensures Trim(s) == [] <==> forall i | 0 <= i < |s| :: IsWhiteSpace(s[i])
  {
    if s != [] && IsWhiteSpace(s[|s| - 1]) {
      TrimEmptyIffAllWhiteSpace(s[..|s| - 1]);
      assert forall i | 0 <= i < |s| - 1 :: s[..|s| - 1][i] == s[i];
    }
  }

  /** Trimming does not look at white space already removed from the end. */
  lemma TrimAfterTrimEnd(s: string)
    ensures Trim(TrimEnd(s)) == Trim(s)
  {
    TrimEndIdempotent(s);
  }

  /** `Trim` of an already trimmed text behind a run of spaces gives back that text. */
  lemma {:induction false} TrimBehindSpaces(n: nat, t: string)
    requires t == [] || (!IsWhiteSpace(t[0]) && !IsWhiteSpace(t[|t| - 1]))
    ensures Trim(Spaces(n) + t) == t
  {
    var s := Spaces(n) + t;
    if t == [] {
      assert s == Spaces(n);
      TrimEmptyIffAllWhiteSpace(s);
    } else {
      assert TrimEnd(s) == s;
      TrimStartSpaces(n, t);
    }
  }

  /** `TrimStart` skips a run of spaces and stops at a non-white character. */
  lemma {:induction false} TrimStartSpaces(n: nat, t: string)
    requires t != [] && !IsWhiteSpace(t[0])
    ensures TrimStart(Spaces(n) + t) == t
  {
    if n > 0 {
      assert (Spaces(n) + t)[1..] == Spaces(n - 1) + t;
      TrimStartSpaces(n - 1, t);
    } else {
      assert Spaces(n) + t == t;
    }
  }
}
