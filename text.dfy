/**
  * Character classes and string helpers shared by the import and export code.
  * White space is the JavaScript set used both by `String.prototype.trim` and by
  * `\s` in regular expressions (WhiteSpace and LineTerminator code points).
  * Lower-casing is ASCII only: `toLowerCase` on other letters is not modelled.
  */
module Text {

  /** The line terminators, which `.` in a regular expression does not match. */
  predicate IsLineTerminator(c: char) {
    c == '\n' || c == '\r' || c == '\U{2028}' || c == '\U{2029}'
  }

  /** JavaScript white space: what `trim` removes and what `\s` matches. */
  predicate IsSpace(c: char) {
    || IsLineTerminator(c)
    || c == ' ' || c == '\t' || c == '\U{000B}' || c == '\U{000C}'
    || c == '\U{00A0}' || c == '\U{1680}' || ('\U{2000}' <= c <= '\U{200A}')
    || c == '\U{202F}' || c == '\U{205F}' || c == '\U{3000}' || c == '\U{FEFF}'
  }

  predicate AllSpace(s: string) {
    forall i :: 0 <= i < |s| ==> IsSpace(s[i])
  }

  /** A string with no white space at either end. */
  predicate IsTrimmed(s: string) {
    |s| == 0 || (!IsSpace(s[0]) && !IsSpace(s[|s| - 1]))
  }

  function LowerChar(c: char): (r: char)
    ensures IsSpace(r) <==> IsSpace(c)
    ensures IsLineTerminator(r) <==> IsLineTerminator(c)
    ensures r == ',' <==> c == ','
    ensures !('A' <= r <= 'Z')
  {
    if 'A' <= c <= 'Z' then (c as int + 32) as char else c
  }

  /** ASCII `toLowerCase`: every character mapped by LowerChar, nothing else changes. */
  function Lower(s: string): (r: string)
    ensures |r| == |s|
    ensures forall i :: 0 <= i < |s| ==> r[i] == LowerChar(s[i])
  {
    seq(|s|, i requires 0 <= i < |s| => LowerChar(s[i]))
  }

  /** `String.prototype.trim`: `s` without its leading and trailing white space. */
  function Trim(s: string): (r: string)
    ensures IsTrimmed(r)
    ensures |r| <= |s|
    ensures r == "" <==> AllSpace(s)
    ensures IsTrimmed(s) ==> r == s
    ensures forall c :: c in r ==> c in s
    decreases |s|
  {
    if |s| > 0 && IsSpace(s[0]) then
      var r := Trim(s[1..]);
      assert AllSpace(s[1..]) ==> AllSpace(s) by {
        if AllSpace(s[1..]) {
          assert forall i :: 1 <= i < |s| ==> s[i] == s[1..][i - 1];
        }
      }
      r
    else if |s| > 0 && IsSpace(s[|s| - 1]) then
      var r := Trim(s[..|s| - 1]);
      assert s[..|s| - 1][0] == s[0];
      r
    else s
  }

  /**
    * What `Trim` keeps: the text between the first and the last non-space
    * character, in place, with only white space cut off on either side.
    */
  lemma {:induction false} TrimSlice(s: string)
    ensures exists i, j :: TrimmedAt(s, i, j)
    decreases |s|
  {
    if |s| > 0 && IsSpace(s[0]) {
      TrimSlice(s[1..]);
      var i, j :| TrimmedAt(s[1..], i, j);
      TrimSliceFront(s, i, j);
    } else if |s| > 0 && IsSpace(s[|s| - 1]) {
      TrimSlice(s[..|s| - 1]);
      var i, j :| TrimmedAt(s[..|s| - 1], i, j);
      TrimSliceBack(s, i, j);
    } else {
      assert TrimmedAt(s, 0, |s|);
    }
  }

  /** `Trim(s)` is `s[i..j]`, and only white space lies outside. */
  predicate TrimmedAt(s: string, i: int, j: int) {
    0 <= i <= j <= |s| && Trim(s) == s[i..j] && AllSpace(s[..i]) && AllSpace(s[j..])
  }

  lemma TrimSliceFront(s: string, i: int, j: int)
    requires |s| > 0 && IsSpace(s[0]) && TrimmedAt(s[1..], i, j)
    ensures TrimmedAt(s, i + 1, j + 1)
  {
    var t := s[1..];
    SpaceCons(s[0], t[..i]);
    assert s[..i + 1] == [s[0]] + t[..i];
    assert s[j + 1..] == t[j..];
    assert t[i..j] == s[i + 1..j + 1];
  }

  lemma TrimSliceBack(s: string, i: int, j: int)
    requires |s| > 0 && !IsSpace(s[0]) && IsSpace(s[|s| - 1]) && TrimmedAt(s[..|s| - 1], i, j)
    ensures TrimmedAt(s, i, j)
  {
    var t := s[..|s| - 1];
    SpaceSnoc(t[j..], s[|s| - 1]);
    assert s[j..] == t[j..] + [s[|s| - 1]];
    assert s[..i] == t[..i];
    assert t[i..j] == s[i..j];
  }

  lemma SpaceCons(c: char, s: string)
    requires IsSpace(c) && AllSpace(s)
    ensures AllSpace([c] + s)
  {
  }

  lemma SpaceSnoc(s: string, c: char)
    requires AllSpace(s) && IsSpace(c)
    ensures AllSpace(s + [c])
  {
  }

  /** The comparison key `x.toLowerCase().trim()` used by the import's look-ups. */
  function Norm(s: string): string {
    Trim(Lower(s))
  }

  /** Lower-casing and trimming commute, so `Norm` of a trimmed string is its own `Norm`. */
  lemma {:induction false} LowerTrim(s: string)
    ensures Lower(Trim(s)) == Trim(Lower(s))
    ensures Norm(Trim(s)) == Norm(s)
    decreases |s|
  {
    var l := Lower(s);
    if |s| > 0 && IsSpace(s[0]) {
      assert IsSpace(l[0]);
      assert l[1..] == Lower(s[1..]);
      LowerTrim(s[1..]);
    } else if |s| > 0 && IsSpace(s[|s| - 1]) {
      assert !IsSpace(l[0]) && IsSpace(l[|s| - 1]);
      assert l[..|s| - 1] == Lower(s[..|s| - 1]);
      LowerTrim(s[..|s| - 1]);
    } else if |s| > 0 {
      assert !IsSpace(l[0]) && !IsSpace(l[|s| - 1]);
    }
    var t := Trim(l);
    assert Trim(t) == t;
  }
}
