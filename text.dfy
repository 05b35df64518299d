/**
 * ASCII character handling and substring search, as far as the platform
 * predicates need them: `String.prototype.toUpperCase`, the case folding of a
 * regular expression with the `i` flag, and `String.prototype.indexOf`.
 */
module Text {

  function UpperChar(c: char): char {
    if 'a' <= c <= 'z' then (c as int - 32) as char else c
  }

  function LowerChar(c: char): char {
    if 'A' <= c <= 'Z' then (c as int + 32) as char else c
  }

  function Upper(s: string): (u: string)
    ensures |u| == |s| && forall i :: 0 <= i < |s| ==> u[i] == UpperChar(s[i])
  {
    seq(|s|, i requires 0 <= i < |s| => UpperChar(s[i]))
  }

  function Lower(s: string): (l: string)
    ensures |l| == |s| && forall i :: 0 <= i < |s| ==> l[i] == LowerChar(s[i])
  {
    seq(|s|, i requires 0 <= i < |s| => LowerChar(s[i]))
  }

  /** `w` occurs in `s` starting at position `i`. */
  predicate MatchAt(s: string, i: nat, w: string) {
    i + |w| <= |s| && s[i..i + |w|] == w
  }

  /**
   * `s.indexOf(w, from)` for a non-empty word `w`: the first position at or
   * after `from` where `w` occurs, or -1 when there is none. (For an empty
   * word and `from > |s|`, JavaScript answers `|s|`; no caller here passes
   * an empty word.)
   */
  function IndexOf(s: string, w: string, from: nat): (r: int)
    decreases |s| - from
    ensures r == -1 || (from <= r && MatchAt(s, r, w))
    ensures r == -1 ==> forall j :: from <= j ==> !MatchAt(s, j, w)
    ensures r != -1 ==> forall j :: from <= j < r ==> !MatchAt(s, j, w)
  {
    if from + |w| > |s| then -1
    else if MatchAt(s, from, w) then from
    else IndexOf(s, w, from + 1)
  }
}
