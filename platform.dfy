/**
 * The two environment predicates of the widget. The environment strings
 * (`navigator.platform`, `navigator.userAgent`) are parameters here.
 * Case conversion is ASCII-only.
 */
module Platform {
  import opened Text

  /** `navigator.platform.toUpperCase().indexOf('MAC') >= 0` */
  function IsMacOs(platform: string): bool {
    IndexOf(Upper(platform), "MAC", 0) >= 0
  }

  /** Some three consecutive characters of the platform string spell "mac" in any case. */
  ghost predicate HasMacAt(platform: string, i: nat) {
    i + 3 <= |platform| &&
    platform[i] in {'M', 'm'} && platform[i + 1] in {'A', 'a'} && platform[i + 2] in {'C', 'c'}
  }

  lemma UpperMatchesMac(platform: string, i: nat)
    ensures MatchAt(Upper(platform), i, "MAC") <==> HasMacAt(platform, i)
  {
    var u := Upper(platform);
    if i + 3 <= |platform| {
      var w := u[i..i + 3];
      assert w[0] == u[i] && w[1] == u[i + 1] && w[2] == u[i + 2];
      assert MatchAt(u, i, "MAC") <==> (u[i] == 'M' && u[i + 1] == 'A' && u[i + 2] == 'C') by {
        if u[i] == 'M' && u[i + 1] == 'A' && u[i + 2] == 'C' {
          assert w == "MAC";
        }
      }
    }
  }

  /** The platform is a Mac exactly when its name contains "mac", ignoring case. */
  lemma IsMacOsIff(platform: string)
    ensures IsMacOs(platform) <==> exists i: nat :: HasMacAt(platform, i)
  {
    var r := IndexOf(Upper(platform), "MAC", 0);
    if r >= 0 {
      UpperMatchesMac(platform, r);
    } else {
      forall i: nat ensures !HasMacAt(platform, i) {
        UpperMatchesMac(platform, i);
      }
    }
  }

  // ---------------------------------------------------------------------
  // /^((?!chrome|android).)*safari/i
  // ---------------------------------------------------------------------

  /** The characters that `.` does not match in a JavaScript regular expression. */
  predicate IsLineTerminator(c: char) {
    c == '\n' || c == '\r' || c == '\U{2028}' || c == '\U{2029}'
  }

  /**
   * One round of `((?!chrome|android).)` succeeds at position `j` of the
   * case-folded text: neither word starts there and `.` can consume the
   * character.
   */
  predicate CanStep(l: string, j: nat) {
    j < |l| && !MatchAt(l, j, "chrome") && !MatchAt(l, j, "android") && !IsLineTerminator(l[j])
  }

  /**
   * The meaning of the regular expression on the case-folded text `l`,
   * when the match is tried from position `i`: the group is repeated up to
   * some position `k` where "safari" begins.
   */
  ghost predicate SafariMatchFrom(l: string, i: nat) {
    exists k: nat :: i <= k && MatchAt(l, k, "safari") && forall j: nat :: i <= j < k ==> CanStep(l, j)
  }

  /** Scans the case-folded text from position `i` as the backtracking matcher would. */
  function SafariFrom(l: string, i: nat): bool
    decreases |l| - i
  {
    if MatchAt(l, i, "safari") then true
    else if CanStep(l, i) then SafariFrom(l, i + 1)
    else false
  }

  /** `/^((?!chrome|android).)*safari/i.test(userAgent)` */
  function IsSafariBrowser(userAgent: string): bool {
    SafariFrom(Lower(userAgent), 0)
  }

  lemma {:induction false} SafariFromIff(l: string, i: nat)
    ensures SafariFrom(l, i) <==> SafariMatchFrom(l, i)
    decreases |l| - i
  {
    if MatchAt(l, i, "safari") {
      assert forall j: nat :: i <= j < i ==> CanStep(l, j);
    } else if CanStep(l, i) {
      SafariFromIff(l, i + 1);
      if SafariMatchFrom(l, i + 1) {
        var k: nat :| i + 1 <= k && MatchAt(l, k, "safari") && forall j: nat :: i + 1 <= j < k ==> CanStep(l, j);
        assert forall j: nat :: i <= j < k ==> CanStep(l, j);
      }
      if SafariMatchFrom(l, i) {
        var k: nat :| i <= k && MatchAt(l, k, "safari") && forall j: nat :: i <= j < k ==> CanStep(l, j);
        assert k != i;
        assert forall j: nat :: i + 1 <= j < k ==> CanStep(l, j);
      }
    } else {
      forall k: nat | i <= k && MatchAt(l, k, "safari")
        ensures exists j: nat :: i <= j < k && !CanStep(l, j)
      {
        assert i < k && !CanStep(l, i);
      }
    }
  }

  /**
   * The user agent is taken for Safari exactly when, ignoring ASCII case,
   * "safari" starts at some position before which no "chrome", no "android"
   * and no line terminator starts.
   */
  lemma IsSafariBrowserIff(userAgent: string)
    ensures IsSafariBrowser(userAgent) <==> SafariMatchFrom(Lower(userAgent), 0)
  {
    SafariFromIff(Lower(userAgent), 0);
  }

  /** A user agent in which "Chrome" precedes "Safari" is not taken for Safari. */
  lemma ChromeBeforeSafari(userAgent: string, c: nat)
    requires MatchAt(Lower(userAgent), c, "chrome")
    requires forall k: nat :: k <= c ==> !MatchAt(Lower(userAgent), k, "safari")
    ensures !IsSafariBrowser(userAgent)
  {
    IsSafariBrowserIff(userAgent);
    var l := Lower(userAgent);
    forall k: nat | MatchAt(l, k, "safari")
      ensures exists j: nat :: j < k && !CanStep(l, j)
    {
      assert c < k && !CanStep(l, c);
    }
  }
}
