/**
 * The acceptance pattern of the URL intake filter,
 *
 *     /^https?:\/\/.*\.\w+(\/.*\w||\/)*$/
 *
 * read with ECMAScript semantics and no flags. `Matches` is the pattern written
 * as a grammar with its split points chosen existentially; `Accepts` is a
 * deterministic scanner that the filter runs. `AcceptsIsMatches` proves the two
 * agree on every string.
 */
module UrlPattern {

  /** `\w` without the `u` and `i` flags: ASCII letters, digits and underscore. */
  predicate IsWordChar(c: char) {
    ('a' <= c <= 'z') || ('A' <= c <= 'Z') || ('0' <= c <= '9') || c == '_'
  }

  /** The characters `.` refuses when the `s` flag is absent. */
  predicate IsLineTerminator(c: char) {
    c == '\n' || c == '\r' || c == '\U{2028}' || c == '\U{2029}'
  }

  /** `.*`: a run of characters none of which is a line terminator. */
  predicate AnyRun(s: string) {
    forall k :: 0 <= k < |s| ==> !IsLineTerminator(s[k])
  }

  /** `\w+` */
  predicate WordRun(s: string) {
    |s| > 0 && forall k :: 0 <= k < |s| ==> IsWordChar(s[k])
  }

  /** `https?:\/\/`, case-sensitive. */
  predicate IsScheme(p: string) {
    p == "http://" || p == "https://"
  }

  /**
   * One iteration of the group `(\/.*\w||\/)`. An iteration of `*` that
   * consumes nothing fails in ECMAScript, so the empty alternative never
   * contributes and only `/` and `/ .* \w` remain.
   */
  predicate IsSegment(p: string) {
    p == "/" || (|p| >= 2 && p[0] == '/' && AnyRun(p[1..|p| - 1]) && IsWordChar(p[|p| - 1]))
  }

  /** `(…)*`: `t` is a concatenation of segments (the last one peeled off). */
  ghost predicate Segments(t: string)
    decreases |t|
  {
    t == [] || exists k :: 0 <= k < |t| && Segments(t[..k]) && IsSegment(t[k..])
  }

  /**
   * The anchored pattern with its split points: scheme `s[..n]`, `.*` is
   * `s[n..i]`, `\.` is `s[i]`, `\w+` is `s[i+1..j]`, the group's iterations
   * are `s[j..]`, and `$` is the end of `s`.
   */
  ghost predicate MatchesAt(s: string, n: int, i: int, j: int) {
    0 <= n <= i && i + 1 < j <= |s| &&
    IsScheme(s[..n]) && AnyRun(s[n..i]) && s[i] == '.' && WordRun(s[i + 1..j]) && Segments(s[j..])
  }

  /** `RegExp.prototype.test` of the pattern on `s`. */
  ghost predicate Matches(s: string) {
    exists n, i, j :: MatchesAt(s, n, i, j)
  }

  // ---------------------------------------------------------------------------
  // The scanner

  /** Length of the scheme that starts `s`, or 0 when `s` starts with neither scheme. */
  function SchemeLength(s: string): (n: nat)
    ensures n > 0 ==> n <= |s| && IsScheme(s[..n])
    ensures forall m :: 0 <= m <= |s| && IsScheme(s[..m]) ==> m == n
  {
    if |s| >= 8 && s[..8] == "https://" then
      assert s[..7] != "http://" by { assert s[..8][4] == s[..7][4]; }
      8
    else if |s| >= 7 && s[..7] == "http://" then 7
    else 0
  }

  /** End of the longest run of word characters that starts at `i`. */
  function WordRunEnd(s: string, i: nat): (j: nat)
    requires i <= |s|
    ensures i <= j <= |s|
    ensures forall k :: i <= k < j ==> IsWordChar(s[k])
    ensures j == |s| || !IsWordChar(s[j])
    decreases |s| - i
  {
    if i < |s| && IsWordChar(s[i]) then WordRunEnd(s, i + 1) else i
  }

  /** `t` without its trailing slashes. */
  function DropTrailingSlashes(t: string): (r: string)
    ensures |r| <= |t| && r == t[..|r|]
    ensures forall k :: |r| <= k < |t| ==> t[k] == '/'
    ensures r == [] || r[|r| - 1] != '/'
    decreases |t|
  {
    if |t| > 0 && t[|t| - 1] == '/' then DropTrailingSlashes(t[..|t| - 1]) else t
  }

  /**
   * What may follow the top-level domain: nothing, or a slash-led run without
   * line terminators whose last character other than `/` (if any) is a word
   * character.
   */
  predicate IsTail(t: string) {
    t == [] ||
    (t[0] == '/' && AnyRun(t) &&
     var r := DropTrailingSlashes(t); r == [] || IsWordChar(r[|r| - 1]))
  }

  /** The dot at `i` can be the one before the top-level domain. */
  predicate DotFits(s: string, n: nat, i: nat)
    requires n <= i < |s|
  {
    s[i] == '.' && AnyRun(s[n..i]) &&
    var j := WordRunEnd(s, i + 1); i + 1 < j && IsTail(s[j..])
  }

  /** The filter's test: a scheme, then some dot after it that fits. */
  predicate Accepts(s: string) {
    var n := SchemeLength(s);
    n > 0 && exists i :: n <= i < |s| && DotFits(s, n, i)
  }

  // ---------------------------------------------------------------------------
  // The scanner agrees with the pattern

  /** The word run after a dot ends where the pattern's `\w+` ends. */
  lemma WordRunEndAt(s: string, i: nat, j: nat)
    requires i <= j <= |s|
    requires forall k :: i <= k < j ==> IsWordChar(s[k])
    requires j == |s| || !IsWordChar(s[j])
    ensures WordRunEnd(s, i) == j
  {
  }

  /** Dropping one trailing slash does not change what is left once all are dropped. */
  lemma DropLastSlash(t: string)
    requires |t| > 0 && t[|t| - 1] == '/'
    ensures DropTrailingSlashes(t) == DropTrailingSlashes(t[..|t| - 1])
  {
  }

  /** Nothing is dropped from a string that does not end with a slash. */
  lemma KeepLastNonSlash(t: string)
    requires |t| > 0 && t[|t| - 1] != '/'
    ensures DropTrailingSlashes(t) == t
  {
  }

  /** A run without line terminators stays one when another is appended. */
  lemma AnyRunConcat(x: string, y: string)
    requires AnyRun(x) && AnyRun(y)
    ensures AnyRun(x + y)
  {
    forall m | 0 <= m < |x + y| ensures !IsLineTerminator((x + y)[m]) {
      if m >= |x| {
        assert (x + y)[m] == y[m - |x|];
      }
    }
  }

  /** A segment starts with a slash, has no line terminator and ends with a slash or a word character. */
  lemma SegmentShape(p: string)
    requires IsSegment(p)
    ensures p[0] == '/' && AnyRun(p)
    ensures p == "/" || IsWordChar(p[|p| - 1])
  {
    if p != "/" {
      var mid := p[1..|p| - 1];
      forall m | 0 <= m < |p| ensures !IsLineTerminator(p[m]) {
        if 0 < m < |p| - 1 {
          assert p[m] == mid[m - 1];
        }
      }
    }
  }

  /** Every string of segments is a tail. */
  lemma {:induction false} SegmentsAreTail(t: string)
    requires Segments(t)
    ensures IsTail(t)
    decreases |t|
  {
    if t != [] {
      var k :| 0 <= k < |t| && Segments(t[..k]) && IsSegment(t[k..]);
      var init, last := t[..k], t[k..];
      assert t == init + last;
      SegmentShape(last);
      if k > 0 {
        SegmentsAreTail(init);
        AnyRunConcat(init, last);
        assert t[0] == init[0];
      }
      assert t[0] == '/' && AnyRun(t);
      var r := DropTrailingSlashes(t);
      if last == "/" {
        DropLastSlash(t);
        assert t[..|t| - 1] == init;
        assert r == DropTrailingSlashes(init);
      } else {
        assert t[|t| - 1] == last[|last| - 1];
        assert t[|t| - 1] != '/';
        KeepLastNonSlash(t);
      }
      assert r == [] || IsWordChar(r[|r| - 1]);
    }
  }

  /** Every tail is a string of segments. */
  lemma {:induction false} TailIsSegments(t: string)
    requires IsTail(t)
    ensures Segments(t)
    decreases |t|
  {
    if t != [] {
      var lastChar := t[|t| - 1];
      if lastChar == '/' && |t| > 1 {
        var init := t[..|t| - 1];
        DropLastSlash(t);
        assert init[0] == t[0];
        assert AnyRun(init) by {
          forall m | 0 <= m < |init| ensures !IsLineTerminator(init[m]) {
            assert init[m] == t[m];
          }
        }
        TailIsSegments(init);
        assert t[|t| - 1..] == "/";
        assert t[..|t| - 1] == init;
      } else if lastChar == '/' {
        assert t == "/";
        assert t[..0] == [];
        assert IsSegment(t[0..]);
      } else {
        assert DropTrailingSlashes(t) == t;
        assert IsSegment(t) by {
          var mid := t[1..|t| - 1];
          assert AnyRun(mid) by {
            forall m | 0 <= m < |mid| ensures !IsLineTerminator(mid[m]) {
              assert mid[m] == t[m + 1];
            }
          }
        }
        assert t[..0] == [] && t[0..] == t;
      }
    }
  }

  /** The group's iterations and `IsTail` describe the same strings. */
  lemma SegmentsIffTail(t: string)
    ensures Segments(t) <==> IsTail(t)
  {
    if Segments(t) { SegmentsAreTail(t); }
    if IsTail(t) { TailIsSegments(t); }
  }

  /** The scanner accepts exactly the strings the pattern matches. */
  lemma AcceptsIsMatches(s: string)
    ensures Accepts(s) <==> Matches(s)
  {
    if Matches(s) {
      var n, i, j :| MatchesAt(s, n, i, j);
      assert SchemeLength(s) == n;
      SegmentsAreTail(s[j..]);
      assert j < |s| ==> s[j] == s[j..][0];
      var w := s[i + 1..j];
      forall k | i + 1 <= k < j ensures IsWordChar(s[k]) {
        assert s[k] == w[k - i - 1];
      }
      WordRunEndAt(s, i + 1, j);
      assert DotFits(s, n, i);
    }
    if Accepts(s) {
      var n := SchemeLength(s);
      var i :| n <= i < |s| && DotFits(s, n, i);
      var j := WordRunEnd(s, i + 1);
      TailIsSegments(s[j..]);
      var w := s[i + 1..j];
      assert WordRun(w) by {
        forall k | 0 <= k < |w| ensures IsWordChar(w[k]) {
          assert w[k] == s[i + 1 + k];
        }
      }
      assert MatchesAt(s, n, i, j);
    }
  }

  // ---------------------------------------------------------------------------
  // What an accepted string looks like

  /** Trailing slashes dropped from `x + t` are dropped from `t` alone when `x` does not end with a slash. */
  lemma {:induction false} DropTrailingSlashesAppend(x: string, t: string)
    requires |x| > 0 && x[|x| - 1] != '/'
    ensures DropTrailingSlashes(x + t) == x + DropTrailingSlashes(t)
    decreases |t|
  {
    if |t| > 0 && t[|t| - 1] == '/' {
      var init := t[..|t| - 1];
      assert (x + t)[..|x + t| - 1] == x + init;
      DropTrailingSlashesAppend(x, init);
    } else {
      assert t == [] ==> x + t == x;
      KeepLastNonSlash(x + t);
      assert t != [] ==> DropTrailingSlashes(t) == t;
    }
  }

  /** The iterations of the group hold no line terminator. */
  lemma SegmentsNoLineTerminator(t: string)
    requires Segments(t)
    ensures AnyRun(t)
  {
    SegmentsAreTail(t);
  }

  /** A match holds no line terminator. */
  lemma MatchNoLineTerminator(s: string, n: int, i: int, j: int)
    requires MatchesAt(s, n, i, j)
    ensures AnyRun(s)
  {
    var scheme, a, w, t := s[..n], s[n..i], s[i + 1..j], s[j..];
    SegmentsNoLineTerminator(t);
    forall m | 0 <= m < |s| ensures !IsLineTerminator(s[m]) {
      if m < n {
        assert s[m] == scheme[m];
      } else if m < i {
        assert s[m] == a[m - n];
      } else if i < m < j {
        assert s[m] == w[m - i - 1];
      } else if j <= m {
        assert s[m] == t[m - j];
      }
    }
  }

  /** A match ends with a word character once its trailing slashes are dropped. */
  lemma MatchEnding(s: string, n: int, i: int, j: int)
    requires MatchesAt(s, n, i, j)
    ensures var r := DropTrailingSlashes(s); r != [] && IsWordChar(r[|r| - 1])
  {
    var head, t := s[..j], s[j..];
    SegmentsAreTail(t);
    var w := s[i + 1..j];
    assert head[|head| - 1] == w[|w| - 1];
    assert s == head + t;
    DropTrailingSlashesAppend(head, t);
    var r := DropTrailingSlashes(s);
    if DropTrailingSlashes(t) == [] {
      assert r == head;
    } else {
      var rt := DropTrailingSlashes(t);
      assert r[|r| - 1] == rt[|rt| - 1];
    }
  }

  /**
   * Every matching string starts with `http://` or `https://`, holds no line
   * terminator, has a dot followed by a word character after the scheme, and
   * ends with a word character once its trailing slashes are dropped (so it
   * ends with a word character or `/`).
   */
  lemma AcceptedShape(s: string)
    ensures Matches(s) ==>
      |s| >= 9 &&
      ((s[..7] == "http://" && SchemeLength(s) == 7) || (s[..8] == "https://" && SchemeLength(s) == 8)) &&
      AnyRun(s) &&
      (exists i :: SchemeLength(s) <= i < |s| - 1 && s[i] == '.' && IsWordChar(s[i + 1])) &&
      (var r := DropTrailingSlashes(s); r != [] && IsWordChar(r[|r| - 1])) &&
      (IsWordChar(s[|s| - 1]) || s[|s| - 1] == '/')
  {
    if Matches(s) {
      var n, i, j :| MatchesAt(s, n, i, j);
      assert s[i + 1] == s[i + 1..j][0];
      MatchNoLineTerminator(s, n, i, j);
      MatchEnding(s, n, i, j);
      if s[|s| - 1] != '/' {
        KeepLastNonSlash(s);
      }
    }
  }

  /** A matching string starts with a scheme. */
  lemma MatchHasScheme(s: string)
    ensures Matches(s) ==> SchemeLength(s) > 0
  {
  }

  /** A matching string ends with a word character or `/`. */
  lemma MatchEndsWell(s: string)
    ensures Matches(s) ==> |s| > 0 && (IsWordChar(s[|s| - 1]) || s[|s| - 1] == '/')
  {
    AcceptedShape(s);
  }

  /** Every string `scheme + domain + "." + tld + tail` built from the pattern's parts matches. */
  lemma MatchOfParts(scheme: string, domain: string, tld: string, tail: string)
    requires IsScheme(scheme) && AnyRun(domain) && WordRun(tld) && IsTail(tail)
    ensures Matches(scheme + domain + "." + tld + tail)
  {
    var s := scheme + domain + "." + tld + tail;
    var n := |scheme|;
    var i := n + |domain|;
    var j := i + 1 + |tld|;
    assert s[..n] == scheme;
    assert s[n..i] == domain;
    assert s[i + 1..j] == tld;
    assert s[j..] == tail;
    TailIsSegments(tail);
    assert MatchesAt(s, n, i, j);
  }

  /** Accepted: a bare domain. */
  lemma AcceptsBareDomain()
    ensures Matches("http://example.com")
  {
    MatchOfParts("http://", "example", "com", "");
    assert "http://" + "example" + "." + "com" + "" == "http://example.com";
  }

  /** Accepted: a path whose last segment ends with a word character. */
  lemma AcceptsPath()
    ensures Matches("https://example.com/path/to/page")
  {
    KeepLastNonSlash("/path/to/page");
    MatchOfParts("https://", "example", "com", "/path/to/page");
    assert "https://" + "example" + "." + "com" + "/path/to/page" == "https://example.com/path/to/page";
  }

  /** Accepted: a trailing slash. */
  lemma AcceptsTrailingSlash()
    ensures Matches("http://example.com/page/")
  {
    DropLastSlash("/page/");
    assert "/page/"[..5] == "/page";
    KeepLastNonSlash("/page");
    MatchOfParts("http://", "example", "com", "/page/");
    assert "http://" + "example" + "." + "com" + "/page/" == "http://example.com/page/";
  }

  /** Accepted: an empty domain name, since `.*` may match nothing. */
  lemma AcceptsEmptyDomain()
    ensures Matches("http://.com")
  {
    var s := "http://.com";
    assert s[..7] == "http://" && s[7..7] == [] && s[8..11] == "com" && s[11..] == [];
    assert MatchesAt(s, 7, 7, 11);
  }

  /** A string whose first character is not `h` has no scheme. */
  lemma NeedsLowerCaseH(s: string)
    requires |s| > 0 && s[0] != 'h'
    ensures !Matches(s)
  {
    MatchHasScheme(s);
    if |s| >= 7 {
      assert s[..7][0] == s[0];
    }
    if |s| >= 8 {
      assert s[..8][0] == s[0];
    }
  }

  /** Rejected: another scheme, an upper-case scheme, no scheme, a leading space. */
  lemma RejectsWithoutScheme()
    ensures !Matches("ftp://example.com")
    ensures !Matches("HTTP://example.com")
    ensures !Matches("not a url")
    ensures !Matches(" http://example.com")
  {
    NeedsLowerCaseH("ftp://example.com");
    NeedsLowerCaseH("HTTP://example.com");
    NeedsLowerCaseH("not a url");
    NeedsLowerCaseH(" http://example.com");
  }

  /** Rejected: a final character that is neither a word character nor `/`. */
  lemma RejectsBadEnding()
    ensures !Matches("http://example.com/page#")
    ensures !Matches("http://example.com ")
  {
    MatchEndsWell("http://example.com/page#");
    MatchEndsWell("http://example.com ");
  }

  /** After the chosen top-level domain only `/` or the end may follow: `http://example.com-x` is rejected. */
  lemma RejectsDashAfterDomain()
    ensures !Matches("http://example.com-x")
  {
    var s := "http://example.com-x";
    AcceptsIsMatches(s);
    assert SchemeLength(s) == 7 by { assert s[..7] == "http://"; }
    forall i | 7 <= i < |s| ensures !DotFits(s, 7, i) {
      if i == 14 {
        WordRunEndAt(s, 15, 18);
        assert s[18..][0] == '-';
      } else {
        assert s[i] != '.';
      }
    }
  }

  /**
   * The last character other than a trailing slash must be a word character:
   * `http://a.com/#/` is rejected although it ends with `/`.
   */
  lemma RejectsSymbolBeforeSlash()
    ensures !Matches("http://a.com/#/")
  {
    var s := "http://a.com/#/";
    AcceptsIsMatches(s);
    assert SchemeLength(s) == 7 by { assert s[..7] == "http://"; }
    var t := s[12..];
    assert t == "/#/";
    assert !IsTail(t) by {
      DropLastSlash(t);
      assert t[..|t| - 1] == "/#";
      KeepLastNonSlash("/#");
    }
    forall i | 7 <= i < |s| ensures !DotFits(s, 7, i) {
      if i == 8 {
        WordRunEndAt(s, 9, 12);
      } else {
        assert s[i] != '.';
      }
    }
  }
}
