/**
 * The URL intake filter `processUrls` of components/process-urls.js: it keeps
 * the candidate URLs the acceptance pattern matches, in input order and with
 * duplicates, and reports the others joined with newlines.
 */
module UrlFilter {
  import opened UrlPattern

  /** The `urls` field of a submit request: one string, or a list of strings. */
  datatype UrlInput = Single(url: string) | List(urls: seq<string>)

  /** A lone string is wrapped into a one-element list. */
  function Normalize(input: UrlInput): seq<string> {
    match input
    case Single(url) => [url]
    case List(urls) => urls
  }

  /** `xs` is `ys` with some elements left out, the rest kept in order. */
  ghost predicate IsSubsequence(xs: seq<string>, ys: seq<string>)
    decreases |ys|
  {
    xs == [] ||
    (ys != [] &&
     ((xs[0] == ys[0] && IsSubsequence(xs[1..], ys[1..])) || IsSubsequence(xs, ys[1..])))
  }

  // ---------------------------------------------------------------------------
  // The three filters

  /** `urls.filter(url => pattern.test(url))`: the clean URLs. */
  function Accepted(urls: seq<string>): (clean: seq<string>)
    ensures IsSubsequence(clean, urls)
    ensures forall u :: multiset(clean)[u] == if Matches(u) then multiset(urls)[u] else 0
  {
    if urls == [] then []
    else
      var rest := Accepted(urls[1..]);
      AcceptsIsMatches(urls[0]);
      assert urls == [urls[0]] + urls[1..];
      if Accepts(urls[0]) then [urls[0]] + rest else rest
  }

  /** The reference definition of the bad URLs: the input filtered by the negated test. */
  function Rejected(urls: seq<string>): (bad: seq<string>)
    ensures IsSubsequence(bad, urls)
    ensures forall u :: multiset(bad)[u] == if Matches(u) then 0 else multiset(urls)[u]
  {
    if urls == [] then []
    else
      var rest := Rejected(urls[1..]);
      AcceptsIsMatches(urls[0]);
      assert urls == [urls[0]] + urls[1..];
      if Accepts(urls[0]) then rest else [urls[0]] + rest
  }

  /** `original.filter(url => !clean.includes(url))`: what the source computes as the bad URLs. */
  function NotIncluded(original: seq<string>, clean: seq<string>): (bad: seq<string>)
    ensures IsSubsequence(bad, original)
    ensures forall u :: multiset(bad)[u] == if u in clean then 0 else multiset(original)[u]
  {
    if original == [] then []
    else
      var rest := NotIncluded(original[1..], clean);
      assert original == [original[0]] + original[1..];
      if original[0] in clean then rest else [original[0]] + rest
  }

  /** The membership test against the clean list rejects exactly what the pattern rejects. */
  lemma {:induction false} NotIncludedIsRejected(original: seq<string>, clean: seq<string>)
    requires forall u :: u in original ==> (u in clean <==> Matches(u))
    ensures NotIncluded(original, clean) == Rejected(original)
    decreases |original|
  {
    if original != [] {
      AcceptsIsMatches(original[0]);
      NotIncludedIsRejected(original[1..], clean);
    }
  }

  /** A URL is in the clean list exactly when it is in the input and matches. */
  lemma InAccepted(urls: seq<string>, u: string)
    ensures u in Accepted(urls) <==> u in urls && Matches(u)
  {
    assert u in Accepted(urls) <==> multiset(Accepted(urls))[u] > 0;
    assert u in urls <==> multiset(urls)[u] > 0;
  }

  /** A URL is in the reference bad list exactly when it is in the input and does not match. */
  lemma InRejected(urls: seq<string>, u: string)
    ensures u in Rejected(urls) <==> u in urls && !Matches(u)
  {
    assert u in Rejected(urls) <==> multiset(Rejected(urls))[u] > 0;
    assert u in urls <==> multiset(urls)[u] > 0;
  }

  /**
   * The bad list found by membership in the clean list is the input filtered
   * by the negated test, and every clean URL matches.
   */
  lemma BadListIsRejected(urls: seq<string>)
    ensures NotIncluded(urls, Accepted(urls)) == Rejected(urls)
    ensures forall u :: u in Accepted(urls) ==> Matches(u)
  {
    var clean := Accepted(urls);
    forall u | u in urls ensures u in clean <==> Matches(u) {
      InAccepted(urls, u);
    }
    NotIncludedIsRejected(urls, clean);
    forall u | u in clean ensures Matches(u) {
      InAccepted(urls, u);
    }
  }

  // ---------------------------------------------------------------------------
  // Join and split on "\n"

  /** `parts.join('\n')` */
  function Join(parts: seq<string>): string
    decreases |parts|
  {
    if |parts| == 0 then ""
    else if |parts| == 1 then parts[0]
    else parts[0] + "\n" + Join(parts[1..])
  }

  /** `s.split('\n')`: the pieces between newlines; never empty, and no piece holds a newline. */
  function Split(s: string): (parts: seq<string>)
    ensures |parts| >= 1
    ensures forall k :: 0 <= k < |parts| ==> '\n' !in parts[k]
    decreases |s|
  {
    if s == [] then [""]
    else
      var rest := Split(s[1..]);
      if s[0] == '\n' then [""] + rest
      else [[s[0]] + rest[0]] + rest[1..]
  }

  /** Gluing `x` onto the first piece glues it onto the front of the join. */
  lemma {:induction false} JoinGlue(x: string, rest: seq<string>)
    requires |rest| >= 1
    ensures Join([x + rest[0]] + rest[1..]) == x + Join(rest)
  {
    var parts := [x + rest[0]] + rest[1..];
    if |rest| == 1 {
      assert parts == [x + rest[0]];
    } else {
      var tail := Join(rest[1..]);
      assert parts[1..] == rest[1..];
      assert Join(parts) == (x + rest[0]) + "\n" + tail;
      assert Join(rest) == rest[0] + "\n" + tail;
      assert (x + rest[0]) + "\n" + tail == x + (rest[0] + "\n" + tail);
    }
  }

  /** Joining the pieces of a split gives back the string. */
  lemma {:induction false} JoinSplit(s: string)
    ensures Join(Split(s)) == s
    decreases |s|
  {
    if s != [] {
      var rest := Split(s[1..]);
      JoinSplit(s[1..]);
      assert s == [s[0]] + s[1..];
      if s[0] == '\n' {
        assert ([""] + rest)[1..] == rest;
      } else {
        JoinGlue([s[0]], rest);
      }
    }
  }

  /** Splitting `x + t` with no newline in `x` glues `x` onto the first piece of `t`. */
  lemma {:induction false} SplitPrefix(x: string, t: string)
    requires '\n' !in x
    ensures Split(x + t) == [x + Split(t)[0]] + Split(t)[1..]
    decreases |x|
  {
    if x == [] {
      assert x + t == t;
      assert x + Split(t)[0] == Split(t)[0];
      assert [Split(t)[0]] + Split(t)[1..] == Split(t);
    } else {
      assert (x + t)[1..] == x[1..] + t;
      assert (x + t)[0] == x[0];
      SplitPrefix(x[1..], t);
      assert [x[0]] + (x[1..] + Split(t)[0]) == x + Split(t)[0];
    }
  }

  /** Splitting the join of newline-free pieces gives the pieces back. */
  lemma {:induction false} SplitJoin(parts: seq<string>)
    requires |parts| >= 1
    requires forall k :: 0 <= k < |parts| ==> '\n' !in parts[k]
    ensures Split(Join(parts)) == parts
    decreases |parts|
  {
    if |parts| == 1 {
      SplitPrefix(parts[0], "");
      assert parts[0] + "" == parts[0];
    } else {
      var rest := Join(parts[1..]);
      SplitJoin(parts[1..]);
      assert parts[0] + "\n" + rest == parts[0] + ("\n" + rest);
      SplitPrefix(parts[0], "\n" + rest);
      assert ("\n" + rest)[1..] == rest;
      assert parts[0] + "" == parts[0];
    }
  }

  /** The join is empty exactly when there is nothing to join or only one empty string. */
  lemma JoinEmpty(parts: seq<string>)
    ensures Join(parts) == "" <==> parts == [] || parts == [""]
  {
    if |parts| >= 2 {
      assert (parts[0] + "\n" + Join(parts[1..]))[|parts[0]|] == '\n';
    }
  }

  // ---------------------------------------------------------------------------
  // String.prototype.trim

  /** ECMAScript WhiteSpace (the Zs space separators among them) and LineTerminator. */
  predicate IsJsWhitespace(c: char) {
    c == '\t' || c == '\U{000B}' || c == '\U{000C}' || c == ' ' || c == '\U{00A0}' ||
    c == '\U{FEFF}' || c == '\U{1680}' || ('\U{2000}' <= c <= '\U{200A}') ||
    c == '\U{202F}' || c == '\U{205F}' || c == '\U{3000}' || IsLineTerminator(c)
  }

  /** `s` without its leading whitespace. */
  function TrimStart(s: string): (r: string)
    ensures |r| <= |s| && r == s[|s| - |r|..]
    ensures forall k :: 0 <= k < |s| - |r| ==> IsJsWhitespace(s[k])
    ensures r == [] || !IsJsWhitespace(r[0])
    decreases |s|
  {
    if |s| > 0 && IsJsWhitespace(s[0]) then TrimStart(s[1..]) else s
  }

  /** `s` without its trailing whitespace. */
  function TrimEnd(s: string): (r: string)
    ensures |r| <= |s| && r == s[..|r|]
    ensures forall k :: |r| <= k < |s| ==> IsJsWhitespace(s[k])
    ensures r == [] || !IsJsWhitespace(r[|r| - 1])
    decreases |s|
  {
    if |s| > 0 && IsJsWhitespace(s[|s| - 1]) then TrimEnd(s[..|s| - 1]) else s
  }

  /** `s.trim()` */
  function Trim(s: string): string {
    TrimEnd(TrimStart(s))
  }

  /** `clean.map(url => url.trim())`, whose result the source discards. */
  function TrimAll(urls: seq<string>): (trimmed: seq<string>)
    ensures |trimmed| == |urls|
  {
    seq(|urls|, k requires 0 <= k < |urls| => Trim(urls[k]))
  }

  /** A matching URL has no surrounding whitespace, so trimming leaves it unchanged. */
  lemma TrimKeepsMatch(u: string)
    requires Matches(u)
    ensures Trim(u) == u
  {
    MatchHasScheme(u);
    MatchEndsWell(u);
    var n := SchemeLength(u);
    assert u[0] == u[..n][0] == 'h';
    assert TrimStart(u) == u;
    assert !IsJsWhitespace(u[|u| - 1]);
  }

  // ---------------------------------------------------------------------------
  // processUrls

  /**
   * `processUrls(urlArray)`: the clean URLs, and the bad URLs joined with
   * newlines. The bad URLs are found by membership in the clean list, which
   * selects exactly the input filtered by the negated test.
   */
  function ProcessUrls(input: UrlInput): (result: (seq<string>, string))
    ensures IsSubsequence(result.0, Normalize(input))
    ensures forall u :: u in result.0 ==> Matches(u)
    ensures forall u :: multiset(result.0)[u] == if Matches(u) then multiset(Normalize(input))[u] else 0
    ensures result.1 == Join(Rejected(Normalize(input)))
  {
    var urls := Normalize(input);
    var clean := Accepted(urls);
    BadListIsRejected(urls);
    (clean, Join(NotIncluded(urls, clean)))
  }

  /** A lone string is treated exactly like the one-element list holding it. */
  lemma SingleIsList(url: string)
    ensures ProcessUrls(Single(url)) == ProcessUrls(List([url]))
  {
  }

  /**
   * Clean and bad partition the input: each URL lands in exactly one of them,
   * as often as it occurs in the input, and the counts add up.
   */
  lemma Partition(input: UrlInput)
    ensures var urls, clean, bad := Normalize(input), ProcessUrls(input).0, Rejected(Normalize(input));
      multiset(clean) + multiset(bad) == multiset(urls) &&
      |clean| + |bad| == |urls| &&
      (forall u :: u in urls ==> (u in clean <==> u !in bad)) &&
      (forall u :: multiset(clean)[u] == if Matches(u) then multiset(urls)[u] else 0)
  {
    var urls := Normalize(input);
    var clean, bad := Accepted(urls), Rejected(urls);
    assert ProcessUrls(input).0 == clean;
    SplitCounts(urls);
    forall u | u in urls ensures u in clean <==> u !in bad {
      InAccepted(urls, u);
      InRejected(urls, u);
    }
  }

  /** Every occurrence of an input URL is counted once, in the clean or in the bad list. */
  lemma SplitCounts(urls: seq<string>)
    ensures multiset(Accepted(urls)) + multiset(Rejected(urls)) == multiset(urls)
    ensures |Accepted(urls)| + |Rejected(urls)| == |urls|
  {
    var clean, bad := Accepted(urls), Rejected(urls);
    assert multiset(clean) + multiset(bad) == multiset(urls) by {
      forall u ensures (multiset(clean) + multiset(bad))[u] == multiset(urls)[u] {
      }
    }
    assert |multiset(clean) + multiset(bad)| == |clean| + |bad|;
  }

  /** The clean URLs are returned as they came in, and the discarded trim would not have changed them. */
  lemma CleanUnchanged(input: UrlInput)
    ensures var clean := ProcessUrls(input).0;
      (forall u :: u in clean ==> u in Normalize(input)) &&
      TrimAll(clean) == clean
  {
    var urls, clean := Normalize(input), ProcessUrls(input).0;
    forall u | u in clean ensures u in urls {
      InAccepted(urls, u);
    }
    forall k | 0 <= k < |clean| ensures TrimAll(clean)[k] == clean[k] {
      TrimKeepsMatch(clean[k]);
    }
  }

  /** The report is empty exactly when nothing is rejected or the bad list is exactly `[""]`. */
  lemma ReportEmpty(input: UrlInput)
    ensures var bad := Rejected(Normalize(input));
      ProcessUrls(input).1 == "" <==> bad == [] || bad == [""]
  {
    JoinEmpty(Rejected(Normalize(input)));
  }

  /**
   * When some URL is rejected and no rejected URL holds a newline, splitting
   * the report on newlines gives back the rejected URLs, so the clean count
   * and the report's line count add up to the input count.
   */
  lemma ReportSplits(input: UrlInput)
    requires Rejected(Normalize(input)) != []
    requires forall u :: u in Rejected(Normalize(input)) ==> '\n' !in u
    ensures Split(ProcessUrls(input).1) == Rejected(Normalize(input))
    ensures |ProcessUrls(input).0| + |Split(ProcessUrls(input).1)| == |Normalize(input)|
  {
    SplitJoin(Rejected(Normalize(input)));
    Partition(input);
  }

  /** Filtering twice keeps everything the first filter kept. */
  lemma {:induction false} AcceptedTwice(urls: seq<string>)
    ensures Accepted(Accepted(urls)) == Accepted(urls)
    ensures Rejected(Accepted(urls)) == []
    decreases |urls|
  {
    if urls != [] {
      AcceptedTwice(urls[1..]);
      AcceptsIsMatches(urls[0]);
      if Accepts(urls[0]) {
        var clean := Accepted(urls);
        assert clean[1..] == Accepted(urls[1..]);
      }
    }
  }

  /** Running the filter on its own clean output keeps all of it and reports nothing. */
  lemma Idempotent(input: UrlInput)
    ensures var clean := ProcessUrls(input).0;
      ProcessUrls(List(clean)) == (clean, "")
  {
    AcceptedTwice(Normalize(input));
  }
}
