/**
 * The string-building helpers of the server in index.js: the style sheet
 * choice, the per-article HTML fragments and the write requests of
 * `writeToFile`, the file paths of the document, and the body of the submit
 * response.
 */
module Sammelband {
  import opened UrlPattern
  import opened UrlFilter

  datatype Option<T> = None | Some(value: T)

  // ---------------------------------------------------------------------------
  // applyStyle

  /** The CSS blocks exported by styles.js; their text is not part of this model. */
  datatype Styles = Styles(
    head: string, base: string,
    sansSerif: string, serif: string,
    dark: string, light: string,
    tail: string)

  /**
   * `applyStyle(color, font)`: the fixed head and base blocks, the font block,
   * the colour block and the fixed tail. `None` stands for a missing field.
   */
  function ApplyStyle(styles: Styles, color: Option<string>, font: Option<string>): (css: string)
    ensures |css| >= |styles.head| + |styles.base| + |styles.tail|
    ensures css[..|styles.head| + |styles.base|] == styles.head + styles.base
    ensures css[|css| - |styles.tail|..] == styles.tail
  {
    styles.head +
    styles.base +
    (if font == Some("sansSerif") then styles.sansSerif else styles.serif) +
    (if color == Some("dark") then styles.dark else styles.light) +
    styles.tail
  }

  /**
   * Any font other than "sansSerif", a missing one included, selects the serif
   * block; any colour other than "dark" selects the light block.
   */
  lemma StyleDefaults(styles: Styles, color: Option<string>, font: Option<string>)
    ensures font != Some("sansSerif") ==>
      ApplyStyle(styles, color, font) == ApplyStyle(styles, color, Some("serif"))
    ensures color != Some("dark") ==>
      ApplyStyle(styles, color, font) == ApplyStyle(styles, Some("light"), font)
  {
  }

  // ---------------------------------------------------------------------------
  // Paths

  /** The document `writeToFile` writes for session `id`. */
  function HtmlPath(id: string): string {
    "./public/sammelband-" + id + ".html"
  }

  /** The file `download` serves for session `id`, relative to the server's directory. */
  function DownloadPath(id: string, format: string): string {
    "public/sammelband-" + id + "." + format
  }

  /** The name the download is offered under. */
  function DownloadName(format: string): string {
    "sammelband." + format
  }

  /** Different sessions write different documents. */
  lemma HtmlPathInjective(id1: string, id2: string)
    requires HtmlPath(id1) == HtmlPath(id2)
    ensures id1 == id2
  {
    var p1, p2 := HtmlPath(id1), HtmlPath(id2);
    assert id1 == p1[20..|p1| - 5];
    assert id2 == p2[20..|p2| - 5];
  }

  /**
   * The relative path of an HTML download, prefixed with `./`, is the path
   * `writeToFile` writes, and it is offered as sammelband.html.
   */
  lemma HtmlDownloadPathMatchesWritePath(id: string)
    ensures "./" + DownloadPath(id, "html") == HtmlPath(id)
    ensures DownloadName("html") == "sammelband.html"
  {
  }

  /** Downloads in different formats come from different files. */
  lemma DownloadPathInjective(id: string, f1: string, f2: string)
    requires DownloadPath(id, f1) == DownloadPath(id, f2)
    ensures f1 == f2
  {
    var p1, p2 := DownloadPath(id, f1), DownloadPath(id, f2);
    var n := |"public/sammelband-" + id + "."|;
    assert f1 == p1[n..];
    assert f2 == p2[n..];
  }

  // ---------------------------------------------------------------------------
  // The article fragments

  /** One parsed article; `None` stands for a null or missing field. */
  datatype Article = Article(title: string, byline: Option<string>, siteName: Option<string>, content: string)

  /** The parsed articles object: its keys in enumeration order and the article under each. */
  datatype Articles = Articles(keys: seq<string>, byKey: map<string, Article>) {
    /** Object keys are distinct and each has a value. */
    ghost predicate Valid() {
      (forall i, j :: 0 <= i < j < |keys| ==> keys[i] != keys[j]) &&
      (forall k :: k in keys <==> k in byKey)
    }
  }

  /** JavaScript truthiness of an optional string: present and non-empty. */
  predicate Truthy(s: Option<string>) {
    s.Some? && s.value != ""
  }

  /** `keys.indexOf(key)`: the first position of `key`, or -1. */
  function IndexOf(keys: seq<string>, key: string): (r: int)
    ensures -1 <= r < |keys|
    ensures r == -1 <==> key !in keys
    ensures r >= 0 ==> keys[r] == key && key !in keys[..r]
    decreases |keys|
  {
    if keys == [] then -1
    else if keys[0] == key then 0
    else
      var r := IndexOf(keys[1..], key);
      assert r >= 0 ==> keys[..r + 1] == [keys[0]] + keys[1..][..r];
      if r == -1 then -1 else r + 1
  }

  /** The break class of the article under `key`: empty for the first key, "break-before" otherwise. */
  function BreakClass(keys: seq<string>, key: string): string {
    if IndexOf(keys, key) == 0 then "" else "break-before"
  }

  /** With distinct keys only the first article starts without a page break. */
  lemma FirstKeyOnly(keys: seq<string>, i: int)
    requires forall a, b :: 0 <= a < b < |keys| ==> keys[a] != keys[b]
    requires 0 <= i < |keys|
    ensures BreakClass(keys, keys[i]) == if i == 0 then "" else "break-before"
  {
  }

  /** `"by " + byline` for a truthy byline, otherwise empty. */
  function AuthorText(byline: Option<string>): (text: string)
    ensures text == "" <==> !Truthy(byline)
    ensures Truthy(byline) ==> |text| >= 3 && text[..3] == "by " && text[3..] == byline.value
  {
    if Truthy(byline) then "by " + byline.value else ""
  }

  /** `", " + siteName` for a truthy site name, otherwise empty. */
  function SiteText(siteName: Option<string>): (text: string)
    ensures text == "" <==> !Truthy(siteName)
    ensures Truthy(siteName) ==> |text| >= 2 && text[..2] == ", " && text[2..] == siteName.value
  {
    if Truthy(siteName) then ", " + siteName.value else ""
  }

  /** The newline and indentation the template literal carries between its lines. */
  const Indent: string := "\n                        "

  /** The text after the link target, up to the article content. */
  const LinkTail: string := " target=\"_blank\" rel=\"noreferrer\">View original article</a></p>" + Indent

  /** The heading of a fragment: the title in an `<h1>` of the given break class. */
  function Heading(breakClass: string, title: string): string {
    "<h1 class=\"" + breakClass + "\">" + title + "</h1>"
  }

  /** The author and site line, up to the link target. */
  function BylineTo(author: string, siteName: string): string {
    "<br/>" + Indent + "<p><i>" + author + siteName + "</i></p><br/>" + Indent + "<p><a "
  }

  /** `s` starts with `p`. */
  predicate StartsWith(s: string, p: string) {
    |p| <= |s| && s[..|p|] == p
  }

  /** `s` ends with `t`. */
  predicate EndsWith(s: string, t: string) {
    |t| <= |s| && s[|s| - |t|..] == t
  }

  /** `sub` occurs in `s` at position `p`. */
  predicate OccursAt(s: string, sub: string, p: int) {
    0 <= p && p + |sub| <= |s| && s[p..p + |sub|] == sub
  }

  /** Where the pieces of a five-part concatenation sit. */
  lemma FiveParts(a: string, b: string, c: string, d: string, e: string)
    ensures StartsWith(a + b + c + d + e, a)
    ensures EndsWith(a + b + c + d + e, e)
    ensures OccursAt(a + b + c + d + e, c, |a| + |b|)
  {
    var s := a + b + c + d + e;
    assert s == a + (b + c + d + e);
    assert s == (a + b) + c + (d + e);
    assert s == (a + b + c + d) + e;
  }

  /**
   * The HTML fragment of one article: a heading with the title, the author
   * and site line, a link to the original article, then the content and a
   * horizontal rule. The title, the link target and the content appear in
   * this order.
   */
  function Fragment(key: string, article: Article, breakClass: string): (html: string)
    ensures StartsWith(html, Heading(breakClass, article.title))
    ensures EndsWith(html, article.content + "<hr/>")
    ensures OccursAt(html, "href=" + key,
      |Heading(breakClass, article.title)| + |BylineTo(AuthorText(article.byline), SiteText(article.siteName))|)
    ensures |Heading(breakClass, article.title)| + |BylineTo(AuthorText(article.byline), SiteText(article.siteName))| +
      |"href=" + key| <= |html| - |article.content + "<hr/>"|
  {
    var heading := Heading(breakClass, article.title);
    var byline := BylineTo(AuthorText(article.byline), SiteText(article.siteName));
    var ending := article.content + "<hr/>";
    FiveParts(heading, byline, "href=" + key, LinkTail, ending);
    assert OccursAt(heading + byline + ("href=" + key) + LinkTail + ending, "href=" + key, |heading| + |byline|);
    heading + byline + ("href=" + key) + LinkTail + ending
  }

  /**
   * The author and site line of a fragment sits right after the heading and
   * its line break, and ends before the link that `Fragment` places after
   * the byline.
   */
  lemma BylineFollowsHeading(key: string, article: Article, breakClass: string)
    ensures var heading := Heading(breakClass, article.title);
      var line := "<p><i>" + AuthorText(article.byline) + SiteText(article.siteName) + "</i></p>";
      OccursAt(Fragment(key, article, breakClass), line, |heading| + |"<br/>" + Indent|)
    ensures var heading := Heading(breakClass, article.title);
      var line := "<p><i>" + AuthorText(article.byline) + SiteText(article.siteName) + "</i></p>";
      var link := |heading| + |BylineTo(AuthorText(article.byline), SiteText(article.siteName))|;
      |heading| + |"<br/>" + Indent| + |line| < link &&
      OccursAt(Fragment(key, article, breakClass), "href=" + key, link)
  {
    var heading := Heading(breakClass, article.title);
    var author, siteName := AuthorText(article.byline), SiteText(article.siteName);
    var line := "<p><i>" + author + siteName + "</i></p>";
    var before, after := "<br/>" + Indent, "<br/>" + Indent + "<p><a ";
    var link, ending := "href=" + key, article.content + "<hr/>";
    assert BylineTo(author, siteName) == before + line + after;
    assert Fragment(key, article, breakClass) == heading + before + line + (after + link + LinkTail) + ending;
    FiveParts(heading, before, line, after + link + LinkTail, ending);
  }

  /** The fragment `writeToFile` builds for the article under key `keys[i]`. */
  function FragmentOf(articles: Articles, i: int): string
    requires articles.Valid() && 0 <= i < |articles.keys|
  {
    var key := articles.keys[i];
    Fragment(key, articles.byKey[key], BreakClass(articles.keys, key))
  }

  /** The fragments in key order, one per key. */
  function Fragments(articles: Articles): (frags: seq<string>)
    requires articles.Valid()
    ensures |frags| == |articles.keys|
  {
    seq(|articles.keys|, i requires 0 <= i < |articles.keys| => FragmentOf(articles, i))
  }

  /**
   * The i-th fragment heads the i-th article's title with an empty break class
   * for the first key and "break-before" for every later key, links to its
   * key and ends with its content.
   */
  lemma FragmentsInOrder(articles: Articles, i: int)
    requires articles.Valid() && 0 <= i < |articles.keys|
    ensures var key := articles.keys[i];
      var a := articles.byKey[key];
      var frag := Fragments(articles)[i];
      StartsWith(frag, Heading(if i == 0 then "" else "break-before", a.title)) &&
      (exists p :: OccursAt(frag, "href=" + key, p)) &&
      EndsWith(frag, a.content + "<hr/>")
  {
    FirstKeyOnly(articles.keys, i);
  }

  /** `Object.values(parsedArticles)`: the articles in key order. */
  function Values(articles: Articles): (values: seq<Article>)
    requires articles.Valid()
    ensures |values| == |articles.keys|
    ensures forall i :: 0 <= i < |values| ==> values[i] == articles.byKey[articles.keys[i]]
  {
    seq(|articles.keys|, i requires 0 <= i < |articles.keys| => articles.byKey[articles.keys[i]])
  }

  // ---------------------------------------------------------------------------
  // writeToFile

  /** The `flag` of a write: 'w+' truncates, 'a+' appends. */
  datatype Flag = Truncate | Append

  /** One `fs.writeFile(path, data, { flag })` call. */
  datatype WriteRequest = WriteRequest(path: string, data: string, flag: Flag)

  /**
   * The write requests issued to the file system, in issue order. The calls
   * are not awaited, so this is the order they are made in, not the order
   * they complete in.
   */
  class FileWrites {
    var requests: seq<WriteRequest>

    constructor ()
      ensures requests == []
    {
      requests := [];
    }

    method WriteFile(path: string, data: string, flag: Flag)
      modifies this
      ensures requests == old(requests) + [WriteRequest(path, data, flag)]
    {
      requests := requests + [WriteRequest(path, data, flag)];
    }
  }

  /** Append requests for each piece of `data`, in order. */
  function AppendAll(path: string, data: seq<string>): (reqs: seq<WriteRequest>)
    ensures |reqs| == |data|
    ensures forall k :: 0 <= k < |data| ==> reqs[k] == WriteRequest(path, data[k], Append)
  {
    seq(|data|, k requires 0 <= k < |data| => WriteRequest(path, data[k], Append))
  }

  /** A log that holds `before` and then one append per piece of `data` is `before + AppendAll(path, data)`. */
  lemma AppendsInOrder(log: seq<WriteRequest>, before: seq<WriteRequest>, path: string, data: seq<string>)
    requires |log| == |before| + |data| && log[..|before|] == before
    requires forall k :: 0 <= k < |data| ==> log[|before| + k] == WriteRequest(path, data[k], Append)
    ensures log == before + AppendAll(path, data)
  {
    forall k | 0 <= k < |log| ensures log[k] == (before + AppendAll(path, data))[k] {
      if k < |before| {
        assert log[k] == log[..|before|][k];
      }
    }
  }

  /**
   * The body of the loop in `writeToFile` before its write: the break class,
   * author and site texts chosen by the truthiness tests, then the fragment.
   */
  method BuildFragment(articles: Articles, i: int) returns (content: string)
    requires articles.Valid() && 0 <= i < |articles.keys|
    ensures content == Fragments(articles)[i]
  {
    var keys := articles.keys;
    var key := keys[i];
    var article := articles.byKey[key];
    var breakBefore;
    if IndexOf(keys, key) == 0 {
      breakBefore := "";
    } else {
      breakBefore := "break-before";
    }
    var author, siteName;
    if Truthy(article.byline) {
      author := "by " + article.byline.value;
    } else {
      author := "";
    }
    if Truthy(article.siteName) {
      siteName := ", " + article.siteName.value;
    } else {
      siteName := "";
    }
    content := Heading(breakBefore, article.title) + BylineTo(author, siteName) +
      ("href=" + key) + LinkTail + (article.content + "<hr/>");
  }

  /**
   * `writeToFile(parsedArticles, req)`: truncate the session's document,
   * append the style sheet, append one fragment per article in key order, and
   * return the articles in key order.
   */
  method WriteToFile(fs: FileWrites, articles: Articles, id: string, styles: Styles,
                     color: Option<string>, font: Option<string>)
    returns (values: seq<Article>)
    requires articles.Valid()
    modifies fs
    ensures fs.requests == old(fs.requests) +
      [WriteRequest(HtmlPath(id), "", Truncate), WriteRequest(HtmlPath(id), ApplyStyle(styles, color, font), Append)] +
      AppendAll(HtmlPath(id), Fragments(articles))
    ensures values == Values(articles)
  {
    var filepath := HtmlPath(id);
    fs.WriteFile(filepath, "", Truncate);
    fs.WriteFile(filepath, ApplyStyle(styles, color, font), Append);
    ghost var before := fs.requests;
    var keys := articles.keys;
    for i := 0 to |keys|
      invariant |fs.requests| == |before| + i
      invariant fs.requests[..|before|] == before
      invariant forall k :: 0 <= k < i ==>
        fs.requests[|before| + k] == WriteRequest(filepath, Fragments(articles)[k], Append)
    {
      var content := BuildFragment(articles, i);
      fs.WriteFile(filepath, content, Append);
    }
    AppendsInOrder(fs.requests, before, filepath, Fragments(articles));
    values := seq(|keys|, i requires 0 <= i < |keys| => articles.byKey[keys[i]]);
  }

  // ---------------------------------------------------------------------------
  // handleSubmit

  /** The JSON body of the submit response; `None` is `null`. */
  datatype SubmitBody = SubmitBody(malformedUrl: Option<string>, ready: bool)

  /**
   * The response of `handleSubmit` once the document is converted: nothing is
   * sent unless the file is ready; then `ready` is true and `malformedUrl`
   * carries the bad-URL report exactly when the report is non-empty.
   */
  method SubmitResponse(fileReady: bool, badUrls: string) returns (sent: Option<SubmitBody>)
    ensures sent.Some? <==> fileReady
    ensures sent.Some? ==> sent.value.ready
    ensures sent.Some? ==> (sent.value.malformedUrl == None <==> badUrls == "")
    ensures sent.Some? && sent.value.malformedUrl.Some? ==> sent.value.malformedUrl.value == badUrls
  {
    sent := None;
    if fileReady {
      var body := SubmitBody(None, true);
      if |badUrls| > 0 {
        body := body.(malformedUrl := Some(badUrls));
      }
      sent := Some(body);
    }
  }

  /**
   * A lone empty URL is rejected, yet its report is the empty string, so the
   * response never names it.
   */
  lemma EmptyUrlNotReported()
    ensures UrlFilter.ProcessUrls(List([""])) == ([], "")
  {
    MatchHasScheme("");
    assert Rejected([""]) == [""];
    assert Accepted([""]) == [];
  }
}
