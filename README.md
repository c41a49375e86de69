# Sammelband server: URL intake filter and document helpers

This project models the core of the Sammelband server. The server takes a batch of article URLs, fetches and parses the articles, and compiles them into one styled HTML document, which it offers for download.

The part modelled in depth is the URL intake filter `processUrls`. It takes one URL string or a list of them. It returns:

- the clean URLs: the inputs that the acceptance pattern `/^https?:\/\/.*\.\w+(\/.*\w||\/)*$/` matches, in input order, with duplicates kept;
- a report: the other inputs, joined with newlines.

There are two copies of the filter. The current one is `components/process-urls.js`, and `index.js` uses it. The older one is `src/server/components/process-urls.js`.

The model also covers the pure string building in `index.js`:

- the style-sheet choice `applyStyle`;
- the HTML fragment written for each article;
- the write requests that `writeToFile` issues;
- the document and download paths;
- the body of the submit response.

## Layout

- `url_pattern.dfy`, module `UrlPattern`: the pattern under ECMAScript semantics with no flags. `Matches` is the pattern written as a grammar whose split points are chosen existentially: the scheme, `.*`, the dot, `\w+`, and the iterations of the group. `Accepts` is a deterministic scanner. `AcceptsIsMatches` proves that the two accept the same strings. The pattern is spelled out this way:
  - `.` excludes the four line terminators;
  - `\w` is ASCII letters, digits and `_`;
  - an iteration of `*` that consumes nothing fails, so the empty alternative of the group never contributes.
- `process_urls.dfy`, module `UrlFilter`: the current `processUrls`. It covers the lone-string wrapping, the filter, the bad list found with `includes`, the report built with `join('\n')`, and the trim whose result is discarded.
- `server_process_urls.dfy`, module `ServerUrlFilter`: the older copy. It takes a list only.
- `sammelband.dfy`, module `Sammelband`: the helpers from `index.js`. `fs.writeFile` calls are modelled as requests appended to the log of a `FileWrites` object. The model never says what ends up in a file.

In three places the code differs from its own comments (`components/process-urls.js:5-9` and `:13`) or from the usual expectation that the report is empty only when nothing is rejected. The model follows the code:

- The comment at `components/process-urls.js:6` promises a non-empty domain name, but `.*` may match nothing, so `http://.com` is accepted (`AcceptsEmptyDomain`).
- The comments say a clean URL ends with a word character or a slash. That is necessary but not sufficient: once trailing slashes are dropped, the last character must be a word character. So `http://a.com/#/` is rejected. After the dot that is chosen, only `/` or the end of the string may follow the top-level domain, so `http://example.com-x` is rejected too (`RejectsSymbolBeforeSlash`, `RejectsDashAfterDomain`).
- Clean URLs are not trimmed: `map(url => url.trim())` is computed and then discarded. An accepted URL has no surrounding whitespace anyway (`TrimKeepsMatch`). The report is empty not only when nothing is rejected but also when the bad list is exactly `[""]`, a single empty string (`ReportEmpty`, `EmptyUrlNotReported`). Two empty strings give the report `"\n"`.

## Model

| member | source | states |
|---|---|---|
| `UrlPattern.Matches` | components/process-urls.js:12 | The anchored pattern as a grammar: some scheme, `.*`, dot, `\w+` and group iterations split the whole string. |
| `UrlPattern.Accepts` | components/process-urls.js:12 | The filter's test as a scanner: a scheme, then some dot after it whose `\w` run is followed by a valid tail. |
| `UrlPattern.SchemeLength` | components/process-urls.js:12 | `https?:\/\/` fits a string's start in at most one way. The result is that length, or 0 when neither scheme starts the string. |
| `UrlPattern.WordRunEnd` | components/process-urls.js:12 | The end of the longest run of `\w` characters starting at a position. Everything before it is a word character, and what follows is not. |
| `UrlPattern.DropTrailingSlashes` | components/process-urls.js:9 | The result is a prefix of the input that does not end with `/`, and everything removed is a slash. |
| `UrlPattern.SegmentShape` | components/process-urls.js:12 | One iteration of the group starts with `/`, holds no line terminator, and is `/` alone or ends with a word character. |
| `UrlPattern.SegmentsIffTail` | components/process-urls.js:12 | The iterations of `(\/.*\w\|\|\/)*` are exactly the strings that are empty, or that start with `/`, hold no line terminator, and end with a word character once trailing slashes are dropped (or are all slashes). |
| `UrlPattern.SegmentsAreTail` | components/process-urls.js:12 | The "only if" direction of the above, by induction on the last iteration. |
| `UrlPattern.TailIsSegments` | components/process-urls.js:12 | The "if" direction of the above, by induction on trailing slashes. |
| `UrlPattern.AcceptsIsMatches` | components/process-urls.js:12 | The scanner accepts a string if and only if the anchored pattern matches it. |
| `UrlPattern.MatchOfParts` | components/process-urls.js:12 | Every `scheme + domain + "." + tld + tail` made of the pattern's parts is matched, the empty domain included. |
| `UrlPattern.AcceptedShape` | components/process-urls.js:4-12 | A matched string has at least 9 characters. It starts with `http://` or `https://`. It holds no line terminator. It has a dot followed by a word character after the scheme. It ends with a word character once its trailing slashes are dropped, so it ends with a word character or `/`. |
| `UrlPattern.SegmentsNoLineTerminator` | components/process-urls.js:12 | The iterations of the group hold no line terminator. |
| `UrlPattern.MatchNoLineTerminator` | components/process-urls.js:12 | A match holds no `\n`, `\r`, U+2028 or U+2029. |
| `UrlPattern.MatchEnding` | components/process-urls.js:9-12 | A match, with its trailing slashes dropped, is non-empty and ends with a word character. |
| `UrlPattern.MatchHasScheme` | components/process-urls.js:5 | A matched string starts with a scheme. |
| `UrlPattern.MatchEndsWell` | components/process-urls.js:9 | A matched string ends with a word character or `/`. |
| `UrlPattern.NeedsLowerCaseH` | components/process-urls.js:12 | No string whose first character is not `h` is matched. The scheme is case-sensitive, and leading whitespace is not skipped. |
| `UrlPattern.AcceptsBareDomain` | components/process-urls.js:12 | `http://example.com` is accepted. |
| `UrlPattern.AcceptsPath` | components/process-urls.js:12 | `https://example.com/path/to/page` is accepted. |
| `UrlPattern.AcceptsTrailingSlash` | components/process-urls.js:12 | `http://example.com/page/` is accepted. |
| `UrlPattern.AcceptsEmptyDomain` | components/process-urls.js:6 | `http://.com` is accepted, although the comment promises a domain name. |
| `UrlPattern.RejectsWithoutScheme` | components/process-urls.js:12 | `ftp://example.com`, `HTTP://example.com`, `not a url` and ` http://example.com` are rejected. |
| `UrlPattern.RejectsBadEnding` | components/process-urls.js:12 | `http://example.com/page#` and `http://example.com ` (trailing space) are rejected. |
| `UrlPattern.RejectsDashAfterDomain` | components/process-urls.js:12 | `http://example.com-x` is rejected. Every dot is tried and none fits. |
| `UrlPattern.RejectsSymbolBeforeSlash` | components/process-urls.js:9-12 | `http://a.com/#/` is rejected, although it ends with `/`. |
| `UrlFilter.Normalize` | components/process-urls.js:10 | A lone string becomes a one-element list; a list is kept as it is. |
| `UrlFilter.Accepted` | components/process-urls.js:12 | The clean list is a subsequence of the input. Each URL occurs in it as often as in the input when it matches, and not at all otherwise. |
| `UrlFilter.Rejected` | components/process-urls.js:14 | The reference bad list is a subsequence of the input. Each URL occurs in it as often as in the input when it does not match, and not at all otherwise. |
| `UrlFilter.NotIncluded` | components/process-urls.js:14 | `filter(url => !clean.includes(url))` keeps, in order, every occurrence of the URLs that are not in the clean list. |
| `UrlFilter.NotIncludedIsRejected` | components/process-urls.js:14 | When membership in the clean list agrees with the pattern on the input, the membership filter is the negated-pattern filter. |
| `UrlFilter.BadListIsRejected` | components/process-urls.js:11-14 | The bad list that the source computes equals the input filtered by the negated pattern, and every clean URL matches. |
| `UrlFilter.InAccepted` | components/process-urls.js:12 | A URL is clean if and only if it is in the input and matches. |
| `UrlFilter.InRejected` | components/process-urls.js:14 | A URL is in the bad list if and only if it is in the input and does not match. |
| `UrlFilter.Join` | components/process-urls.js:19 | `join('\n')`: `""` for no pieces, the piece itself for one, otherwise the pieces with a newline between each pair. |
| `UrlFilter.Split` | components/process-urls.js:19 | Splitting on `\n` gives at least one piece, and no piece holds a newline. |
| `UrlFilter.JoinGlue` | components/process-urls.js:19 | Gluing a string onto the first piece glues it onto the front of the `\n`-join. |
| `UrlFilter.JoinSplit` | components/process-urls.js:19 | Joining the pieces of a split with `\n` gives back the string. |
| `UrlFilter.SplitPrefix` | components/process-urls.js:19 | Splitting `x + t`, with no newline in `x`, glues `x` onto the first piece of `t`. |
| `UrlFilter.SplitJoin` | components/process-urls.js:19 | For a non-empty list of strings without newlines, splitting the `\n`-join gives the list back. |
| `UrlFilter.JoinEmpty` | components/process-urls.js:19 | The join is `""` if and only if the list is empty or is `[""]`. |
| `UrlFilter.TrimStart` | components/process-urls.js:13 | Removes exactly the leading ECMAScript whitespace and line terminators, and keeps the rest. |
| `UrlFilter.TrimEnd` | components/process-urls.js:13 | Removes exactly the trailing ECMAScript whitespace and line terminators, and keeps the rest. |
| `UrlFilter.Trim` | components/process-urls.js:13 | `trim()`: leading, then trailing whitespace and line terminators removed. |
| `UrlFilter.TrimAll` | components/process-urls.js:13 | The discarded `map(url => url.trim())` has one entry per clean URL. |
| `UrlFilter.TrimKeepsMatch` | components/process-urls.js:13 | Trimming a matched URL leaves it unchanged. |
| `UrlFilter.ProcessUrls` | components/process-urls.js:10-19 | The clean list is a subsequence of the input. It keeps every occurrence of each matching URL and nothing else. The report is the negated-pattern filter of the input, joined with `\n`. |
| `UrlFilter.SingleIsList` | components/process-urls.js:10 | A lone string gives the same pair as the one-element list that holds it. |
| `UrlFilter.Partition` | components/process-urls.js:11-14 | The multisets of the clean and bad lists add up to the input's multiset, and so do their lengths. Every input URL is in exactly one of the two. Matching duplicates are kept once per occurrence. |
| `UrlFilter.SplitCounts` | components/process-urls.js:12-14 | Every occurrence of an input URL is counted once, in the clean list or in the bad list. |
| `UrlFilter.CleanUnchanged` | components/process-urls.js:12-13 | Clean URLs are input elements, returned unchanged. Trimming them would change nothing. |
| `UrlFilter.ReportEmpty` | components/process-urls.js:19 | The report is `""` if and only if the bad list is `[]` or exactly `[""]`. |
| `UrlFilter.ReportSplits` | components/process-urls.js:19 | Suppose some URL is rejected and no rejected URL holds a newline. Then splitting the report on `\n` gives back the bad list, and the clean count plus the report's line count equals the input count. |
| `UrlFilter.AcceptedTwice` | components/process-urls.js:12 | Filtering the clean list again gives the clean list back unchanged. |
| `UrlFilter.Idempotent` | components/process-urls.js:12-19 | Running `processUrls` on its own clean list returns that list and an empty report. |
| `ServerUrlFilter.ProcessUrlsOld` | src/server/components/process-urls.js:8-15 | The older copy, on a list: the clean list is the order-preserving filter by the pattern, with multiplicities. The report is the negated-pattern filter, joined with `\n`. |
| `ServerUrlFilter.SameAsCurrent` | src/server/components/process-urls.js:8-15 | On any list the older copy returns the same pair as the current one. |
| `ServerUrlFilter.OldPartition` | src/server/components/process-urls.js:8-10 | Clean and bad partition the input by multiset and length. Clean URLs are input elements, unchanged. The report is empty when every input matches. |
| `ServerUrlFilter.OldIdempotent` | src/server/components/process-urls.js:9-15 | Running the older copy on its own clean list returns that list and an empty report. |
| `Sammelband.ApplyStyle` | index.js:91-99 | The style sheet starts with the head and base blocks and ends with the tail block. |
| `Sammelband.StyleDefaults` | index.js:96-97 | Any font other than `"sansSerif"`, a missing one included, gives the serif sheet. Any colour other than `"dark"` gives the light sheet. |
| `Sammelband.HtmlPath` | index.js:104 | The session's document is `./public/sammelband-<id>.html`. |
| `Sammelband.DownloadPath` | index.js:134 | The file served for a session and format is `public/sammelband-<id>.<format>`, before it is joined to the server's directory. |
| `Sammelband.DownloadName` | index.js:136 | The download is offered as `sammelband.<format>`. |
| `Sammelband.HtmlPathInjective` | index.js:104 | Different session ids give different document paths. |
| `Sammelband.HtmlDownloadPathMatchesWritePath` | index.js:134-136 | The relative path of an HTML download, prefixed with `./`, is the path `writeToFile` writes. It is offered as `sammelband.html`. |
| `Sammelband.DownloadPathInjective` | index.js:134 | For one session, different formats are served from different files. |
| `Sammelband.IndexOf` | index.js:116 | `indexOf` gives -1 exactly for an absent key. Otherwise it gives the first position holding the key. |
| `Sammelband.BreakClass` | index.js:116 | The break class is `""` for the key at position 0 of the key list and `"break-before"` otherwise. |
| `Sammelband.FirstKeyOnly` | index.js:115-116 | With distinct keys, the first key's break class is `""` and every later key's is `"break-before"`. |
| `Sammelband.AuthorText` | index.js:118 | The author text is empty exactly when the byline is falsy. Otherwise it is `"by "` followed by the byline. |
| `Sammelband.SiteText` | index.js:119 | The site text is empty exactly when the site name is falsy. Otherwise it is `", "` followed by the site name. |
| `Sammelband.Fragment` | index.js:120-123 | A fragment starts with the title in an `<h1>` of the break class. It has `href=` followed by the key right after the heading and the byline part, and before the content. It ends with the content followed by `<hr/>`. |
| `Sammelband.BylineFollowsHeading` | index.js:118-121 | The author and site line of a fragment sits right after the heading and its line break. It ends before the `href=` of the link. |
| `Sammelband.Fragments` | index.js:111-125 | There is one fragment per article key. |
| `Sammelband.FragmentsInOrder` | index.js:111-123 | The i-th fragment heads the i-th article's title, with break class `""` for the first key and `"break-before"` after it. It links to its key and ends with its content and `<hr/>`. |
| `Sammelband.Values` | index.js:127 | `Object.values` gives one article per key, in key order. |
| `Sammelband.BuildFragment` | index.js:113-123 | The loop body's choice of break class, author text and site text builds exactly the i-th fragment. |
| `Sammelband.FileWrites.WriteFile` | index.js:124 | One `fs.writeFile` call appends one request, with its path, data and flag, to the log. |
| `Sammelband.AppendAll` | index.js:124 | One append request per fragment, in order, all to the same path. |
| `Sammelband.WriteToFile` | index.js:101-127 | `writeToFile` issues, in order: a truncating write of `""` to `./public/sammelband-<id>.html`, an append of the chosen style sheet, and one append per article fragment in key order. It returns the articles in key order. |
| `Sammelband.SubmitResponse` | index.js:158-163 | Nothing is sent unless the file is ready. Otherwise `ready` is true, and `malformedUrl` is `null` exactly when the report is empty. When it is set, it holds the report. |
| `Sammelband.EmptyUrlNotReported` | index.js:161-162 | A lone `""` is rejected, yet it gives no clean URL and an empty report, so the response never names it. |

## Left out

- Console diagnostics: `console.log` of the clean URLs runs on every call, and of the bad URLs whenever something is rejected. They do not affect the result. The log-and-rethrow `catch` of the current copy is left out because it cannot fire on a string or a list of strings.
- Inputs that are neither a string nor a list of strings (a missing `urls` field, numbers, `null`): `RegExp.prototype.test` coerces them, and `[...undefined]` throws. The model takes a string or a list of strings only. The older copy takes a list only, because a lone string has no `filter` and throws there.
- The model works on Unicode scalar values, while JavaScript strings are UTF-16 code units. `.` and `\w` accept the same strings either way, because a surrogate half is neither a line terminator nor a word character.
- `styles.js` is not part of this model: its CSS blocks are opaque strings in `Styles`.
- Loose equality on non-string font or colour values (an array `["dark"]` equals `"dark"` in JavaScript) is not modelled. Font and colour are optional strings.
- `Object.keys` puts integer-like keys first, in ascending order. The model takes the keys in their enumeration order as given. URL keys are never integer-like.
- Sammelband.WriteToFile: it states the write requests in the order they are issued, not what the file holds. The `fs.writeFile` calls are not awaited, so their completion order, their errors and the file contents are not modelled.
- `path.join(__dirname, …)` in `download`: the server's directory and path normalisation are not modelled. The download path is the relative path before joining.
- Sammelband.HtmlDownloadPathMatchesWritePath: states only that the two path strings agree. `writeToFile` resolves `./public` against the process's working directory, while `download` resolves against `__dirname`. The two name the same file only when the server is started from its own directory, and the lemma takes that for granted.
- Running time: the model states only which URLs the pattern accepts. `(\/.*\w||\/)*` nests `.*` inside a star, so a backtracking engine can take time exponential in the number of segments on some rejected inputs, such as `http://a.b` followed by many `/a` and a final `#`.
- `res.download`, `res.send`, the asynchronous fetch → parse → write → convert chain of `handleSubmit`, and its 500 error path are not modelled. Only the body-building rule is.
- Express routing, sessions and Redis, rate limiting, CORS and the static server are framework plumbing and are not modelled.
- The browser (Puppeteer), `fetchFromURL`, `parseDocuments`, `convertFromHtml`, `mail`, the Pocket calls, the account helpers, `deleteFile` and token verification are not part of this model. They live in modules outside it, or they do network and browser work.
- src/client/src/components/Buttons.js (the browser UI) is not part of this model.
