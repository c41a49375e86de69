/**
 * The older copy of `processUrls` in src/server/components/process-urls.js.
 * It applies the same pattern and builds the same report, but it takes a list
 * only (a lone string has no `filter` method and throws), and it has no
 * discarded trim and no log-and-rethrow wrapper.
 */
module ServerUrlFilter {
  import opened UrlPattern
  import opened UrlFilter

  /** `processUrls(urlArray)` of the older copy. */
  function ProcessUrlsOld(urls: seq<string>): (result: (seq<string>, string))
    ensures IsSubsequence(result.0, urls)
    ensures forall u :: multiset(result.0)[u] == if Matches(u) then multiset(urls)[u] else 0
    ensures result.1 == Join(Rejected(urls))
  {
    var clean := Accepted(urls);
    BadListIsRejected(urls);
    (clean, Join(NotIncluded(urls, clean)))
  }

  /** On a list the two copies return the same pair. */
  lemma SameAsCurrent(urls: seq<string>)
    ensures ProcessUrlsOld(urls) == ProcessUrls(List(urls))
  {
  }

  /**
   * Clean and bad partition the input, the clean URLs are input elements
   * unchanged, and the report is empty when nothing is rejected.
   */
  lemma OldPartition(urls: seq<string>)
    ensures var clean, bad := ProcessUrlsOld(urls).0, Rejected(urls);
      multiset(clean) + multiset(bad) == multiset(urls) &&
      |clean| + |bad| == |urls| &&
      (forall u :: u in urls ==> (u in clean <==> u !in bad)) &&
      (forall u :: u in clean ==> u in urls)
    ensures (forall u :: u in urls ==> Matches(u)) ==> ProcessUrlsOld(urls).1 == ""
  {
    SameAsCurrent(urls);
    Partition(List(urls));
    CleanUnchanged(List(urls));
    if forall u :: u in urls ==> Matches(u) {
      assert Rejected(urls) == [] by {
        if Rejected(urls) != [] {
          InRejected(urls, Rejected(urls)[0]);
        }
      }
    }
  }

  /** Running the older copy on its own clean output keeps all of it and reports nothing. */
  lemma OldIdempotent(urls: seq<string>)
    ensures var clean := ProcessUrlsOld(urls).0;
      ProcessUrlsOld(clean) == (clean, "")
  {
    SameAsCurrent(urls);
    Idempotent(List(urls));
    SameAsCurrent(ProcessUrlsOld(urls).0);
  }
}
