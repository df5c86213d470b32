/** main: fetch all news and hot news, merge them ahead of the stored
    history, save the merged list and report the records that are new.
    Environment lookup and printing are outside the model; the API key
    arrives as a value and the report is returned. */
module Pipeline {
  import opened NewsRecords
  import opened Dedup
  import opened Content
  import opened Fetch
  import opened Storage

  /** The new_news comprehension: the records of the final list that are not
      equal, as whole records, to any stored record, in final-list order. */
  function NewlyAdded(final: seq<NewsItem>, stored: seq<NewsItem>): (r: seq<NewsItem>)
    ensures forall x :: x in r <==> x in final && x !in stored
    ensures IsSubsequence(r, final)
    decreases |final|
  {
    if final == [] then []
    else
      var init := final[..|final| - 1];
      var last := final[|final| - 1];
      assert final == init + [last];
      var r' := NewlyAdded(init, stored);
      if last in stored then
        SubsequenceExtend(r', init, last);
        r'
      else
        SubsequenceSnoc(r', init, last);
        r' + [last]
  }

  /** Deduplicating a before b: a record whose url a holds is a's earliest
      record for it, any other is b's earliest, every url of either part
      survives, and the deduplicated a comes first, whole and in order. */
  lemma EarlierListWins(a: seq<NewsItem>, b: seq<NewsItem>)
    ensures forall x :: x in Deduplicated(a + b) && x.url in Urls(a) ==> x == a[FirstIndex(a, x.url)]
    ensures forall x :: x in Deduplicated(a + b) && x.url !in Urls(a) ==>
              x.url in Urls(b) && x == b[FirstIndex(b, x.url)]
    ensures Urls(Deduplicated(a + b)) == Urls(a) + Urls(b)
    ensures Deduplicated(a + b) == Deduplicated(a) + Without(Deduplicated(b), Urls(a))
  {
    DeduplicatedAppend(a, b);
    WithoutMembers(Deduplicated(b), Urls(a));
    DeduplicatedFirstWins(a);
    DeduplicatedFirstWins(b);
    DeduplicatedKeepsUrls(a + b);
    assert Urls(a + b) == Urls(a) + Urls(b);
    forall x | x in Deduplicated(a + b) && x.url !in Urls(a)
      ensures x.url in Urls(b) && x == b[FirstIndex(b, x.url)]
    {
      DeduplicatedKeepsUrls(a);
      assert x !in Deduplicated(a);
    }
  }

  /** In a list with distinct urls, the earliest record for a url is the
      only one. */
  lemma DistinctFirstIndex(s: seq<NewsItem>, k: nat)
    requires DistinctUrls(s) && k < |s|
    ensures s[k].url in Urls(s) && FirstIndex(s, s[k].url) == k
  {
  }

  /** The two merges of main (lines 103 and 107): hot news wins over all news,
      fetched news wins over stored news, every url of every source appears
      exactly once, and the fetched records come first, followed by the
      stored records whose url was not fetched, in their stored order. */
  lemma MergePrecedence(hot: seq<NewsItem>, all: seq<NewsItem>, stored: seq<NewsItem>)
    ensures var final := Deduplicated(Deduplicated(hot + all) + stored);
      && DistinctUrls(final)
      && Urls(final) == Urls(hot) + Urls(all) + Urls(stored)
      && (forall x :: x in final && x.url in Urls(hot) ==> x == hot[FirstIndex(hot, x.url)])
      && (forall x :: x in final && x.url !in Urls(hot) && x.url in Urls(all) ==>
            x == all[FirstIndex(all, x.url)])
      && (forall x :: x in final && x.url !in Urls(hot) && x.url !in Urls(all) ==>
            x.url in Urls(stored) && x == stored[FirstIndex(stored, x.url)])
      && final == Deduplicated(hot + all) + Without(Deduplicated(stored), Urls(hot) + Urls(all))
  {
    var combined := Deduplicated(hot + all);
    var final := Deduplicated(combined + stored);
    EarlierListWins(hot, all);
    EarlierListWins(combined, stored);
    DeduplicatedDistinct(combined + stored);
    DeduplicatedDistinct(hot + all);
    DeduplicatedFixedPoint(combined);
    forall x | x in final && x.url in Urls(combined)
      ensures x in combined
    {
      var k := FirstIndex(combined, x.url);
      assert combined[k] in combined;
    }
  }

  /** The rest of main's bookkeeping as a method over fetched lists:
      remove_duplicates twice, then the new_news comprehension. */
  method MergeNews(allNews: seq<NewsItem>, hotNews: seq<NewsItem>, stored: seq<NewsItem>)
    returns (final: seq<NewsItem>, newNews: seq<NewsItem>)
    ensures final == Deduplicated(Deduplicated(hotNews + allNews) + stored)
    ensures newNews == NewlyAdded(final, stored)
  {
    var combined := RemoveDuplicates(hotNews + allNews);
    final := RemoveDuplicates(combined + stored);
    newNews := NewlyAdded(final, stored);
  }

  /** What one run of main leaves behind: nothing when the API key is
      missing or an API request raised, otherwise the saved document and the
      newly added records. */
  datatype RunResult = MissingApiKey | Crashed | Completed(saved: Document, newNews: seq<NewsItem>)

  const HotFilter := "hot"

  /** main, with the API, the article pages, the clock readings of each
      fetch, the history file and the save time given as values. */
  method Run(
    apiKey: Option<string>,
    api: string -> ApiOutcome, page: string -> PageOutcome,
    allClock: nat -> string, hotClock: nat -> string,
    onDisk: Option<Document>, savedAt: string)
    returns (result: RunResult)
    requires Truthy(apiKey) ==>
      TitlesPresentIfAnswered(api(QueryUrl(apiKey.value, None))) &&
      TitlesPresentIfAnswered(api(QueryUrl(apiKey.value, Some(HotFilter))))
    requires onDisk.Some? ==> WellFormed(onDisk.value)
    ensures result.MissingApiKey? <==> !Truthy(apiKey)
    ensures result.Crashed? <==>
      (Truthy(apiKey) &&
       (api(QueryUrl(apiKey.value, None)).Unreachable? ||
        api(QueryUrl(apiKey.value, Some(HotFilter))).Unreachable?))
    ensures result.Completed? ==>
      var all := FetchedRecords(api(QueryUrl(apiKey.value, None)).response, page, allClock);
      var hot := FetchedRecords(api(QueryUrl(apiKey.value, Some(HotFilter))).response, page, hotClock);
      var stored := StoredNews(LoadExisting(onDisk));
      var final := Deduplicated(Deduplicated(hot + all) + stored);
      result.saved == SaveDocument(savedAt, final) && result.newNews == NewlyAdded(final, stored)
  {
    if !Truthy(apiKey) {
      return MissingApiKey;
    }
    var allNews := FetchNews(apiKey.value, None, api, page, allClock);
    if allNews.None? {
      return Crashed;
    }
    var hotNews := FetchNews(apiKey.value, Some(HotFilter), api, page, hotClock);
    if hotNews.None? {
      return Crashed;
    }
    var existing := LoadExisting(onDisk);
    var final, newNews := MergeNews(allNews.value, hotNews.value, StoredNews(existing));
    result := Completed(SaveDocument(savedAt, final), newNews);
  }

  /** Merging the same fetched list twice against its own previous merge
      changes nothing. */
  lemma MergeAgainstOwnResult(a: seq<NewsItem>, b: seq<NewsItem>)
    ensures Deduplicated(a + Deduplicated(a + b)) == Deduplicated(a + b)
  {
    var d := Deduplicated(a + b);
    var da := Deduplicated(a);
    var us := Urls(a);
    var rest := Without(Deduplicated(b), us);
    assert d == da + rest by {
      DeduplicatedAppend(a, b);
    }
    assert Deduplicated(a + d) == da + Without(Deduplicated(d), us) by {
      DeduplicatedAppend(a, d);
    }
    assert Deduplicated(d) == d by {
      DeduplicatedIdempotent(a + b);
    }
    assert Without(da, us) == [] by {
      DeduplicatedKeepsUrls(a);
      WithoutDropsInsiders(da, us);
    }
    assert Without(rest, us) == rest by {
      WithoutMembers(Deduplicated(b), us);
      WithoutKeepsOutsiders(rest, us);
    }
    assert Without(d, us) == rest by {
      WithoutAppend(da, rest, us);
      assert [] + rest == rest;
    }
  }

  /** Filtering out every url the records have leaves nothing. */
  lemma {:induction false} WithoutDropsInsiders(s: seq<NewsItem>, us: set<string>)
    requires Urls(s) <= us
    ensures Without(s, us) == []
    decreases |s|
  {
    if s != [] {
      var init := s[..|s| - 1];
      assert s == init + [s[|s| - 1]];
      assert Urls(init) <= Urls(s);
      WithoutDropsInsiders(init, us);
    }
  }

  /** A final list whose every record is stored reports nothing as new. */
  lemma {:induction false} NothingNewWhenAllStored(final: seq<NewsItem>, stored: seq<NewsItem>)
    requires forall x :: x in final ==> x in stored
    ensures NewlyAdded(final, stored) == []
    decreases |final|
  {
    if final != [] {
      var init := final[..|final| - 1];
      assert final == init + [final[|final| - 1]];
      NothingNewWhenAllStored(init, stored);
    }
  }

  /** Filtering out urls that no record has leaves the list as it is. */
  lemma {:induction false} WithoutKeepsOutsiders(s: seq<NewsItem>, us: set<string>)
    requires forall x :: x in s ==> x.url !in us
    ensures Without(s, us) == s
    decreases |s|
  {
    if s != [] {
      var init := s[..|s| - 1];
      assert s == init + [s[|s| - 1]];
      WithoutKeepsOutsiders(init, us);
    }
  }

  /** Running main twice with the same fetched lists: the second run saves
      the same list as the first and reports no newly added record. */
  lemma RepeatedRunIsStable(
    hot: seq<NewsItem>, all: seq<NewsItem>, onDisk: Option<Document>, firstSave: string)
    requires onDisk.Some? ==> WellFormed(onDisk.value)
    ensures var final1 := Deduplicated(Deduplicated(hot + all) + StoredNews(LoadExisting(onDisk)));
      var stored2 := StoredNews(LoadExisting(Some(SaveDocument(firstSave, final1))));
      var final2 := Deduplicated(Deduplicated(hot + all) + stored2);
      final2 == final1 && NewlyAdded(final2, stored2) == []
  {
    var combined := Deduplicated(hot + all);
    var stored := StoredNews(LoadExisting(onDisk));
    var final1 := Deduplicated(combined + stored);
    MergeAgainstOwnResult(combined, stored);
    NothingNewWhenAllStored(final1, final1);
  }

  /** When both fetches come back empty, a history without repeated urls is
      saved unchanged and nothing is reported as new. */
  lemma EmptyFetchKeepsHistory(stored: seq<NewsItem>)
    requires DistinctUrls(stored)
    ensures Deduplicated(Deduplicated([] + []) + stored) == stored
    ensures NewlyAdded(stored, stored) == []
  {
    assert Deduplicated([] + []) + stored == stored;
    DeduplicatedFixedPoint(stored);
    NothingNewWhenAllStored(stored, stored);
  }

  /** new_news compares whole records: a fetched record that differs from
      the stored record with the same url in any field (its timestamp alone,
      which every fetch renews) replaces that stored record in the saved
      list and is reported as newly added. */
  lemma RefetchedRecordReportedAsNew(combined: seq<NewsItem>, stored: seq<NewsItem>, x: NewsItem)
    requires DistinctUrls(combined) && x in combined && x !in stored
    ensures var final := Deduplicated(combined + stored);
      && x in final && x in NewlyAdded(final, stored)
      && forall y :: y in stored && y.url == x.url ==> y !in final
  {
    var final := Deduplicated(combined + stored);
    EarlierListWins(combined, stored);
    DeduplicatedFixedPoint(combined);
    var k :| 0 <= k < |combined| && combined[k] == x;
    DistinctFirstIndex(combined, k);
    assert final[..|combined|] == combined;
    assert final[k] == x;
  }
}
