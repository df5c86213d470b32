/** remove_duplicates: keep the first record for each url, in input order. */
module Dedup {
  import opened NewsRecords

  /** The list remove_duplicates returns, described one input record at a
      time: a record is kept exactly when no earlier record has its url.
      An empty url is a url like any other. */
  function Deduplicated(s: seq<NewsItem>): (r: seq<NewsItem>)
    decreases |s|
  {
    if s == [] then []
    else
      var init := s[..|s| - 1];
      var last := s[|s| - 1];
      Deduplicated(init) + (if last.url in Urls(init) then [] else [last])
  }

  /** The loop of remove_duplicates: a set of urls seen so far and a list
      that grows by every record whose url is not yet in the set. */
  method RemoveDuplicates(news: seq<NewsItem>) returns (unique: seq<NewsItem>)
    ensures unique == Deduplicated(news)
    ensures DistinctUrls(unique) && Urls(unique) == Urls(news)
  {
    var seen: set<string> := {};
    unique := [];
    var i := 0;
    while i < |news|
      invariant 0 <= i <= |news|
      invariant unique == Deduplicated(news[..i])
      invariant seen == Urls(news[..i])
    {
      var item := news[i];
      assert news[..i + 1] == news[..i] + [item];
      DeduplicatedSnoc(news[..i], item);
      UrlsSnoc(news[..i], item);
      if item.url !in seen {
        unique := unique + [item];
        seen := seen + {item.url};
      }
      i := i + 1;
    }
    assert news[..i] == news;
    DeduplicatedKeepsUrls(news);
    DeduplicatedDistinct(news);
  }

  lemma UrlsSnoc(s: seq<NewsItem>, y: NewsItem)
    ensures Urls(s + [y]) == Urls(s) + {y.url}
  {
  }

  /** Every url of the input is still present, and no other url appears. */
  lemma {:induction false} DeduplicatedKeepsUrls(s: seq<NewsItem>)
    ensures Urls(Deduplicated(s)) == Urls(s)
    decreases |s|
  {
    if s != [] {
      var init := s[..|s| - 1];
      var last := s[|s| - 1];
      assert s == init + [last];
      DeduplicatedKeepsUrls(init);
      assert Urls(s) == Urls(init) + {last.url};
      if last.url !in Urls(init) {
        assert Urls(Deduplicated(init) + [last]) == Urls(Deduplicated(init)) + {last.url};
      }
    }
  }

  /** No two records of the result share a url. */
  lemma {:induction false} DeduplicatedDistinct(s: seq<NewsItem>)
    ensures DistinctUrls(Deduplicated(s))
    decreases |s|
  {
    if s != [] {
      var init := s[..|s| - 1];
      var last := s[|s| - 1];
      DeduplicatedDistinct(init);
      DeduplicatedKeepsUrls(init);
      var d := Deduplicated(init);
      if last.url !in Urls(init) {
        var r := d + [last];
        forall i, j | 0 <= i < j < |r| ensures r[i].url != r[j].url {
          if j == |d| {
            assert r[i] in d;
          }
        }
      }
    }
  }

  /** The result is the input with some records deleted and the order of the
      rest kept, so it is never longer than the input. */
  lemma {:induction false} DeduplicatedSubsequence(s: seq<NewsItem>)
    ensures IsSubsequence(Deduplicated(s), s)
    ensures |Deduplicated(s)| <= |s|
    decreases |s|
  {
    if s != [] {
      var init := s[..|s| - 1];
      var last := s[|s| - 1];
      assert s == init + [last];
      DeduplicatedSubsequence(init);
      if last.url in Urls(init) {
        assert Deduplicated(s) == Deduplicated(init);
        SubsequenceExtend(Deduplicated(init), init, last);
      } else {
        assert Deduplicated(s) == Deduplicated(init) + [last];
        SubsequenceSnoc(Deduplicated(init), init, last);
      }
    }
    SubsequenceBounds(Deduplicated(s), s);
  }

  /** Appending a record does not move the earliest position of a url
      already present, and makes the new record the earliest of a new url. */
  lemma FirstIndexSnoc(init: seq<NewsItem>, last: NewsItem, u: string)
    requires u in Urls(init) || u == last.url
    ensures u in Urls(init + [last])
    ensures u in Urls(init) ==> FirstIndex(init + [last], u) == FirstIndex(init, u)
    ensures u !in Urls(init) ==> FirstIndex(init + [last], u) == |init|
  {
    var s := init + [last];
    assert s[|init|] == last;
    if u in Urls(init) {
      var b := FirstIndex(init, u);
      assert s[b].url == u;
    }
  }

  /** First occurrence wins: each kept record is the earliest input record
      with its url. */
  lemma {:induction false} DeduplicatedFirstWins(s: seq<NewsItem>)
    ensures forall x :: x in Deduplicated(s) ==> x.url in Urls(s) && x == s[FirstIndex(s, x.url)]
    decreases |s|
  {
    if s != [] {
      var init := s[..|s| - 1];
      var last := s[|s| - 1];
      assert s == init + [last];
      DeduplicatedFirstWins(init);
      var d := Deduplicated(init);
      forall x | x in Deduplicated(s) ensures x.url in Urls(s) && x == s[FirstIndex(s, x.url)] {
        if x in d {
          FirstIndexSnoc(init, last, x.url);
        } else {
          assert x == last && last.url !in Urls(init);
          FirstIndexSnoc(init, last, x.url);
        }
      }
    }
  }

  /** The earliest input record for every url is kept. */
  lemma {:induction false} DeduplicatedKeepsFirst(s: seq<NewsItem>)
    ensures forall i :: 0 <= i < |s| ==> s[FirstIndex(s, s[i].url)] in Deduplicated(s)
    decreases |s|
  {
    if s != [] {
      var init := s[..|s| - 1];
      var last := s[|s| - 1];
      assert s == init + [last];
      DeduplicatedKeepsFirst(init);
      forall i | 0 <= i < |s| ensures s[FirstIndex(s, s[i].url)] in Deduplicated(s) {
        var u := s[i].url;
        if u in Urls(init) {
          FirstIndexSnoc(init, last, u);
          var b := FirstIndex(init, u);
          assert init[FirstIndex(init, init[b].url)] in Deduplicated(init);
        } else {
          assert u == last.url;
          FirstIndexSnoc(init, last, u);
        }
      }
    }
  }

  /** The result holds exactly one record per distinct url of the input. */
  lemma DeduplicatedLength(s: seq<NewsItem>)
    ensures |Deduplicated(s)| == |Urls(s)|
  {
    DeduplicatedDistinct(s);
    DeduplicatedKeepsUrls(s);
    DistinctUrlsCount(Deduplicated(s));
  }

  /** A list is returned unchanged exactly when its urls are already distinct. */
  lemma {:induction false} DeduplicatedFixedPoint(s: seq<NewsItem>)
    ensures Deduplicated(s) == s <==> DistinctUrls(s)
    decreases |s|
  {
    DeduplicatedDistinct(s);
    if DistinctUrls(s) && s != [] {
      var init := s[..|s| - 1];
      var last := s[|s| - 1];
      assert s == init + [last];
      DistinctUrlsInit(init, last);
      DeduplicatedFixedPoint(init);
      DeduplicatedSnoc(init, last);
    }
  }

  /** Splitting off the last record of a list with distinct urls: the rest
      has distinct urls and does not hold the url of the last record. */
  lemma DistinctUrlsInit(init: seq<NewsItem>, last: NewsItem)
    requires DistinctUrls(init + [last])
    ensures DistinctUrls(init) && last.url !in Urls(init)
  {
    var s := init + [last];
    forall i, j | 0 <= i < j < |init| ensures init[i].url != init[j].url {
      assert init[i] == s[i] && init[j] == s[j];
    }
    forall x | x in init ensures x.url != last.url {
      var k :| 0 <= k < |init| && init[k] == x;
      assert s[k] == x && s[|init|] == last;
    }
  }

  /** Removing duplicates twice gives the same list as removing them once. */
  lemma DeduplicatedIdempotent(s: seq<NewsItem>)
    ensures Deduplicated(Deduplicated(s)) == Deduplicated(s)
  {
    DeduplicatedDistinct(s);
    DeduplicatedFixedPoint(Deduplicated(s));
  }

  /** The records of s whose url is not in us, in order. */
  function Without(s: seq<NewsItem>, us: set<string>): seq<NewsItem>
    decreases |s|
  {
    if s == [] then []
    else
      var last := s[|s| - 1];
      Without(s[..|s| - 1], us) + (if last.url in us then [] else [last])
  }

  /** The filter keeps exactly the records whose url is outside us. */
  lemma {:induction false} WithoutMembers(s: seq<NewsItem>, us: set<string>)
    ensures forall x :: x in Without(s, us) <==> x in s && x.url !in us
    decreases |s|
  {
    if s != [] {
      var init := s[..|s| - 1];
      assert s == init + [s[|s| - 1]];
      WithoutMembers(init, us);
    }
  }

  /** Filtering a concatenation filters each part. */
  lemma {:induction false} WithoutAppend(a: seq<NewsItem>, b: seq<NewsItem>, us: set<string>)
    ensures Without(a + b, us) == Without(a, us) + Without(b, us)
    decreases |b|
  {
    if b == [] {
      assert a + b == a;
    } else {
      var b' := b[..|b| - 1];
      var y := b[|b| - 1];
      assert (a + b)[..|a + b| - 1] == a + b';
      WithoutAppend(a, b', us);
    }
  }

  /** Deduplicating one more record: it is kept exactly when its url is new. */
  lemma DeduplicatedSnoc(s: seq<NewsItem>, y: NewsItem)
    ensures Deduplicated(s + [y]) == Deduplicated(s) + (if y.url in Urls(s) then [] else [y])
  {
    assert (s + [y])[..|s|] == s;
  }

  /** Filtering one more record: it is kept exactly when its url is allowed. */
  lemma WithoutSnoc(s: seq<NewsItem>, y: NewsItem, us: set<string>)
    ensures Without(s + [y], us) == Without(s, us) + (if y.url in us then [] else [y])
  {
    assert (s + [y])[..|s|] == s;
  }

  lemma AppendAssociative<T>(x: seq<T>, y: seq<T>, z: seq<T>)
    ensures (x + y) + z == x + (y + z)
  {
  }

  /** The inductive step of DeduplicatedAppend: one more record at the end
      of the second part. */
  lemma DeduplicatedAppendStep(a: seq<NewsItem>, b': seq<NewsItem>, y: NewsItem)
    requires Deduplicated(a + b') == Deduplicated(a) + Without(Deduplicated(b'), Urls(a))
    ensures Deduplicated((a + b') + [y]) == Deduplicated(a) + Without(Deduplicated(b' + [y]), Urls(a))
  {
    var da, ua, d' := Deduplicated(a), Urls(a), Deduplicated(b');
    var w := Without(d', ua);
    UrlsAppend(a, b');
    DeduplicatedSnoc(a + b', y);
    DeduplicatedSnoc(b', y);
    if y.url in Urls(b') {
      assert Deduplicated((a + b') + [y]) == da + w;
      assert Deduplicated(b' + [y]) == d';
    } else if y.url in ua {
      WithoutSnoc(d', y, ua);
      assert Deduplicated((a + b') + [y]) == da + w;
      assert Without(d' + [y], ua) == w;
    } else {
      WithoutSnoc(d', y, ua);
      AppendAssociative(da, w, [y]);
      assert Deduplicated((a + b') + [y]) == (da + w) + [y];
      assert Without(d' + [y], ua) == w + [y];
    }
  }

  lemma UrlsAppend(a: seq<NewsItem>, b: seq<NewsItem>)
    ensures Urls(a + b) == Urls(a) + Urls(b)
  {
  }

  /** Deduplicating a concatenation keeps the deduplicated first part whole,
      in front, followed by the records of the second part whose url the
      first part does not already hold. */
  lemma {:induction false} DeduplicatedAppend(a: seq<NewsItem>, b: seq<NewsItem>)
    ensures Deduplicated(a + b) == Deduplicated(a) + Without(Deduplicated(b), Urls(a))
    decreases |b|
  {
    if b == [] {
      assert a + b == a;
      assert Without(Deduplicated(b), Urls(a)) == [];
      assert Deduplicated(a) + [] == Deduplicated(a);
    } else {
      var b' := b[..|b| - 1];
      var y := b[|b| - 1];
      assert b == b' + [y];
      assert a + b == (a + b') + [y];
      DeduplicatedAppend(a, b');
      DeduplicatedAppendStep(a, b', y);
    }
  }
}
