/** The news record that fetch_news builds and the JSON history file stores,
    and the vocabulary used to state properties of lists of such records. */
module NewsRecords {

  datatype Option<+T> = None | Some(value: T) {
    /** dict.get(key, default): the value when present, otherwise the default. */
    function GetOr(default: T): T {
      match this
      case Some(v) => v
      case None => default
    }
  }

  /** One article as a dictionary with the keys title, url, description,
      image, full_content and timestamp. Two records are equal exactly when
      every field is equal, as Python compares dictionaries. */
  datatype NewsItem = NewsItem(
    title: string,
    url: string,
    description: string,
    image: string,
    fullContent: string,
    timestamp: string)

  /** The set of urls that occur in a list of records. */
  function Urls(s: seq<NewsItem>): set<string> {
    set x | x in s :: x.url
  }

  /** No two entries of the list share a url. */
  predicate DistinctUrls(s: seq<NewsItem>) {
    forall i, j :: 0 <= i < j < |s| ==> s[i].url != s[j].url
  }

  /** Position of the earliest entry of s whose url is u. */
  function FirstIndex(s: seq<NewsItem>, u: string): (i: nat)
    requires u in Urls(s)
    ensures i < |s| && s[i].url == u
    ensures forall j :: 0 <= j < i ==> s[j].url != u
  {
    if s[0].url == u then 0
    else
      assert u in Urls(s[1..]) by {
        var x :| x in s && x.url == u;
        var k :| 0 <= k < |s| && s[k] == x;
        assert k != 0 && s[1..][k - 1] == x;
      }
      1 + FirstIndex(s[1..], u)
  }

  /** r can be obtained from s by deleting entries, keeping the order of the rest. */
  predicate IsSubsequence<T(==)>(r: seq<T>, s: seq<T>)
    decreases |s|
  {
    r == [] ||
    (s != [] &&
     ((r[|r| - 1] == s[|s| - 1] && IsSubsequence(r[..|r| - 1], s[..|s| - 1])) ||
      IsSubsequence(r, s[..|s| - 1])))
  }

  /** A subsequence is no longer than the list it comes from and holds only its entries. */
  lemma {:induction false} SubsequenceBounds<T>(r: seq<T>, s: seq<T>)
    requires IsSubsequence(r, s)
    ensures |r| <= |s|
    ensures forall x :: x in r ==> x in s
    decreases |s|
  {
    if r != [] {
      var s' := s[..|s| - 1];
      if r[|r| - 1] == s[|s| - 1] && IsSubsequence(r[..|r| - 1], s') {
        SubsequenceBounds(r[..|r| - 1], s');
        assert r == r[..|r| - 1] + [r[|r| - 1]];
        assert s == s' + [s[|s| - 1]];
      } else {
        SubsequenceBounds(r, s');
        assert s == s' + [s[|s| - 1]];
      }
    }
  }

  /** Appending the same entry to both lists keeps the subsequence relation. */
  lemma SubsequenceSnoc<T>(r: seq<T>, s: seq<T>, x: T)
    requires IsSubsequence(r, s)
    ensures IsSubsequence(r + [x], s + [x])
  {
  }

  /** Appending an entry to the longer list keeps the subsequence relation. */
  lemma SubsequenceExtend<T>(r: seq<T>, s: seq<T>, x: T)
    requires IsSubsequence(r, s)
    ensures IsSubsequence(r, s + [x])
  {
  }

  /** A list whose urls are distinct holds as many urls as entries. */
  lemma {:induction false} DistinctUrlsCount(s: seq<NewsItem>)
    requires DistinctUrls(s)
    ensures |Urls(s)| == |s|
    decreases |s|
  {
    if s != [] {
      var s' := s[..|s| - 1];
      var x := s[|s| - 1];
      assert s == s' + [x];
      DistinctUrlsCount(s');
      assert Urls(s) == Urls(s') + {x.url};
      assert x.url !in Urls(s');
    }
  }
}
