/** fetch_news: query the CryptoPanic posts API and turn each result into a
    news record. The HTTP layer is a parameter: `api` is the JSON answer the
    API gives for a query url, `page` the outcome of fetching an article
    url, and `clock(i)` the reading of datetime.now() taken while the i-th
    record is built. */
module Fetch {
  import opened NewsRecords
  import opened Content

  /** The "source" object of a result; a key the JSON lacks is None. */
  datatype Source = Source(url: Option<string>)

  /** The "metadata" object of a result. */
  datatype Metadata = Metadata(image: Option<string>)

  /** One entry of the "results" array. */
  datatype Post = Post(
    title: Option<string>,
    source: Option<Source>,
    description: Option<string>,
    metadata: Option<Metadata>)

  /** The status code and the parsed body of the API's answer. */
  datatype ApiResponse = ApiResponse(status: int, results: Option<seq<Post>>)

  /** What requests.get did with the API query: an answer, or a
      RequestException (connection failure, timeout), which fetch_news does
      not catch, so that it propagates to the caller. */
  datatype ApiOutcome = Answered(response: ApiResponse) | Unreachable

  const ApiEndpoint := "https://cryptopanic.com/api/v1/posts/?auth_token="
  const ApiFlags := "&metadata=true&approved=true"
  const FilterParam := "&filter="
  const ContentUnavailable := "Source content unavailable"

  function BaseQuery(apiKey: string): string {
    ApiEndpoint + apiKey + ApiFlags
  }

  /** Python truthiness of the filter_type argument: None and "" are false. */
  predicate Truthy(filter: Option<string>) {
    filter.Some? && filter.value != ""
  }

  /** The filter a query url asks for: whatever follows "&filter=" right
      after the base query, if anything does. */
  function RequestedFilter(apiKey: string, url: string): Option<string> {
    var n := |BaseQuery(apiKey)|;
    if |url| > n + |FilterParam| && url[..n] == BaseQuery(apiKey) && url[n..n + |FilterParam|] == FilterParam
    then Some(url[n + |FilterParam|..])
    else None
  }

  /** The url fetch_news requests: the base query, extended by the filter
      parameter only when a truthy filter is given. */
  function QueryUrl(apiKey: string, filter: Option<string>): (url: string)
    ensures |url| >= |BaseQuery(apiKey)| && url[..|BaseQuery(apiKey)|] == BaseQuery(apiKey)
    ensures RequestedFilter(apiKey, url) == if Truthy(filter) then filter else None
    ensures !Truthy(filter) ==> url == BaseQuery(apiKey)
  {
    var base := BaseQuery(apiKey);
    if Truthy(filter) then
      var url := base + FilterParam + filter.value;
      assert url[..|base|] == base;
      assert url[|base|..|base| + |FilterParam|] == FilterParam;
      assert url[|base| + |FilterParam|..] == filter.value;
      url
    else base
  }

  /** news_data.get("results", []). */
  function Results(response: ApiResponse): seq<Post> {
    response.results.GetOr([])
  }

  /** news["title"] raises KeyError on a result without a title; callers
      must not hand fetch_news such an answer. */
  predicate TitlesPresent(response: ApiResponse) {
    response.status == 200 ==> forall i :: 0 <= i < |Results(response)| ==> Results(response)[i].title.Some?
  }

  /** news.get("source", {}).get("url", ""). */
  function SourceUrl(p: Post): string {
    match p.source
    case None => ""
    case Some(s) => s.url.GetOr("")
  }

  /** news.get("metadata", {}).get("image", ""). */
  function ImageUrl(p: Post): string {
    match p.metadata
    case None => ""
    case Some(m) => m.image.GetOr("")
  }

  /** The record fetch_news builds for one result. */
  function ToRecord(p: Post, page: string -> PageOutcome, stamp: string): NewsItem
    requires p.title.Some?
  {
    var url := SourceUrl(p);
    var fullContent := if url != "" then FetchNewsContent(url, page(url)) else ContentUnavailable;
    NewsItem(p.title.value, url, p.description.GetOr(""), ImageUrl(p), fullContent, stamp)
  }

  /** The fields of a record: the url, description and image default to ""
      when the result lacks them, an article with no url gets the fixed
      "unavailable" text without any request, and any other article gets
      what fetch_news_content makes of fetching its url. */
  lemma RecordFields(p: Post, page: string -> PageOutcome, stamp: string)
    requires p.title.Some?
    ensures var r := ToRecord(p, page, stamp);
      && r.title == p.title.value && r.timestamp == stamp
      && (p.source.None? || p.source.value.url.None? ==> r.url == "")
      && (p.source.Some? && p.source.value.url.Some? ==> r.url == p.source.value.url.value)
      && (p.description.None? ==> r.description == "")
      && (p.description.Some? ==> r.description == p.description.value)
      && (p.metadata.None? || p.metadata.value.image.None? ==> r.image == "")
      && (p.metadata.Some? && p.metadata.value.image.Some? ==> r.image == p.metadata.value.image.value)
      && (r.url == "" ==> r.fullContent == ContentUnavailable)
      && (r.url != "" ==> r.fullContent == FetchNewsContent(r.url, page(r.url)))
  {
  }

  /** What fetch_news returns for a given answer of the API: nothing unless
      the status is 200, and otherwise one record per result, in order. */
  function FetchedRecords(response: ApiResponse, page: string -> PageOutcome, clock: nat -> string): (r: seq<NewsItem>)
    requires TitlesPresent(response)
    ensures response.status != 200 ==> r == []
    ensures response.status == 200 ==>
      |r| == |Results(response)| &&
      forall i :: 0 <= i < |r| ==> r[i] == ToRecord(Results(response)[i], page, clock(i))
  {
    if response.status == 200 then
      var posts := Results(response);
      seq(|posts|, i requires 0 <= i < |posts| => ToRecord(posts[i], page, clock(i)))
    else []
  }

  /** An API outcome fetch_news can turn into records without a KeyError. */
  predicate TitlesPresentIfAnswered(outcome: ApiOutcome) {
    outcome.Answered? ==> TitlesPresent(outcome.response)
  }

  /** fetch_news(api_key, filter_type): build the query url, ask the API,
      and append one record per result. None stands for the request
      exception fetch_news lets escape. */
  method FetchNews(
    apiKey: string, filter: Option<string>,
    api: string -> ApiOutcome, page: string -> PageOutcome, clock: nat -> string)
    returns (news: Option<seq<NewsItem>>)
    requires TitlesPresentIfAnswered(api(QueryUrl(apiKey, filter)))
    ensures news.None? <==> api(QueryUrl(apiKey, filter)).Unreachable?
    ensures news.Some? ==> news.value == FetchedRecords(api(QueryUrl(apiKey, filter)).response, page, clock)
  {
    var url := QueryUrl(apiKey, filter);
    var outcome := api(url);
    if outcome.Unreachable? {
      return None;
    }
    var response := outcome.response;
    var records := [];
    if response.status == 200 {
      var results := Results(response);
      var i := 0;
      while i < |results|
        invariant 0 <= i <= |results|
        invariant |records| == i
        invariant forall k :: 0 <= k < i ==> records[k] == ToRecord(results[k], page, clock(k))
      {
        records := records + [ToRecord(results[i], page, clock(i))];
        i := i + 1;
      }
    }
    news := Some(records);
  }
}
