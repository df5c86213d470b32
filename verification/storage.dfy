/** The history file translated_news.json as a JSON object: save_to_json
    writes {"timestamp": ..., "all_news": [...]}, and load_existing_data
    returns the parsed object, or {"all_news": []} when there is no file.
    The file system and the JSON codec are outside the model: a document is
    a map from keys to values, and the file is an optional document. */
module Storage {
  import opened NewsRecords

  /** The two kinds of value the document holds. */
  datatype Field = Text(text: string) | Items(news: seq<NewsItem>)

  type Document = map<string, Field>

  const TimestampKey := "timestamp"
  const AllNewsKey := "all_news"

  /** main concatenates the "all_news" value to a list, which only works
      when that value, if present, is a list of records. */
  predicate WellFormed(doc: Document) {
    AllNewsKey in doc ==> doc[AllNewsKey].Items?
  }

  /** existing_data.get("all_news", []). */
  function StoredNews(doc: Document): (news: seq<NewsItem>)
    requires WellFormed(doc)
    ensures AllNewsKey !in doc ==> news == []
    ensures AllNewsKey in doc ==> news == doc[AllNewsKey].news
  {
    if AllNewsKey in doc then doc[AllNewsKey].news else []
  }

  /** The document save_to_json writes: the save time and the list, and
      nothing else; reading the list back gives the list that was saved. */
  function SaveDocument(savedAt: string, news: seq<NewsItem>): (doc: Document)
    ensures doc.Keys == {TimestampKey, AllNewsKey}
    ensures doc[TimestampKey] == Text(savedAt)
    ensures WellFormed(doc) && StoredNews(doc) == news
  {
    map[TimestampKey := Text(savedAt), AllNewsKey := Items(news)]
  }

  /** load_existing_data: the document on disk if there is one, otherwise
      a document whose stored list is empty. */
  function LoadExisting(onDisk: Option<Document>): (doc: Document)
    requires onDisk.Some? ==> WellFormed(onDisk.value)
    ensures WellFormed(doc)
    ensures onDisk.None? ==> doc.Keys == {AllNewsKey} && StoredNews(doc) == []
    ensures onDisk.Some? ==> StoredNews(doc) == StoredNews(onDisk.value)
  {
    match onDisk
    case None => map[AllNewsKey := Items([])]
    case Some(d) => d
  }
}
