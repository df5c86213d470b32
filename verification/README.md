# CryptoPanic news collector — a Dafny model

`cryptonews_translator.py` is a batch script. It fetches "all" and "hot"
posts from the CryptoPanic API and builds one news record per post. For each
post it also tries to fetch the article page and keeps its text as the
record's full content. It then merges the hot news ahead of the all news, and
both ahead of the history stored in `translated_news.json`. The merge removes
duplicate urls, keeping the first record seen. Finally it saves the merged
list with a timestamp and reports the records that are new.

This project models that logic in Dafny and proves what it guarantees:

- `news.dfy` (module `NewsRecords`): the news record and the terms used to
  state properties of record lists. These are the urls of a list, "distinct
  urls", the earliest position of a url, and "subsequence".
- `dedup.dfy` (module `Dedup`): `remove_duplicates` as a loop over a seen-url
  set (`RemoveDuplicates`). It is proved equal to the specification function
  `Deduplicated`. Lemmas prove uniqueness, first-wins, the subsequence
  property, idempotence and how deduplication splits over a concatenation.
- `content.dfy` (module `Content`): `fetch_news_content` as a total function
  of the fetch outcome. The outcome is an HTTP status with opaque page text,
  or a transport exception. The function never raises. Its failure message
  carries the status code, and the code can be read back from it.
- `fetch.dfy` (module `Fetch`): the query url of `fetch_news` and the records
  built from the API's answer.
- `storage.dfy` (module `Storage`): the saved document
  `{"timestamp", "all_news"}`, and the `{"all_news": []}` default used when no
  file exists.
- `pipeline.dfy` (module `Pipeline`): `main`. It covers the two merges, the
  new-news comprehension and the whole run. Lemmas prove precedence, rerun
  stability and the whole-record comparison used for "new".

The outside world enters as parameters:

- `api: string -> ApiOutcome` is the API's answer for a query url, or
  `Unreachable` when the request raises.
- `page: string -> PageOutcome` is the outcome of fetching an article url.
- `clock: nat -> string` is the `datetime.now()` reading for the i-th record of
  one fetch.
- `savedAt` is the save time.
- `onDisk: Option<Document>` is the history file, or its absence.

Four behaviours of the script are easy to miss. The model keeps them as
written:

- Records whose url is empty are kept. Every record without a source url
  gets the url `""`, and deduplication keeps only the first of them.
- The history is saved on every run, even when both fetches return nothing.
  If the stored list already has distinct urls, the saved list equals it
  (`EmptyFetchKeepsHistory`). The file still changes: the timestamp is new,
  and `save_to_json` writes only "timestamp" and "all_news", so any other key
  the file held is dropped.
- "New" means "not equal as a whole record to a stored record". Each fetch
  stamps records with a fresh timestamp, so a re-fetched article with a known
  url is reported as new again (`RefetchedRecordReportedAsNew`).
- A failed request for an article page is caught and becomes the text
  "Error fetching content.". A failed request to the API itself is not caught
  (line 13 has no `try`). `main` then stops with an exception and saves
  nothing (`Run` returns `Crashed`).

## Model

| member | source | states |
|---|---|---|
| `Dedup.RemoveDuplicates` | cryptonews_translator.py:71-78 | the seen-set loop returns exactly `Deduplicated(news)`; the result has distinct urls and holds every url of the input |
| `Dedup.DeduplicatedDistinct` | cryptonews_translator.py:71-78 | no two entries of the result share a url |
| `Dedup.DeduplicatedKeepsUrls` | cryptonews_translator.py:74-77 | the result holds exactly the urls of the input: every input url is still present and no other appears |
| `Dedup.DeduplicatedSubsequence` | cryptonews_translator.py:74-77 | the result is an order-preserving subsequence of the input, so it is no longer than the input |
| `Dedup.DeduplicatedFirstWins` | cryptonews_translator.py:75-77 | every kept record is the earliest input record with its url |
| `Dedup.DeduplicatedKeepsFirst` | cryptonews_translator.py:75-77 | the earliest input record of every url is kept |
| `Dedup.DeduplicatedLength` | cryptonews_translator.py:71-78 | the result has exactly one entry per distinct url of the input |
| `Dedup.DeduplicatedFixedPoint` | cryptonews_translator.py:71-78 | a list is returned unchanged if and only if its urls are already distinct |
| `Dedup.DeduplicatedIdempotent` | cryptonews_translator.py:71-78 | removing duplicates twice equals removing them once |
| `Dedup.DeduplicatedAppend` | cryptonews_translator.py:107 | deduplicating `a + b` gives deduplicated `a` in front, then the records of deduplicated `b` whose url `a` lacks |
| `Dedup.WithoutMembers` | cryptonews_translator.py:107 | filtering by a url set keeps exactly the records whose url is outside it |
| `Pipeline.EarlierListWins` | cryptonews_translator.py:103 | in `remove_duplicates(a + b)`, a url held by `a` keeps a's earliest record, any other url keeps b's earliest record, all urls of both survive, and `a` comes first |
| `Pipeline.MergePrecedence` | cryptonews_translator.py:103-107 | in the final list hot news beats all news and fetched news beats stored news; urls are distinct; every hot, all and stored url appears; the fetched records come first, then the stored records whose url was not fetched, in stored order |
| `Pipeline.MergeNews` | cryptonews_translator.py:103-114 | the two `remove_duplicates` calls and the comprehension compute the final list and `new_news` from the fetched and stored lists |
| `Pipeline.NewlyAdded` | cryptonews_translator.py:114 | a record is in `new_news` if and only if it is in the final list and equal to no stored record; order is kept |
| `Pipeline.RefetchedRecordReportedAsNew` | cryptonews_translator.py:107-114 | a fetched record that differs from the stored record for its url (its timestamp alone suffices) replaces that record and is reported as new |
| `Pipeline.Run` | cryptonews_translator.py:88-114 | a missing or empty API key stops the run with nothing saved; with a key, the run crashes with nothing saved exactly when one of the two API requests raised; otherwise the saved document holds the merge of hot, all and stored news, and `new_news` is derived from it |
| `Pipeline.MergeAgainstOwnResult` | cryptonews_translator.py:107 | merging a fetched list into its own previous merge result changes nothing |
| `Pipeline.RepeatedRunIsStable` | cryptonews_translator.py:103-114 | a second run with the same fetched lists saves the same list as the first and reports nothing new |
| `Pipeline.EmptyFetchKeepsHistory` | cryptonews_translator.py:103-114 | when both fetches return nothing, a history with distinct urls is saved unchanged and nothing is reported new |
| `Pipeline.NothingNewWhenAllStored` | cryptonews_translator.py:114 | if every final record is stored, `new_news` is empty |
| `Content.FetchNewsContent` | cryptonews_translator.py:34-61 | empty url, exception, 200, 403 and 404 map to their fixed texts or the page text; any other status maps to exactly "Failed to fetch content: " followed by `str` of the status, from which the status can be read back |
| `Content.IntToString` | cryptonews_translator.py:58 | `str` of a status code: a minus sign only for a negative code, and digits without a leading zero |
| `Content.CanonicalRoundTrip` | cryptonews_translator.py:58 | the digit rendering is the only digit string without a leading zero that denotes its number |
| `Content.IntToStringRoundTrip` | cryptonews_translator.py:58 | the decimal rendering of a status code in the failure message parses back to that code |
| `Content.FixedMessagesCarryNoStatus` | cryptonews_translator.py:36-61 | the four fixed messages are pairwise distinct and none can be mistaken for a "Failed to fetch content: <code>" message |
| `Fetch.QueryUrl` | cryptonews_translator.py:10-12 | the query url starts with the base query and asks for a filter if and only if the filter is truthy, and then for exactly that filter; with a falsy filter it is exactly the base query |
| `Fetch.RecordFields` | cryptonews_translator.py:17-27 | title and timestamp are copied; url, description and image default to ""; a url-less post gets "Source content unavailable" without a request, any other gets `fetch_news_content` of its url |
| `Fetch.FetchedRecords` | cryptonews_translator.py:14-31 | a non-200 answer yields no records; a 200 answer yields exactly one record per result, in result order |
| `Fetch.FetchNews` | cryptonews_translator.py:9-31 | the request to `QueryUrl(api_key, filter)` raising propagates (`None`); otherwise the append loop returns the records of the answer |
| `Storage.StoredNews` | cryptonews_translator.py:107 | the stored list is the "all_news" value when the key is present, and empty when it is missing |
| `Storage.SaveDocument` | cryptonews_translator.py:64-65 | the saved document has exactly the keys "timestamp" and "all_news", and reading its list back gives the list saved |
| `Storage.LoadExisting` | cryptonews_translator.py:81-85 | with no file the stored list is empty; otherwise it is the file's list |

## Left out

- Network I/O is not modelled: the `requests.get` calls for the API and the
  article pages become the `api` and `page` parameters. Within one run a url
  therefore always gets the same answer. The exception a failed API request
  raises is modelled only as "the run stops"; its type and message are not.
- HTML parsing with BeautifulSoup is not modelled: the joined paragraph text
  of a 200 page is an opaque string.
- File access, `os.path.exists` and the JSON encoder and decoder are not
  modelled: the file is an optional document.
- A history file that cannot be parsed, or whose "all_news" is not a list,
  makes the script raise. The model requires a well-formed document instead
  (`WellFormed`).
- `datetime.now()` becomes the `clock` parameter and `savedAt`.
- The environment-variable lookup of the API key becomes the `apiKey`
  parameter.
- All `print` output is left out. The newly added records are returned
  instead of printed.
- Fetch.FetchNews: a result without "title" raises `KeyError` in the script.
  The model states this as the precondition `TitlesPresentIfAnswered` instead
  of modelling the failure.
- JSON `null` values are not modelled: a missing key is `None`, and a present
  key always has a string value.
- A failure of `response.json()` on a non-JSON 200 answer is not modelled.
- Stored records without a "url" key would make `remove_duplicates` raise
  `KeyError`. Every modelled record has a url.
- The script itself does no translation, no publishing and no retrying, so
  the model has none either.
