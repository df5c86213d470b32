/** fetch_news_content: turn the outcome of fetching an article page into
    the text stored as the record's full content. The request itself and the
    HTML parsing are outside the model: the outcome arrives as a value, and
    the paragraph text of a page answered with status 200 is opaque. */
module Content {
  import opened NewsRecords

  /** What requests.get(url, ...) produced for an article page. */
  datatype PageOutcome =
    | Response(status: int, pageText: string)  // pageText: the joined <p> text of the body
    | RequestFailed                            // requests.exceptions.RequestException

  const NoSourceUrl := "No source URL provided."
  const Forbidden := "Access to the source URL is forbidden."
  const NotFound := "Source content not found."
  const FailedPrefix := "Failed to fetch content: "
  const RequestError := "Error fetching content."

  function DigitChar(d: nat): char
    requires d < 10
  {
    "0123456789"[d]
  }

  function DigitValue(c: char): nat
    requires '0' <= c <= '9'
  {
    (c - '0') as nat
  }

  predicate AllDigits(s: string) {
    forall i :: 0 <= i < |s| ==> '0' <= s[i] <= '9'
  }

  /** Decimal digits of n without leading zeros, as Python's str(n): only
      zero itself is written with a leading '0'. */
  function NatToString(n: nat): (s: string)
    ensures s != [] && AllDigits(s)
    ensures s[0] == '0' <==> n == 0
    ensures n == 0 ==> s == "0"
    decreases n
  {
    if n < 10 then
      DigitRoundTrip(n);
      [DigitChar(n)]
    else
      NatToString(n / 10) + [DigitChar(n % 10)]
  }

  /** A digit string without a leading zero, or the single digit "0". */
  predicate Canonical(s: string) {
    s != [] && AllDigits(s) && (s[0] == '0' ==> |s| == 1)
  }

  /** Python's str(n) on an int: a minus sign in front of a negative number,
      and no leading zero on the digits. */
  function IntToString(n: int): (s: string)
    ensures n >= 0 ==> Canonical(s)
    ensures n < 0 ==> |s| > 1 && s[0] == '-' && Canonical(s[1..]) && s[1] != '0'
  {
    if n < 0 then
      var digits := NatToString(-n);
      assert ("-" + digits)[1..] == digits;
      "-" + digits
    else NatToString(n)
  }

  /** The value of a non-empty string of decimal digits. */
  function ParseNat(s: string): nat
    requires s != [] && AllDigits(s)
    decreases |s|
  {
    if |s| == 1 then DigitValue(s[0])
    else ParseNat(s[..|s| - 1]) * 10 + DigitValue(s[|s| - 1])
  }

  /** int(s) for an optional minus sign followed by decimal digits. */
  function ParseInt(s: string): Option<int> {
    if |s| > 1 && s[0] == '-' && AllDigits(s[1..]) then Some(-(ParseNat(s[1..]) as int))
    else if s != [] && AllDigits(s) then Some(ParseNat(s))
    else None
  }

  lemma DigitRoundTrip(d: nat)
    requires d < 10
    ensures '0' <= DigitChar(d) <= '9' && DigitValue(DigitChar(d)) == d
  {
  }

  lemma CharRoundTrip(c: char)
    requires '0' <= c <= '9'
    ensures DigitValue(c) < 10 && DigitChar(DigitValue(c)) == c
  {
  }

  /** A digit string that does not start with '0' denotes a positive number. */
  lemma {:induction false} LeadingDigitPositive(s: string)
    requires s != [] && AllDigits(s) && s[0] != '0'
    ensures ParseNat(s) >= 1
    decreases |s|
  {
    if |s| > 1 {
      LeadingDigitPositive(s[..|s| - 1]);
    }
  }

  /** str(n) is the only canonical digit string denoting n: rendering what
      a canonical string denotes gives that string back. */
  lemma {:induction false} CanonicalRoundTrip(s: string)
    requires Canonical(s)
    ensures NatToString(ParseNat(s)) == s
    decreases |s|
  {
    if |s| == 1 {
      CharRoundTrip(s[0]);
    } else {
      var front := s[..|s| - 1];
      var c := s[|s| - 1];
      assert s == front + [c];
      CharRoundTrip(c);
      LeadingDigitPositive(front);
      CanonicalRoundTrip(front);
      var n := ParseNat(s);
      assert n == ParseNat(front) * 10 + DigitValue(c);
      assert n / 10 == ParseNat(front) && n % 10 == DigitValue(c);
    }
  }

  /** Reading a rendered natural number back gives the number. */
  lemma {:induction false} NatToStringRoundTrip(n: nat)
    ensures ParseNat(NatToString(n)) == n
    decreases n
  {
    DigitRoundTrip(n % 10);
    if n >= 10 {
      var front := NatToString(n / 10);
      var s := front + [DigitChar(n % 10)];
      assert s == NatToString(n);
      assert s[..|s| - 1] == front;
      NatToStringRoundTrip(n / 10);
      assert ParseNat(s) == ParseNat(front) * 10 + n % 10;
    }
  }

  /** Reading a rendered status code back gives the status code. */
  lemma IntToStringRoundTrip(n: int)
    ensures ParseInt(IntToString(n)) == Some(n)
  {
    var s := IntToString(n);
    if n < 0 {
      var digits := NatToString(-n);
      assert s == "-" + digits;
      assert s[1..] == digits;
      NatToStringRoundTrip(-n);
    } else {
      assert '0' <= s[0] <= '9';
      NatToStringRoundTrip(n);
    }
  }

  /** The text fetch_news_content returns; it never raises. With an empty url
      no request is made and the outcome is ignored. */
  function FetchNewsContent(url: string, outcome: PageOutcome): (text: string)
    ensures url == "" ==> text == NoSourceUrl
    ensures url != "" && outcome.RequestFailed? ==> text == RequestError
    ensures url != "" && outcome.Response? && outcome.status == 200 ==> text == outcome.pageText
    ensures url != "" && outcome.Response? && outcome.status == 403 ==> text == Forbidden
    ensures url != "" && outcome.Response? && outcome.status == 404 ==> text == NotFound
    ensures url != "" && outcome.Response? && outcome.status !in {200, 403, 404} ==>
              text == FailedPrefix + IntToString(outcome.status) &&
              StatusInMessage(text) == Some(outcome.status)
  {
    if url == "" then NoSourceUrl
    else match outcome
      case RequestFailed => RequestError
      case Response(status, pageText) =>
        if status == 200 then pageText
        else if status == 403 then Forbidden
        else if status == 404 then NotFound
        else
          IntToStringRoundTrip(status);
          assert (FailedPrefix + IntToString(status))[|FailedPrefix|..] == IntToString(status);
          FailedPrefix + IntToString(status)
  }

  /** The status code carried by a "Failed to fetch content: <code>" message,
      and None for any text without that prefix. */
  function StatusInMessage(text: string): Option<int> {
    if |text| >= |FailedPrefix| && text[..|FailedPrefix|] == FailedPrefix
    then ParseInt(text[|FailedPrefix|..])
    else None
  }

  /** The fixed messages are told apart from each other and from every
      "Failed to fetch content: <code>" message. */
  lemma FixedMessagesCarryNoStatus()
    ensures StatusInMessage(NoSourceUrl) == None
    ensures StatusInMessage(Forbidden) == None
    ensures StatusInMessage(NotFound) == None
    ensures StatusInMessage(RequestError) == None
    ensures |{NoSourceUrl, Forbidden, NotFound, RequestError}| == 4
  {
  }
}
