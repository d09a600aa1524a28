/** The search address of `build_latam_url` (src/latam/utils.py): the
    outbound timestamp derived from the travel date, and the query string
    `urlencode` assembles from the parameter dictionary, in the
    dictionary's order, with `quote_plus` applied to every key and value. */
module LatamUrl {
  import opened Wrappers
  import opened Text
  import opened Calendar

  // ---------------------------------------------------------------------
  // quote_plus

  /** The characters `quote` never escapes: ASCII letters and digits and `_.-~`. */
  predicate IsAlwaysSafe(c: char) {
    ('A' <= c <= 'Z') || ('a' <= c <= 'z') || ('0' <= c <= '9')
    || c == '_' || c == '.' || c == '-' || c == '~'
  }

  /** The UTF-8 encoding of one character. */
  function Utf8(c: char): (bytes: seq<nat>)
    ensures 1 <= |bytes| <= 4
    ensures forall k :: 0 <= k < |bytes| ==> bytes[k] < 256
  {
    var n := c as int;
    if n < 0x80 then [n]
    else if n < 0x800 then [0xC0 + n / 0x40, 0x80 + n % 0x40]
    else if n < 0x1_0000 then [0xE0 + n / 0x1000, 0x80 + n / 0x40 % 0x40, 0x80 + n % 0x40]
    else [0xF0 + n / 0x4_0000, 0x80 + n / 0x1000 % 0x40, 0x80 + n / 0x40 % 0x40, 0x80 + n % 0x40]
  }

  /** An upper-case hexadecimal digit. */
  function HexDigit(n: nat): (c: char)
    requires n < 16
    ensures IsAlwaysSafe(c)
  {
    "0123456789ABCDEF"[n]
  }

  /** `%XX` for the bytes of a character. */
  function PercentBytes(bytes: seq<nat>): (r: string)
    requires forall k :: 0 <= k < |bytes| ==> bytes[k] < 256
    ensures |r| == 3 * |bytes|
    ensures forall k :: 0 <= k < |r| ==> r[k] == '%' || IsAlwaysSafe(r[k])
  {
    if bytes == [] then []
    else ['%', HexDigit(bytes[0] / 16), HexDigit(bytes[0] % 16)] + PercentBytes(bytes[1..])
  }

  /** What `quote_plus` writes for one character. */
  function QuoteChar(c: char): (r: string)
    ensures forall k :: 0 <= k < |r| ==> r[k] == '%' || r[k] == '+' || IsAlwaysSafe(r[k])
  {
    if IsAlwaysSafe(c) then [c]
    else if c == ' ' then "+"
    else PercentBytes(Utf8(c))
  }

  /** `urllib.parse.quote_plus(s)` with its default empty `safe` set. */
  function QuotePlus(s: string): string {
    if s == [] then [] else QuoteChar(s[0]) + QuotePlus(s[1..])
  }

  /** Quoting writes only always-safe characters, `%` and `+`. */
  lemma {:induction false} QuotePlusChars(s: string)
    ensures forall k :: 0 <= k < |QuotePlus(s)| ==>
              QuotePlus(s)[k] == '%' || QuotePlus(s)[k] == '+' || IsAlwaysSafe(QuotePlus(s)[k])
  {
    if s != [] {
      QuotePlusChars(s[1..]);
      var head, tail := QuoteChar(s[0]), QuotePlus(s[1..]);
      assert QuotePlus(s) == head + tail;
      assert forall k :: |head| <= k < |head| + |tail| ==> (head + tail)[k] == tail[k - |head|];
    }
  }

  /** Quoting works character by character. */
  lemma {:induction false} QuotePlusAppend(a: string, b: string)
    ensures QuotePlus(a + b) == QuotePlus(a) + QuotePlus(b)
  {
    if a == [] {
      assert a + b == b;
    } else {
      assert (a + b)[0] == a[0] && (a + b)[1..] == a[1..] + b;
      QuotePlusAppend(a[1..], b);
    }
  }

  /** Text made only of always-safe characters is not changed. */
  lemma {:induction false} QuotePlusSafe(s: string)
    requires forall k :: 0 <= k < |s| ==> IsAlwaysSafe(s[k])
    ensures QuotePlus(s) == s
  {
    if s != [] {
      QuotePlusSafe(s[1..]);
    }
  }

  /** A quoted text holds neither of the characters that delimit the query. */
  lemma QuotePlusAvoids(s: string)
    ensures '&' !in QuotePlus(s) && '=' !in QuotePlus(s)
  {
    QuotePlusChars(s);
    var r := QuotePlus(s);
    assert forall k :: 0 <= k < |r| ==> r[k] != '&' && r[k] != '=';
  }

  // ---------------------------------------------------------------------
  // urlencode

  /** `urlencode(params)` for a dictionary given as its items in order:
      `quote_plus(key) + "=" + quote_plus(str(value))`, joined with `&`. */
  function UrlEncode(params: seq<(string, string)>): string {
    Join('&', EncodedItems(params))
  }

  function EncodedItems(params: seq<(string, string)>): (r: seq<string>)
    ensures |r| == |params|
  {
    if params == [] then []
    else [QuotePlus(params[0].0) + "=" + QuotePlus(params[0].1)] + EncodedItems(params[1..])
  }

  /** Each encoded item is its key and its value, quoted, around one `=`. */
  lemma {:induction false} EncodedItemsAt(params: seq<(string, string)>, k: nat)
    requires k < |params|
    ensures EncodedItems(params)[k] == QuotePlus(params[k].0) + "=" + QuotePlus(params[k].1)
  {
    if k > 0 {
      EncodedItemsAt(params[1..], k - 1);
    }
  }

  /** No encoded item contains `&`, so the query splits back into them. */
  lemma UrlEncodeSplits(params: seq<(string, string)>)
    requires |params| > 0
    ensures Split(UrlEncode(params), '&') == EncodedItems(params)
  {
    var items := EncodedItems(params);
    forall k | 0 <= k < |items| ensures '&' !in items[k] {
      EncodedItemsAt(params, k);
      QuotePlusAvoids(params[k].0);
      QuotePlusAvoids(params[k].1);
    }
    SplitJoin(items, '&');
  }

  // ---------------------------------------------------------------------
  // build_latam_url

  const SearchPrefix: string := "https://www.latamairlines.com/br/pt/oferta-voos?"

  /** `datetime.strptime(date, "%Y-%m-%d").strftime("%Y-%m-%dT00:00:00.000Z")`;
      `None` where `strptime` raises `ValueError`. */
  function Outbound(date: string): (r: Option<string>)
    ensures r.Some? <==> ParseIsoDate(date).Some?
  {
    match ParseIsoDate(date)
    case None => None
    case Some(d) => Some(FormatIsoDate(d) + "T00:00:00.000Z")
  }

  /** The parameter dictionary of `build_latam_url`, in its order. */
  function SearchParams(origin: string, destination: string, outbound: string,
                        adults: int, children: int, infants: int,
                        trip: string, cabin: string, expId: string): seq<(string, string)>
  {
    [("origin", origin), ("destination", destination), ("outbound", outbound),
     ("adt", IntToString(adults)), ("chd", IntToString(children)), ("inf", IntToString(infants)),
     ("trip", trip), ("cabin", cabin), ("redemption", "false"), ("sort", "RECOMMENDED"),
     ("exp_id", expId)]
  }

  /** The query string: the parameter dictionary, url-encoded. */
  function SearchQuery(origin: string, destination: string, outbound: string,
                       adults: int, children: int, infants: int,
                       trip: string, cabin: string, expId: string): string
  {
    UrlEncode(SearchParams(origin, destination, outbound, adults, children, infants, trip, cabin, expId))
  }

  /** `build_latam_url(origin, destination, date, adults, children, infants,
      trip, cabin)`. `today` is `datetime.now().strftime("%Y-%m-%d")`, used
      when no date is given, and `expId` is `str(uuid4())`. `None` where the
      date does not parse. */
  function BuildUrl(origin: string, destination: string, date: Option<string>,
                    adults: int, children: int, infants: int,
                    trip: string, cabin: string, today: string, expId: string): (r: Option<string>)
    ensures r.Some? <==> ParseIsoDate(if date.Some? then date.value else today).Some?
  {
    var day := if date.Some? then date.value else today;
    match Outbound(day)
    case None => None
    case Some(outbound) =>
      Some(SearchPrefix + SearchQuery(origin, destination, outbound, adults, children, infants, trip, cabin, expId))
  }

  /** The part of an address after the search page prefix. */
  function QueryOf(url: string): string
    requires |url| >= |SearchPrefix|
  {
    url[|SearchPrefix|..]
  }

  /** A valid date in canonical form is followed by midnight UTC. */
  lemma OutboundOfCanonicalDate(date: string)
    requires IsCanonicalIsoDate(date)
    ensures Outbound(date) == Some(date + "T00:00:00.000Z")
  {
    FormatParse(date);
  }

  /** Every date `strptime` accepts gives a 24-character timestamp whose first
      ten characters are the canonical form of the date. */
  lemma OutboundShape(date: string)
    requires ParseIsoDate(date).Some?
    ensures |Outbound(date).value| == 24
    ensures Outbound(date).value[..10] == FormatIsoDate(ParseIsoDate(date).value)
    ensures Outbound(date).value[10..] == "T00:00:00.000Z"
  {
  }

  /** The fixed items need no escaping. */
  lemma OutboundKeyUnquoted()
    ensures QuotePlus("outbound") == "outbound"
  {
    QuotePlusSafe("outbound");
  }

  lemma RedemptionItemUnquoted()
    ensures QuotePlus("redemption") == "redemption" && QuotePlus("false") == "false"
  {
    QuotePlusSafe("redemption");
    QuotePlusSafe("false");
  }

  lemma SortItemUnquoted()
    ensures QuotePlus("sort") == "sort" && QuotePlus("RECOMMENDED") == "RECOMMENDED"
  {
    QuotePlusSafe("sort");
    QuotePlusSafe("RECOMMENDED");
  }

  /** The `k`-th item of an encoded query is the `k`-th parameter, quoted. */
  lemma QueryItemAt(params: seq<(string, string)>, k: nat)
    requires k < |params|
    ensures |Split(UrlEncode(params), '&')| == |params|
    ensures Split(UrlEncode(params), '&')[k] == QuotePlus(params[k].0) + "=" + QuotePlus(params[k].1)
  {
    UrlEncodeSplits(params);
    EncodedItemsAt(params, k);
  }

  /** The item for a parameter of a known key and value. */
  lemma QueryItemIs(params: seq<(string, string)>, k: nat, key: string, value: string)
    requires k < |params| && params[k] == (key, value)
    ensures |Split(UrlEncode(params), '&')| == |params|
    ensures Split(UrlEncode(params), '&')[k] == QuotePlus(key) + "=" + QuotePlus(value)
  {
    QueryItemAt(params, k);
  }

  /** The query has one item per parameter: eleven. */
  lemma SearchQueryLength(origin: string, destination: string, outbound: string,
                         adults: int, children: int, infants: int,
                         trip: string, cabin: string, expId: string)
    ensures |Split(SearchQuery(origin, destination, outbound, adults, children, infants, trip, cabin, expId), '&')| == 11
  {
    QueryItemAt(SearchParams(origin, destination, outbound, adults, children, infants, trip, cabin, expId), 0);
  }


  /** The third item is the outbound timestamp, quoted. */
  lemma SearchQueryOutbound(origin: string, destination: string, outbound: string,
                         adults: int, children: int, infants: int,
                         trip: string, cabin: string, expId: string)
    ensures |Split(SearchQuery(origin, destination, outbound, adults, children, infants, trip, cabin, expId), '&')| == 11
    ensures Split(SearchQuery(origin, destination, outbound, adults, children, infants, trip, cabin, expId), '&')[2] == "outbound" + "=" + QuotePlus(outbound)
  {
    QueryItemIs(SearchParams(origin, destination, outbound, adults, children, infants, trip, cabin, expId), 2, "outbound", outbound);
    OutboundKeyUnquoted();
  }


  /** The ninth item is `redemption=false`. */
  lemma SearchQueryRedemption(origin: string, destination: string, outbound: string,
                         adults: int, children: int, infants: int,
                         trip: string, cabin: string, expId: string)
    ensures |Split(SearchQuery(origin, destination, outbound, adults, children, infants, trip, cabin, expId), '&')| == 11
    ensures Split(SearchQuery(origin, destination, outbound, adults, children, infants, trip, cabin, expId), '&')[8] == "redemption" + "=" + "false"
  {
    QueryItemIs(SearchParams(origin, destination, outbound, adults, children, infants, trip, cabin, expId), 8, "redemption", "false");
    RedemptionItemUnquoted();
  }


  /** The tenth item is `sort=RECOMMENDED`. */
  lemma SearchQuerySort(origin: string, destination: string, outbound: string,
                         adults: int, children: int, infants: int,
                         trip: string, cabin: string, expId: string)
    ensures |Split(SearchQuery(origin, destination, outbound, adults, children, infants, trip, cabin, expId), '&')| == 11
    ensures Split(SearchQuery(origin, destination, outbound, adults, children, infants, trip, cabin, expId), '&')[9] == "sort" + "=" + "RECOMMENDED"
  {
    QueryItemIs(SearchParams(origin, destination, outbound, adults, children, infants, trip, cabin, expId), 9, "sort", "RECOMMENDED");
    SortItemUnquoted();
  }

  /** The address starts with the search page, and its query holds the
      eleven parameters, among them `redemption=false` and `sort=RECOMMENDED`. */
  lemma BuildUrlShape(origin: string, destination: string, date: Option<string>,
                      adults: int, children: int, infants: int,
                      trip: string, cabin: string, today: string, expId: string)
    requires BuildUrl(origin, destination, date, adults, children, infants, trip, cabin, today, expId).Some?
    ensures |BuildUrl(origin, destination, date, adults, children, infants, trip, cabin, today, expId).value| >= |SearchPrefix|
    ensures BuildUrl(origin, destination, date, adults, children, infants, trip, cabin, today, expId).value[..|SearchPrefix|]
            == SearchPrefix
    ensures |Split(QueryOf(BuildUrl(origin, destination, date, adults, children, infants, trip, cabin, today, expId).value), '&')| == 11
    ensures Split(QueryOf(BuildUrl(origin, destination, date, adults, children, infants, trip, cabin, today, expId).value), '&')[8]
            == "redemption" + "=" + "false"
    ensures Split(QueryOf(BuildUrl(origin, destination, date, adults, children, infants, trip, cabin, today, expId).value), '&')[9]
            == "sort" + "=" + "RECOMMENDED"
  {
    var day := if date.Some? then date.value else today;
    var q := SearchQuery(origin, destination, Outbound(day).value, adults, children, infants, trip, cabin, expId);
    assert (SearchPrefix + q)[|SearchPrefix|..] == q;
    assert (SearchPrefix + q)[..|SearchPrefix|] == SearchPrefix;
    SearchQueryRedemption(origin, destination, Outbound(day).value, adults, children, infants, trip, cabin, expId);
    SearchQuerySort(origin, destination, Outbound(day).value, adults, children, infants, trip, cabin, expId);
  }

  /** For a canonical date the outbound item is the date at midnight with
      each `:` escaped as `%3A`. */
  lemma OutboundItemOfCanonicalDate(origin: string, destination: string, date: string,
                                    adults: int, children: int, infants: int,
                                    trip: string, cabin: string, today: string, expId: string)
    requires IsCanonicalIsoDate(date)
    ensures BuildUrl(origin, destination, Some(date), adults, children, infants, trip, cabin, today, expId).Some?
    ensures |Split(QueryOf(BuildUrl(origin, destination, Some(date), adults, children, infants, trip, cabin, today, expId).value), '&')| == 11
    ensures Split(QueryOf(BuildUrl(origin, destination, Some(date), adults, children, infants, trip, cabin, today, expId).value), '&')[2]
            == "outbound" + "=" + (date + "T00%3A00%3A00.000Z")
  {
    OutboundOfCanonicalDate(date);
    var q := SearchQuery(origin, destination, date + "T00:00:00.000Z", adults, children, infants, trip, cabin, expId);
    assert (SearchPrefix + q)[|SearchPrefix|..] == q;
    SearchQueryOutbound(origin, destination, date + "T00:00:00.000Z", adults, children, infants, trip, cabin, expId);
    QuoteTimestamp(date);
  }

  /** The characters of a canonical date need no escaping. */
  lemma CanonicalDateSafe(date: string)
    requires IsCanonicalIsoDate(date)
    ensures forall k :: 0 <= k < |date| ==> IsAlwaysSafe(date[k])
  {
    forall k | 0 <= k < |date| ensures IsAlwaysSafe(date[k]) {
      if k < 4 { assert date[..4][k] == date[k]; }
      else if 5 <= k < 7 { assert date[5..7][k - 5] == date[k]; }
      else if 8 <= k { assert date[8..][k - 8] == date[k]; }
    }
  }

  /** The midnight suffix, cut at its colons. */
  lemma MidnightPieces()
    ensures "T00:00:00.000Z" == "T00" + ":" + "00" + ":" + "00.000Z"
    ensures "T00%3A00%3A00.000Z" == "T00" + "%3A" + "00" + "%3A" + "00.000Z"
  {
  }

  lemma MidnightPiecesSafe()
    ensures forall k :: 0 <= k < |"T00"| ==> IsAlwaysSafe("T00"[k])
    ensures forall k :: 0 <= k < |"00"| ==> IsAlwaysSafe("00"[k])
    ensures forall k :: 0 <= k < |"00.000Z"| ==> IsAlwaysSafe("00.000Z"[k])
  {
  }

  /** The midnight suffix escapes its colons as `%3A`. */
  lemma QuoteMidnight()
    ensures QuotePlus("T00:00:00.000Z") == "T00%3A00%3A00.000Z"
  {
    MidnightPiecesSafe();
    QuoteColons("T00", "00", "00.000Z");
    MidnightPieces();
  }

  /** Quoting a canonical date at midnight escapes only the colons. */
  lemma QuoteTimestamp(date: string)
    requires IsCanonicalIsoDate(date)
    ensures QuotePlus(date + "T00:00:00.000Z") == date + "T00%3A00%3A00.000Z"
  {
    CanonicalDateSafe(date);
    QuotePlusSafe(date);
    QuotePlusAppend(date, "T00:00:00.000Z");
    QuoteMidnight();
  }

  /** Safe text around two colons: only the colons are escaped. */
  lemma QuoteColons(a: string, b: string, c: string)
    requires forall k :: 0 <= k < |a| ==> IsAlwaysSafe(a[k])
    requires forall k :: 0 <= k < |b| ==> IsAlwaysSafe(b[k])
    requires forall k :: 0 <= k < |c| ==> IsAlwaysSafe(c[k])
    ensures QuotePlus(a + ":" + b + ":" + c) == a + "%3A" + b + "%3A" + c
  {
    QuoteColonChar();
    QuoteAroundTwice(a, ':', b, c);
  }

  /** `quote_plus(":")` is `%3A`. */
  lemma QuoteColonChar()
    ensures QuoteChar(':') == "%3A"
  {
    assert Utf8(':') == [58];
  }

  /** Safe text around two copies of one character: only those are rewritten. */
  lemma QuoteAroundTwice(a: string, x: char, b: string, c: string)
    requires forall k :: 0 <= k < |a| ==> IsAlwaysSafe(a[k])
    requires forall k :: 0 <= k < |b| ==> IsAlwaysSafe(b[k])
    requires forall k :: 0 <= k < |c| ==> IsAlwaysSafe(c[k])
    ensures QuotePlus(a + [x] + b + [x] + c) == a + QuoteChar(x) + b + QuoteChar(x) + c
  {
    QuotePlusSafe(c);
    QuoteAfterSafe(b, x, c);
    QuoteAfterSafe(a, x, b + [x] + c);
    Regroup(a, [x], b, [x], c);
    Regroup(a, QuoteChar(x), b, QuoteChar(x), c);
  }

  /** Regrouping five pieces of a concatenation. */
  lemma Regroup<T>(a: seq<T>, b: seq<T>, c: seq<T>, d: seq<T>, e: seq<T>)
    ensures a + b + (c + d + e) == a + b + c + d + e
  {
  }

  /** Safe text followed by one character: only the rest is rewritten. */
  lemma QuoteAfterSafe(a: string, x: char, t: string)
    requires forall k :: 0 <= k < |a| ==> IsAlwaysSafe(a[k])
    ensures QuotePlus(a + [x] + t) == a + QuoteChar(x) + QuotePlus(t)
  {
    QuotePlusSafe(a);
    QuotePlusAppend(a + [x], t);
    QuotePlusAppend(a, [x]);
    assert QuotePlus([x]) == QuoteChar(x) + QuotePlus([]);
    assert QuoteChar(x) + [] == QuoteChar(x);
  }
}
