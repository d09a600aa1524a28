# Airline tickets auto-extraction: a verified model

The repository has two pipelines, the first in two parts:

- **ANAC.** `src/anac/aviation.py` scrapes the ANAC open-data page for ZIP links and derives a download name from each link. It downloads each archive with retries. It uploads every extracted file to a bucket as `anac_data/<name>`.
- **ANAC loader.** `src/anac/load_to_bigquery.py` reads each uploaded text file and finds its header line. It guesses the delimiter (semicolon, pipe, tab or comma, with quote-aware counting for the semicolon) and splits the header into column names. Every later non-blank line becomes a row prefixed with the file name and the file date. The result is the content handed to the warehouse. The output header is written without quotes, so a column name holding the delimiter splits into two fields there (`AnacLoad.QuotedHeaderWidensOutput`); the load job skips that first row (`skip_leading_rows=1`, line 284), so the rows are unaffected.
- **LATAM.** `src/latam/utils.py` builds the LATAM offer-search URL. It turns each flight card on the results page into a flight record; a card whose parse fails at any step is skipped. `src/latam/play_wright.py` walks a date range one day at a time and concatenates the flights found on each day. `src/latam/flights.py` holds an identical copy of the date-range generator.

The project models these cores in one Dafny module per concern:

| file | module | models |
|---|---|---|
| `wrappers.dfy` | `Wrappers` | `Option` / `Result` |
| `text.dfy` | `Text` | the `str` operations the sources use: `strip`, `rstrip`, `split`, `join`, `replace`, `os.path.basename`, `str(int)` / `int(str)` |
| `calendar.dfy` | `Calendar` | `datetime` as the sources use it: `strptime("%Y-%m-%d")`, `%H:%M`, `strftime`, proleptic Gregorian ordinals, adding one day |
| `anac_load.dfy` | `AnacLoad` | header search, delimiter sniffing, header tokenizing, row enhancement, content assembly (`load_to_bigquery.py`) |
| `anac_download.dfy` | `AnacDownload` | link selection, `/view` trimming, safe file names, bucket paths, retry with exponential back-off (`aviation.py`) |
| `latam_url.dfy` | `LatamUrl` | `build_latam_url` with `urlencode`'s `quote_plus` (`utils.py`) |
| `latam_cards.dfy` | `LatamCards` | the regular-expression searches, the price cleaning, the per-card conversion and the skipping card loop (`utils.py`) |
| `latam_run.dfy` | `LatamRun` | `date_range` and the per-date concatenation of `main` (`play_wright.py`, `flights.py`) |

The pure computations are Dafny functions, and every property is a lemma or a contract about them. Each loop of the source is a `method` with a `while` loop, proved equal to the function that specifies it:

- the header search;
- the quote-aware count;
- the delimiter sniffing;
- the header tokenizer;
- the row loop;
- the link loop;
- both retry loops;
- the card loop;
- the generator loop;
- the date loop.

Browser, network, file system, clock and randomness become parameters:

- the cards on a page;
- the outcome of each attempt;
- `today` and the experiment id;
- an abstract `resolve` standing in for `urljoin`.

## Model

| member | source | states |
|---|---|---|
| `Text.Strip` | src/anac/load_to_bigquery.py:195 | the stripped text is no longer than the input, has no outer whitespace, and is empty exactly when the input is all whitespace |
| `Text.StripIsFramedSlice` | src/anac/load_to_bigquery.py:261 | the stripped text is a contiguous slice of the input with only whitespace outside it |
| `Text.StripStripped` | src/anac/load_to_bigquery.py:246 | stripping already-stripped text changes nothing |
| `Text.RStrip` | src/anac/aviation.py:151 | `rstrip` keeps a prefix, drops only trailing whitespace, and ends in a non-space |
| `Text.Occurrences` | src/anac/load_to_bigquery.py:262 | the count is zero exactly when the character is absent |
| `Text.SplitFrom` | src/anac/load_to_bigquery.py:220-221 | `split` yields one more piece than there are separators, and no piece holds the separator |
| `Text.JoinSplit` | src/anac/load_to_bigquery.py:274 | joining the pieces of a split gives the original text back |
| `Text.SplitJoin` | src/anac/load_to_bigquery.py:274 | splitting a join of separator-free pieces gives those pieces back |
| `Text.ReplaceChar` | src/anac/load_to_bigquery.py:263 | `replace` of one character keeps the length and rewrites exactly the matching positions |
| `Text.Basename` | src/anac/load_to_bigquery.py:251 | `basename` is a slash-free suffix of the path that is preceded by a slash whenever it is shorter than the path |
| `Text.BasenameAfterSlash` | src/anac/aviation.py:169 | the basename of `dir/name` is `name` |
| `Text.DigitsValueOfNatToString` | src/latam/utils.py:101 | `int(str(n)) == n` |
| `Text.NatToStringInjective` | src/anac/aviation.py:152 | distinct numbers have distinct decimal texts |
| `Calendar.ParseIsoDate` | src/latam/utils.py:26 | a date accepted by `%Y-%m-%d` is a valid date of years 1 to 9999 |
| `Calendar.ParseClock` | src/latam/utils.py:120 | a clock accepted by `%H:%M` has hour below 24 and minute below 60 |
| `Calendar.FormatIsoDate` | src/latam/play_wright.py:37 | the formatted date has ten characters with dashes at positions 4 and 7 |
| `Calendar.ParseFormat` | src/latam/play_wright.py:37 | parsing the formatted date gives the date back |
| `Calendar.FormatParse` | src/latam/utils.py:26-27 | formatting the parse of a canonical `YYYY-MM-DD` text gives that text back |
| `Calendar.MinuteOfDay` | src/latam/utils.py:120-122 | a valid clock is less than 1440 minutes into the day |
| `Calendar.DaysBeforeYearClosed` | src/latam/play_wright.py:19 | the days before a year follow the Gregorian leap-year count 365(y-1) + (y-1)/4 - (y-1)/100 + (y-1)/400 |
| `Calendar.LastDateOrdinal` | src/latam/play_wright.py:19 | 9999-12-31 is valid and has the largest ordinal, 3652059 |
| `Calendar.OrdinalBounds` | src/latam/play_wright.py:19 | every date's ordinal lies in 1..3652059, and it is the maximum exactly on 9999-12-31 |
| `Calendar.NextDay` | src/latam/play_wright.py:19 | adding one day to any date before 9999-12-31 gives a valid date whose ordinal is one greater |
| `AnacLoad.HeaderIndexFrom` | src/anac/load_to_bigquery.py:192-197 | the index found is the first line that is non-blank and does not start with `#`; none is found only when no line qualifies |
| `AnacLoad.FindHeader` | src/anac/load_to_bigquery.py:192-197 | the loop returns exactly the first header line, or nothing |
| `AnacLoad.UnquotedSemicolonsWithoutQuotes` | src/anac/load_to_bigquery.py:211-218 | without quote characters every semicolon counts |
| `AnacLoad.FieldCount` | src/anac/load_to_bigquery.py:209-221 | a header has at least one field; for pipe, tab and comma, and for semicolon when there are no quotes, the count is one more than the occurrences |
| `AnacLoad.QuotedFieldCount` | src/anac/load_to_bigquery.py:211-218 | the quote-toggling loop counts the quote-aware field count |
| `AnacLoad.BestIndexIn` | src/anac/load_to_bigquery.py:208-225 | the chosen candidate has the largest field count, and every earlier candidate has a strictly smaller one (ties keep the earlier) |
| `AnacLoad.BestDelimiter` | src/anac/load_to_bigquery.py:204-225 | the chosen delimiter is one of semicolon, pipe, tab, comma |
| `AnacLoad.SniffDelimiter` | src/anac/load_to_bigquery.py:204-229 | the loop's delimiter is the first candidate of maximal count and `max_fields` is its count; one is always chosen |
| `AnacLoad.BestDelimiterIsFirstMaximum` | src/anac/load_to_bigquery.py:223-225 | the first candidate whose count is maximal is the one chosen |
| `AnacLoad.SingleFieldHeaderGetsSemicolon` | src/anac/load_to_bigquery.py:223-225 | when every candidate counts one field, the semicolon is chosen |
| `AnacLoad.SemicolonWinsAlone` | src/anac/load_to_bigquery.py:204-225 | a header with no pipe, tab or comma is read with the semicolon |
| `AnacLoad.QuotedFieldsFrom` | src/anac/load_to_bigquery.py:232-244 | the quote-aware split yields one more field than unquoted semicolons, and no field keeps a quote |
| `AnacLoad.QuotedFieldsAvoid` | src/anac/load_to_bigquery.py:232-244 | fields hold only characters of the header line |
| `AnacLoad.QuotedFieldsWithoutQuotes` | src/anac/load_to_bigquery.py:232-244 | without quotes the tokenizer splits exactly like `split(';')` |
| `AnacLoad.QuotedSemicolonKept` | src/anac/load_to_bigquery.py:236-244 | in `x;"y";z` the quoted field stays whole, even when it holds semicolons |
| `AnacLoad.StripAll` | src/anac/load_to_bigquery.py:246 | same number of fields, each one stripped |
| `AnacLoad.StripAllStripped` | src/anac/load_to_bigquery.py:246 | stripping already-stripped fields changes nothing |
| `AnacLoad.TokenizeHeader` | src/anac/load_to_bigquery.py:232-246 | the tokenizing loop computes the header fields |
| `AnacLoad.HeaderFieldCount` | src/anac/load_to_bigquery.py:209-246 | the tokenizer yields as many columns as the sniffer counted |
| `AnacLoad.HeaderFieldsClean` | src/anac/load_to_bigquery.py:232-246 | each column name is stripped; it holds no quote when the delimiter is the semicolon, and no delimiter otherwise |
| `AnacLoad.HeaderFieldsAvoid` | src/anac/load_to_bigquery.py:232-246 | a character absent from the header line is absent from every column name |
| `AnacLoad.QuotedHeader` | src/anac/load_to_bigquery.py:204-246 | a header `x;"y";z` is sniffed as three semicolon fields and tokenized to `[x, y, z]` |
| `AnacLoad.FileDateOfArchiveName` | src/anac/load_to_bigquery.py:252 | the file date of `basica<date>.txt` is `<date>` |
| `AnacLoad.NonBlankLinesMembers` | src/anac/load_to_bigquery.py:258-259 | the kept lines are exactly the non-blank lines |
| `AnacLoad.NonBlankLinesEmpty` | src/anac/load_to_bigquery.py:258-271 | no line is kept exactly when every line is blank |
| `AnacLoad.EnhancedRows` | src/anac/load_to_bigquery.py:258-267 | one row per non-blank data line |
| `AnacLoad.EnhancedRowsAt` | src/anac/load_to_bigquery.py:258-267 | row k is the rewrite of the k-th non-blank line, in order |
| `AnacLoad.EnhanceRows` | src/anac/load_to_bigquery.py:256-267 | the row loop over `lines[1:]` computes the enhanced rows |
| `AnacLoad.EnhancedRowShape` | src/anac/load_to_bigquery.py:261-266 | a row starts with file name, delimiter, file date, delimiter; its length adds the stripped line's; the cleaned line has no double quote |
| `AnacLoad.ReplaceCharKeepsOccurrences` | src/anac/load_to_bigquery.py:262-263 | replacing double quotes by single quotes leaves the count of every delimiter unchanged |
| `AnacLoad.EnhancedRowFields` | src/anac/load_to_bigquery.py:266 | for pipe, tab and comma, splitting a row gives the file name, the file date, then the cleaned line's fields |
| `AnacLoad.OutputHeaderFields` | src/anac/load_to_bigquery.py:255 | the header line splits back to `source_file`, `file_date` and the columns |
| `AnacLoad.QuotedHeaderWidensOutput` | src/anac/load_to_bigquery.py:232-274 | a quoted header field holding a semicolon (`x;"y1;y2";z`) stays one column, but the unquoted output header splits into one field more than the columns plus the two provenance fields |
| `AnacLoad.OutputContentLines` | src/anac/load_to_bigquery.py:274 | the content splits at line breaks into the header line followed by the rows |
| `AnacLoad.DetectSchema` | src/anac/load_to_bigquery.py:69-126 | the sample schema detection computes the header fields and delimiter, or fails without a header |
| `AnacLoad.PrepareLoad` | src/anac/load_to_bigquery.py:192-274 | the per-file preparation computes the prepared load or its failure |
| `AnacLoad.PreparedFailures` | src/anac/load_to_bigquery.py:192-271 | the load fails for lack of a header exactly when no line qualifies, and for lack of rows exactly when a header exists and every line after the first is blank |
| `AnacLoad.PreparedShape` | src/anac/load_to_bigquery.py:250-274 | a prepared load has the basename, its file date, one row per non-blank line after the first (at least one), and content made of header line and rows |
| `AnacLoad.AssembleRows` | src/anac/load_to_bigquery.py:250-267 | assembly keeps the schema, and its rows are the rewrites of the non-blank lines after the first |
| `AnacLoad.AssembleContentLines` | src/anac/load_to_bigquery.py:274 | the assembled content splits into the header line followed by the rows |
| `AnacLoad.LateHeaderBecomesRow` | src/anac/load_to_bigquery.py:258 | a header found after line 0 is itself written out as a data row, because the row loop skips only the first line |
| `AnacLoad.AssembleRowFor` | src/anac/load_to_bigquery.py:258-267 | every non-blank line after the first yields a row |
| `AnacDownload.TrimView` | src/anac/aviation.py:147-148 | the result is the link or the link minus a final `/view` |
| `AnacDownload.TrimViewRemovesSuffix` | src/anac/aviation.py:147-148 | a final `/view` is removed |
| `AnacDownload.TrimViewKeepsOthers` | src/anac/aviation.py:147-148 | a link not ending in `/view` is unchanged |
| `AnacDownload.TrimViewOnce` | src/anac/aviation.py:147-148 | only one `/view` is removed |
| `AnacDownload.KeepSafe` | src/anac/aviation.py:151 | only alphanumerics, space, `-` and `_` survive |
| `AnacDownload.KeepSafeAppend` | src/anac/aviation.py:151 | the filter works character by character |
| `AnacDownload.KeepSafeExactly` | src/anac/aviation.py:151 | the filter changes nothing exactly when every character is safe |
| `AnacDownload.SafeText` | src/anac/aviation.py:151 | the safe text is a prefix of the filtered text, all safe characters, no slash |
| `AnacDownload.SafeTextTrailing` | src/anac/aviation.py:151 | the safe text does not end in a space, and only spaces were cut off |
| `AnacDownload.SafeSpaceIsBlank` | src/anac/aviation.py:151 | among safe characters only the space is whitespace |
| `AnacDownload.DownloadFilenameShape` | src/anac/aviation.py:152 | a download name starts with `anac_data_` and ends with `.zip` |
| `AnacDownload.SafeName` | src/anac/aviation.py:152 | the name part has no space and no slash |
| `AnacDownload.DownloadFilenameChars` | src/anac/aviation.py:152 | a download name holds no space and no slash |
| `AnacDownload.SlashReplaceIsNoop` | src/anac/aviation.py:151-152 | the replacement of `/` never changes anything, since the safe text has no slash |
| `AnacDownload.DownloadFilenameIndex` | src/anac/aviation.py:152 | the third underscore-separated piece of a name is the link index |
| `AnacDownload.DownloadFilenameInjective` | src/anac/aviation.py:152 | names built for different indexes differ |
| `AnacDownload.SelectedAt` | src/anac/aviation.py:135-140 | every selected link number is in range and its link has an `href` |
| `AnacDownload.SelectedAppend` | src/anac/aviation.py:135-140 | a new link is selected exactly when it has an `href` |
| `AnacDownload.SelectedOrder` | src/anac/aviation.py:135 | selected link numbers increase strictly |
| `AnacDownload.SelectedCovers` | src/anac/aviation.py:139-140 | every link with an `href` is selected |
| `AnacDownload.Planned` | src/anac/aviation.py:135-152 | one download per selected link |
| `AnacDownload.PlannedAt` | src/anac/aviation.py:135-152 | download k comes from the k-th selected link, numbered from 1 |
| `AnacDownload.PlannedFromLinks` | src/anac/aviation.py:135-152 | every download comes from a link with an `href`, in link order |
| `AnacDownload.PlannedAppend` | src/anac/aviation.py:135-152 | a new link adds its download exactly when it has an `href` |
| `AnacDownload.PlannedCoversLinks` | src/anac/aviation.py:135-152 | every link with an `href` produces its download |
| `AnacDownload.PlannedFilenameAt` | src/anac/aviation.py:137-152 | download k is named from its link number and stripped text |
| `AnacDownload.PlannedNamesDistinct` | src/anac/aviation.py:152 | no two downloads share a file name |
| `AnacDownload.PlanDownloads` | src/anac/aviation.py:135-152 | the link loop computes the planned downloads |
| `AnacDownload.GcsPath` | src/anac/aviation.py:172 | the bucket path lies under `anac_data/` |
| `AnacDownload.GcsPathKeepsName` | src/anac/aviation.py:169-172 | the bucket path keeps the file's basename, with no further directory |
| `AnacDownload.GcsPathOfArchiveMember` | src/anac/aviation.py:169-172 | an extracted `dir/name` goes to `anac_data/name` |
| `AnacDownload.Backoff` | src/anac/aviation.py:53 | the k-th pause is 2 to the k seconds |
| `AnacDownload.BackoffTotal` | src/anac/aviation.py:53 | n pauses total 2^n - 1 seconds |
| `AnacDownload.FirstSuccess` | src/anac/aviation.py:34-54 | the attempt that succeeds is the first successful one; none succeeds only when every attempt fails |
| `AnacDownload.DownloadWithRetries` | src/anac/aviation.py:32-54 | a path is returned exactly when some attempt succeeds; it is `temp_dir/filename`; the pauses are the ones taken before success or the last attempt |
| `AnacDownload.UploadWithRetries` | src/anac/aviation.py:72-89 | the upload succeeds exactly when there is a client and some attempt succeeds; there are no pauses without a client |
| `AnacDownload.RetryBounds` | src/anac/aviation.py:34-54 | at most max_retries - 1 pauses; one per failed attempt before success; 2^(max_retries-1) - 1 seconds in total when all fail |
| `AnacDownload.DefaultRetriesAllFail` | src/anac/aviation.py:32-54 | with the default three attempts all failing, nothing is returned after pauses of 1 and 2 seconds |
| `LatamUrl.QuoteChar` | src/latam/utils.py:45 | a quoted character uses only unreserved characters, `%` and `+` |
| `LatamUrl.QuotePlusChars` | src/latam/utils.py:45 | a quoted text uses only unreserved characters, `%` and `+` |
| `LatamUrl.QuotePlusAppend` | src/latam/utils.py:45 | quoting works character by character |
| `LatamUrl.QuotePlusSafe` | src/latam/utils.py:45 | text of unreserved characters is left as is |
| `LatamUrl.QuotePlusAvoids` | src/latam/utils.py:45 | a quoted text never holds `&` or `=`, so items and pairs stay apart |
| `LatamUrl.EncodedItemsAt` | src/latam/utils.py:45 | item k is the quoted key, `=`, the quoted value of parameter k |
| `LatamUrl.UrlEncodeSplits` | src/latam/utils.py:45 | the encoded query splits at `&` into exactly its items |
| `LatamUrl.QueryItemAt` | src/latam/utils.py:45 | the query has one item per parameter, item k being parameter k encoded |
| `LatamUrl.Outbound` | src/latam/utils.py:26-27 | the outbound timestamp exists exactly when `strptime` accepts the date |
| `LatamUrl.OutboundOfCanonicalDate` | src/latam/utils.py:25-27 | `YYYY-MM-DD` becomes `YYYY-MM-DDT00:00:00.000Z` |
| `LatamUrl.OutboundShape` | src/latam/utils.py:26-27 | the timestamp has 24 characters: the reformatted date, then midnight UTC |
| `LatamUrl.SearchQueryLength` | src/latam/utils.py:29-45 | the query carries exactly the eleven parameters |
| `LatamUrl.SearchQueryOutbound` | src/latam/utils.py:32 | the third item is `outbound=` with the quoted timestamp |
| `LatamUrl.SearchQueryRedemption` | src/latam/utils.py:38 | the ninth item is `redemption=false` |
| `LatamUrl.SearchQuerySort` | src/latam/utils.py:39 | the tenth item is `sort=RECOMMENDED` |
| `LatamUrl.BuildUrl` | src/latam/utils.py:22-45 | a URL is built exactly when the date, or today's date when none is given, parses |
| `LatamUrl.BuildUrlShape` | src/latam/utils.py:29-45 | the URL starts with the offer-search address and its query has eleven items, with `redemption=false` and `sort=RECOMMENDED` |
| `LatamUrl.OutboundItemOfCanonicalDate` | src/latam/utils.py:26-45 | for `YYYY-MM-DD` the outbound item is `outbound=YYYY-MM-DDT00%3A00%3A00.000Z` |
| `LatamUrl.CanonicalDateSafe` | src/latam/utils.py:27 | a canonical date text needs no quoting |
| `LatamUrl.QuoteTimestamp` | src/latam/utils.py:27 | quoting the timestamp encodes just its two colons as `%3A` |
| `LatamCards.Group` | src/latam/utils.py:94-97 | a clock match is four or five characters; a number match is a non-empty digit run |
| `LatamCards.Search` | src/latam/utils.py:94 | `re.search` finds the leftmost match, or none when no position matches |
| `LatamCards.SearchSkips` | src/latam/utils.py:94 | scanning past non-matching positions does not change the result |
| `LatamCards.SearchFindsAny` | src/latam/utils.py:94-96 | any match means the search finds one at or before it |
| `LatamCards.ArrivalTimeIsLeftmost` | src/latam/utils.py:94-97 | no arrival time exactly when no position matches `\d{1,2}:\d{2}`; otherwise the leftmost match, five characters when two hour digits are there, and a clock text |
| `LatamCards.ArrivalTimeOfClock` | src/latam/utils.py:88-97 | a clock text at the front is the arrival time whatever follows it, as in `5:40+1` or `5:40 +1` |
| `LatamCards.DayOffsetOfFirstPlus` | src/latam/utils.py:100-101 | the offset is the number after the first `+` followed by a digit |
| `LatamCards.DayOffsetWithoutPlus` | src/latam/utils.py:100-101 | without `+` the offset is zero |
| `LatamCards.DayOffsetOfNumber` | src/latam/utils.py:100-101 | `t+N` followed by a non-digit gives offset N |
| `LatamCards.UnitValueOfFirst` | src/latam/utils.py:127-130 | a unit's value is the number of its first match |
| `LatamCards.HoursOfText` | src/latam/utils.py:127 | the hours of `H h ...` are H |
| `LatamCards.MinutesOfText` | src/latam/utils.py:128 | the minutes of `H h M min.` are M, not the hours |
| `LatamCards.DurationOfText` | src/latam/utils.py:86-131 | `H h M min.` lasts 60H + M minutes |
| `LatamCards.KeepPriceChars` | src/latam/utils.py:111 | only digits and commas remain |
| `LatamCards.KeepPriceCharsAppend` | src/latam/utils.py:111 | the filter works character by character |
| `LatamCards.KeepPriceCharsCounts` | src/latam/utils.py:111 | digits and commas keep their counts; other characters vanish |
| `LatamCards.DotRemovalIsNoop` | src/latam/utils.py:111 | removing `.` after the filter never changes anything |
| `LatamCards.CleanPriceShape` | src/latam/utils.py:111 | the cleaned price is the filtered text with commas turned into dots: only digits and dots, as many dots as the source had commas |
| `LatamCards.CleanPriceLength` | src/latam/utils.py:111 | the cleaning drops exactly the characters the filter removes |
| `LatamCards.FloatParsesCleanPrice` | src/latam/utils.py:111-112 | `float(num)` succeeds exactly when the price text has at most one comma and at least one digit |
| `LatamCards.ParseCard` | src/latam/utils.py:73-145 | a parsed card departs on a day no later than its arrival, at clock minutes below 1440, with a price `float` accepts |
| `LatamCards.ParseCardDays` | src/latam/utils.py:119-124 | departure is on the flight date, arrival N days later for `+N`, never past 9999-12-31 |
| `LatamCards.ParseCardClocks` | src/latam/utils.py:76-124 | the departure and arrival clocks are the parsed `%H:%M` of the stripped departure and of the arrival's first clock |
| `LatamCards.ParseCardFields` | src/latam/utils.py:76-141 | origin, destination and operator are the stripped texts; duration and price come from their texts |
| `LatamCards.ParseCardSucceeds` | src/latam/utils.py:73-145 | a card yields a flight exactly when every element is present, the arrival has a clock, the price parses, the date and clocks parse, and the arrival does not overflow the calendar |
| `LatamCards.NoArrivalTimeSkips` | src/latam/utils.py:94-96 | a card without an arrival clock is skipped |
| `LatamCards.CollectAppend` | src/latam/utils.py:73-147 | the collection over two runs of cards is the concatenation |
| `LatamCards.CollectMembers` | src/latam/utils.py:73-147 | a flight is collected exactly when some card parses to it |
| `LatamCards.CollectNothing` | src/latam/utils.py:73-147 | nothing is collected when every card is skipped |
| `LatamCards.Extracted` | src/latam/utils.py:68-147 | at most one flight per card |
| `LatamCards.ExtractFlightCards` | src/latam/utils.py:68-147 | the card loop computes the extracted flights |
| `LatamCards.ExtractedAppend` | src/latam/utils.py:73-147 | extraction over two runs of cards is the concatenation |
| `LatamCards.ExtractedMembers` | src/latam/utils.py:73-147 | a flight is extracted exactly when some card parses to it |
| `LatamCards.ExtractedInvalidDate` | src/latam/utils.py:119-145 | with an unparsable flight date no flight is extracted |
| `LatamRun.DayCount` | src/latam/play_wright.py:15-19 | the number of days never runs past 9999-12-31 |
| `LatamRun.Consecutive` | src/latam/play_wright.py:15-19 | n valid dates |
| `LatamRun.ConsecutiveAt` | src/latam/play_wright.py:15-19 | the k-th date is k days after the start |
| `LatamRun.ConsecutiveStep` | src/latam/play_wright.py:17-19 | yielding the current day and moving to the next leaves one day fewer to go |
| `LatamRun.DateRange` | src/latam/play_wright.py:15-19 | the generator yields the days from start to end inclusive, and overflows exactly when it would step past 9999-12-31 |
| `LatamRun.DateRangeDays` | src/latam/flights.py:14-18 | the yielded days start at the start date, go up by one, stay at or before the end, and the last is the end |
| `LatamRun.CollectFlights` | src/latam/play_wright.py:36-49 | the run fails exactly when the range reaches 9999-12-31; otherwise it returns the flights of each day in date order |
| `LatamRun.AllFlightsAppend` | src/latam/play_wright.py:36-49 | extending over two runs of days concatenates their flights |
| `LatamRun.AllFlightsLength` | src/latam/play_wright.py:36-49 | the number of flights is the sum of the per-day counts |
| `LatamRun.FlightsOnDepartDay` | src/latam/play_wright.py:37-47 | every flight found for a day departs on that day |
| `LatamRun.AllFlightsDepartDays` | src/latam/play_wright.py:36-49 | every collected flight departs on one of the range's days |
| `LatamRun.AllFlightsInDateOrder` | src/latam/play_wright.py:36-49 | for increasing days, the collected flights are ordered by departure day |
| `LatamRun.RangeInDateOrder` | src/latam/play_wright.py:36-49 | the flights of a date range are ordered by departure day |

## Left out

- Encoding probing (`load_to_bigquery.py` 50-66 and 173-189): the model starts from the decoded text.
- The bucket listing and the warehouse table and job: these are network services; `load_all_anac_data`, `create_unified_table` and `list_anac_files` orchestrate them.
- `init_clients`, `init_gcs_client` and `process_anac_data`'s page loading and temporary directories: these are network or file-system set-up.
- `extract_zip`: it depends on the archive library and the file system. The model starts from the extracted file paths (`GcsPathOfArchiveMember`).
- `extract_flights_data` in `src/latam/flights.py`, `click_if_present` and the browser calls in `main`: these are browser automation. The cards of a page are a parameter.
- `src/extract_latam.py`, `src/config.py` and `src/latam/load_to_bigquery.py` are not part of this model.
- Logging and `print` are left out.
- `AnacDownload.PlanDownloads`: `urlparse`/`urljoin` are an abstract `resolve` parameter. The download, extraction and upload steps are not chained after each link.
- `AnacDownload.DownloadWithRetries`: the outcome of each attempt is a parameter, and the pauses are returned as values instead of slept. The streamed write is not modelled.
- `AnacDownload.UploadWithRetries`: the outcome of each attempt is a parameter, and the pauses are returned as values.
- `AnacDownload.IsAlnum`: `str.isalnum` is modelled for ASCII and Latin-1 letters and digits only (up to U+00FF).
- `LatamCards.Search`: `\d` is read as the ASCII digits. Python's `re` also matches the other Unicode decimal digits.
- `LatamCards.KeepPriceChars`: `[^\d,]` keeps only the ASCII digits and commas. Python's `re.sub` also keeps the other Unicode decimal digits, so a price written with them is cleaned to a different text.
- `LatamCards.FloatParsesCleanPrice`: the digits `float` accepts are the ASCII ones. Python's `float` also accepts other Unicode decimal digits, which the model counts as no digit.
- `LatamCards.ParseCard`: because of the ASCII reading of `\d`, `int` and `float`, a card whose clock, offset, duration or price uses non-ASCII decimal digits is parsed differently or skipped.
- `Calendar.ParseClock`: `%H` and `%M` are read over the ASCII digits. `strptime` also accepts other Unicode decimal digits there (`٥:15`).
- `Calendar.FormatIsoDate`: `%Y` is written as four zero-padded digits; CPython leaves years below 1000 unpadded on some platforms.
- `Calendar.ParseIsoDate`: the `\d` of the `strptime` patterns is read as the ASCII digits.
- `LatamCards.ParseCard`: the flight date and the clock are parsed separately instead of by one `strptime` of the joined `"%Y-%m-%d %H:%M"` text. Whitespace that `strptime` would tolerate inside the joined text is not modelled.
- `LatamCards.ParseCard`: the price is kept as the cleaned text, together with the condition under which `float` accepts it. The floating-point value is not modelled.
- `LatamCards.ParseCard`: the duration is whole minutes (60h + m) instead of the float hours + m/60.
- `LatamCards.ParseCard`: `query_time = datetime.now()` is left out.
- `LatamCards.ParseCard`: date-times are a day ordinal plus a minute of the day.
- `LatamCards.ParseCard`: a missing page element is a `None` field of the card.
- `LatamUrl.BuildUrl`: `datetime.now()` and `uuid4()` are the `today` and `expId` parameters.
- `LatamUrl.QuotePlus`: non-ASCII characters are percent-encoded from their UTF-8 bytes. That the resulting bytes match CPython's is not proved.
- `LatamRun.CollectFlights`: the pages are a `pageOn` parameter, and navigation, waits and printing are left out. The `OverflowError` that `date_range` raises after yielding 9999-12-31 is modelled as the run returning `None`, since `main` does not catch it.
