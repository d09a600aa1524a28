/** The text parsing of `extract_flight_cards` (src/latam/utils.py): the
    three regular-expression searches it runs on the texts of a flight card,
    the price cleaning, the conversion of one card into a flight record, and
    the loop over the cards that skips every card on which a step fails. */
module LatamCards {
  import opened Wrappers
  import opened Text
  import opened Calendar

  // ---------------------------------------------------------------------
  // The regular expressions

  /** The three patterns the card parser searches for. */
  datatype Pattern =
    | ClockText             // (\d{1,2}:\d{2})
    | PlusNumber            // \+(\d+)
    | NumberThen(unit: char) // (\d+)\s*<unit>

  /** The end of the run of digits that starts at `i`. */
  function DigitRunEnd(s: string, i: nat): (e: nat)
    requires i <= |s|
    ensures i <= e <= |s|
    ensures forall k :: i <= k < e ==> IsDigit(s[k])
    ensures e < |s| ==> !IsDigit(s[e])
    decreases |s| - i
  {
    if i < |s| && IsDigit(s[i]) then DigitRunEnd(s, i + 1) else i
  }

  /** `\d\d:\d\d` at `q`: the form the greedy `\d{1,2}` tries first. */
  predicate TwoDigitClockAt(s: string, q: nat) {
    q + 5 <= |s| && IsDigit(s[q]) && IsDigit(s[q + 1]) && s[q + 2] == ':'
    && IsDigit(s[q + 3]) && IsDigit(s[q + 4])
  }

  /** `\d:\d\d` at `q`: the form tried when the first one fails. */
  predicate OneDigitClockAt(s: string, q: nat) {
    q + 4 <= |s| && IsDigit(s[q]) && s[q + 1] == ':' && IsDigit(s[q + 2]) && IsDigit(s[q + 3])
  }

  /** `\s*` followed by `unit`, from position `e` on. */
  predicate UnitAfter(s: string, e: nat, unit: char)
    requires e <= |s|
  {
    SpanStart(s, e) < |s| && s[SpanStart(s, e)] == unit
  }

  /** The pattern matches at position `q`. With greedy quantifiers the digit
      run of `\+(\d+)` and of `(\d+)\s*<unit>` is always the longest one, since
      giving a digit back leaves a digit where `\s`, `<unit>` or the end of the
      group would have to be. */
  predicate MatchesAt(p: Pattern, s: string, q: nat) {
    match p
    case ClockText => TwoDigitClockAt(s, q) || OneDigitClockAt(s, q)
    case PlusNumber => q + 1 < |s| && s[q] == '+' && IsDigit(s[q + 1])
    case NumberThen(unit) => q < |s| && IsDigit(s[q]) && UnitAfter(s, DigitRunEnd(s, q), unit)
  }

  /** `group(1)` of a match at `q`. */
  function Group(p: Pattern, s: string, q: nat): (g: string)
    requires MatchesAt(p, s, q)
    ensures p.ClockText? ==> |g| == 4 || |g| == 5
    ensures !p.ClockText? ==> |g| > 0 && AllDigits(g)
  {
    match p
    case ClockText => if TwoDigitClockAt(s, q) then s[q..q + 5] else s[q..q + 4]
    case PlusNumber => s[q + 1..DigitRunEnd(s, q + 1)]
    case NumberThen(_) => s[q..DigitRunEnd(s, q)]
  }

  /** `re.search(p, s[from:])`: the leftmost position at or after `from`
      where the pattern matches. */
  function Search(p: Pattern, s: string, from: nat): (r: Option<nat>)
    requires from <= |s|
    ensures r.Some? ==> from <= r.value < |s| && MatchesAt(p, s, r.value)
    ensures r.Some? ==> forall q :: from <= q < r.value ==> !MatchesAt(p, s, q)
    ensures r.None? ==> forall q :: from <= q < |s| ==> !MatchesAt(p, s, q)
    decreases |s| - from
  {
    if from == |s| then None
    else if MatchesAt(p, s, from) then Some(from)
    else Search(p, s, from + 1)
  }

  /** Positions without a match can be skipped. */
  lemma {:induction false} SearchSkips(p: Pattern, s: string, from: nat, to: nat)
    requires from <= to <= |s|
    requires forall q :: from <= q < to ==> !MatchesAt(p, s, q)
    ensures Search(p, s, from) == Search(p, s, to)
    decreases (to as int) - (from as int)
  {
    if from < to {
      SearchSkips(p, s, from + 1, to);
    }
  }

  /** `re.search` finds a match exactly when there is one somewhere. */
  lemma SearchFindsAny(p: Pattern, s: string, q: nat)
    requires q < |s| && MatchesAt(p, s, q)
    ensures Search(p, s, 0).Some? && Search(p, s, 0).value <= q
  {
  }

  // ---------------------------------------------------------------------
  // Arrival time, day offset and duration

  /** The `HH:MM` part of the arrival text, or `None` when the card is skipped. */
  function ArrivalTime(raw: string): Option<string> {
    match Search(ClockText, raw, 0)
    case None => None
    case Some(q) => Some(Group(ClockText, raw, q))
  }

  /** The number of days to add for a `+N` in the arrival text; 0 without one. */
  function DayOffset(raw: string): nat {
    match Search(PlusNumber, raw, 0)
    case None => 0
    case Some(q) => DigitsValue(Group(PlusNumber, raw, q))
  }

  /** The number before the first `unit` (after optional whitespace); 0 without one. */
  function UnitValue(s: string, unit: char): nat {
    match Search(NumberThen(unit), s, 0)
    case None => 0
    case Some(q) => DigitsValue(Group(NumberThen(unit), s, q))
  }

  /** The duration in whole minutes: the hours before `h` and the minutes
      before `m`. */
  function DurationMinutes(s: string): nat {
    60 * UnitValue(s, 'h') + UnitValue(s, 'm')
  }

  /** A clock text as the arrival search returns it: `D:DD` or `DD:DD`. */
  predicate IsClockText(t: string) {
    (|t| == 4 && OneDigitClockAt(t, 0)) || (|t| == 5 && TwoDigitClockAt(t, 0))
  }

  /** The arrival time is the leftmost clock-shaped part of the text, taking
      two hour digits where there are two; without one the card is skipped. */
  lemma ArrivalTimeIsLeftmost(raw: string)
    ensures ArrivalTime(raw).None? <==> forall q :: 0 <= q < |raw| ==> !MatchesAt(ClockText, raw, q)
    ensures ArrivalTime(raw).Some? ==>
              exists q :: 0 <= q < |raw| && MatchesAt(ClockText, raw, q)
                          && (forall p :: 0 <= p < q ==> !MatchesAt(ClockText, raw, p))
                          && ArrivalTime(raw).value == raw[q..q + |ArrivalTime(raw).value|]
                          && (|ArrivalTime(raw).value| == 5 <==> TwoDigitClockAt(raw, q))
    ensures ArrivalTime(raw).Some? ==> IsClockText(ArrivalTime(raw).value)
  {
    var r := Search(ClockText, raw, 0);
    if r.Some? {
      var q := r.value;
      var t := Group(ClockText, raw, q);
      if TwoDigitClockAt(raw, q) {
        assert t == raw[q..q + 5];
        assert TwoDigitClockAt(t, 0);
      } else {
        assert t == raw[q..q + 4];
        assert OneDigitClockAt(t, 0);
      }
    }
  }

  /** A text that starts with a clock gives that clock, whatever follows,
      as in `5:40`, `5:40+1` and `5:40 +1`. */
  lemma ArrivalTimeOfClock(t: string, rest: string)
    requires IsClockText(t)
    ensures ArrivalTime(t + rest) == Some(t)
  {
    var s := t + rest;
    if |t| == 5 {
      assert TwoDigitClockAt(s, 0);
      assert s[0..5] == t;
    } else {
      assert !TwoDigitClockAt(s, 0);
      assert OneDigitClockAt(s, 0);
      assert s[0..4] == t;
    }
  }

  /** The offset is the number after the first `+` that has a digit after it. */
  lemma DayOffsetOfFirstPlus(raw: string, q: nat)
    requires q < |raw| && MatchesAt(PlusNumber, raw, q)
    requires forall p :: 0 <= p < q ==> !MatchesAt(PlusNumber, raw, p)
    ensures DayOffset(raw) == DigitsValue(raw[q + 1..DigitRunEnd(raw, q + 1)])
  {
    SearchSkips(PlusNumber, raw, 0, q);
  }

  /** Without a `+` the offset is 0. */
  lemma DayOffsetWithoutPlus(raw: string)
    requires '+' !in raw
    ensures DayOffset(raw) == 0
  {
    forall q | 0 <= q < |raw| ensures !MatchesAt(PlusNumber, raw, q) {
      assert raw[q] in raw;
    }
  }

  /** `"+" + str(n)` after a text without `+` gives back `n`. */
  lemma DayOffsetOfNumber(t: string, n: nat, rest: string)
    requires '+' !in t
    requires rest == [] || !IsDigit(rest[0])
    ensures DayOffset(t + "+" + NatToString(n) + rest) == n
  {
    var digits := NatToString(n);
    var s := t + "+" + digits + rest;
    var q := |t|;
    forall p | 0 <= p < q ensures !MatchesAt(PlusNumber, s, p) {
      assert s[p] == t[p] && t[p] in t;
    }
    assert s[q] == '+' && s[q + 1] == digits[0];
    forall k | q + 1 <= k < q + 1 + |digits| ensures IsDigit(s[k]) {
      assert s[k] == digits[k - q - 1];
    }
    assert q + 1 + |digits| < |s| ==> s[q + 1 + |digits|] == rest[0];
    DigitRunAt(s, q + 1, |digits|);
    assert s[q + 1..q + 1 + |digits|] == digits;
    DayOffsetOfFirstPlus(s, q);
    DigitsValueOfNatToString(n);
  }

  /** A run of digits followed by a non-digit ends where the digits end. */
  lemma DigitRunAt(s: string, i: nat, n: nat)
    requires i + n <= |s|
    requires forall k :: i <= k < i + n ==> IsDigit(s[k])
    requires i + n == |s| || !IsDigit(s[i + n])
    ensures DigitRunEnd(s, i) == i + n
  {
  }

  /** A number followed by whitespace and `unit` matches where the number
      starts, and the number is the group. */
  lemma NumberThenMatch(s: string, i: nat, n: nat, gap: nat, unit: char)
    requires 0 < n && i + n + gap < |s|
    requires forall k :: i <= k < i + n ==> IsDigit(s[k])
    requires forall k :: i + n <= k < i + n + gap ==> IsSpace(s[k])
    requires s[i + n + gap] == unit && !IsDigit(unit) && !IsSpace(unit)
    ensures MatchesAt(NumberThen(unit), s, i)
    ensures Group(NumberThen(unit), s, i) == s[i..i + n]
  {
    if gap > 0 {
      assert !IsDigit(s[i + n]);
    }
    DigitRunAt(s, i, n);
    assert SpanStart(s, i + n) == i + n + gap;
  }

  /** Inside a run of digits, every position's run ends at the same place. */
  lemma {:induction false} DigitRunFrom(s: string, i: nat, q: nat)
    requires i <= |s| && i <= q <= DigitRunEnd(s, i)
    ensures DigitRunEnd(s, q) == DigitRunEnd(s, i)
    decreases q - i
  {
    if i < q {
      DigitRunFrom(s, i + 1, q);
    }
  }

  /** The first number followed by `unit` is the one `UnitValue` reads. */
  lemma UnitValueOfFirst(s: string, q: nat, unit: char, digits: string)
    requires q < |s| && MatchesAt(NumberThen(unit), s, q)
    requires forall p :: 0 <= p < q ==> !MatchesAt(NumberThen(unit), s, p)
    requires Group(NumberThen(unit), s, q) == digits
    ensures UnitValue(s, unit) == DigitsValue(digits)
  {
    SearchSkips(NumberThen(unit), s, 0, q);
  }

  /** In `H h ...` no position up to the `h` and the space after it starts
      a number followed by `m`. */
  lemma NoMinutesBefore(hs: string, tail: string)
    requires |hs| > 0 && AllDigits(hs)
    ensures forall p :: 0 <= p < |hs| + 3 ==> !MatchesAt(NumberThen('m'), hs + " h " + tail, p)
  {
    var s := hs + " h " + tail;
    HoursText(hs, tail);
    NumberThenMatch(s, 0, |hs|, 1, 'h');
    forall p | 0 <= p < |hs| + 3 ensures !MatchesAt(NumberThen('m'), s, p) {
      if p < |hs| {
        DigitRunFrom(s, 0, p);
      }
    }
  }

  /** The characters of `H h ...`. */
  lemma HoursText(hs: string, tail: string)
    requires |hs| > 0 && AllDigits(hs)
    ensures forall k :: 0 <= k < |hs| ==> IsDigit((hs + " h " + tail)[k])
    ensures (hs + " h " + tail)[|hs|] == ' ' && (hs + " h " + tail)[|hs| + 1] == 'h'
    ensures (hs + " h " + tail)[|hs| + 2] == ' '
    ensures (hs + " h " + tail)[..|hs|] == hs
  {
    var s := hs + " h " + tail;
    forall k | 0 <= k < |hs| ensures IsDigit(s[k]) {
      assert s[k] == hs[k];
    }
  }

  /** In `H h ...` the hours are `H`. */
  lemma HoursOfText(hs: string, tail: string)
    requires |hs| > 0 && AllDigits(hs)
    ensures UnitValue(hs + " h " + tail, 'h') == DigitsValue(hs)
  {
    var s := hs + " h " + tail;
    HoursText(hs, tail);
    NumberThenMatch(s, 0, |hs|, 1, 'h');
    UnitValueOfFirst(s, 0, 'h', hs);
  }

  /** The characters of `H h M min.` around the minutes. */
  lemma MinutesText(hs: string, ms: string)
    requires |ms| > 0 && AllDigits(ms)
    ensures forall k :: |hs| + 3 <= k < |hs| + 3 + |ms| ==> IsDigit((hs + " h " + (ms + " min."))[k])
    ensures (hs + " h " + (ms + " min."))[|hs| + 3 + |ms|] == ' '
    ensures (hs + " h " + (ms + " min."))[|hs| + 4 + |ms|] == 'm'
    ensures (hs + " h " + (ms + " min."))[|hs| + 3..|hs| + 3 + |ms|] == ms
  {
    var s := hs + " h " + (ms + " min.");
    forall k | |hs| + 3 <= k < |hs| + 3 + |ms| ensures IsDigit(s[k]) {
      assert s[k] == ms[k - |hs| - 3];
    }
  }

  /** In `H h M min.` the minutes are `M`. */
  lemma MinutesOfText(hs: string, ms: string)
    requires |hs| > 0 && AllDigits(hs) && |ms| > 0 && AllDigits(ms)
    ensures UnitValue(hs + " h " + (ms + " min."), 'm') == DigitsValue(ms)
  {
    var s := hs + " h " + (ms + " min.");
    MinutesText(hs, ms);
    NumberThenMatch(s, |hs| + 3, |ms|, 1, 'm');
    NoMinutesBefore(hs, ms + " min.");
    UnitValueOfFirst(s, |hs| + 3, 'm', ms);
  }

  /** The rendering `H h M min.` gives back `H` hours and `M` minutes. */
  lemma DurationOfText(h: nat, m: nat)
    ensures DurationMinutes(NatToString(h) + " h " + NatToString(m) + " min.") == 60 * h + m
  {
    var hs, ms := NatToString(h), NatToString(m);
    HoursOfText(hs, ms + " min.");
    assert hs + " h " + (ms + " min.") == hs + " h " + ms + " min.";
    MinutesOfText(hs, ms);
    DigitsValueOfNatToString(h);
    DigitsValueOfNatToString(m);
  }

  // ---------------------------------------------------------------------
  // Price

  /** The characters `[\d,]` keeps. */
  predicate IsPriceChar(c: char) { IsDigit(c) || c == ',' }

  /** `re.sub(r'[^\d,]', '', s)`: the digits and commas, in order. */
  function KeepPriceChars(s: string): (r: string)
    ensures |r| <= |s|
    ensures forall k :: 0 <= k < |r| ==> IsPriceChar(r[k])
  {
    if s == [] then [] else (if IsPriceChar(s[0]) then [s[0]] else []) + KeepPriceChars(s[1..])
  }

  /** The cleaned price text: digits and commas kept, dots removed, commas
      turned into decimal points. */
  function CleanPrice(s: string): string {
    ReplaceChar(RemoveAll(KeepPriceChars(s), "."), ',', '.')
  }

  /** What `float` accepts among texts of digits and dots: at least one
      digit and at most one dot, as in `1234.56`, `12.` and `.5`. */
  predicate FloatParses(num: string) {
    (forall k :: 0 <= k < |num| ==> IsDigit(num[k]) || num[k] == '.')
    && Occurrences(num, '.') <= 1 && exists k :: 0 <= k < |num| && IsDigit(num[k])
  }

  /** Filtering works piece by piece. */
  lemma {:induction false} KeepPriceCharsAppend(a: string, b: string)
    ensures KeepPriceChars(a + b) == KeepPriceChars(a) + KeepPriceChars(b)
  {
    if a == [] {
      assert a + b == b;
    } else {
      assert (a + b)[0] == a[0] && (a + b)[1..] == a[1..] + b;
      KeepPriceCharsAppend(a[1..], b);
    }
  }

  /** Every digit and every comma is kept, and nothing else. */
  lemma {:induction false} KeepPriceCharsCounts(s: string, c: char)
    ensures Occurrences(KeepPriceChars(s), c) == if IsPriceChar(c) then Occurrences(s, c) else 0
  {
    if s != [] {
      KeepPriceCharsCounts(s[1..], c);
      var head := if IsPriceChar(s[0]) then [s[0]] else [];
      OccurrencesAppend(head, KeepPriceChars(s[1..]), c);
    }
  }

  lemma {:induction false} OccurrencesAppend(a: string, b: string, c: char)
    ensures Occurrences(a + b, c) == Occurrences(a, c) + Occurrences(b, c)
  {
    if a == [] {
      assert a + b == b;
    } else {
      assert (a + b)[0] == a[0] && (a + b)[1..] == a[1..] + b;
      OccurrencesAppend(a[1..], b, c);
    }
  }

  /** Removing the dots after the filter changes nothing: no dot is left. */
  lemma DotRemovalIsNoop(s: string)
    ensures RemoveAll(KeepPriceChars(s), ".") == KeepPriceChars(s)
  {
    var kept := KeepPriceChars(s);
    assert '.' !in kept by {
      forall k | 0 <= k < |kept| ensures kept[k] != '.' {
        assert IsPriceChar(kept[k]);
      }
    }
    RemoveAllKeeps(kept, [], ".");
    assert kept + [] == kept;
  }

  /** The cleaned price has one character per digit or comma of the text,
      each digit in place and each comma turned into a dot, so it holds
      only digits and dots and as many dots as the text had commas. */
  lemma CleanPriceShape(s: string)
    ensures |CleanPrice(s)| == |KeepPriceChars(s)|
    ensures forall k :: 0 <= k < |CleanPrice(s)| ==>
              CleanPrice(s)[k] == (if KeepPriceChars(s)[k] == ',' then '.' else KeepPriceChars(s)[k])
    ensures forall k :: 0 <= k < |CleanPrice(s)| ==> IsDigit(CleanPrice(s)[k]) || CleanPrice(s)[k] == '.'
    ensures Occurrences(CleanPrice(s), '.') == Occurrences(s, ',')
  {
    DotRemovalIsNoop(s);
    var kept := KeepPriceChars(s);
    ReplaceCounts(kept, ',', '.');
    KeepPriceCharsCounts(s, ',');
    KeepPriceCharsCounts(s, '.');
  }

  /** `replace(a, b)` turns every `a` into a `b`. */
  lemma {:induction false} ReplaceCounts(s: string, a: char, b: char)
    requires a != b
    ensures Occurrences(ReplaceChar(s, a, b), b) == Occurrences(s, a) + Occurrences(s, b)
  {
    if s != [] {
      ReplaceCounts(s[1..], a, b);
      assert ReplaceChar(s, a, b)[1..] == ReplaceChar(s[1..], a, b);
    }
  }

  /** The cleaned price is as long as the text without the characters the
      filter drops, that is, as the number of digits and commas in the text. */
  lemma CleanPriceLength(s: string)
    ensures |CleanPrice(s)| == |s| - |RemovedByFilter(s)|
  {
    DotRemovalIsNoop(s);
    FilterSplits(s);
  }

  /** The characters the filter drops. */
  function RemovedByFilter(s: string): (r: string)
    ensures forall k :: 0 <= k < |r| ==> !IsPriceChar(r[k])
  {
    if s == [] then [] else (if IsPriceChar(s[0]) then [] else [s[0]]) + RemovedByFilter(s[1..])
  }

  /** Every character is either kept or dropped. */
  lemma {:induction false} FilterSplits(s: string)
    ensures |KeepPriceChars(s)| + |RemovedByFilter(s)| == |s|
  {
    if s != [] {
      FilterSplits(s[1..]);
    }
  }

  /** A digit of the cleaned price comes from a digit of the text. */
  lemma DigitOfCleanPrice(s: string, k: nat)
    requires k < |CleanPrice(s)| && IsDigit(CleanPrice(s)[k])
    ensures exists j :: 0 <= j < |s| && IsDigit(s[j])
  {
    CleanPriceShape(s);
    var d := CleanPrice(s)[k];
    assert KeepPriceChars(s)[k] == d;
    KeepPriceCharsCounts(s, d);
    assert d in KeepPriceChars(s);
    assert d in s;
    var j :| 0 <= j < |s| && s[j] == d;
  }

  /** A digit of the text reaches the cleaned price. */
  lemma DigitReachesCleanPrice(s: string, j: nat)
    requires j < |s| && IsDigit(s[j])
    ensures exists k :: 0 <= k < |CleanPrice(s)| && IsDigit(CleanPrice(s)[k])
  {
    CleanPriceShape(s);
    var d := s[j];
    assert d in s;
    KeepPriceCharsCounts(s, d);
    assert d in KeepPriceChars(s);
    var k :| 0 <= k < |KeepPriceChars(s)| && KeepPriceChars(s)[k] == d;
    assert IsDigit(CleanPrice(s)[k]);
  }

  /** `float` accepts the cleaned price exactly when the text holds a digit
      and at most one comma. */
  lemma FloatParsesCleanPrice(s: string)
    ensures FloatParses(CleanPrice(s)) <==>
              Occurrences(s, ',') <= 1 && exists j :: 0 <= j < |s| && IsDigit(s[j])
  {
    CleanPriceShape(s);
    var num := CleanPrice(s);
    if k :| 0 <= k < |num| && IsDigit(num[k]) {
      DigitOfCleanPrice(s, k);
    }
    if j :| 0 <= j < |s| && IsDigit(s[j]) {
      DigitReachesCleanPrice(s, j);
    }
  }

  // ---------------------------------------------------------------------
  // Cards

  /** The texts a flight card shows, one per selector the parser queries;
      `None` where the selector finds nothing, so that reading the text
      raises. */
  datatype Card = Card(departure: Option<string>, origin: Option<string>,
                       duration: Option<string>, arrival: Option<string>,
                       destination: Option<string>, amount: Option<string>,
                       operator: Option<string>)

  /** A `datetime` on the minute: the day number (`toordinal()`) and the
      minute of that day. */
  datatype Moment = Moment(day: int, minute: nat)

  /** The record appended for a card; `query_time` (`datetime.now()`) is not
      part of it. */
  datatype Flight = Flight(depart: Moment, arrive: Moment, origin: string, destination: string,
                           durationMinutes: nat, price: string, operator: string)

  /** The body of the loop for one card: `None` where the card is skipped,
      either by the explicit `continue` (no arrival time) or because a step
      raises (a missing element, a price `float` rejects, a date or a clock
      `strptime` rejects, an arrival past the last representable date). */
  function ParseCard(card: Card, flightDate: string): (r: Option<Flight>)
    ensures r.Some? ==> r.value.arrive.day - r.value.depart.day >= 0
    ensures r.Some? ==> r.value.depart.minute < 1440 && r.value.arrive.minute < 1440
    ensures r.Some? ==> FloatParses(r.value.price)
  {
    if card.departure.None? || card.origin.None? || card.duration.None? || card.arrival.None? then None
    else
      var arrival := Strip(card.arrival.value);
      match ArrivalTime(arrival)
      case None => None
      case Some(timePart) =>
        var days := DayOffset(arrival);
        if card.destination.None? || card.amount.None? then None
        else
          var num := CleanPrice(card.amount.value);
          if !FloatParses(num) || card.operator.None? then None
          else
            match (ParseIsoDate(flightDate), ParseClock(Strip(card.departure.value)), ParseClock(timePart))
            case (Some(d), Some(dep), Some(arr)) =>
              if Ordinal(d) + days > MaxOrdinal then None
              else
                Some(Flight(Moment(Ordinal(d), MinuteOfDay(dep)), Moment(Ordinal(d) + days, MinuteOfDay(arr)),
                            Strip(card.origin.value), Strip(card.destination.value),
                            DurationMinutes(Strip(card.duration.value)), num, Strip(card.operator.value)))
            case _ => None
  }

  /** The arrival is the flight date, at the arrival clock, plus the day
      offset; so the days between departure and arrival are the offset, the
      departure is on the flight date, and the arrival is a date `datetime`
      can hold. */
  lemma ParseCardDays(card: Card, flightDate: string)
    requires ParseCard(card, flightDate).Some?
    ensures card.arrival.Some? && ParseIsoDate(flightDate).Some?
    ensures ParseCard(card, flightDate).value.depart.day == Ordinal(ParseIsoDate(flightDate).value)
    ensures ParseCard(card, flightDate).value.arrive.day - ParseCard(card, flightDate).value.depart.day
            == DayOffset(Strip(card.arrival.value))
    ensures ParseCard(card, flightDate).value.arrive.day <= MaxOrdinal
  {
  }

  /** The clocks are read from the departure text and from the time part of
      the arrival text. */
  lemma ParseCardClocks(card: Card, flightDate: string)
    requires ParseCard(card, flightDate).Some?
    ensures card.departure.Some? && card.arrival.Some?
    ensures ArrivalTime(Strip(card.arrival.value)).Some?
    ensures ParseClock(Strip(card.departure.value)).Some?
    ensures ParseClock(ArrivalTime(Strip(card.arrival.value)).value).Some?
    ensures ParseCard(card, flightDate).value.depart.minute
            == MinuteOfDay(ParseClock(Strip(card.departure.value)).value)
    ensures ParseCard(card, flightDate).value.arrive.minute
            == MinuteOfDay(ParseClock(ArrivalTime(Strip(card.arrival.value)).value).value)
  {
  }

  /** The other fields are the card's stripped texts, the duration in
      minutes and the cleaned price. */
  lemma ParseCardFields(card: Card, flightDate: string)
    requires ParseCard(card, flightDate).Some?
    ensures card.origin.Some? && card.destination.Some? && card.duration.Some?
    ensures card.amount.Some? && card.operator.Some?
    ensures ParseCard(card, flightDate).value.origin == Strip(card.origin.value)
    ensures ParseCard(card, flightDate).value.destination == Strip(card.destination.value)
    ensures ParseCard(card, flightDate).value.operator == Strip(card.operator.value)
    ensures ParseCard(card, flightDate).value.durationMinutes == DurationMinutes(Strip(card.duration.value))
    ensures ParseCard(card, flightDate).value.price == CleanPrice(card.amount.value)
  {
  }

  /** A card is kept exactly when every element is there, the arrival text
      holds a time, `float` accepts the price, `strptime` accepts the date and
      both clocks, and the arrival stays within the representable dates. */
  lemma ParseCardSucceeds(card: Card, flightDate: string)
    ensures ParseCard(card, flightDate).Some? <==>
              card.departure.Some? && card.origin.Some? && card.duration.Some? && card.arrival.Some?
              && card.destination.Some? && card.amount.Some? && card.operator.Some?
              && ArrivalTime(Strip(card.arrival.value)).Some?
              && FloatParses(CleanPrice(card.amount.value))
              && ParseIsoDate(flightDate).Some?
              && ParseClock(Strip(card.departure.value)).Some?
              && ParseClock(ArrivalTime(Strip(card.arrival.value)).value).Some?
              && Ordinal(ParseIsoDate(flightDate).value) + DayOffset(Strip(card.arrival.value)) <= MaxOrdinal
  {
  }

  /** A card without an arrival time is skipped. */
  lemma NoArrivalTimeSkips(card: Card, flightDate: string)
    requires card.arrival.Some?
    requires forall q :: 0 <= q < |Strip(card.arrival.value)| ==> !MatchesAt(ClockText, Strip(card.arrival.value), q)
    ensures ParseCard(card, flightDate).None?
  {
    ArrivalTimeIsLeftmost(Strip(card.arrival.value));
  }

  // ---------------------------------------------------------------------
  // The loop over the cards

  /** The values `parse` gives for the cards it does not reject, in card
      order. */
  function Collect(cards: seq<Card>, parse: Card -> Option<Flight>): (r: seq<Flight>)
    ensures |r| <= |cards|
  {
    if cards == [] then []
    else
      Collect(cards[..|cards| - 1], parse)
      + match parse(cards[|cards| - 1])
        case None => []
        case Some(f) => [f]
  }

  lemma {:induction false} CollectAppend(a: seq<Card>, b: seq<Card>, parse: Card -> Option<Flight>)
    ensures Collect(a + b, parse) == Collect(a, parse) + Collect(b, parse)
    decreases |b|
  {
    if b == [] {
      assert a + b == a;
    } else {
      var init := b[..|b| - 1];
      assert (a + b)[..|a + b| - 1] == a + init;
      assert (a + b)[|a + b| - 1] == b[|b| - 1];
      CollectAppend(a, init, parse);
    }
  }

  lemma {:induction false} CollectMembers(cards: seq<Card>, parse: Card -> Option<Flight>, f: Flight)
    ensures f in Collect(cards, parse) <==> exists i :: 0 <= i < |cards| && parse(cards[i]) == Some(f)
  {
    if cards != [] {
      var init := cards[..|cards| - 1];
      CollectMembers(init, parse, f);
      if i :| 0 <= i < |init| && parse(init[i]) == Some(f) {
        assert cards[i] == init[i];
      }
      if i :| 0 <= i < |cards| && parse(cards[i]) == Some(f) {
        if i < |init| {
          assert init[i] == cards[i];
        }
      }
    }
  }

  lemma {:induction false} CollectNothing(cards: seq<Card>, parse: Card -> Option<Flight>)
    requires forall i :: 0 <= i < |cards| ==> parse(cards[i]).None?
    ensures Collect(cards, parse) == []
  {
    if cards != [] {
      CollectNothing(cards[..|cards| - 1], parse);
    }
  }

  /** The flights the loop collects from `cards`, in card order. */
  function Extracted(cards: seq<Card>, flightDate: string): (r: seq<Flight>)
    ensures |r| <= |cards|
  {
    Collect(cards, card => ParseCard(card, flightDate))
  }

  /** `extract_flight_cards(page, flight_date)` over the cards the page
      query returns: one flight per card that parses, in order. */
  method ExtractFlightCards(cards: seq<Card>, flightDate: string) returns (flights: seq<Flight>)
    ensures flights == Extracted(cards, flightDate)
  {
    flights := [];
    for i := 0 to |cards|
      invariant flights == Extracted(cards[..i], flightDate)
    {
      assert cards[..i + 1][..i] == cards[..i];
      var parsed := ParseCard(cards[i], flightDate);
      if parsed.None? {
        continue;
      }
      flights := flights + [parsed.value];
    }
    assert cards[..|cards|] == cards;
  }

  /** The cards of two pages give the flights of the first, then those of
      the second: the order of the cards is kept. */
  lemma ExtractedAppend(a: seq<Card>, b: seq<Card>, flightDate: string)
    ensures Extracted(a + b, flightDate) == Extracted(a, flightDate) + Extracted(b, flightDate)
  {
    CollectAppend(a, b, card => ParseCard(card, flightDate));
  }

  /** A flight is collected exactly when some card parses to it. */
  lemma ExtractedMembers(cards: seq<Card>, flightDate: string, f: Flight)
    ensures f in Extracted(cards, flightDate) <==> exists i :: 0 <= i < |cards| && ParseCard(cards[i], flightDate) == Some(f)
  {
    CollectMembers(cards, card => ParseCard(card, flightDate), f);
  }

  /** Every card is skipped when `strptime` rejects the flight date. */
  lemma ExtractedInvalidDate(cards: seq<Card>, flightDate: string)
    requires ParseIsoDate(flightDate).None?
    ensures Extracted(cards, flightDate) == []
  {
    var parse := card => ParseCard(card, flightDate);
    forall i | 0 <= i < |cards| ensures parse(cards[i]).None? {
      if parse(cards[i]).Some? {
        ParseCardDays(cards[i], flightDate);
      }
    }
    CollectNothing(cards, parse);
  }
}
