/** The date loop of the LATAM scraper: `date_range(start, end)`
    (src/latam/play_wright.py, and the identical copy in src/latam/flights.py),
    and `main`, which extracts the flights of every date of the range and
    gathers them in one list. */
module LatamRun {
  import opened Wrappers
  import opened Calendar
  import opened LatamCards

  // ---------------------------------------------------------------------
  // date_range

  /** How many dates `date_range(start, end)` yields. */
  function DayCount(start: Date, end: Date): (n: nat)
    requires ValidDate(start) && ValidDate(end)
    ensures Ordinal(start) + n <= MaxOrdinal + 1
  {
    OrdinalBounds(start);
    OrdinalBounds(end);
    if Ordinal(start) <= Ordinal(end) then Ordinal(end) - Ordinal(start) + 1 else 0
  }

  /** `n` dates in a row from `start`, as repeated `+= timedelta(days=1)` produces them. */
  function Consecutive(start: Date, n: nat): (r: seq<Date>)
    requires ValidDate(start) && Ordinal(start) + n <= MaxOrdinal + 1
    ensures |r| == n
    ensures forall k :: 0 <= k < n ==> ValidDate(r[k])
    decreases n
  {
    if n == 0 then []
    else if n == 1 then [start]
    else
      OrdinalBounds(start);
      [start] + Consecutive(NextDay(start), n - 1)
  }

  lemma ShiftIndex<T>(x: T, s: seq<T>, k: nat)
    requires 0 < k <= |s|
    ensures ([x] + s)[k] == s[k - 1]
  {
  }

  /** The `k`-th date of the run is `k` days after `start`. */
  lemma {:induction false} ConsecutiveAt(start: Date, n: nat, k: nat)
    requires ValidDate(start) && Ordinal(start) + n <= MaxOrdinal + 1
    requires k < n
    ensures Ordinal(Consecutive(start, n)[k]) == Ordinal(start) + k
    decreases n
  {
    if k == 0 {
      assert Consecutive(start, n)[0] == start;
    } else {
      OrdinalBounds(start);
      var next := NextDay(start);
      ConsecutiveShift(start, n, k);
      ConsecutiveAt(next, n - 1, k - 1);
    }
  }

  /** Past its first date, a run is the run from the next day. */
  lemma ConsecutiveShift(start: Date, n: nat, k: nat)
    requires ValidDate(start) && Ordinal(start) + n <= MaxOrdinal + 1
    requires 0 < k < n
    ensures start != LastDate
    ensures Consecutive(start, n)[k] == Consecutive(NextDay(start), n - 1)[k - 1]
  {
    OrdinalBounds(start);
    var rest := Consecutive(NextDay(start), n - 1);
    assert Consecutive(start, n) == [start] + rest;
    ShiftIndex(start, rest, k);
  }

  /** One step of the range: the current date, then the range from the next one. */
  lemma ConsecutiveStep(day: Date, end: Date)
    requires ValidDate(day) && ValidDate(end) && day != LastDate
    requires Ordinal(day) <= Ordinal(end)
    ensures DayCount(NextDay(day), end) == DayCount(day, end) - 1
    ensures Consecutive(day, DayCount(day, end)) == [day] + Consecutive(NextDay(day), DayCount(day, end) - 1)
  {
    OrdinalBounds(day);
  }

  lemma ConcatStep<T>(a: seq<T>, x: T, b: seq<T>)
    ensures a + ([x] + b) == (a + [x]) + b
  {
  }

  /** A date before some valid date is not the last one. */
  lemma BeforeLast(day: Date, end: Date)
    requires ValidDate(day) && ValidDate(end)
    requires Ordinal(end) < Ordinal(day)
    ensures DayCount(day, end) == 0
    ensures end != LastDate
  {
    OrdinalBounds(day);
    LastDateOrdinal();
  }

  /** No valid date comes after the last one, and the range from it holds
      that date alone. */
  lemma AtLast(day: Date, end: Date)
    requires day == LastDate && ValidDate(end)
    requires Ordinal(day) <= Ordinal(end)
    ensures end == LastDate
    ensures Consecutive(day, DayCount(day, end)) == [day]
  {
    OrdinalBounds(end);
    LastDateOrdinal();
  }

  /** `list(date_range(start, end))` for midnight `start` and `end`: the dates
      from `start` to `end`, both included. `overflow` is set where the
      generator, having yielded 9999-12-31, raises `OverflowError` when asked
      for the next date. */
  method DateRange(start: Date, end: Date) returns (days: seq<Date>, overflow: bool)
    requires ValidDate(start) && ValidDate(end)
    ensures days == Consecutive(start, DayCount(start, end))
    ensures overflow <==> |days| > 0 && end == LastDate
  {
    days := [];
    overflow := false;
    var day := start;
    while Ordinal(day) <= Ordinal(end)
      invariant ValidDate(day)
      invariant days + Consecutive(day, DayCount(day, end)) == Consecutive(start, DayCount(start, end))
      decreases Ordinal(end) - Ordinal(day)
    {
      if day == LastDate {
        AtLast(day, end);
        days := days + [day];
        overflow := true;
        break;
      }
      ConsecutiveStep(day, end);
      var next := NextDay(day);
      ConcatStep(days, day, Consecutive(next, DayCount(next, end)));
      days := days + [day];
      day := next;
    }
    if !overflow {
      BeforeLast(day, end);
      assert days + [] == days;
    }
  }

  /** The dates of the range: the first is `start`, each is one day after the
      one before, and none is after `end`, the last being `end`'s day. */
  lemma DateRangeDays(start: Date, end: Date, k: nat)
    requires ValidDate(start) && ValidDate(end)
    requires k < DayCount(start, end)
    ensures Ordinal(Consecutive(start, DayCount(start, end))[k]) == Ordinal(start) + k
    ensures k == 0 ==> Consecutive(start, DayCount(start, end))[k] == start
    ensures k > 0 ==> Ordinal(Consecutive(start, DayCount(start, end))[k])
                      == Ordinal(Consecutive(start, DayCount(start, end))[k - 1]) + 1
    ensures Ordinal(Consecutive(start, DayCount(start, end))[k]) <= Ordinal(end)
    ensures k == DayCount(start, end) - 1 ==> Ordinal(Consecutive(start, DayCount(start, end))[k]) == Ordinal(end)
  {
    ConsecutiveAt(start, DayCount(start, end), k);
    if k > 0 {
      ConsecutiveAt(start, DayCount(start, end), k - 1);
    }
  }

  // ---------------------------------------------------------------------
  // main

  /** The flights `extract_flight_cards` finds for one date; `pageOn(day)` is
      the cards of the page the browser shows for that date's search. */
  function FlightsOn(day: Date, pageOn: Date -> seq<Card>): seq<Flight>
    requires ValidDate(day)
  {
    Extracted(pageOn(day), FormatIsoDate(day))
  }

  /** The lists `f` gives for the elements of `xs`, one after the other. */
  function Gather<T, U>(xs: seq<T>, f: T --> seq<U>): seq<U>
    requires forall k :: 0 <= k < |xs| ==> f.requires(xs[k])
  {
    if xs == [] then [] else Gather(xs[..|xs| - 1], f) + f(xs[|xs| - 1])
  }

  /** The lengths of those lists, added up from the front. */
  function Total<T, U>(xs: seq<T>, f: T --> seq<U>): nat
    requires forall k :: 0 <= k < |xs| ==> f.requires(xs[k])
  {
    if xs == [] then 0 else |f(xs[0])| + Total(xs[1..], f)
  }

  /** Gathering two stretches is gathering each, then joining. */
  lemma {:induction false} GatherAppend<T, U>(a: seq<T>, b: seq<T>, f: T --> seq<U>)
    requires forall k :: 0 <= k < |a| ==> f.requires(a[k])
    requires forall k :: 0 <= k < |b| ==> f.requires(b[k])
    ensures forall k :: 0 <= k < |a + b| ==> f.requires((a + b)[k])
    ensures Gather(a + b, f) == Gather(a, f) + Gather(b, f)
    decreases |b|
  {
    assert forall k :: 0 <= k < |a + b| ==> f.requires((a + b)[k]) by {
      forall k | 0 <= k < |a + b| ensures f.requires((a + b)[k]) {
        if k < |a| { assert (a + b)[k] == a[k]; } else { assert (a + b)[k] == b[k - |a|]; }
      }
    }
    if b == [] {
      assert a + b == a;
    } else {
      var init := b[..|b| - 1];
      assert (a + b)[..|a + b| - 1] == a + init;
      assert (a + b)[|a + b| - 1] == b[|b| - 1];
      GatherAppend(a, init, f);
    }
  }

  /** The gathered list is as long as the lengths added up. */
  lemma {:induction false} GatherLength<T, U>(xs: seq<T>, f: T --> seq<U>)
    requires forall k :: 0 <= k < |xs| ==> f.requires(xs[k])
    ensures |Gather(xs, f)| == Total(xs, f)
  {
    if xs != [] {
      var first, rest := xs[..1], xs[1..];
      assert xs == first + rest;
      GatherAppend(first, rest, f);
      GatherLength(rest, f);
      assert first[..0] == [];
    }
  }

  /** Everything gathered comes from the list of one of the elements. */
  lemma {:induction false} GatherMembers<T, U>(xs: seq<T>, f: T --> seq<U>, y: U)
    requires forall k :: 0 <= k < |xs| ==> f.requires(xs[k])
    requires y in Gather(xs, f)
    ensures exists k :: 0 <= k < |xs| && y in f(xs[k])
  {
    var init := xs[..|xs| - 1];
    if y in Gather(init, f) {
      GatherMembers(init, f, y);
      var k :| 0 <= k < |init| && y in f(init[k]);
      assert xs[k] == init[k];
    }
  }

  /** The flights of every date, one date after the other. */
  function AllFlights(days: seq<Date>, pageOn: Date -> seq<Card>): seq<Flight>
    requires forall k :: 0 <= k < |days| ==> ValidDate(days[k])
  {
    Gather(days, day requires ValidDate(day) => FlightsOn(day, pageOn))
  }

  /** The number of flights found per date, added up. */
  function FlightCount(days: seq<Date>, pageOn: Date -> seq<Card>): nat
    requires forall k :: 0 <= k < |days| ==> ValidDate(days[k])
  {
    Total(days, day requires ValidDate(day) => FlightsOn(day, pageOn))
  }

  /** `main()`: for each date of the range, extract the flights and extend
      the list with them. `None` where `date_range` raises after 9999-12-31. */
  method CollectFlights(start: Date, end: Date, pageOn: Date -> seq<Card>) returns (r: Option<seq<Flight>>)
    requires ValidDate(start) && ValidDate(end)
    ensures r.None? <==> Ordinal(start) <= Ordinal(end) && end == LastDate
    ensures r.Some? ==> r.value == AllFlights(Consecutive(start, DayCount(start, end)), pageOn)
  {
    var days, overflow := DateRange(start, end);
    var all := [];
    for i := 0 to |days|
      invariant all == AllFlights(days[..i], pageOn)
    {
      var current := ExtractFlightCards(pageOn(days[i]), FormatIsoDate(days[i]));
      AllFlightsPrefix(days, i, pageOn);
      all := all + current;
    }
    assert days[..|days|] == days;
    if overflow {
      return None;
    }
    return Some(all);
  }

  /** One more date of a range adds the flights of that date. */
  lemma AllFlightsPrefix(days: seq<Date>, i: nat, pageOn: Date -> seq<Card>)
    requires forall k :: 0 <= k < |days| ==> ValidDate(days[k])
    requires i < |days|
    ensures AllFlights(days[..i + 1], pageOn) == AllFlights(days[..i], pageOn) + FlightsOn(days[i], pageOn)
  {
    assert days[..i + 1][..i] == days[..i];
  }

  /** Gathering works date by date: the flights of two stretches of dates
      are those of the first, then those of the second. */
  lemma AllFlightsAppend(a: seq<Date>, b: seq<Date>, pageOn: Date -> seq<Card>)
    requires forall k :: 0 <= k < |a| ==> ValidDate(a[k])
    requires forall k :: 0 <= k < |b| ==> ValidDate(b[k])
    ensures forall k :: 0 <= k < |a + b| ==> ValidDate((a + b)[k])
    ensures AllFlights(a + b, pageOn) == AllFlights(a, pageOn) + AllFlights(b, pageOn)
  {
    GatherAppend(a, b, day requires ValidDate(day) => FlightsOn(day, pageOn));
  }

  /** The gathered list is as long as the per-date counts added up. */
  lemma AllFlightsLength(days: seq<Date>, pageOn: Date -> seq<Card>)
    requires forall k :: 0 <= k < |days| ==> ValidDate(days[k])
    ensures |AllFlights(days, pageOn)| == FlightCount(days, pageOn)
  {
    GatherLength(days, day requires ValidDate(day) => FlightsOn(day, pageOn));
  }

  /** Every flight found for a date departs on that date. */
  lemma FlightsOnDepartDay(day: Date, pageOn: Date -> seq<Card>, f: Flight)
    requires ValidDate(day)
    requires f in FlightsOn(day, pageOn)
    ensures f.depart.day == Ordinal(day)
  {
    var cards, date := pageOn(day), FormatIsoDate(day);
    ExtractedMembers(cards, date, f);
    var i :| 0 <= i < |cards| && ParseCard(cards[i], date) == Some(f);
    ParseCardDays(cards[i], date);
    ParseFormat(day);
  }

  /** Every gathered flight departs on one of the dates. */
  lemma AllFlightsDepartDays(days: seq<Date>, pageOn: Date -> seq<Card>, f: Flight)
    requires forall k :: 0 <= k < |days| ==> ValidDate(days[k])
    requires f in AllFlights(days, pageOn)
    ensures exists k :: 0 <= k < |days| && f.depart.day == Ordinal(days[k])
  {
    GatherMembers(days, day requires ValidDate(day) => FlightsOn(day, pageOn), f);
    var k :| 0 <= k < |days| && f in FlightsOn(days[k], pageOn);
    FlightsOnDepartDay(days[k], pageOn, f);
  }

  predicate DepartSorted(fs: seq<Flight>) {
    forall i, j :: 0 <= i < j < |fs| ==> fs[i].depart.day <= fs[j].depart.day
  }

  predicate Increasing(days: seq<Date>)
    requires forall k :: 0 <= k < |days| ==> ValidDate(days[k])
  {
    forall i, j :: 0 <= i < j < |days| ==> Ordinal(days[i]) < Ordinal(days[j])
  }

  /** Over increasing dates the gathered flights are in order of departure day. */
  lemma {:induction false} AllFlightsInDateOrder(days: seq<Date>, pageOn: Date -> seq<Card>)
    requires forall k :: 0 <= k < |days| ==> ValidDate(days[k])
    requires Increasing(days)
    ensures DepartSorted(AllFlights(days, pageOn))
  {
    if days != [] {
      var init, last := days[..|days| - 1], days[|days| - 1];
      assert Increasing(init) by {
        forall i, j | 0 <= i < j < |init| ensures Ordinal(init[i]) < Ordinal(init[j]) {
          assert init[i] == days[i] && init[j] == days[j];
        }
      }
      AllFlightsInDateOrder(init, pageOn);
      var a: seq<Flight>, b: seq<Flight> := AllFlights(init, pageOn), FlightsOn(last, pageOn);
      forall f | f in a ensures f.depart.day <= Ordinal(last) {
        AllFlightsDepartDays(init, pageOn, f);
        var k :| 0 <= k < |init| && f.depart.day == Ordinal(init[k]);
        assert init[k] == days[k];
      }
      forall f | f in b ensures f.depart.day == Ordinal(last) {
        FlightsOnDepartDay(last, pageOn, f);
      }
      SortedConcat(a, b, Ordinal(last));
    }
  }

  /** A sorted list followed by flights all on one day no earlier than any
      of its own is sorted. */
  lemma SortedConcat(a: seq<Flight>, b: seq<Flight>, day: int)
    requires DepartSorted(a)
    requires forall f :: f in a ==> f.depart.day <= day
    requires forall f :: f in b ==> f.depart.day == day
    ensures DepartSorted(a + b)
  {
    forall i, j | 0 <= i < j < |a + b| ensures (a + b)[i].depart.day <= (a + b)[j].depart.day {
      if j < |a| {
        assert (a + b)[i] == a[i] && (a + b)[j] == a[j];
      } else if |a| <= i {
        assert (a + b)[i] == b[i - |a|] && (a + b)[j] == b[j - |a|];
      } else {
        assert (a + b)[i] == a[i] && (a + b)[j] == b[j - |a|];
      }
    }
  }

  /** The dates of a range increase, so `main` lists the flights in order
      of departure day. */
  lemma RangeInDateOrder(start: Date, end: Date, pageOn: Date -> seq<Card>)
    requires ValidDate(start) && ValidDate(end)
    ensures DepartSorted(AllFlights(Consecutive(start, DayCount(start, end)), pageOn))
  {
    var n := DayCount(start, end);
    var days := Consecutive(start, n);
    forall i, j | 0 <= i < j < |days| ensures Ordinal(days[i]) < Ordinal(days[j]) {
      ConsecutiveAt(start, n, i);
      ConsecutiveAt(start, n, j);
    }
    AllFlightsInDateOrder(days, pageOn);
  }
}
