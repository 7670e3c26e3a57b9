/** The merge engine of the legacy transit.py: the same scheduled-plus-live
    merge as the current version, with only SCHEDULED live trips, no
    cancellation filter, and due times kept as HH:MM:SS text that is parsed
    back against today's date. */
module LegacyTransit {
  import opened Wrappers
  import opened Clock
  import opened Realtime
  import opened Merge
  import opened Schedule
  import opened Tables
  import LegacyDatabase
  import Transit

  /** One departure; `dueTime` is the text the due instant was read from. */
  datatype Upcoming = Upcoming(
    tripId: string, route: string, routeType: string, headsign: string, direction: string,
    stopId: string, dueTime: string, dueInSeconds: int, source: string)

  function TripIdOf(u: Upcoming): string { u.tripId }

  function DueIn(u: Upcoming): int { u.dueInSeconds }

  const BadTime := ValueError("time data does not match format '%H:%M:%S'")
  const NotSubscriptable := TypeError("'NoneType' object is not subscriptable")
  const NotIterable := TypeError("'NoneType' object is not iterable")

  // ---------------------------------------------------------------------------
  // parseTime

  /** A `%H`, `%M` or `%S` field: one or two ASCII digits. */
  predicate ClockField(p: string) { 1 <= |p| <= 2 && AllDigits(p) }

  /** `strptime(t, '%H:%M:%S')`: three fields of one or two digits with the
      hour at most 23 and the minute and second at most 59 (a second of 60 or
      61 passes the pattern but not the `datetime` constructor). */
  function StrpHms(t: string): Option<Hms> {
    var parts := Split(t, ':');
    if |parts| != 3 || !ClockField(parts[0]) || !ClockField(parts[1]) || !ClockField(parts[2]) then None
    else
      var h, m, s := DigitsValue(parts[0]), DigitsValue(parts[1]), DigitsValue(parts[2]);
      if h <= 23 && m <= 59 && s <= 59 then Some(Hms(h, m, s)) else None
  }

  predicate StartsWith24(t: string) { |t| >= 3 && t[..3] == "24:" }

  /** `s.replace(pattern, replacement)`: every non-overlapping occurrence, left to right. */
  function ReplaceAll(s: string, pattern: string, replacement: string): string
    requires |pattern| > 0
    decreases |s|
  {
    if |s| < |pattern| then s
    else if s[..|pattern|] == pattern then replacement + ReplaceAll(s[|pattern|..], pattern, replacement)
    else [s[0]] + ReplaceAll(s[1..], pattern, replacement)
  }

  function CombineHms(d: Date, t: Hms): DateTime {
    Midnight(d) + t.hour * SecondsPerHour + t.minute * 60 + t.second
  }

  /** `parseTime` as written: a leading "24:" moves to the next day, but every
      "24:" in the text is rewritten to "00:". */
  function ParseTimeAsWritten(t: string, today: Date): Result<DateTime, Error> {
    var text := if StartsWith24(t) then ReplaceAll(t, "24:", "00:") else t;
    var base := if StartsWith24(t) then today + 1 else today;
    match StrpHms(text)
    case None => Failure(BadTime)
    case Some(x) => Success(CombineHms(base, x))
  }

  /** `parseTime` with only the leading hour rewritten. */
  function ParseTime(t: string, today: Date): Result<DateTime, Error> {
    var text := if StartsWith24(t) then "00:" + t[3..] else t;
    var base := if StartsWith24(t) then today + 1 else today;
    match StrpHms(text)
    case None => Failure(BadTime)
    case Some(x) => Success(CombineHms(base, x))
  }

  lemma JoinClock(a: string, b: string, c: string)
    ensures Join([a, b, c], ':') == a + [':'] + b + [':'] + c
  {
    assert [a, b, c][..2] == [a, b];
    assert [a, b][..1] == [a];
    assert Join([a, b], ':') == a + [':'] + b;
    assert Join([a, b, c], ':') == Join([a, b], ':') + [':'] + c;
  }

  lemma SplitClock(a: string, b: string, c: string)
    requires ':' !in a && ':' !in b && ':' !in c
    ensures Split(a + [':'] + b + [':'] + c, ':') == [a, b, c]
  {
    JoinClock(a, b, c);
    SplitJoin([a, b, c], ':');
  }

  /** HH:MM:SS written with two digits per field is read back field by field. */
  lemma StrpFields(h: nat, m: nat, s: nat)
    requires h <= 23 && m <= 59 && s <= 59
    ensures StrpHms(Pad2(h) + [':'] + Pad2(m) + [':'] + Pad2(s)) == Some(Hms(h, m, s))
  {
    SplitClock(Pad2(h), Pad2(m), Pad2(s));
    ParsePad2(h);
    ParsePad2(m);
    ParsePad2(s);
    ParseIntDigits(Pad2(h));
    ParseIntDigits(Pad2(m));
    ParseIntDigits(Pad2(s));
  }

  /** The text as written rewrites the minute too: "24:24:10" reads as ten
      seconds past midnight of the next day, not 00:24:10. */
  lemma ParseTimeAsWrittenMisreads(today: Date)
    ensures ParseTimeAsWritten("24:24:10", today) == Success(Midnight(today + 1) + 10)
    ensures ParseTime("24:24:10", today) == Success(Midnight(today + 1) + 24 * 60 + 10)
    ensures ParseTimeAsWritten("24:24:10", today) != ParseTime("24:24:10", today)
  {
    var t := "24:24:10";
    assert t[..3] == "24:" && t[3..] == "24:10";
    assert t[3..][..3] == "24:" && t[3..][3..] == "10";
    assert ReplaceAll(t, "24:", "00:") == "00:00:10";
    assert Pad2(0) + [':'] + Pad2(0) + [':'] + Pad2(10) == "00:00:10";
    StrpFields(0, 0, 10);
    assert Pad2(0) + [':'] + Pad2(24) + [':'] + Pad2(10) == "00:" + t[3..];
    StrpFields(0, 24, 10);
  }

  /** The as-written parser reads a time of day on today, or on the next
      day when the text starts with "24:". */
  lemma ParseTimeAsWrittenDay(t: string, today: Date)
    requires ParseTimeAsWritten(t, today).Success?
    ensures var day := if StartsWith24(t) then today + 1 else today;
            var v := ParseTimeAsWritten(t, today).value;
            DateOf(v) == day && Midnight(day) <= v < Midnight(day) + SecondsPerDay
  {
  }

  predicate OccursAt(s: string, pattern: string, i: int) {
    0 <= i && i + |pattern| <= |s| && s[i..i + |pattern|] == pattern
  }

  /** `s.replace` leaves a text without the pattern unchanged. */
  lemma {:induction false} ReplaceAbsent(s: string, pattern: string, replacement: string)
    requires |pattern| > 0
    requires forall i :: !OccursAt(s, pattern, i)
    ensures ReplaceAll(s, pattern, replacement) == s
    decreases |s|
  {
    if |s| >= |pattern| {
      assert !OccursAt(s, pattern, 0);
      var rest := s[1..];
      forall i ensures !OccursAt(rest, pattern, i) {
        if 0 <= i && i + |pattern| <= |rest| {
          assert rest[i..i + |pattern|] == s[i + 1..i + 1 + |pattern|];
          assert !OccursAt(s, pattern, i + 1);
        }
      }
      ReplaceAbsent(rest, pattern, replacement);
    }
  }

  /** A text the corrected parser reads after its leading "24:" holds no
      other "24:" unless it starts with one. */
  lemma NoSecond24(r: string)
    requires StrpHms("00:" + r).Some? && !StartsWith24(r)
    ensures forall i :: !OccursAt(r, "24:", i)
  {
    assert "00:" + r == Pad2(0) + [':'] + r;
    SplitCons(Pad2(0), r, ':');
    var q := Split(r, ':');
    assert |q| == 2 && ClockField(q[0]);
    JoinSplit(r, ':');
    assert q[..1] == [q[0]];
    assert r == q[0] + [':'] + q[1];
    OneColon(q[0], q[1]);
  }

  /** In a text with one colon after at most two characters, "24:" can
      only stand at the front. */
  lemma OneColon(a: string, b: string)
    requires |a| <= 2 && ':' !in a && ':' !in b && !StartsWith24(a + [':'] + b)
    ensures forall i :: !OccursAt(a + [':'] + b, "24:", i)
  {
    var r := a + [':'] + b;
    forall i ensures !OccursAt(r, "24:", i) {
      if 0 <= i && i + 3 <= |r| {
        assert r[i..i + 3][2] == r[i + 2];
        if i + 2 > |a| {
          assert r[i + 2] == b[i + 2 - |a| - 1] != ':';
        } else {
          assert r[..3] == r[i..i + 3];
        }
      }
    }
  }

  /** The source's parser and the corrected one read every time the same
      except one whose minute field is itself "24" after an hour of 24. */
  lemma AsWrittenAgrees(t: string, today: Date)
    requires ParseTime(t, today).Success?
    requires !(StartsWith24(t) && StartsWith24(t[3..]))
    ensures ParseTimeAsWritten(t, today) == ParseTime(t, today)
  {
    if StartsWith24(t) {
      var r := t[3..];
      NoSecond24(r);
      ReplaceAbsent(r, "24:", "00:");
      assert ReplaceAll(t, "24:", "00:") == "00:" + ReplaceAll(r, "24:", "00:");
    }
  }

  /** A time of 24 hours and more reads as the same minutes and seconds
      after midnight of the next day. */
  lemma ParseTimeNextDay(r: string, today: Date)
    ensures ParseTime("24:" + r, today) == ParseTime("00:" + r, today + 1)
  {
    assert ("24:" + r)[..3] == "24:" && ("24:" + r)[3..] == r;
    assert ("00:" + r)[..3] != "24:";
  }

  lemma ParseIntDigits(p: string)
    requires |p| > 0 && AllDigits(p)
    ensures ParseInt(p) == Some(DigitsValue(p))
  {
    assert IsDigit(p[0]);
  }

  lemma FormattedBefore24(x: int)
    requires 0 <= x < SecondsPerDay
    ensures !StartsWith24(FormatHms(x))
  {
    var h, m, s := x / SecondsPerHour, x / 60 % 60, x % 60;
    var t := FormatHms(x);
    JoinClock(Pad2(h), Pad2(m), Pad2(s));
    assert t[0] == Digit(h / 10) && t[1] == Digit(h % 10);
  }

  lemma StrpFormatted(x: int)
    requires 0 <= x < SecondsPerDay
    ensures StrpHms(FormatHms(x)) == Some(Hms(x / SecondsPerHour, x / 60 % 60, x % 60))
  {
    var h, m, s := x / SecondsPerHour, x / 60 % 60, x % 60;
    JoinClock(Pad2(h), Pad2(m), Pad2(s));
    StrpFields(h, m, s);
  }

  /** Formatting a time of day as HH:MM:SS and parsing it back on a date gives
      that date at that time. */
  lemma ParseTimeReadsFormatted(x: int, today: Date)
    requires 0 <= x < SecondsPerDay
    ensures ParseTime(FormatHms(x), today) == Success(Midnight(today) + x)
  {
    FormattedBefore24(x);
    StrpFormatted(x);
  }

  lemma AgreesBefore24(t: string, today: Date)
    requires !StartsWith24(t) && ParseTime(t, today).Success?
    ensures Transit.ParseTime(t, today) == ParseTime(t, today)
  {
    var parts := Split(t, ':');
    ParseIntDigits(parts[0]);
    ParseIntDigits(parts[1]);
    ParseIntDigits(parts[2]);
  }

  lemma AgreesFrom24(t: string, today: Date)
    requires StartsWith24(t) && ParseTime(t, today).Success?
    ensures Transit.ParseTime(t, today) == ParseTime(t, today)
  {
    var r := t[3..];
    assert t == "24:" + r;
    StrpAfter24(r);
  }

  /** Whatever follows a leading "24:" that strptime reads after "00:",
      the current `parse_time` reads after "24:" with the same minute and
      second. */
  lemma StrpAfter24(r: string)
    requires StrpHms("00:" + r).Some?
    ensures var x := StrpHms("00:" + r).value;
            x.hour == 0 && ParseHms("24:" + r) == Some(Hms(24, x.minute, x.second))
  {
    assert "24:" + r == Pad2(24) + [':'] + r;
    assert "00:" + r == Pad2(0) + [':'] + r;
    SplitCons(Pad2(24), r, ':');
    SplitCons(Pad2(0), r, ':');
    var q := Split(r, ':');
    ParseIntDigits(q[0]);
    ParseIntDigits(q[1]);
    ParsePad2(24);
    ParsePad2(0);
    ParseIntDigits(Pad2(0));
  }

  /** Wherever this parser accepts a time, the current version's
      `parse_time` reads it as the same instant. */
  lemma ParseTimeAgreesWithCurrent(t: string, today: Date)
    requires ParseTime(t, today).Success?
    ensures Transit.ParseTime(t, today) == ParseTime(t, today)
  {
    if StartsWith24(t) {
      AgreesFrom24(t, today);
    } else {
      AgreesBefore24(t, today);
    }
  }

  /** `Upcoming.FromTrip`: the route must be there, name its short name and
      a known route type, and the due text must parse. */
  function FromTrip(trip: LegacyDatabase.LegacyTrip, stopId: string, source: string, due: string, current: DateTime)
    : (r: Result<Upcoming, Error>)
    ensures r.Failure? <==>
              || trip.route.None? || "route_short_name" !in trip.route.value || "route_type" !in trip.route.value
              || trip.route.value["route_type"] !in RouteTypes || ParseTime(due, DateOf(current)).Failure?
    ensures r.Success? ==> r.value.dueInSeconds == ParseTime(due, DateOf(current)).value - current && r.value.dueTime == due
  {
    if trip.route.None? then Failure(NotSubscriptable)
    else
      var route := trip.route.value;
      var shortName :- Field(route, "route_short_name");
      var routeType :- Field(route, "route_type");
      if routeType !in RouteTypes then Failure(KeyError(routeType))
      else
        var dueAt :- ParseTime(due, DateOf(current));
        Success(Upcoming(trip.tripId, shortName, RouteTypes[routeType], trip.tripHeadsign, trip.directionId,
                         stopId, due, dueAt - current, source))
  }

  /** The empty due text a trip without a stop time at the stop is given
      does not parse. */
  lemma EmptyDueRaises(trip: LegacyDatabase.LegacyTrip, stopId: string, source: string, current: DateTime)
    ensures FromTrip(trip, stopId, source, "", current).Failure?
  {
    assert Split("", ':') == [""];
  }

  class LegacyTransit {
    const database: LegacyDatabase.LegacyDatabase

    constructor(db: LegacyDatabase.LegacyDatabase)
      ensures database == db
    {
      database := db;
    }

    // -------------------------------------------------------------------------
    // GetScheduled

    /** The arrival text of the trip's first stop time at `stopId`, or "". */
    static function DueText(trip: LegacyDatabase.LegacyTrip, stopId: string): Result<string, Error> {
      if trip.stopTimes.None? then Failure(NotIterable)
      else
        var found :- FirstInteresting(trip.stopTimes.value, [stopId], 0);
        match found
        case None => Success("")
        case Some(k) => Field(trip.stopTimes.value[k], "arrival_time")
    }

    static function TripEntries(trips: seq<LegacyDatabase.LegacyTrip>, stopId: string, now: DateTime): Result<seq<Upcoming>, Error> {
      if |trips| == 0 then Success([])
      else
        var before :- TripEntries(trips[..|trips| - 1], stopId, now);
        var trip := trips[|trips| - 1];
        var due :- DueText(trip, stopId);
        var u :- FromTrip(trip, stopId, "SCHEDULE", due, now);
        Success(before + [u])
    }

    function ScheduledEntries(stops: seq<string>, now: DateTime): Result<seq<Upcoming>, Error>
      reads database
    {
      if |stops| == 0 then Success([])
      else
        var before :- ScheduledEntries(stops[..|stops| - 1], now);
        var stopId := stops[|stops| - 1];
        var trips :- database.ScheduledFor(stopId, now, now + Transit.WindowSeconds);
        var more :- TripEntries(trips, stopId, now);
        Success(before + more)
    }

    /** What `GetScheduled` returns or raises. */
    function ScheduledDepartures(stops: seq<string>, now: DateTime): Result<seq<Upcoming>, Error>
      reads database
    {
      var entries :- ScheduledEntries(stops, now);
      Success(SortBy(entries, DueIn))
    }

    static lemma {:induction false} TripEntriesFails(trips: seq<LegacyDatabase.LegacyTrip>, stopId: string, now: DateTime, n: nat)
      requires n <= |trips|
      ensures TripEntries(trips[..n], stopId, now).Failure? ==> TripEntries(trips, stopId, now) == TripEntries(trips[..n], stopId, now)
    {
      if n < |trips| {
        TripEntriesFails(trips[..|trips| - 1], stopId, now, n);
        assert trips[..|trips| - 1][..n] == trips[..n];
      } else {
        assert trips[..n] == trips;
      }
    }

    lemma {:induction false} ScheduledEntriesFails(stops: seq<string>, now: DateTime, n: nat)
      requires n <= |stops|
      ensures ScheduledEntries(stops[..n], now).Failure? ==> ScheduledEntries(stops, now) == ScheduledEntries(stops[..n], now)
    {
      if n < |stops| {
        ScheduledEntriesFails(stops[..|stops| - 1], now, n);
        assert stops[..|stops| - 1][..n] == stops[..n];
      } else {
        assert stops[..n] == stops;
      }
    }

    /** Every trip the database returns yields exactly one entry, in order,
        for its trip id and the stop, from the schedule; none is skipped. The
        entry's due text is the arrival of the trip's first stop time at the
        stop, and its due-in seconds count from `now` to that text read on
        today's date. */
    static lemma {:induction false} TripEntriesEveryTrip(trips: seq<LegacyDatabase.LegacyTrip>, stopId: string, now: DateTime)
      requires TripEntries(trips, stopId, now).Success?
      ensures var es := TripEntries(trips, stopId, now).value;
              |es| == |trips| &&
              forall i :: 0 <= i < |trips| ==>
                && es[i].tripId == trips[i].tripId && es[i].stopId == stopId && es[i].source == "SCHEDULE"
                && FirstArrival(trips[i], stopId, es[i].dueTime)
                && ParseTime(es[i].dueTime, DateOf(now)).Success?
                && es[i].dueInSeconds + now == ParseTime(es[i].dueTime, DateOf(now)).value
    {
      if |trips| > 0 {
        var trip := trips[|trips| - 1];
        TripEntriesEveryTrip(trips[..|trips| - 1], stopId, now);
        EntryOfTrip(trip, stopId, DueText(trip, stopId).value, now);
      }
    }

    /** `due` is the arrival text of the first of the trip's stop times that
        is at `stopId`. */
    static predicate FirstArrival(trip: LegacyDatabase.LegacyTrip, stopId: string, due: string) {
      && trip.stopTimes.Some?
      && var found := FirstInteresting(trip.stopTimes.value, [stopId], 0);
         && found.Success? && found.value.Some?
         && "arrival_time" in trip.stopTimes.value[found.value.value]
         && due == trip.stopTimes.value[found.value.value]["arrival_time"]
    }

    /** A trip whose entry is built found a stop time at the stop: the empty
        text of a trip without one does not parse. */
    static lemma EntryOfTrip(trip: LegacyDatabase.LegacyTrip, stopId: string, due: string, now: DateTime)
      requires DueText(trip, stopId) == Success(due)
      requires FromTrip(trip, stopId, "SCHEDULE", due, now).Success?
      ensures FirstArrival(trip, stopId, due)
    {
      if due == "" {
        EmptyDueRaises(trip, stopId, "SCHEDULE", now);
      }
    }

    /** `GetScheduled`'s result is sorted by due time and is a permutation of
        the entries collected stop by stop. */
    lemma ScheduledSorted(stops: seq<string>, now: DateTime)
      requires ScheduledDepartures(stops, now).Success?
      ensures SortedBy(ScheduledDepartures(stops, now).value, DueIn)
      ensures multiset(ScheduledDepartures(stops, now).value) == multiset(ScheduledEntries(stops, now).value)
    {
      SortBySorted(ScheduledEntries(stops, now).value, DueIn);
    }

    method FindDueText(trip: LegacyDatabase.LegacyTrip, stopId: string) returns (r: Result<string, Error>)
      ensures r == DueText(trip, stopId)
    {
      if trip.stopTimes.None? {
        return Failure(NotIterable);
      }
      var due := "";
      var found :- FindFirstInteresting(trip.stopTimes.value, [stopId]);
      if found.Some? {
        due :- Field(trip.stopTimes.value[found.value], "arrival_time");
      }
      return Success(due);
    }

    method EntriesForTrips(trips: seq<LegacyDatabase.LegacyTrip>, stopId: string, now: DateTime) returns (r: Result<seq<Upcoming>, Error>)
      ensures r == TripEntries(trips, stopId, now)
    {
      var ret: seq<Upcoming> := [];
      for i := 0 to |trips|
        invariant TripEntries(trips[..i], stopId, now) == Success(ret)
      {
        assert trips[..i + 1][..i] == trips[..i];
        TripEntriesFails(trips, stopId, now, i + 1);
        var due :- FindDueText(trips[i], stopId);
        var u :- FromTrip(trips[i], stopId, "SCHEDULE", due, now);
        ret := ret + [u];
      }
      assert trips[..|trips|] == trips;
      return Success(ret);
    }

    /** `GetScheduled`. */
    method GetScheduled(stops: seq<string>, now: DateTime) returns (r: Result<seq<Upcoming>, Error>)
      ensures r == ScheduledDepartures(stops, now)
    {
      var ret: seq<Upcoming> := [];
      for i := 0 to |stops|
        invariant ScheduledEntries(stops[..i], now) == Success(ret)
      {
        assert stops[..i + 1][..i] == stops[..i];
        ScheduledEntriesFails(stops, now, i + 1);
        var trips :- database.GetScheduledFor(stops[i], now, now + Transit.WindowSeconds);
        var more :- EntriesForTrips(trips, stops[i], now);
        ret := ret + more;
      }
      assert stops[..|stops|] == stops;
      return Success(SortBy(ret, DueIn));
    }

    // -------------------------------------------------------------------------
    // GetLive

    /** The first interesting stop time of a trip: its stop, sequence number
        and arrival; "", -1 and `fromtimestamp(1)` when there is none. */
    static function Locate(trip: LegacyDatabase.LegacyTrip, stops: seq<string>, today: Date, toLocal: int -> DateTime)
      : Result<(string, int, DateTime), Error>
    {
      if trip.stopTimes.None? then Failure(NotIterable)
      else
        var rows := trip.stopTimes.value;
        var found :- FirstInteresting(rows, stops, 0);
        match found
        case None => Success(("", -1, toLocal(1)))
        case Some(k) =>
          var sequenceText :- Field(rows[k], "stop_sequence");
          var sequence :- match ParseInt(sequenceText) case None => Failure(ValueError("invalid literal for int()")) case Some(n) => Success(n);
          var arrivalText :- Field(rows[k], "arrival_time");
          var arrival :- ParseTime(arrivalText, today);
          Success((rows[k]["stop_id"], sequence, arrival))
    }

    /** One pass of the entity loop of `GetLive`. */
    function LiveEntry(e: FeedEntity, stops: seq<string>, now: DateTime, toLocal: int -> DateTime): Result<Option<Upcoming>, Error>
      reads database
    {
      match e.tripUpdate
      case None => Success(None)
      case Some(tu) =>
        if tu.trip.scheduleRelationship != Scheduled then Success(None)
        else
          match database.GetTrip(tu.trip.tripId)
          case None => Success(None)
          case Some(trip) =>
            var located :- Locate(trip, stops, DateOf(now), toLocal);
            var (stopId, sequence, arrival) := located;
            var updated := UpdatedArrival(tu.stopTimeUpdate, sequence, arrival, toLocal);
            if now > updated then Success(None)
            else
              var u :- FromTrip(trip, stopId, "LIVE", FormatHms(TimeOfDay(updated)), now);
              Success(Some(u))
    }

    /** What `GetLive` returns or raises. */
    function Live(feed: Feed, stops: seq<string>, now: DateTime, toLocal: int -> DateTime): Result<seq<Upcoming>, Error>
      reads database
    {
      if |feed| == 0 then Success([])
      else
        var before :- Live(feed[..|feed| - 1], stops, now, toLocal);
        var entry :- LiveEntry(feed[|feed| - 1], stops, now, toLocal);
        Success(before + if entry.Some? then [entry.value] else [])
    }

    lemma {:induction false} LiveFails(feed: Feed, stops: seq<string>, now: DateTime, toLocal: int -> DateTime, n: nat)
      requires n <= |feed|
      ensures Live(feed[..n], stops, now, toLocal).Failure? ==> Live(feed, stops, now, toLocal) == Live(feed[..n], stops, now, toLocal)
    {
      if n < |feed| {
        LiveFails(feed[..|feed| - 1], stops, now, toLocal, n);
        assert feed[..|feed| - 1][..n] == feed[..n];
      } else {
        assert feed[..n] == feed;
      }
    }

    /** Entities without a trip update, trips that are not SCHEDULED and trips
        the database does not know are skipped. */
    lemma LiveIgnores(e: FeedEntity, stops: seq<string>, now: DateTime, toLocal: int -> DateTime)
      ensures e.tripUpdate.None? ==> LiveEntry(e, stops, now, toLocal) == Success(None)
      ensures e.tripUpdate.Some? && e.tripUpdate.value.trip.scheduleRelationship != Scheduled ==>
                LiveEntry(e, stops, now, toLocal) == Success(None)
      ensures e.tripUpdate.Some? && e.tripUpdate.value.trip.tripId !in database.tripDb ==>
                LiveEntry(e, stops, now, toLocal) == Success(None)
    {
    }

    /** A live entry keeps only the time of day of its updated arrival: its
        due-in seconds are that time of day less the current one, so they are
        right on the same day and a day short when the arrival is after
        midnight. */
    lemma LiveDueLosesDate(e: FeedEntity, stops: seq<string>, now: DateTime, toLocal: int -> DateTime)
      requires e.tripUpdate.Some?
      requires LiveEntry(e, stops, now, toLocal).Success? && LiveEntry(e, stops, now, toLocal).value.Some?
      ensures var tu := e.tripUpdate.value;
              var trip := database.GetTrip(tu.trip.tripId).value;
              var (_, sequence, arrival) := Locate(trip, stops, DateOf(now), toLocal).value;
              var updated := UpdatedArrival(tu.stopTimeUpdate, sequence, arrival, toLocal);
              var u := LiveEntry(e, stops, now, toLocal).value.value;
              && updated >= now && u.source == "LIVE"
              && u.dueInSeconds == TimeOfDay(updated) - TimeOfDay(now)
              && (DateOf(updated) == DateOf(now) ==> u.dueInSeconds == updated - now)
              && (DateOf(updated) == DateOf(now) + 1 ==> u.dueInSeconds == updated - now - SecondsPerDay)
    {
      var tu := e.tripUpdate.value;
      var trip := database.GetTrip(tu.trip.tripId).value;
      var (_, sequence, arrival) := Locate(trip, stops, DateOf(now), toLocal).value;
      var updated := UpdatedArrival(tu.stopTimeUpdate, sequence, arrival, toLocal);
      ParseTimeReadsFormatted(TimeOfDay(updated), DateOf(now));
    }

    method LocateTrip(trip: LegacyDatabase.LegacyTrip, stops: seq<string>, today: Date, toLocal: int -> DateTime)
      returns (r: Result<(string, int, DateTime), Error>)
      ensures r == Locate(trip, stops, today, toLocal)
    {
      if trip.stopTimes.None? {
        return Failure(NotIterable);
      }
      var rows := trip.stopTimes.value;
      var found :- FindFirstInteresting(rows, stops);
      if found.None? {
        return Success(("", -1, toLocal(1)));
      }
      var stopId := rows[found.value]["stop_id"];
      var sequenceText :- Field(rows[found.value], "stop_sequence");
      var sequence := ParseInt(sequenceText);
      if sequence.None? {
        return Failure(ValueError("invalid literal for int()"));
      }
      var arrivalText :- Field(rows[found.value], "arrival_time");
      var arrival :- ParseTime(arrivalText, today);
      return Success((stopId, sequence.value, arrival));
    }

    method LiveEntryOf(e: FeedEntity, stops: seq<string>, now: DateTime, toLocal: int -> DateTime)
      returns (r: Result<Option<Upcoming>, Error>)
      ensures r == LiveEntry(e, stops, now, toLocal)
    {
      if e.tripUpdate.None? {
        return Success(None);
      }
      var tripUpdate := e.tripUpdate.value;
      if tripUpdate.trip.scheduleRelationship != Scheduled {
        return Success(None);
      }
      var tripFromDb := database.GetTrip(tripUpdate.trip.tripId);
      if tripFromDb.None? {
        return Success(None);
      }
      var located :- LocateTrip(tripFromDb.value, stops, DateOf(now), toLocal);
      var (stopId, sequence, arrivalTime) := located;
      var updatedArrivalTime := ApplyUpdates(tripUpdate.stopTimeUpdate, sequence, arrivalTime, toLocal);
      if now > updatedArrivalTime {
        return Success(None);
      }
      var due := FormatHms(TimeOfDay(updatedArrivalTime));
      var u :- FromTrip(tripFromDb.value, stopId, "LIVE", due, now);
      return Success(Some(u));
    }

    /** `GetLive`, given the feed `LoadFromAPI` would return. */
    method GetLive(feed: Feed, stops: seq<string>, now: DateTime, toLocal: int -> DateTime)
      returns (r: Result<seq<Upcoming>, Error>)
      ensures r == Live(feed, stops, now, toLocal)
    {
      var ret: seq<Upcoming> := [];
      for i := 0 to |feed|
        invariant Live(feed[..i], stops, now, toLocal) == Success(ret)
      {
        assert feed[..i + 1][..i] == feed[..i];
        LiveFails(feed, stops, now, toLocal, i + 1);
        var entry :- LiveEntryOf(feed[i], stops, now, toLocal);
        if entry.Some? {
          ret := ret + [entry.value];
        } else {
          assert ret + [] == ret;
        }
      }
      assert feed[..|feed|] == feed;
      return Success(ret);
    }

    // -------------------------------------------------------------------------
    // GetUpcoming

    /** What `GetUpcoming` returns or raises. */
    function UpcomingFor(feed: Feed, stops: seq<string>, now: DateTime, toLocal: int -> DateTime): Result<seq<Upcoming>, Error>
      reads database
    {
      var scheduled :- ScheduledDepartures(stops, now);
      var live :- Live(feed, stops, now, toLocal);
      Success(SortBy(Merged(scheduled, live, TripIdOf), DueIn))
    }

    /** `GetUpcoming`. */
    method GetUpcoming(feed: Feed, stops: seq<string>, now: DateTime, toLocal: int -> DateTime)
      returns (r: Result<seq<Upcoming>, Error>)
      ensures r == UpcomingFor(feed, stops, now, toLocal)
    {
      var scheduled :- GetScheduled(stops, now);
      var ret :- GetLive(feed, stops, now, toLocal);
      ret := Supersede(scheduled, ret, TripIdOf);
      return Success(SortBy(ret, DueIn));
    }

    /** The upcoming list is sorted by due time; it holds every live entry,
        and a scheduled entry exactly when it is the last scheduled entry of
        its trip and no live entry has its trip id. */
    lemma UpcomingExactly(feed: Feed, stops: seq<string>, now: DateTime, toLocal: int -> DateTime, x: Upcoming)
      requires UpcomingFor(feed, stops, now, toLocal).Success?
      ensures SortedBy(UpcomingFor(feed, stops, now, toLocal).value, DueIn)
      ensures var scheduled := ScheduledDepartures(stops, now).value;
              var live := Live(feed, stops, now, toLocal).value;
              x in UpcomingFor(feed, stops, now, toLocal).value <==>
                x in live || (x.tripId !in Ids(live, TripIdOf) && exists i :: LastWithId(scheduled, TripIdOf, i) && scheduled[i] == x)
    {
      var scheduled := ScheduledDepartures(stops, now).value;
      var live := Live(feed, stops, now, toLocal).value;
      var merged := Merged(scheduled, live, TripIdOf);
      SortBySorted(merged, DueIn);
      assert x in SortBy(merged, DueIn) <==> x in multiset(merged);
      MergedMembers(scheduled, live, TripIdOf, x);
    }
  }
}
