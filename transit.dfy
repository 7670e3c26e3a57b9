/** The merge engine of src/gtfs_upcoming/transit.py: scheduled departures
    from the database, live ones from a GTFS Realtime feed, and the merged,
    sorted list of upcoming departures. The clock is the parameter `now`
    (naive local seconds), the feed is the parameter `feed`, and
    `datetime.fromtimestamp` is the parameter `toLocal`. */
module Transit {
  import opened Wrappers
  import opened Clock
  import opened Realtime
  import opened Merge
  import opened Schedule
  import opened Tables
  import Database

  /** One departure as the HTTP layer renders it. */
  datatype Upcoming = Upcoming(
    tripId: string, route: string, routeType: string, headsign: string, direction: string,
    stopId: string, dueTime: string, dueInSeconds: int, source: string,
    canceled: bool, addedToSchedule: bool)

  function TripIdOf(u: Upcoming): string { u.tripId }

  function DueIn(u: Upcoming): int { u.dueInSeconds }

  /** `get_scheduled` looks 120 minutes ahead. */
  const WindowSeconds: int := 120 * 60

  const BadTime := ValueError("invalid time")

  /** `parse_time`: HH:MM:SS on the date `today`; an hour of 24 or more moves
      to a later date (`int(hour / 24)` days) at `hour % 24`. */
  function ParseTime(s: string, today: Date): Result<DateTime, Error> {
    match ParseHms(s)
    case None => Failure(BadTime)
    case Some(t) =>
      var days := if t.hour >= 24 then t.hour / 24 else 0;
      var hour := if t.hour >= 24 then t.hour % 24 else t.hour;
      if 0 <= hour < 24 && 0 <= t.minute < 60 && 0 <= t.second < 60
      then Success(Midnight(today + days) + hour * SecondsPerHour + t.minute * 60 + t.second)
      else Failure(BadTime)
  }

  /** A time parses exactly when its hour is not negative and its minute and
      second are in range; it lands ⌊h/24⌋ days after `today` at h mod 24. */
  lemma ParseTimeMeaning(s: string, today: Date)
    ensures ParseTime(s, today).Success? <==>
              ParseHms(s).Some? && ParseHms(s).value.hour >= 0 &&
              0 <= ParseHms(s).value.minute < 60 && 0 <= ParseHms(s).value.second < 60
    ensures ParseTime(s, today).Success? ==>
              var t := ParseHms(s).value;
              var v := ParseTime(s, today).value;
              DateOf(v) == today + t.hour / 24 && TimeOfDay(v) == (t.hour % 24) * SecondsPerHour + t.minute * 60 + t.second
  {
    if ParseTime(s, today).Success? {
      var t := ParseHms(s).value;
      CombineSplits(today + t.hour / 24, (t.hour % 24) * SecondsPerHour + t.minute * 60 + t.second);
    }
  }

  /** A time of day written by `strftime('%H:%M:%S')` parses back to that
      time on the given date. */
  lemma ParseTimeReadsFormatted(x: int, today: Date)
    requires 0 <= x < SecondsPerDay
    ensures ParseTime(FormatHms(x), today) == Success(Midnight(today) + x)
  {
    ParseFormatHms(x);
    HmsOfSeconds(x);
  }

  /** On a stop time's arrival, `parse_time` and the database's reading of
      it agree: both add the same offset to midnight. */
  lemma ParseTimeMatchesArrival(s: string, today: Date)
    requires ArrivalOffset(s).Some?
    ensures ParseTime(s, today) == Success(Midnight(today) + ArrivalOffset(s).value)
  {
    ArrivalOffsetMeaning(s);
  }

  /** `Upcoming.from_trip`: an unknown route type raises KeyError. */
  function FromTrip(trip: Database.Trip, stopId: string, source: string, due: DateTime, current: DateTime,
                    canceled: bool, added: bool): (r: Result<Upcoming, Error>)
    ensures r.Failure? <==> trip.route.routeType !in RouteTypes
  {
    if trip.route.routeType !in RouteTypes then Failure(KeyError(trip.route.routeType))
    else
      Success(Upcoming(trip.tripId, trip.route.shortName, RouteTypes[trip.route.routeType],
                       trip.tripHeadsign, trip.directionId, stopId, FormatHms(TimeOfDay(due)),
                       DeltaSeconds(due, current), source, canceled, added))
  }

  /** The rendered due time reads back, on the due date, as the due instant. */
  lemma DueTimeReadsBack(trip: Database.Trip, stopId: string, source: string, due: DateTime, current: DateTime,
                         canceled: bool, added: bool)
    requires FromTrip(trip, stopId, source, due, current, canceled, added).Success?
    ensures var u := FromTrip(trip, stopId, source, due, current, canceled, added).value;
            ParseTime(u.dueTime, DateOf(due)) == Success(due) && u.dueInSeconds + current == due
  {
    ParseTimeReadsFormatted(TimeOfDay(due), DateOf(due));
  }

  // ---------------------------------------------------------------------------
  // Trips built from ADDED updates

  /** The time `_build_trip_from_update` keeps: the departure time when
      there is one, else the arrival time. */
  function EventTime(u: StopTimeUpdate): Option<int> {
    if u.departure.Some? && u.departure.value.time.Some? then Some(u.departure.value.time.value)
    else if u.arrival.Some? && u.arrival.value.time.Some? then Some(u.arrival.value.time.value)
    else None
  }

  /** An update worth a stop time: at an interesting stop, with a time that
      is neither absent nor 0 (`if not time` skips both). */
  predicate Usable(u: StopTimeUpdate, stops: seq<string>) {
    u.stopId in stops && EventTime(u).Some? && EventTime(u).value != 0
  }

  /** The stop-time row for an update; the stop sequence is held as its
      decimal text, which `int()` reads back unchanged. */
  function AddedStopTime(tripId: string, u: StopTimeUpdate, t: int, toLocal: int -> DateTime): Row {
    var clock := FormatHms(TimeOfDay(toLocal(t)));
    map["trip_id" := tripId, "stop_id" := u.stopId, "stop_sequence" := ShowNat(u.stopSequence),
        "arrival_time" := clock, "departure_time" := clock]
  }

  function AddedStopTimes(tripId: string, updates: seq<StopTimeUpdate>, stops: seq<string>, toLocal: int -> DateTime): seq<Row> {
    if |updates| == 0 then []
    else
      var before := AddedStopTimes(tripId, updates[..|updates| - 1], stops, toLocal);
      var u := updates[|updates| - 1];
      if Usable(u, stops) then before + [AddedStopTime(tripId, u, EventTime(u).value, toLocal)] else before
  }

  /** A built stop time belongs to the trip and its stop; its sequence number
      and its arrival read back as the update's sequence and time of day. */
  lemma AddedStopTimeReadsBack(tripId: string, u: StopTimeUpdate, t: int, toLocal: int -> DateTime, today: Date)
    ensures var r := AddedStopTime(tripId, u, t, toLocal);
            && r["trip_id"] == tripId && r["stop_id"] == u.stopId
            && ParseInt(r["stop_sequence"]) == Some(u.stopSequence)
            && ParseTime(r["arrival_time"], today) == Success(Midnight(today) + TimeOfDay(toLocal(t)))
  {
    ParseTimeReadsFormatted(TimeOfDay(toLocal(t)), today);
    ParseShowNat(u.stopSequence);
  }

  /** No stop times are built exactly when no update is usable, and each one
      built comes from a usable update. */
  lemma {:induction false} AddedStopTimesMeaning(tripId: string, updates: seq<StopTimeUpdate>, stops: seq<string>,
                                                 toLocal: int -> DateTime)
    ensures var rows := AddedStopTimes(tripId, updates, stops, toLocal);
            && (|rows| == 0 <==> forall i :: 0 <= i < |updates| ==> !Usable(updates[i], stops))
            && (forall r :: r in rows ==>
                  exists i :: 0 <= i < |updates| && Usable(updates[i], stops) &&
                    r == AddedStopTime(tripId, updates[i], EventTime(updates[i]).value, toLocal))
  {
    if |updates| > 0 {
      var init := updates[..|updates| - 1];
      AddedStopTimesMeaning(tripId, init, stops, toLocal);
      assert forall i :: 0 <= i < |init| ==> init[i] == updates[i];
      assert updates[|updates| - 1] == updates[|init|];
    }
  }

  /** The trip table rows, in database order, and the live-feed inputs. */
  class Transit {
    const database: Database.Database

    constructor(db: Database.Database)
      ensures database == db
    {
      database := db;
    }

    /** What `_build_trip_from_update` returns. */
    function BuiltTrip(tu: TripUpdate, stops: seq<string>, toLocal: int -> DateTime): Option<Database.Trip>
      reads database
    {
      match database.GetRoute(tu.trip.routeId)
      case None => None
      case Some(route) =>
        var st := AddedStopTimes(tu.trip.tripId, tu.stopTimeUpdate, stops, toLocal);
        if |st| == 0 then None
        else Some(Database.Trip(tu.trip.tripId, route.inferredHeadsign, route.inferredDirectionId,
                                route.inferredServiceId, route, st))
    }

    /** A trip is built exactly when its route is known and some update is
        usable; it takes its route's inferred headsign, direction and service. */
    lemma BuiltTripMeaning(tu: TripUpdate, stops: seq<string>, toLocal: int -> DateTime)
      ensures BuiltTrip(tu, stops, toLocal).Some? <==>
                tu.trip.routeId in database.routeDb &&
                exists i :: 0 <= i < |tu.stopTimeUpdate| && Usable(tu.stopTimeUpdate[i], stops)
      ensures BuiltTrip(tu, stops, toLocal).Some? ==>
                var t := BuiltTrip(tu, stops, toLocal).value;
                var route := database.routeDb[tu.trip.routeId];
                t.tripId == tu.trip.tripId && t.route == route && t.tripHeadsign == route.inferredHeadsign &&
                t.directionId == route.inferredDirectionId && t.serviceId == route.inferredServiceId
    {
      AddedStopTimesMeaning(tu.trip.tripId, tu.stopTimeUpdate, stops, toLocal);
    }

    /** `_build_trip_from_update`. */
    method BuildTripFromUpdate(tu: TripUpdate, stops: seq<string>, toLocal: int -> DateTime)
      returns (r: Option<Database.Trip>)
      ensures r == BuiltTrip(tu, stops, toLocal)
    {
      var tripId := tu.trip.tripId;
      var route := database.GetRoute(tu.trip.routeId);
      if route.Some? {
        var stopTimes: seq<Row> := [];
        var updates := tu.stopTimeUpdate;
        for i := 0 to |updates|
          invariant stopTimes == AddedStopTimes(tripId, updates[..i], stops, toLocal)
        {
          assert updates[..i + 1][..i] == updates[..i];
          var stu := updates[i];
          if stu.stopId in stops {
            var time: Option<int> := None;
            if stu.arrival.Some? && stu.arrival.value.time.Some? {
              time := Some(stu.arrival.value.time.value);
            }
            if stu.departure.Some? && stu.departure.value.time.Some? {
              time := Some(stu.departure.value.time.value);
            }
            if time.None? || time.value == 0 {
              continue;
            }
            stopTimes := stopTimes + [AddedStopTime(tripId, stu, time.value, toLocal)];
          }
        }
        assert updates[..|updates|] == updates;
        if |stopTimes| > 0 {
          return Some(Database.Trip(tripId, route.value.inferredHeadsign, route.value.inferredDirectionId,
                                    route.value.inferredServiceId, route.value, stopTimes));
        }
      }
      return None;
    }

    // -------------------------------------------------------------------------
    // get_scheduled

    /** The due time of `trip` at `stopId`: the arrival of its first stop
        time there, None when it has none. */
    static function DueOf(trip: Database.Trip, stopId: string, today: Date): Result<Option<DateTime>, Error> {
      var found :- FirstInteresting(trip.stopTimes, [stopId], 0);
      match found
      case None => Success(None)
      case Some(k) =>
        var arrival :- Field(trip.stopTimes[k], "arrival_time");
        var due :- ParseTime(arrival, today);
        Success(Some(due))
    }

    /** The entries the trips of one stop contribute, in order. */
    static function TripEntries(trips: seq<Database.Trip>, stopId: string, now: DateTime): Result<seq<Upcoming>, Error> {
      if |trips| == 0 then Success([])
      else
        var before :- TripEntries(trips[..|trips| - 1], stopId, now);
        var trip := trips[|trips| - 1];
        var due :- DueOf(trip, stopId, DateOf(now));
        if due.None? then Success(before)
        else
          var u :- FromTrip(trip, stopId, "SCHEDULE", due.value, now, false, false);
          Success(before + [u])
    }

    function ScheduledEntries(stops: seq<string>, now: DateTime): Result<seq<Upcoming>, Error>
      reads database
    {
      if |stops| == 0 then Success([])
      else
        var before :- ScheduledEntries(stops[..|stops| - 1], now);
        var stopId := stops[|stops| - 1];
        var trips :- database.ScheduledFor(stopId, now, now + WindowSeconds);
        var more :- TripEntries(trips, stopId, now);
        Success(before + more)
    }

    /** What `get_scheduled` returns or raises. */
    function ScheduledDepartures(stops: seq<string>, now: DateTime): Result<seq<Upcoming>, Error>
      reads database
    {
      var entries :- ScheduledEntries(stops, now);
      Success(SortBy(entries, DueIn))
    }

    static lemma {:induction false} TripEntriesFails(trips: seq<Database.Trip>, stopId: string, now: DateTime, n: nat)
      requires n <= |trips|
      ensures TripEntries(trips[..n], stopId, now).Failure? ==> TripEntries(trips, stopId, now) == TripEntries(trips[..n], stopId, now)
    {
      if n < |trips| {
        TripEntriesFails(trips[..|trips| - 1], stopId, now, n);
        assert trips[..|trips| - 1][..n] == trips[..n];
      } else {
        assert trips[..n] == trips;
      }
    }

    lemma {:induction false} ScheduledEntriesFails(stops: seq<string>, now: DateTime, n: nat)
      requires n <= |stops|
      ensures ScheduledEntries(stops[..n], now).Failure? ==> ScheduledEntries(stops, now) == ScheduledEntries(stops[..n], now)
    {
      if n < |stops| {
        ScheduledEntriesFails(stops[..|stops| - 1], now, n);
        assert stops[..|stops| - 1][..n] == stops[..n];
      } else {
        assert stops[..n] == stops;
      }
    }

    /** The due time is the arrival of the trip's first stop time at the stop;
        a trip without one contributes nothing. */
    static lemma DueOfMeaning(trip: Database.Trip, stopId: string, today: Date)
      requires DueOf(trip, stopId, today).Success?
      ensures var due := DueOf(trip, stopId, today).value;
              && (due.None? <==> Uninteresting(trip.stopTimes, [stopId], 0, |trip.stopTimes|))
              && (due.Some? ==>
                    exists k :: 0 <= k < |trip.stopTimes| && Uninteresting(trip.stopTimes, [stopId], 0, k) &&
                      "stop_id" in trip.stopTimes[k] && trip.stopTimes[k]["stop_id"] == stopId &&
                      "arrival_time" in trip.stopTimes[k] &&
                      ParseTime(trip.stopTimes[k]["arrival_time"], today) == Success(due.value))
    {
      FirstInterestingMeaning(trip.stopTimes, [stopId], 0);
    }

    /** `trip` has a stop time at `stopId` whose arrival parses. */
    static predicate HasDue(trip: Database.Trip, stopId: string, today: Date) {
      DueOf(trip, stopId, today).Success? && DueOf(trip, stopId, today).value.Some?
    }

    /** The trips that reach `stopId`, in order. */
    static function WithDue(trips: seq<Database.Trip>, stopId: string, today: Date): (r: seq<Database.Trip>)
      ensures |r| <= |trips|
    {
      if |trips| == 0 then []
      else WithDue(trips[..|trips| - 1], stopId, today) + if HasDue(trips[|trips| - 1], stopId, today) then [trips[|trips| - 1]] else []
    }

    /** A trip is kept once for each time it occurs when it reaches the stop,
        and not at all otherwise. */
    static lemma {:induction false} WithDueCount(trips: seq<Database.Trip>, stopId: string, today: Date, t: Database.Trip)
      ensures multiset(WithDue(trips, stopId, today))[t] == if HasDue(t, stopId, today) then multiset(trips)[t] else 0
    {
      if |trips| > 0 {
        var init := trips[..|trips| - 1];
        WithDueCount(init, stopId, today, t);
        assert trips == init + [trips[|trips| - 1]];
      }
    }

    /** The scheduled entries of one stop are those of the trips that reach
        it, one each and in order: the entry of the j-th such trip carries
        its id, is due at the trip's first arrival at the stop (its due time
        reads back as that instant, and its seconds count from `now`), is for
        that stop, from the schedule, neither canceled nor added. */
    static lemma {:induction false} TripEntriesFromDue(trips: seq<Database.Trip>, stopId: string, now: DateTime)
      requires TripEntries(trips, stopId, now).Success?
      ensures var es, ds := TripEntries(trips, stopId, now).value, WithDue(trips, stopId, DateOf(now));
              && |es| == |ds|
              && forall j :: 0 <= j < |es| ==>
                   && HasDue(ds[j], stopId, DateOf(now))
                   && var due := DueOf(ds[j], stopId, DateOf(now)).value.value;
                   && es[j].tripId == ds[j].tripId && es[j].dueInSeconds + now == due
                   && ParseTime(es[j].dueTime, DateOf(due)) == Success(due)
                   && es[j].stopId == stopId && es[j].source == "SCHEDULE" && !es[j].canceled && !es[j].addedToSchedule
    {
      if |trips| > 0 {
        var init, trip := trips[..|trips| - 1], trips[|trips| - 1];
        var today := DateOf(now);
        TripEntriesFromDue(init, stopId, now);
        var due := DueOf(trip, stopId, today).value;
        if due.Some? {
          DueTimeReadsBack(trip, stopId, "SCHEDULE", due.value, now, false, false);
        }
      }
    }

    /** `get_scheduled`'s result is sorted by due time and holds exactly
        the entries collected stop by stop. */
    lemma ScheduledSorted(stops: seq<string>, now: DateTime)
      requires ScheduledDepartures(stops, now).Success?
      ensures SortedBy(ScheduledDepartures(stops, now).value, DueIn)
      ensures multiset(ScheduledDepartures(stops, now).value) == multiset(ScheduledEntries(stops, now).value)
    {
      SortBySorted(ScheduledEntries(stops, now).value, DueIn);
    }

    method FindDue(trip: Database.Trip, stopId: string, today: Date) returns (r: Result<Option<DateTime>, Error>)
      ensures r == DueOf(trip, stopId, today)
    {
      var found :- FindFirstInteresting(trip.stopTimes, [stopId]);
      if found.None? {
        return Success(None);
      }
      var arrival :- Field(trip.stopTimes[found.value], "arrival_time");
      var due :- ParseTime(arrival, today);
      return Success(Some(due));
    }

    /** The `for trip in trips` loop of one stop. */
    method EntriesForTrips(trips: seq<Database.Trip>, stopId: string, now: DateTime) returns (r: Result<seq<Upcoming>, Error>)
      ensures r == TripEntries(trips, stopId, now)
    {
      var ret: seq<Upcoming> := [];
      for i := 0 to |trips|
        invariant TripEntries(trips[..i], stopId, now) == Success(ret)
      {
        assert trips[..i + 1][..i] == trips[..i];
        TripEntriesFails(trips, stopId, now, i + 1);
        var trip := trips[i];
        var due :- FindDue(trip, stopId, DateOf(now));
        if due.Some? {
          var u :- FromTrip(trip, stopId, "SCHEDULE", due.value, now, false, false);
          ret := ret + [u];
        }
      }
      assert trips[..|trips|] == trips;
      return Success(ret);
    }

    /** `get_scheduled`. */
    method GetScheduled(stops: seq<string>, now: DateTime) returns (r: Result<seq<Upcoming>, Error>)
      ensures r == ScheduledDepartures(stops, now)
    {
      var ret: seq<Upcoming> := [];
      for i := 0 to |stops|
        invariant ScheduledEntries(stops[..i], now) == Success(ret)
      {
        assert stops[..i + 1][..i] == stops[..i];
        ScheduledEntriesFails(stops, now, i + 1);
        var trips :- database.GetScheduledFor(stops[i], now, now + WindowSeconds);
        var more :- EntriesForTrips(trips, stops[i], now);
        ret := ret + more;
      }
      assert stops[..|stops|] == stops;
      return Success(SortBy(ret, DueIn));
    }

    // -------------------------------------------------------------------------
    // get_live

    /** Where a live trip meets the interesting stops: the stop, its
        sequence number and scheduled arrival; with no interesting stop time,
        "", -1 and `fromtimestamp(1)`. */
    static function Locate(trip: Database.Trip, stops: seq<string>, today: Date, toLocal: int -> DateTime)
      : Result<(string, int, DateTime), Error>
    {
      var found :- FirstInteresting(trip.stopTimes, stops, 0);
      match found
      case None => Success(("", -1, toLocal(1)))
      case Some(k) =>
        var row := trip.stopTimes[k];
        var sequenceText :- Field(row, "stop_sequence");
        var sequence :- match ParseInt(sequenceText) case None => Failure(ValueError("invalid literal for int()")) case Some(n) => Success(n);
        var arrivalText :- Field(row, "arrival_time");
        var arrival :- ParseTime(arrivalText, today);
        Success((row["stop_id"], sequence, arrival))
    }

    /** The trip a live entity is about: the database's, or for an ADDED
        trip the database does not know, one built from the update. */
    function LiveTrip(tu: TripUpdate, stops: seq<string>, toLocal: int -> DateTime): Option<Database.Trip>
      reads database
    {
      var fromDb := database.GetTrip(tu.trip.tripId);
      if fromDb.None? && tu.trip.scheduleRelationship == Added then BuiltTrip(tu, stops, toLocal) else fromDb
    }

    /** One pass of the `for entity in resp.entity` loop of `get_live`. */
    function LiveEntry(e: FeedEntity, stops: seq<string>, now: DateTime, toLocal: int -> DateTime): Result<Option<Upcoming>, Error>
      reads database
    {
      match e.tripUpdate
      case None => Success(None)
      case Some(tu) =>
        var rel := tu.trip.scheduleRelationship;
        var trip := LiveTrip(tu, stops, toLocal);
        if trip.None? || rel !in {Scheduled, Canceled, Added} then Success(None)
        else
          var located :- Locate(trip.value, stops, DateOf(now), toLocal);
          var (stopId, sequence, arrival) := located;
          var updated := if rel == Scheduled then UpdatedArrival(tu.stopTimeUpdate, sequence, arrival, toLocal) else arrival;
          if rel == Scheduled && now > updated then Success(None)
          else
            var u :- FromTrip(trip.value, stopId, "LIVE", updated, now, rel == Canceled, rel == Added);
            Success(Some(u))
    }

    /** What `get_live` returns or raises. */
    function Live(feed: Feed, stops: seq<string>, now: DateTime, toLocal: int -> DateTime): Result<seq<Upcoming>, Error>
      reads database
    {
      if |feed| == 0 then Success([])
      else
        var before :- Live(feed[..|feed| - 1], stops, now, toLocal);
        var entry :- LiveEntry(feed[|feed| - 1], stops, now, toLocal);
        Success(before + if entry.Some? then [entry.value] else [])
    }

    lemma {:induction false} LiveFails(feed: Feed, stops: seq<string>, now: DateTime, toLocal: int -> DateTime, n: nat)
      requires n <= |feed|
      ensures Live(feed[..n], stops, now, toLocal).Failure? ==> Live(feed, stops, now, toLocal) == Live(feed[..n], stops, now, toLocal)
    {
      if n < |feed| {
        LiveFails(feed[..|feed| - 1], stops, now, toLocal, n);
        assert feed[..|feed| - 1][..n] == feed[..n];
      } else {
        assert feed[..n] == feed;
      }
    }

    /** Entities without a trip update, trips neither in the database nor
        buildable as ADDED, and relationships other than SCHEDULED, CANCELED
        and ADDED are skipped. */
    lemma LiveIgnores(e: FeedEntity, stops: seq<string>, now: DateTime, toLocal: int -> DateTime)
      ensures e.tripUpdate.None? ==> LiveEntry(e, stops, now, toLocal) == Success(None)
      ensures e.tripUpdate.Some? && e.tripUpdate.value.trip.scheduleRelationship !in {Scheduled, Canceled, Added} ==>
                LiveEntry(e, stops, now, toLocal) == Success(None)
      ensures e.tripUpdate.Some? && e.tripUpdate.value.trip.tripId !in database.tripDb &&
              e.tripUpdate.value.trip.scheduleRelationship != Added ==>
                LiveEntry(e, stops, now, toLocal) == Success(None)
    {
    }

    /** A SCHEDULED trip whose updated arrival is already past is dropped, and
        one that is emitted is due now or later; CANCELED and ADDED trips are
        emitted whatever their time, flagged as such. */
    lemma LiveEmits(e: FeedEntity, stops: seq<string>, now: DateTime, toLocal: int -> DateTime)
      requires e.tripUpdate.Some?
      requires LiveEntry(e, stops, now, toLocal).Success?
      ensures var tu := e.tripUpdate.value;
              var rel := tu.trip.scheduleRelationship;
              var r := LiveEntry(e, stops, now, toLocal).value;
              && (r.Some? ==>
                    && r.value.source == "LIVE" && r.value.tripId == LiveTrip(tu, stops, toLocal).value.tripId
                    && r.value.canceled == (rel == Canceled) && r.value.addedToSchedule == (rel == Added)
                    && (rel == Scheduled ==> r.value.dueInSeconds >= 0))
              && (rel in {Canceled, Added} && LiveTrip(tu, stops, toLocal).Some? ==> r.Some?)
    {
    }

    /** For a SCHEDULED trip the due time is the scheduled arrival at the first
        interesting stop run through the updates up to that stop: the last
        absolute time among them, plus every later delay. */
    lemma LiveDue(e: FeedEntity, stops: seq<string>, now: DateTime, toLocal: int -> DateTime)
      requires e.tripUpdate.Some? && e.tripUpdate.value.trip.scheduleRelationship == Scheduled
      requires LiveEntry(e, stops, now, toLocal).Success? && LiveEntry(e, stops, now, toLocal).value.Some?
      ensures var tu := e.tripUpdate.value;
              var (_, sequence, arrival) := Locate(LiveTrip(tu, stops, toLocal).value, stops, DateOf(now), toLocal).value;
              var applied := tu.stopTimeUpdate[..Applicable(tu.stopTimeUpdate, sequence)];
              LiveEntry(e, stops, now, toLocal).value.value.dueInSeconds + now ==
                match LastTimed(applied)
                case None => arrival + SumDelays(applied)
                case Some(k) => toLocal(applied[k].arrival.value.time.value) + SumDelays(applied[k + 1..])
    {
      var tu := e.tripUpdate.value;
      var (_, sequence, arrival) := Locate(LiveTrip(tu, stops, toLocal).value, stops, DateOf(now), toLocal).value;
      ReplayClosedForm(tu.stopTimeUpdate[..Applicable(tu.stopTimeUpdate, sequence)], arrival, toLocal);
    }

    method LocateTrip(trip: Database.Trip, stops: seq<string>, today: Date, toLocal: int -> DateTime)
      returns (r: Result<(string, int, DateTime), Error>)
      ensures r == Locate(trip, stops, today, toLocal)
    {
      var found :- FindFirstInteresting(trip.stopTimes, stops);
      if found.None? {
        return Success(("", -1, toLocal(1)));
      }
      var row := trip.stopTimes[found.value];
      var stopId := row["stop_id"];
      var sequenceText :- Field(row, "stop_sequence");
      var sequence := ParseInt(sequenceText);
      if sequence.None? {
        return Failure(ValueError("invalid literal for int()"));
      }
      var arrivalText :- Field(row, "arrival_time");
      var arrival :- ParseTime(arrivalText, today);
      return Success((stopId, sequence.value, arrival));
    }

    /** The body of the entity loop of `get_live`. */
    method LiveEntryOf(e: FeedEntity, stops: seq<string>, now: DateTime, toLocal: int -> DateTime)
      returns (r: Result<Option<Upcoming>, Error>)
      ensures r == LiveEntry(e, stops, now, toLocal)
    {
      if e.tripUpdate.None? {
        return Success(None);
      }
      var tripUpdate := e.tripUpdate.value;
      var trip := tripUpdate.trip;
      var scheduled := trip.scheduleRelationship == Scheduled;
      var canceled := trip.scheduleRelationship == Canceled;
      var added := trip.scheduleRelationship == Added;
      var tripFromDb := database.GetTrip(trip.tripId);
      if tripFromDb.None? && added {
        tripFromDb := BuildTripFromUpdate(tripUpdate, stops, toLocal);
      }
      if tripFromDb.None? {
        return Success(None);
      }
      if !(scheduled || canceled || added) {
        return Success(None);
      }
      var located :- LocateTrip(tripFromDb.value, stops, DateOf(now), toLocal);
      var (stopId, sequence, arrivalTime) := located;
      var updatedArrivalTime := arrivalTime;
      if scheduled {
        updatedArrivalTime := ApplyUpdates(tripUpdate.stopTimeUpdate, sequence, arrivalTime, toLocal);
        if now > updatedArrivalTime {
          return Success(None);
        }
      }
      var u :- FromTrip(tripFromDb.value, stopId, "LIVE", updatedArrivalTime, now, canceled, added);
      return Success(Some(u));
    }

    /** `get_live`, given the feed `load_from_api` would return. */
    method GetLive(feed: Feed, stops: seq<string>, now: DateTime, toLocal: int -> DateTime)
      returns (r: Result<seq<Upcoming>, Error>)
      ensures r == Live(feed, stops, now, toLocal)
    {
      var ret: seq<Upcoming> := [];
      for i := 0 to |feed|
        invariant Live(feed[..i], stops, now, toLocal) == Success(ret)
      {
        assert feed[..i + 1][..i] == feed[..i];
        LiveFails(feed, stops, now, toLocal, i + 1);
        var entry :- LiveEntryOf(feed[i], stops, now, toLocal);
        if entry.Some? {
          ret := ret + [entry.value];
        } else {
          assert ret + [] == ret;
        }
      }
      assert feed[..|feed|] == feed;
      return Success(ret);
    }

    // -------------------------------------------------------------------------
    // get_upcoming

    /** What `get_upcoming` returns or raises: the scheduled entries are
        computed first, then the live ones. */
    function UpcomingFor(feed: Feed, stops: seq<string>, now: DateTime, toLocal: int -> DateTime): Result<seq<Upcoming>, Error>
      reads database
    {
      var scheduled :- ScheduledDepartures(stops, now);
      var live :- Live(feed, stops, now, toLocal);
      Success(SortBy(NotCanceled(Merged(scheduled, live, TripIdOf)), DueIn))
    }

    /** `get_upcoming`. */
    method GetUpcoming(feed: Feed, stops: seq<string>, now: DateTime, toLocal: int -> DateTime)
      returns (r: Result<seq<Upcoming>, Error>)
      ensures r == UpcomingFor(feed, stops, now, toLocal)
    {
      var scheduled :- GetScheduled(stops, now);
      var ret :- GetLive(feed, stops, now, toLocal);
      ret := Supersede(scheduled, ret, TripIdOf);
      return Success(SortBy(NotCanceled(ret), DueIn));
    }

    /** The upcoming list is sorted by due time; it holds every live entry
        that is not canceled, and a scheduled entry exactly when it is not
        canceled, is the last scheduled entry of its trip, and no live entry
        (canceled or not) has its trip id. */
    lemma UpcomingExactly(feed: Feed, stops: seq<string>, now: DateTime, toLocal: int -> DateTime, x: Upcoming)
      requires UpcomingFor(feed, stops, now, toLocal).Success?
      ensures SortedBy(UpcomingFor(feed, stops, now, toLocal).value, DueIn)
      ensures var scheduled := ScheduledDepartures(stops, now).value;
              var live := Live(feed, stops, now, toLocal).value;
              x in UpcomingFor(feed, stops, now, toLocal).value <==>
                !x.canceled &&
                (x in live || (x.tripId !in Ids(live, TripIdOf) && exists i :: LastWithId(scheduled, TripIdOf, i) && scheduled[i] == x))
    {
      var scheduled := ScheduledDepartures(stops, now).value;
      var live := Live(feed, stops, now, toLocal).value;
      var merged := Merged(scheduled, live, TripIdOf);
      SortBySorted(NotCanceled(merged), DueIn);
      assert x in SortBy(NotCanceled(merged), DueIn) <==> x in multiset(NotCanceled(merged));
      MergedMembers(scheduled, live, TripIdOf, x);
    }
  }

  /** `filter(lambda t: not t.canceled, ...)`. */
  function NotCanceled(xs: seq<Upcoming>): (r: seq<Upcoming>)
    ensures forall x :: x in r <==> x in xs && !x.canceled
    ensures |r| <= |xs|
  {
    if |xs| == 0 then []
    else NotCanceled(xs[..|xs| - 1]) + if xs[|xs| - 1].canceled then [] else [xs[|xs| - 1]]
  }
}
