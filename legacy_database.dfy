/** The schedule database of the older tree (gtfs_data/database.py). It
    differs from the current one in how it fails: an ungroupable table is
    kept as None and breaks a later step, trips of unknown routes are kept
    with no route, and the query raises on a trip it does not know. */
module LegacyDatabase {
  import opened Wrappers
  import opened Dicts
  import opened Clock
  import opened Tables
  import opened Calendar
  import opened Schedule
  import Loader
  import Database

  /** A trip and, as `routes.get(route_id)` and `stop_times.get(trip_id)`
      leave them, its routes.txt row and stop times, each possibly None. */
  datatype LegacyTrip = LegacyTrip(
    tripId: string, tripHeadsign: string, directionId: string, serviceId: string,
    route: Option<Row>, stopTimes: Option<seq<Row>>)

  const NoValues := AttributeError("'NoneType' object has no attribute 'values'")
  const NoItems := AttributeError("'NoneType' object has no attribute 'items'")
  const NoGet := AttributeError("'NoneType' object has no attribute 'get'")
  const NoServiceId := AttributeError("'NoneType' object has no attribute 'service_id'")
  const NotIterable := TypeError("argument of type 'NoneType' is not iterable")

  // ---------------------------------------------------------------------------
  // Loading

  /** `_LoadStops`: the grouping itself, None when a row lacks `stop_id`. */
  function StopsIndex(files: Loader.Files, keepStops: seq<string>, decode: Loader.Decoder)
    : Result<Option<map<string, seq<Row>>>, Error>
  {
    var rows :- Loader.Loaded(files, "stop_times.txt", Database.StopFilter(keepStops), decode);
    match GroupAll(rows, "stop_id")
    case Some(groups) => Success(Some(groups.entries))
    case None => Success(None)
  }

  /** The `for trip_id, row in trips.items()` loop over `keys`. */
  function JoinTrips(keys: seq<string>, trips: map<string, Row>, stopTimes: Option<map<string, seq<Row>>>,
                     routes: Option<map<string, Row>>): Result<map<string, LegacyTrip>, Error>
    requires forall k :: k in keys ==> k in trips
  {
    if |keys| == 0 then Success(map[])
    else
      var tripDb :- JoinTrips(keys[..|keys| - 1], trips, stopTimes, routes);
      var tripId := keys[|keys| - 1];
      var row := trips[tripId];
      var routeId :- Field(row, "route_id");
      if routes.None? then Failure(NotIterable)
      else if stopTimes.None? then Failure(NoGet)
      else
        var headsign :- Field(row, "trip_headsign");
        var direction :- Field(row, "direction_id");
        var service :- Field(row, "service_id");
        var route := if routeId in routes.value then Some(routes.value[routeId]) else None;
        var st := if tripId in stopTimes.value then Some(stopTimes.value[tripId]) else None;
        Success(tripDb[tripId := LegacyTrip(tripId, headsign, direction, service, route, st)])
  }

  /** `_LoadTrips`. */
  function TripTables(files: Loader.Files, stops: Option<map<string, seq<Row>>>, decode: Loader.Decoder)
    : Result<map<string, LegacyTrip>, Error>
  {
    if stops.None? then Failure(NoValues)
    else
      var tripIds :- Database.TripIds(stops.value);
      var keep := map["trip_id" := tripIds];
      var stopTimeRows :- Loader.Loaded(files, "stop_times.txt", keep, decode);
      var routeRows :- Loader.Loaded(files, "routes.txt", map[], decode);
      var tripRows :- Loader.Loaded(files, "trips.txt", keep, decode);
      var stopTimes := GroupAll(stopTimeRows, "trip_id");
      var routes := GroupLast(routeRows, "route_id");
      match GroupLast(tripRows, "trip_id")
      case None => Failure(NoItems)
      case Some(trips) =>
        JoinTrips(trips.keys, trips.entries,
                  if stopTimes.Some? then Some(stopTimes.value.entries) else None,
                  if routes.Some? then Some(routes.value.entries) else None)
  }

  /** `_LoadCalendar`: an ungroupable calendar raises AttributeError. */
  function CalendarOf(files: Loader.Files, decode: Loader.Decoder): Result<Services, Error> {
    var rows :- Loader.Loaded(files, "calendar.txt", map[], decode);
    match GroupLast(rows, "service_id")
    case None => Failure(NoItems)
    case Some(dates) => ServicesFrom(dates.keys, dates.entries)
  }

  datatype Contents = Contents(
    stops: Option<map<string, seq<Row>>>, trips: map<string, LegacyTrip>,
    calendar: Services, exceptions: Exceptions)

  /** `Load`: each table is assigned as soon as it is built. */
  function AfterLoad(before: Contents, files: Loader.Files, keepStops: seq<string>, decode: Loader.Decoder)
    : (Contents, Result<(), Error>)
  {
    match StopsIndex(files, keepStops, decode)
    case Failure(e) => (before, Failure(e))
    case Success(stops) =>
      var c1 := before.(stops := stops);
      match TripTables(files, stops, decode)
      case Failure(e) => (c1, Failure(e))
      case Success(trips) =>
        var c2 := c1.(trips := trips);
        match CalendarOf(files, decode)
        case Failure(e) => (c2, Failure(e))
        case Success(calendar) =>
          var c3 := c2.(calendar := calendar);
          match Database.ExceptionsOf(files, decode)
          case Failure(e) => (c3, Failure(e))
          case Success(exceptions) => (c3.(exceptions := exceptions), Success(()))
  }

  /** A stop_times.txt row without `stop_id` leaves the stop index None and
      makes the load fail when the trips are loaded. */
  lemma UngroupableStops(before: Contents, files: Loader.Files, keepStops: seq<string>, decode: Loader.Decoder)
    requires StopsIndex(files, keepStops, decode) == Success(None)
    ensures AfterLoad(before, files, keepStops, decode) == (before.(stops := None), Failure(NoValues))
  {
  }

  /** Unlike the current database, every trip row is kept; its route is the
      routes.txt row of its route id, or None for an unknown route. */
  lemma {:induction false} JoinedTrip(keys: seq<string>, trips: map<string, Row>, stopTimes: Option<map<string, seq<Row>>>,
                                      routes: Option<map<string, Row>>, tripId: string)
    requires forall k :: k in keys ==> k in trips
    requires JoinTrips(keys, trips, stopTimes, routes).Success?
    ensures var tripDb := JoinTrips(keys, trips, stopTimes, routes).value;
            && (tripId in tripDb <==> tripId in keys)
            && (tripId in tripDb ==>
                  var row := trips[tripId];
                  && routes.Some? && stopTimes.Some? && "route_id" in row && Database.TripColumns(row)
                  && tripDb[tripId] == LegacyTrip(tripId, row["trip_headsign"], row["direction_id"], row["service_id"],
                                                  if row["route_id"] in routes.value then Some(routes.value[row["route_id"]]) else None,
                                                  if tripId in stopTimes.value then Some(stopTimes.value[tripId]) else None))
  {
    if |keys| > 0 {
      var init := keys[..|keys| - 1];
      JoinedTrip(init, trips, stopTimes, routes, tripId);
      assert tripId in keys <==> tripId in init || tripId == keys[|keys| - 1];
    }
  }

  /** Only trips that some indexed stop time names are loaded: with an
      allowlist, trips reachable from no allowlisted stop are absent. */
  lemma TripsReachable(files: Loader.Files, stops: Option<map<string, seq<Row>>>, decode: Loader.Decoder, tripId: string)
    requires TripTables(files, stops, decode).Success?
    ensures stops.Some? && Database.TripIds(stops.value).Success?
    ensures tripId in TripTables(files, stops, decode).value ==> tripId in Database.TripIds(stops.value).value
  {
    var tripIds := Database.TripIds(stops.value).value;
    var keep := map["trip_id" := tripIds];
    var stopTimes := GroupAll(Loader.OnePass(files["stop_times.txt"], keep, decode), "trip_id");
    var routes := GroupLast(Loader.OnePass(files["routes.txt"], map[], decode), "route_id");
    var trips := GroupLast(Loader.OnePass(files["trips.txt"], keep, decode), "trip_id").value;
    JoinedTrip(trips.keys, trips.entries,
               if stopTimes.Some? then Some(stopTimes.value.entries) else None,
               if routes.Some? then Some(routes.value.entries) else None, tripId);
    Database.LoadedTripsAllowed(files, tripIds, decode, tripId);
  }

  /** The trips `_LoadTrips` stores are keyed by their own ids and are
      named by some indexed stop time. */
  lemma LoadedTripsKeyed(files: Loader.Files, stops: Option<map<string, seq<Row>>>, decode: Loader.Decoder, tripId: string)
    requires TripTables(files, stops, decode).Success?
    ensures var tripDb := TripTables(files, stops, decode).value;
            tripId in tripDb ==>
              && stops.Some? && tripId in Database.TripIds(stops.value).value
              && tripDb[tripId].tripId == tripId
  {
    var tripIds := Database.TripIds(stops.value).value;
    var keep := map["trip_id" := tripIds];
    var stopTimes := GroupAll(Loader.OnePass(files["stop_times.txt"], keep, decode), "trip_id");
    var routes := GroupLast(Loader.OnePass(files["routes.txt"], map[], decode), "route_id");
    var trips := GroupLast(Loader.OnePass(files["trips.txt"], keep, decode), "trip_id").value;
    TripsReachable(files, stops, decode, tripId);
    JoinedTrip(trips.keys, trips.entries,
               if stopTimes.Some? then Some(stopTimes.value.entries) else None,
               if routes.Some? then Some(routes.value.entries) else None, tripId);
  }

  /** A missing routes table or stop-times grouping raises only when there is
      a trip to join. */
  lemma JoinNeedsTables(keys: seq<string>, trips: map<string, Row>, stopTimes: Option<map<string, seq<Row>>>,
                        routes: Option<map<string, Row>>)
    requires forall k :: k in keys ==> k in trips
    requires forall k :: k in keys ==> "route_id" in trips[k]
    ensures |keys| > 0 && routes.None? ==> JoinTrips(keys, trips, stopTimes, routes).Failure?
    ensures |keys| > 0 && stopTimes.None? ==> JoinTrips(keys, trips, stopTimes, routes).Failure?
    ensures |keys| == 0 ==> JoinTrips(keys, trips, stopTimes, routes) == Success(map[])
  {
  }

  lemma {:induction false} JoinTripsFails(keys: seq<string>, trips: map<string, Row>, stopTimes: Option<map<string, seq<Row>>>,
                                          routes: Option<map<string, Row>>, n: nat)
    requires forall k :: k in keys ==> k in trips
    requires n <= |keys|
    ensures JoinTrips(keys[..n], trips, stopTimes, routes).Failure? ==>
              JoinTrips(keys, trips, stopTimes, routes) == JoinTrips(keys[..n], trips, stopTimes, routes)
  {
    if n < |keys| {
      JoinTripsFails(keys[..|keys| - 1], trips, stopTimes, routes, n);
      assert keys[..|keys| - 1][..n] == keys[..n];
    } else {
      assert keys[..n] == keys;
    }
  }

  // ---------------------------------------------------------------------------
  // The database object

  class LegacyDatabase {
    const keepStops: seq<string>
    const loadAllStops: bool
    var stopsDb: Option<map<string, seq<Row>>>
    var tripDb: map<string, LegacyTrip>
    var calendarDb: Services
    var exceptionsDb: Exceptions

    constructor(keepStops: seq<string>)
      ensures this.keepStops == keepStops && loadAllStops == (|keepStops| == 0)
      ensures Snapshot() == Contents(Some(map[]), map[], map[], map[])
    {
      this.keepStops := keepStops;
      loadAllStops := |keepStops| == 0;
      stopsDb, tripDb := Some(map[]), map[];
      calendarDb, exceptionsDb := map[], map[];
    }

    function Snapshot(): Contents
      reads this
    {
      Contents(stopsDb, tripDb, calendarDb, exceptionsDb)
    }

    method LoadStops(files: Loader.Files, decode: Loader.Decoder) returns (r: Result<Option<map<string, seq<Row>>>, Error>)
      requires loadAllStops == (|keepStops| == 0)
      ensures r == StopsIndex(files, keepStops, decode)
    {
      var tmpStopTimes;
      if loadAllStops {
        tmpStopTimes :- Loader.LegacyLoad(files, "stop_times.txt", map[], decode);
      } else {
        tmpStopTimes :- Loader.LegacyLoad(files, "stop_times.txt", map["stop_id" := set s | s in keepStops], decode);
      }
      var result := CollectAll(Some(tmpStopTimes), "stop_id");
      if result.None? {
        return Success(None);
      }
      return Success(Some(result.value.entries));
    }

    method LoadTrips(files: Loader.Files, decode: Loader.Decoder) returns (r: Result<map<string, LegacyTrip>, Error>)
      ensures r == TripTables(files, stopsDb, decode)
    {
      if stopsDb.None? {
        return Failure(NoValues);
      }
      var tripIds :- Database.Database.CollectTripIds(stopsDb.value);
      var keep := map["trip_id" := tripIds];
      var stopTimeRows :- Loader.LegacyLoad(files, "stop_times.txt", keep, decode);
      var stopTimes := CollectAll(Some(stopTimeRows), "trip_id");
      var routeRows :- Loader.LegacyLoad(files, "routes.txt", map[], decode);
      var routes := CollectLast(Some(routeRows), "route_id");
      var tripRows :- Loader.LegacyLoad(files, "trips.txt", keep, decode);
      var trips := CollectLast(Some(tripRows), "trip_id");
      if trips.None? {
        return Failure(NoItems);
      }
      r := JoinLoop(trips.value,
                    if stopTimes.Some? then Some(stopTimes.value.entries) else None,
                    if routes.Some? then Some(routes.value.entries) else None);
    }

    static method JoinLoop(trips: Dict<Row>, stopTimes: Option<map<string, seq<Row>>>, routes: Option<map<string, Row>>)
      returns (r: Result<map<string, LegacyTrip>, Error>)
      requires Valid(trips)
      ensures r == JoinTrips(trips.keys, trips.entries, stopTimes, routes)
    {
      var tripDb: map<string, LegacyTrip> := map[];
      for i := 0 to |trips.keys|
        invariant JoinTrips(trips.keys[..i], trips.entries, stopTimes, routes) == Success(tripDb)
      {
        assert trips.keys[..i + 1][..i] == trips.keys[..i];
        JoinTripsFails(trips.keys, trips.entries, stopTimes, routes, i + 1);
        var tripId := trips.keys[i];
        var row := trips.entries[tripId];
        var routeId :- Field(row, "route_id");
        if routes.None? {
          return Failure(NotIterable);
        }
        if stopTimes.None? {
          return Failure(NoGet);
        }
        var st := if tripId in stopTimes.value then Some(stopTimes.value[tripId]) else None;
        var headsign :- Field(row, "trip_headsign");
        var direction :- Field(row, "direction_id");
        var service :- Field(row, "service_id");
        var route := if routeId in routes.value then Some(routes.value[routeId]) else None;
        tripDb := tripDb[tripId := LegacyTrip(tripId, headsign, direction, service, route, st)];
      }
      assert trips.keys[..|trips.keys|] == trips.keys;
      return Success(tripDb);
    }

    method LoadCalendar(files: Loader.Files, decode: Loader.Decoder) returns (r: Result<Services, Error>)
      ensures r == CalendarOf(files, decode)
    {
      var rows :- Loader.LegacyLoad(files, "calendar.txt", map[], decode);
      var dates := CollectLast(Some(rows), "service_id");
      if dates.None? {
        return Failure(NoItems);
      }
      r := ParseServices(dates.value);
    }

    method LoadExceptions(files: Loader.Files, decode: Loader.Decoder) returns (r: Result<Exceptions, Error>)
      ensures r == Database.ExceptionsOf(files, decode)
    {
      var rows :- Loader.LegacyLoad(files, "calendar_dates.txt", map[], decode);
      var dates := CollectAll(Some(rows), "service_id");
      if dates.None? {
        return Failure(TypeError("'NoneType' object is not iterable"));
      }
      r := ParseExceptions(dates.value);
    }

    method Load(files: Loader.Files, decode: Loader.Decoder) returns (r: Result<(), Error>)
      requires loadAllStops == (|keepStops| == 0)
      modifies this
      ensures (Snapshot(), r) == AfterLoad(old(Snapshot()), files, keepStops, decode)
    {
      stopsDb :- LoadStops(files, decode);
      tripDb :- LoadTrips(files, decode);
      calendarDb :- LoadCalendar(files, decode);
      exceptionsDb :- LoadExceptions(files, decode);
      return Success(());
    }

    // -------------------------------------------------------------------------
    // Queries

    /** `GetTrip`. */
    function GetTrip(tripId: string): (r: Option<LegacyTrip>)
      reads this
      ensures r.Some? <==> tripId in tripDb
      ensures r.Some? ==> r.value == tripDb[tripId]
    {
      if tripId in tripDb then Some(tripDb[tripId]) else None
    }

    /** After a load that succeeds, `GetTrip` finds a trip only under its
        own id and only when some indexed stop time names it. */
    lemma GetTripAfterLoad(before: Contents, files: Loader.Files, decode: Loader.Decoder, tripId: string)
      requires AfterLoad(before, files, keepStops, decode) == (Snapshot(), Success(()))
      ensures GetTrip(tripId).Some? ==>
                && GetTrip(tripId).value.tripId == tripId
                && stopsDb.Some? && tripId in Database.TripIds(stopsDb.value).value
    {
      LoadedTripsKeyed(files, stopsDb, decode, tripId);
    }

    /** `_IsValidServiceDay`: the calendar rule of the current database, but
        looked up by trip id, so an unknown trip raises AttributeError. */
    function IsValidServiceDay(d: Date, tripId: string): (r: Result<bool, Error>)
      reads this
      ensures r.Failure? <==> tripId !in tripDb
      ensures r.Success? ==> r.value == ServiceDayValid(calendarDb, exceptionsDb, tripDb[tripId].serviceId, d)
    {
      match GetTrip(tripId)
      case None => Failure(NoServiceId)
      case Some(trip) => Success(ServiceDayValid(calendarDb, exceptionsDb, trip.serviceId, d))
    }

    function Selected(ps: seq<Possibility>, tripId: string, start: DateTime, end: DateTime): Result<seq<LegacyTrip>, Error>
      reads this
    {
      if |ps| == 0 then Success([])
      else
        var before :- Selected(ps[..|ps| - 1], tripId, start, end);
        var p := ps[|ps| - 1];
        var validDay :- IsValidServiceDay(p.serviceDate, tripId);
        Success(before + if validDay && start <= p.arrivalTime <= end then [tripDb[tripId]] else [])
    }

    function FromRow(row: Row, start: DateTime, end: DateTime): Result<seq<LegacyTrip>, Error>
      reads this
    {
      var tripId :- Field(row, "trip_id");
      var arrival :- Field(row, "arrival_time");
      match ArrivalOffset(arrival)
      case None => Success([])
      case Some(offset) => Selected(Possibles(DateOf(start) - 1, DateOf(end), offset), tripId, start, end)
    }

    function FromRows(rows: seq<Row>, start: DateTime, end: DateTime): Result<seq<LegacyTrip>, Error>
      reads this
    {
      if |rows| == 0 then Success([])
      else
        var before :- FromRows(rows[..|rows| - 1], start, end);
        var more :- FromRow(rows[|rows| - 1], start, end);
        Success(before + more)
    }

    /** What `GetScheduledFor` returns or raises; with no stop index at all
        the lookup itself raises. */
    function ScheduledFor(stopId: string, start: DateTime, end: DateTime): Result<seq<LegacyTrip>, Error>
      reads this
    {
      if stopsDb.None? then Failure(NoGet)
      else if stopId !in stopsDb.value || |stopsDb.value[stopId]| == 0 then Success([])
      else if end < start then Failure(ValueError("start must come before end"))
      else FromRows(stopsDb.value[stopId], start, end)
    }

    lemma {:induction false} FromRowsFails(rows: seq<Row>, start: DateTime, end: DateTime, n: nat)
      requires n <= |rows|
      ensures FromRows(rows[..n], start, end).Failure? ==> FromRows(rows, start, end) == FromRows(rows[..n], start, end)
    {
      if n < |rows| {
        FromRowsFails(rows[..|rows| - 1], start, end, n);
        assert rows[..|rows| - 1][..n] == rows[..n];
      } else {
        assert rows[..n] == rows;
      }
    }

    lemma {:induction false} SelectedFails(ps: seq<Possibility>, tripId: string, start: DateTime, end: DateTime, n: nat)
      requires n <= |ps|
      ensures Selected(ps[..n], tripId, start, end).Failure? ==> Selected(ps, tripId, start, end) == Selected(ps[..n], tripId, start, end)
    {
      if n < |ps| {
        SelectedFails(ps[..|ps| - 1], tripId, start, end, n);
        assert ps[..|ps| - 1][..n] == ps[..n];
      } else {
        assert ps[..n] == ps;
      }
    }

    /** `GetScheduledFor`. */
    method GetScheduledFor(stopId: string, start: DateTime, end: DateTime) returns (r: Result<seq<LegacyTrip>, Error>)
      ensures r == ScheduledFor(stopId, start, end)
    {
      var ret: seq<LegacyTrip> := [];
      if stopsDb.None? {
        return Failure(NoGet);
      }
      if stopId !in stopsDb.value || |stopsDb.value[stopId]| == 0 {
        return Success(ret);
      }
      var stops := stopsDb.value[stopId];
      if end < start {
        return Failure(ValueError("start must come before end"));
      }
      for i := 0 to |stops|
        invariant FromRows(stops[..i], start, end) == Success(ret)
      {
        assert stops[..i + 1][..i] == stops[..i];
        FromRowsFails(stops, start, end, i + 1);
        var more :- TripsOfRow(stops[i], start, end);
        ret := ret + more;
      }
      assert stops[..|stops|] == stops;
      return Success(ret);
    }

    method TripsOfRow(s: Row, start: DateTime, end: DateTime) returns (r: Result<seq<LegacyTrip>, Error>)
      ensures r == FromRow(s, start, end)
    {
      var tripId :- Field(s, "trip_id");
      var arrivalTime :- Field(s, "arrival_time");
      var offset := ArrivalOffset(arrivalTime);
      if offset.None? {
        return Success([]);
      }
      var possibles := ServiceDates(DateOf(start) - 1, DateOf(end), offset.value);
      r := SelectTrips(possibles, tripId, start, end);
    }

    /** The `for p in possibles` loop. */
    method SelectTrips(possibles: seq<Possibility>, tripId: string, start: DateTime, end: DateTime)
      returns (r: Result<seq<LegacyTrip>, Error>)
      ensures r == Selected(possibles, tripId, start, end)
    {
      var ret: seq<LegacyTrip> := [];
      for j := 0 to |possibles|
        invariant Selected(possibles[..j], tripId, start, end) == Success(ret)
      {
        assert possibles[..j + 1][..j] == possibles[..j];
        SelectedFails(possibles, tripId, start, end, j + 1);
        var p := possibles[j];
        var validDay :- IsValidServiceDay(p.serviceDate, tripId);
        assert possibles[..j + 1][j] == p;
        assert Selected(possibles[..j + 1], tripId, start, end) ==
               Success(ret + if validDay && start <= p.arrivalTime <= end then [tripDb[tripId]] else []);
        if validDay && start <= p.arrivalTime <= end {
          var trip := GetTrip(tripId);
          ret := ret + [trip.value];
        } else {
          assert ret + [] == ret;
        }
      }
      assert possibles[..|possibles|] == possibles;
      return Success(ret);
    }

    // -------------------------------------------------------------------------
    // Properties of the query

    /** A row of a trip the database does not know raises AttributeError as
        soon as its arrival time parses, where the current database skips it. */
    lemma UnknownTripRaises(row: Row, start: DateTime, end: DateTime)
      requires start <= end
      requires "trip_id" in row && "arrival_time" in row && ArrivalOffset(row["arrival_time"]).Some?
      requires row["trip_id"] !in tripDb
      ensures FromRow(row, start, end) == Failure(NoServiceId)
    {
      var ps := Possibles(DateOf(start) - 1, DateOf(end), ArrivalOffset(row["arrival_time"]).value);
      SelectedFails(ps, row["trip_id"], start, end, 1);
      assert ps[..1][..0] == [];
    }

    /** `d` is a valid service day of trip `t`. */
    predicate RunsOn(t: LegacyTrip, d: Date)
      reads this
    {
      ServiceDayValid(calendarDb, exceptionsDb, t.serviceId, d)
    }

    /** On a known trip the candidates select exactly the service dates whose
        arrival falls in the window, as in the current database. */
    lemma {:induction false} SelectedExactly(ps: seq<Possibility>, tripId: string, start: DateTime, end: DateTime, t: LegacyTrip)
      requires tripId in tripDb
      ensures Selected(ps, tripId, start, end).Success?
      ensures t in Selected(ps, tripId, start, end).value <==>
                && tripDb[tripId] == t
                && exists k :: 0 <= k < |ps| && RunsOn(t, ps[k].serviceDate)
                                             && start <= ps[k].arrivalTime <= end
    {
      if |ps| > 0 {
        var init := ps[..|ps| - 1];
        SelectedExactly(init, tripId, start, end, t);
        assert forall k :: 0 <= k < |init| ==> init[k] == ps[k];
      }
    }

    /** The candidates of a trip the database does not know raise as soon
        as there is one. */
    lemma UnknownTripSelected(ps: seq<Possibility>, tripId: string, start: DateTime, end: DateTime)
      requires tripId !in tripDb
      ensures Selected(ps, tripId, start, end) == if |ps| == 0 then Success([]) else Failure(NoServiceId)
    {
      if |ps| > 0 {
        SelectedFails(ps, tripId, start, end, 1);
        assert ps[..1][..0] == [];
      }
    }

    /** Trip `t` arrives at the stop through row `row` on service date `d`,
        on the same terms as in the current database. */
    ghost predicate WindowMatch(row: Row, d: Date, t: LegacyTrip, start: DateTime, end: DateTime)
      reads this
    {
      && "trip_id" in row && "arrival_time" in row
      && row["trip_id"] in tripDb && tripDb[row["trip_id"]] == t
      && ArrivalOffset(row["arrival_time"]).Some?
      && DateOf(start) - 1 <= d <= DateOf(end)
      && RunsOn(t, d)
      && start <= Midnight(d) + ArrivalOffset(row["arrival_time"]).value <= end
    }

    ghost predicate MatchesOnSomeDay(row: Row, t: LegacyTrip, start: DateTime, end: DateTime)
      reads this
    {
      exists d :: WindowMatch(row, d, t, start, end)
    }

    /** The candidates of one arrival offset of a known trip select exactly
        the service dates whose arrival falls in the window. */
    lemma SelectedWindow(first: Date, last: Date, offset: int, tripId: string, start: DateTime, end: DateTime, t: LegacyTrip)
      requires tripId in tripDb
      ensures Selected(Possibles(first, last, offset), tripId, start, end).Success?
      ensures t in Selected(Possibles(first, last, offset), tripId, start, end).value <==>
                && tripDb[tripId] == t
                && exists d :: first <= d <= last && RunsOn(t, d) && start <= Midnight(d) + offset <= end
    {
      var ps := Possibles(first, last, offset);
      SelectedExactly(ps, tripId, start, end, t);
      CandidateIsDay(first, last, offset, start, end, t);
    }

    /** A candidate in the window is a service date in the window, and back. */
    lemma CandidateIsDay(first: Date, last: Date, offset: int, start: DateTime, end: DateTime, t: LegacyTrip)
      ensures var ps := Possibles(first, last, offset);
              (exists k :: 0 <= k < |ps| && RunsOn(t, ps[k].serviceDate) && start <= ps[k].arrivalTime <= end) <==>
              (exists d :: first <= d <= last && RunsOn(t, d) && start <= Midnight(d) + offset <= end)
    {
      var ps := Possibles(first, last, offset);
      if exists d :: first <= d <= last && RunsOn(t, d) && start <= Midnight(d) + offset <= end {
        var d :| first <= d <= last && RunsOn(t, d) && start <= Midnight(d) + offset <= end;
        DayIsCandidate(first, last, offset, start, end, t, d);
      }
      if exists k :: 0 <= k < |ps| && RunsOn(t, ps[k].serviceDate) && start <= ps[k].arrivalTime <= end {
        var k :| 0 <= k < |ps| && RunsOn(t, ps[k].serviceDate) && start <= ps[k].arrivalTime <= end;
        CandidateDay(first, last, offset, start, end, t, k);
      }
    }

    /** Candidate `p` is a valid service day of `t` with its arrival in the window. */
    predicate InWindow(p: Possibility, t: LegacyTrip, start: DateTime, end: DateTime)
      reads this
    {
      RunsOn(t, p.serviceDate) && start <= p.arrivalTime <= end
    }

    lemma DayIsCandidate(first: Date, last: Date, offset: int, start: DateTime, end: DateTime, t: LegacyTrip, d: Date)
      requires first <= d <= last && RunsOn(t, d) && start <= Midnight(d) + offset <= end
      ensures exists k :: 0 <= k < |Possibles(first, last, offset)| && InWindow(Possibles(first, last, offset)[k], t, start, end)
    {
      var ps := Possibles(first, last, offset);
      var k := d - first;
      assert ps[k] == Possibility(d, Midnight(d) + offset);
      assert InWindow(ps[k], t, start, end);
    }

    lemma CandidateDay(first: Date, last: Date, offset: int, start: DateTime, end: DateTime, t: LegacyTrip, k: int)
      requires var ps := Possibles(first, last, offset);
               0 <= k < |ps| && RunsOn(t, ps[k].serviceDate) && start <= ps[k].arrivalTime <= end
      ensures exists d :: first <= d <= last && RunsOn(t, d) && start <= Midnight(d) + offset <= end
    {
      var ps := Possibles(first, last, offset);
      assert ps[k] == Possibility(first + k, Midnight(first + k) + offset);
      assert first <= first + k <= last && RunsOn(t, first + k) && start <= Midnight(first + k) + offset <= end;
    }

    /** A row that does not raise contributes exactly the trips it brings to
        the stop on some service date; a row of an unknown trip can only
        succeed when no candidate date is examined. */
    lemma FromRowExactly(row: Row, start: DateTime, end: DateTime, t: LegacyTrip)
      requires FromRow(row, start, end).Success?
      ensures t in FromRow(row, start, end).value <==> MatchesOnSomeDay(row, t, start, end)
    {
      var offset := ArrivalOffset(row["arrival_time"]);
      if offset.Some? {
        var first, last, tripId := DateOf(start) - 1, DateOf(end), row["trip_id"];
        var ps := Possibles(first, last, offset.value);
        assert FromRow(row, start, end) == Selected(ps, tripId, start, end);
        if tripId in tripDb {
          SelectedWindow(first, last, offset.value, tripId, start, end, t);
          assert forall d :: WindowMatch(row, d, t, start, end) <==>
            (tripDb[tripId] == t && first <= d <= last && RunsOn(t, d) &&
             start <= Midnight(d) + offset.value <= end);
        } else {
          UnknownTripSelected(ps, tripId, start, end);
        }
      }
    }

    lemma {:induction false} FromRowsExactly(rows: seq<Row>, start: DateTime, end: DateTime, t: LegacyTrip)
      requires FromRows(rows, start, end).Success?
      ensures t in FromRows(rows, start, end).value <==>
                exists i :: 0 <= i < |rows| && MatchesOnSomeDay(rows[i], t, start, end)
    {
      if |rows| > 0 {
        var init := rows[..|rows| - 1];
        var last := rows[|rows| - 1];
        var before := FromRows(init, start, end);
        var more := FromRow(last, start, end);
        assert before.Success? && more.Success?;
        assert FromRows(rows, start, end).value == before.value + more.value;
        FromRowsExactly(init, start, end, t);
        FromRowExactly(last, start, end, t);
        SomeRowSplits(rows, start, end, t);
      }
    }

    lemma SomeRowSplits(rows: seq<Row>, start: DateTime, end: DateTime, t: LegacyTrip)
      requires |rows| > 0
      ensures var init := rows[..|rows| - 1];
              (exists i :: 0 <= i < |rows| && MatchesOnSomeDay(rows[i], t, start, end)) <==>
                (exists i :: 0 <= i < |init| && MatchesOnSomeDay(init[i], t, start, end)) ||
                MatchesOnSomeDay(rows[|rows| - 1], t, start, end)
    {
      var init := rows[..|rows| - 1];
      assert forall i :: 0 <= i < |init| ==> rows[i] == init[i];
    }

    /** Window soundness and completeness of the legacy query: when it does
        not raise, a trip is returned exactly when one of the stop's rows
        brings it to the stop on a valid service date within [start, end]. */
    lemma ScheduledForExactly(stopId: string, start: DateTime, end: DateTime, t: LegacyTrip)
      requires ScheduledFor(stopId, start, end).Success?
      ensures t in ScheduledFor(stopId, start, end).value <==>
                && stopsDb.Some? && stopId in stopsDb.value
                && exists i :: 0 <= i < |stopsDb.value[stopId]| && MatchesOnSomeDay(stopsDb.value[stopId][i], t, start, end)
    {
      if stopsDb.Some? && stopId in stopsDb.value && |stopsDb.value[stopId]| > 0 {
        FromRowsExactly(stopsDb.value[stopId], start, end, t);
      }
    }

    /** With no stop index the lookup raises AttributeError; an unknown or
        empty stop yields no trips before the window is checked; otherwise a
        reversed window raises ValueError. */
    lemma ScheduledForErrors(stopId: string, start: DateTime, end: DateTime)
      ensures stopsDb.None? ==> ScheduledFor(stopId, start, end) == Failure(NoGet)
      ensures stopsDb.Some? && (stopId !in stopsDb.value || |stopsDb.value[stopId]| == 0) ==>
                ScheduledFor(stopId, start, end) == Success([])
      ensures stopsDb.Some? && stopId in stopsDb.value && |stopsDb.value[stopId]| > 0 && end < start ==>
                ScheduledFor(stopId, start, end) == Failure(ValueError("start must come before end"))
    {
    }

    /** The legacy query raises on a row without a `trip_id` or
        `arrival_time` column, and on a row of a trip it does not know whose
        arrival time parses, and on nothing else. */
    lemma {:induction false} FromRowsRaises(rows: seq<Row>, start: DateTime, end: DateTime)
      requires start <= end
      ensures FromRows(rows, start, end).Failure? <==>
                exists i :: 0 <= i < |rows| && RowRaises(rows[i])
    {
      if |rows| > 0 {
        var init := rows[..|rows| - 1];
        FromRowsRaises(init, start, end);
        RowRaisesExactly(rows[|rows| - 1], start, end);
        assert forall i :: 0 <= i < |init| ==> rows[i] == init[i];
      }
    }

    ghost predicate RowRaises(row: Row)
      reads this
    {
      || "trip_id" !in row || "arrival_time" !in row
      || (ArrivalOffset(row["arrival_time"]).Some? && row["trip_id"] !in tripDb)
    }

    lemma RowRaisesExactly(row: Row, start: DateTime, end: DateTime)
      requires start <= end
      ensures FromRow(row, start, end).Failure? <==> RowRaises(row)
    {
      if "trip_id" in row && "arrival_time" in row && ArrivalOffset(row["arrival_time"]).Some? {
        var ps := Possibles(DateOf(start) - 1, DateOf(end), ArrivalOffset(row["arrival_time"]).value);
        if row["trip_id"] in tripDb {
          SelectedExactly(ps, row["trip_id"], start, end, tripDb[row["trip_id"]]);
        } else {
          UnknownTripRaises(row, start, end);
        }
      }
    }
  }
}
