/** The schedule database of schedule/database.py: stop times indexed by
    stop, trips joined to their routes, the service calendar, and the
    time-window query. */
module Database {
  import opened Wrappers
  import opened Dicts
  import opened Clock
  import opened Tables
  import opened Calendar
  import opened Schedule
  import Loader

  datatype Route = Route(
    routeId: string, shortName: string, longName: string, routeType: string,
    inferredHeadsign: string, inferredDirectionId: string, inferredServiceId: string)

  datatype Trip = Trip(
    tripId: string, tripHeadsign: string, directionId: string, serviceId: string,
    route: Route, stopTimes: seq<Row>)

  // ---------------------------------------------------------------------------
  // Loading, as functions of the data directory

  /** The filter `_load_stops` hands the loader: none for an empty allowlist. */
  function StopFilter(keepStops: seq<string>): Loader.Keep {
    if |keepStops| == 0 then map[] else map["stop_id" := set s | s in keepStops]
  }

  /** `_load_stops`: stop_times.txt grouped by stop; a row without `stop_id`
      makes the grouping fail, which leaves the index empty. */
  function StopsIndex(files: Loader.Files, keepStops: seq<string>, decode: Loader.Decoder)
    : Result<map<string, seq<Row>>, Error>
  {
    var rows :- Loader.Loaded(files, "stop_times.txt", StopFilter(keepStops), decode);
    match GroupAll(rows, "stop_id")
    case Some(groups) => Success(groups.entries)
    case None => Success(map[])
  }

  /** The trip ids the stop index mentions; a row without `trip_id` raises. */
  function TripIds(stops: map<string, seq<Row>>): Result<set<string>, Error> {
    if forall k, i :: k in stops && 0 <= i < |stops[k]| ==> "trip_id" in stops[k][i] then
      Success(set k, i | k in stops && 0 <= i < |stops[k]| :: stops[k][i]["trip_id"])
    else Failure(KeyError("trip_id"))
  }

  /** The Route a trip row introduces: its name and type from routes.txt and,
      since routes carry none, the headsign, direction and service of the trip. */
  function NewRoute(routeId: string, route: Row, row: Row): Result<Route, Error> {
    var shortName :- Field(route, "route_short_name");
    var longName :- Field(route, "route_long_name");
    var routeType :- Field(route, "route_type");
    var headsign :- Field(row, "trip_headsign");
    var direction :- Field(row, "direction_id");
    var service :- Field(row, "service_id");
    Success(Route(routeId, shortName, longName, routeType, headsign, direction, service))
  }

  function NewTrip(tripId: string, row: Row, route: Route, stopTimes: seq<Row>): Result<Trip, Error> {
    var headsign :- Field(row, "trip_headsign");
    var direction :- Field(row, "direction_id");
    var service :- Field(row, "service_id");
    Success(Trip(tripId, headsign, direction, service, route, stopTimes))
  }

  /** The trip and route tables after visiting `keys` of the grouped trip rows. */
  function JoinTrips(keys: seq<string>, trips: map<string, Row>, stopTimes: map<string, seq<Row>>, routes: map<string, Row>)
    : Result<(map<string, Trip>, map<string, Route>), Error>
    requires forall k :: k in keys ==> k in trips
  {
    if |keys| == 0 then Success((map[], map[]))
    else
      var tables :- JoinTrips(keys[..|keys| - 1], trips, stopTimes, routes);
      var tripId := keys[|keys| - 1];
      var row := trips[tripId];
      var routeId :- Field(row, "route_id");
      if routeId !in routes then Success(tables)
      else
        var st := if tripId in stopTimes then stopTimes[tripId] else [];
        var routeDb :-
          if routeId in tables.1 then Success(tables.1)
          else var route :- NewRoute(routeId, routes[routeId], row); Success(tables.1[routeId := route]);
        var trip :- NewTrip(tripId, row, routeDb[routeId], st);
        Success((tables.0[tripId := trip], routeDb))
  }

  /** `_load_trips`: loads only the stop times and trips of the indexed trip ids. */
  function TripTables(files: Loader.Files, stops: map<string, seq<Row>>, decode: Loader.Decoder)
    : Result<(map<string, Trip>, map<string, Route>), Error>
  {
    var tripIds :- TripIds(stops);
    var keep := map["trip_id" := tripIds];
    var stopTimeRows :- Loader.Loaded(files, "stop_times.txt", keep, decode);
    var routeRows :- Loader.Loaded(files, "routes.txt", map[], decode);
    var tripRows :- Loader.Loaded(files, "trips.txt", keep, decode);
    var stopTimes := GroupAll(stopTimeRows, "trip_id").GetOr(Empty());
    var routes := GroupLast(routeRows, "route_id").GetOr(Empty());
    var trips := GroupLast(tripRows, "trip_id").GetOr(Empty());
    JoinTrips(trips.keys, trips.entries, stopTimes.entries, routes.entries)
  }

  /** `_load_calendar`: a grouping failure leaves the calendar empty. */
  function CalendarOf(files: Loader.Files, decode: Loader.Decoder): Result<Services, Error> {
    var rows :- Loader.Loaded(files, "calendar.txt", map[], decode);
    var dates := GroupLast(rows, "service_id").GetOr(Empty());
    ServicesFrom(dates.keys, dates.entries)
  }

  /** `_load_exceptions`: a grouping failure raises TypeError. */
  function ExceptionsOf(files: Loader.Files, decode: Loader.Decoder): Result<Exceptions, Error> {
    var rows :- Loader.Loaded(files, "calendar_dates.txt", map[], decode);
    match GroupAll(rows, "service_id")
    case None => Failure(TypeError("'NoneType' object is not iterable"))
    case Some(dates) => ExceptionsFrom(dates.keys, dates.entries)
  }

  /** The five tables of the database. */
  datatype Contents = Contents(
    stops: map<string, seq<Row>>, trips: map<string, Trip>, routes: map<string, Route>,
    calendar: Services, exceptions: Exceptions)

  /** `load`: each table is assigned as soon as it is built, so a failure
      leaves the tables before it replaced and those after it untouched. */
  function AfterLoad(before: Contents, files: Loader.Files, keepStops: seq<string>, decode: Loader.Decoder)
    : (Contents, Result<(), Error>)
  {
    match StopsIndex(files, keepStops, decode)
    case Failure(e) => (before, Failure(e))
    case Success(stops) =>
      var c1 := before.(stops := stops);
      match TripTables(files, stops, decode)
      case Failure(e) => (c1, Failure(e))
      case Success(tables) =>
        var c2 := c1.(trips := tables.0, routes := tables.1);
        match CalendarOf(files, decode)
        case Failure(e) => (c2, Failure(e))
        case Success(calendar) =>
          var c3 := c2.(calendar := calendar);
          match ExceptionsOf(files, decode)
          case Failure(e) => (c3, Failure(e))
          case Success(exceptions) => (c3.(exceptions := exceptions), Success(()))
  }

  // ---------------------------------------------------------------------------
  // Properties of loading

  /** With an allowlist only allowlisted stops are indexed, and every stop's
      rows carry that stop's id; without one, all of stop_times.txt is. */
  lemma StopsAllowlisted(files: Loader.Files, keepStops: seq<string>, decode: Loader.Decoder, stop: string)
    requires StopsIndex(files, keepStops, decode).Success?
    ensures var index := StopsIndex(files, keepStops, decode).value;
            stop in index ==>
              && (|keepStops| > 0 ==> stop in keepStops)
              && forall r :: r in index[stop] ==> "stop_id" in r && r["stop_id"] == stop
    ensures |keepStops| == 0 ==>
              var file := Loader.StripBom(files["stop_times.txt"]);
              var rows := Loader.Decoded(Loader.Header(file), Loader.DataLines(file), decode);
              StopsIndex(files, keepStops, decode) ==
                Success(GroupAll(rows, "stop_id").GetOr(Empty()).entries)
  {
    var rows := Loader.OnePass(files["stop_times.txt"], StopFilter(keepStops), decode);
    var index := StopsIndex(files, keepStops, decode).value;
    GroupAllFails(rows, "stop_id");
    if AllHave(rows, "stop_id") && stop in index {
      GroupedKeys(rows, "stop_id");
      ColumnValuesMembers(rows, "stop_id");
      var i :| 0 <= i < |rows| && rows[i]["stop_id"] == stop;
      Loader.KeptExactly(Loader.Decoded(Loader.Header(Loader.StripBom(files["stop_times.txt"])),
                                        Loader.DataLines(Loader.StripBom(files["stop_times.txt"])), decode),
                         StopFilter(keepStops));
      assert rows[i] in rows;
      GroupAllInOrder(rows, "stop_id", stop);
      RowsWithCarry(rows, "stop_id", stop);
    }
    if |keepStops| == 0 {
      var file := Loader.StripBom(files["stop_times.txt"]);
      Loader.KeptEverything(Loader.Decoded(Loader.Header(file), Loader.DataLines(file), decode));
    }
  }

  /** Rows filtered on a column group only under allowed values. */
  lemma KeptGroupsAllowed(decoded: seq<Row>, keyName: string, allowed: set<string>, v: string)
    ensures var rows := Loader.Kept(decoded, map[keyName := allowed]);
            v in GroupLast(rows, keyName).GetOr(Empty()).entries ==> v in allowed
  {
    var keep := map[keyName := allowed];
    var rows := Loader.Kept(decoded, keep);
    GroupLastFails(rows, keyName);
    if AllHave(rows, keyName) && v in GroupLast(rows, keyName).value.entries {
      GroupedKeys(rows, keyName);
      ColumnValuesMembers(rows, keyName);
      var i :| 0 <= i < |rows| && rows[i][keyName] == v;
      Loader.KeptExactly(decoded, keep);
      assert rows[i] in rows;
    }
  }

  /** trips.txt filtered on `trip_id`: only allowed trip ids are grouped. */
  lemma LoadedTripsAllowed(files: Loader.Files, tripIds: set<string>, decode: Loader.Decoder, tripId: string)
    requires "trips.txt" in files
    ensures var rows := Loader.OnePass(files["trips.txt"], map["trip_id" := tripIds], decode);
            tripId in GroupLast(rows, "trip_id").GetOr(Empty()).entries ==> tripId in tripIds
  {
    var lines := Loader.StripBom(files["trips.txt"]);
    KeptGroupsAllowed(Loader.Decoded(Loader.Header(lines), Loader.DataLines(lines), decode), "trip_id", tripIds, tripId);
  }

  /** Only trips that some indexed stop time names are loaded: with an
      allowlist, trips reachable from no allowlisted stop are absent. */
  lemma TripsReachable(files: Loader.Files, stops: map<string, seq<Row>>, decode: Loader.Decoder, tripId: string)
    requires TripTables(files, stops, decode).Success?
    ensures tripId in TripTables(files, stops, decode).value.0 ==> tripId in TripIds(stops).value
  {
    var tripIds := TripIds(stops).value;
    var keep := map["trip_id" := tripIds];
    var stopTimes := GroupAll(Loader.OnePass(files["stop_times.txt"], keep, decode), "trip_id").GetOr(Empty());
    var routes := GroupLast(Loader.OnePass(files["routes.txt"], map[], decode), "route_id").GetOr(Empty());
    var trips := GroupLast(Loader.OnePass(files["trips.txt"], keep, decode), "trip_id").GetOr(Empty());
    JoinedTrip(trips.keys, trips.entries, stopTimes.entries, routes.entries, tripId);
    LoadedTripsAllowed(files, tripIds, decode, tripId);
  }

  /** Every row grouped under a value holds that value. */
  lemma {:induction false} RowsWithCarry(rows: seq<Row>, keyName: string, v: string)
    ensures forall r :: r in RowsWith(rows, keyName, v) ==> keyName in r && r[keyName] == v
  {
    if |rows| > 0 {
      RowsWithCarry(rows[..|rows| - 1], keyName, v);
    }
  }

  /** A trip is in the table exactly when its row names a known route; it
      keeps its own id, headsign, direction and service, its stop times, and
      the shared Route of its route id. */
  lemma {:induction false} JoinedTrip(keys: seq<string>, trips: map<string, Row>, stopTimes: map<string, seq<Row>>,
                                      routes: map<string, Row>, tripId: string)
    requires forall k :: k in keys ==> k in trips
    requires JoinTrips(keys, trips, stopTimes, routes).Success?
    ensures var (tripDb, routeDb) := JoinTrips(keys, trips, stopTimes, routes).value;
            && (tripId in tripDb <==> tripId in keys && "route_id" in trips[tripId] && trips[tripId]["route_id"] in routes)
            && (tripId in tripDb ==>
                  var row := trips[tripId];
                  && row["route_id"] in routeDb && TripColumns(row)
                  && tripDb[tripId] == Trip(tripId, row["trip_headsign"], row["direction_id"], row["service_id"],
                                            routeDb[row["route_id"]], if tripId in stopTimes then stopTimes[tripId] else []))
  {
    if |keys| > 0 {
      var init := keys[..|keys| - 1];
      JoinTrips_Init(keys, trips, stopTimes, routes);
      JoinedTrip(init, trips, stopTimes, routes, tripId);
      JoinKeepsRoutes(keys, trips, stopTimes, routes);
      assert tripId in keys <==> tripId in init || tripId == keys[|keys| - 1];
    }
  }

  /** A failure-free join is a failure-free join of every prefix. */
  lemma JoinTrips_Init(keys: seq<string>, trips: map<string, Row>, stopTimes: map<string, seq<Row>>, routes: map<string, Row>)
    requires |keys| > 0 && forall k :: k in keys ==> k in trips
    requires JoinTrips(keys, trips, stopTimes, routes).Success?
    ensures JoinTrips(keys[..|keys| - 1], trips, stopTimes, routes).Success?
  {
  }

  /** The last step never changes a Route already built. */
  lemma JoinKeepsRoutes(keys: seq<string>, trips: map<string, Row>, stopTimes: map<string, seq<Row>>, routes: map<string, Row>)
    requires |keys| > 0 && forall k :: k in keys ==> k in trips
    requires JoinTrips(keys, trips, stopTimes, routes).Success?
    ensures var before := JoinTrips(keys[..|keys| - 1], trips, stopTimes, routes);
            var after := JoinTrips(keys, trips, stopTimes, routes).value;
            && before.Success?
            && (forall r :: r in before.value.1 ==> r in after.1 && after.1[r] == before.value.1[r])
  {
  }

  /** The Route a trip row infers for `routeId`. */
  function InferredRoute(routeId: string, route: Row, row: Row): Route
    requires TripColumns(row) && RouteColumns(route)
  {
    Route(routeId, route["route_short_name"], route["route_long_name"], route["route_type"],
          row["trip_headsign"], row["direction_id"], row["service_id"])
  }

  /** The last trip adds its Route when its route is known but not yet built,
      and otherwise leaves the routes as they were. */
  lemma JoinRouteStep(keys: seq<string>, trips: map<string, Row>, stopTimes: map<string, seq<Row>>, routes: map<string, Row>)
    requires |keys| > 0 && forall k :: k in keys ==> k in trips
    requires JoinTrips(keys, trips, stopTimes, routes).Success?
    ensures var before := JoinTrips(keys[..|keys| - 1], trips, stopTimes, routes);
            var after := JoinTrips(keys, trips, stopTimes, routes).value.1;
            var row := trips[keys[|keys| - 1]];
            && before.Success? && "route_id" in row
            && (if row["route_id"] in routes && row["route_id"] !in before.value.1
                then TripColumns(row) && RouteColumns(routes[row["route_id"]]) &&
                     after == before.value.1[row["route_id"] := InferredRoute(row["route_id"], routes[row["route_id"]], row)]
                else after == before.value.1)
  {
  }

  /** A Route is built exactly for the known route ids some trip names. */
  lemma {:induction false} RouteBuilt(keys: seq<string>, trips: map<string, Row>, stopTimes: map<string, seq<Row>>,
                                      routes: map<string, Row>, routeId: string)
    requires forall k :: k in keys ==> k in trips
    requires JoinTrips(keys, trips, stopTimes, routes).Success?
    ensures var routeDb := JoinTrips(keys, trips, stopTimes, routes).value.1;
            routeId in routeDb <==> routeId in routes && exists i :: 0 <= i < |keys| && RouteOf(trips[keys[i]]) == Some(routeId)
  {
    if |keys| > 0 {
      var init := keys[..|keys| - 1];
      JoinRouteStep(keys, trips, stopTimes, routes);
      RouteBuilt(init, trips, stopTimes, routes, routeId);
      assert forall i :: 0 <= i < |init| ==> keys[i] == init[i];
      assert RouteOf(trips[keys[|keys| - 1]]) == Some(trips[keys[|keys| - 1]]["route_id"]);
    }
  }

  /** The first trip (in dict order) with a known route id decides that
      Route's inferred headsign, direction and service. */
  lemma {:induction false} RouteFromFirstTrip(keys: seq<string>, trips: map<string, Row>, stopTimes: map<string, seq<Row>>,
                                              routes: map<string, Row>, routeId: string)
    requires forall k :: k in keys ==> k in trips
    requires JoinTrips(keys, trips, stopTimes, routes).Success?
    ensures var routeDb := JoinTrips(keys, trips, stopTimes, routes).value.1;
            routeId in routeDb ==>
              exists i :: FirstWithRoute(keys, trips, routeId, i) &&
                TripColumns(trips[keys[i]]) && routeId in routes && RouteColumns(routes[routeId]) &&
                routeDb[routeId] == InferredRoute(routeId, routes[routeId], trips[keys[i]])
  {
    if |keys| > 0 {
      var init := keys[..|keys| - 1];
      var n := |keys| - 1;
      JoinRouteStep(keys, trips, stopTimes, routes);
      RouteFromFirstTrip(init, trips, stopTimes, routes, routeId);
      var before := JoinTrips(init, trips, stopTimes, routes).value.1;
      var after := JoinTrips(keys, trips, stopTimes, routes).value.1;
      assert forall i :: 0 <= i < |init| ==> keys[i] == init[i];
      if routeId in before {
        var i :| FirstWithRoute(init, trips, routeId, i) &&
                 TripColumns(trips[init[i]]) && routeId in routes && RouteColumns(routes[routeId]) &&
                 before[routeId] == InferredRoute(routeId, routes[routeId], trips[init[i]]);
        assert FirstWithRoute(keys, trips, routeId, i);
      } else if routeId in after {
        RouteBuilt(init, trips, stopTimes, routes, routeId);
        assert FirstWithRoute(keys, trips, routeId, n);
      }
    }
  }

  /** The joined tables agree with each other: a trip is stored under its
      own id with the stored Route of its route id, and a Route is stored
      under its own id for some stored trip. */
  lemma JoinedTables(keys: seq<string>, trips: map<string, Row>, stopTimes: map<string, seq<Row>>,
                     routes: map<string, Row>, tripId: string, routeId: string)
    requires forall k :: k in keys ==> k in trips
    requires JoinTrips(keys, trips, stopTimes, routes).Success?
    ensures var (tripDb, routeDb) := JoinTrips(keys, trips, stopTimes, routes).value;
            && (tripId in tripDb ==>
                  && tripDb[tripId].tripId == tripId
                  && tripDb[tripId].route.routeId in routeDb
                  && routeDb[tripDb[tripId].route.routeId] == tripDb[tripId].route)
            && (routeId in routeDb ==>
                  && routeDb[routeId].routeId == routeId
                  && exists t :: t in tripDb && tripDb[t].route == routeDb[routeId])
  {
    var (tripDb, routeDb) := JoinTrips(keys, trips, stopTimes, routes).value;
    JoinedTrip(keys, trips, stopTimes, routes, tripId);
    if tripId in tripDb {
      RouteFromFirstTrip(keys, trips, stopTimes, routes, trips[tripId]["route_id"]);
    }
    if routeId in routeDb {
      RouteFromFirstTrip(keys, trips, stopTimes, routes, routeId);
      RouteBuilt(keys, trips, stopTimes, routes, routeId);
      var i :| 0 <= i < |keys| && RouteOf(trips[keys[i]]) == Some(routeId);
      JoinedTrip(keys, trips, stopTimes, routes, keys[i]);
      assert keys[i] in tripDb;
    }
  }

  /** The trip and route tables `_load_trips` builds agree with each other,
      and hold only trips some indexed stop time names. */
  lemma LoadedTables(files: Loader.Files, stops: map<string, seq<Row>>, decode: Loader.Decoder, tripId: string, routeId: string)
    requires TripTables(files, stops, decode).Success?
    ensures var (tripDb, routeDb) := TripTables(files, stops, decode).value;
            && (tripId in tripDb ==>
                  && tripId in TripIds(stops).value && tripDb[tripId].tripId == tripId
                  && tripDb[tripId].route.routeId in routeDb
                  && routeDb[tripDb[tripId].route.routeId] == tripDb[tripId].route)
            && (routeId in routeDb ==>
                  && routeDb[routeId].routeId == routeId
                  && exists t :: t in tripDb && tripDb[t].route == routeDb[routeId])
  {
    var tripIds := TripIds(stops).value;
    var keep := map["trip_id" := tripIds];
    var stopTimes := GroupAll(Loader.OnePass(files["stop_times.txt"], keep, decode), "trip_id").GetOr(Empty());
    var routes := GroupLast(Loader.OnePass(files["routes.txt"], map[], decode), "route_id").GetOr(Empty());
    var trips := GroupLast(Loader.OnePass(files["trips.txt"], keep, decode), "trip_id").GetOr(Empty());
    TripsReachable(files, stops, decode, tripId);
    JoinedTables(trips.keys, trips.entries, stopTimes.entries, routes.entries, tripId, routeId);
  }

  /** The columns a trip row must have for its Trip to be built. */
  predicate TripColumns(row: Row) {
    "trip_headsign" in row && "direction_id" in row && "service_id" in row
  }

  /** The columns a routes.txt row must have for its Route to be built. */
  predicate RouteColumns(route: Row) {
    "route_short_name" in route && "route_long_name" in route && "route_type" in route
  }

  /** `row['route_id']` when present. */
  function RouteOf(row: Row): Option<string> {
    if "route_id" in row then Some(row["route_id"]) else None
  }

  /** `keys[i]` is the first trip naming `routeId`. */
  ghost predicate FirstWithRoute(keys: seq<string>, trips: map<string, Row>, routeId: string, i: int)
    requires forall k :: k in keys ==> k in trips
  {
    && 0 <= i < |keys|
    && RouteOf(trips[keys[i]]) == Some(routeId)
    && forall j :: 0 <= j < i ==> RouteOf(trips[keys[j]]) != Some(routeId)
  }

  // ---------------------------------------------------------------------------
  // The database object

  class Database {
    const keepStops: seq<string>
    const loadAllStops: bool
    var stopsDb: map<string, seq<Row>>
    var tripDb: map<string, Trip>
    var routeDb: map<string, Route>
    var calendarDb: Services
    var exceptionsDb: Exceptions

    /** `__init__`: the data directory is the `files` argument of Load. */
    constructor(keepStops: seq<string>)
      ensures this.keepStops == keepStops && loadAllStops == (|keepStops| == 0)
      ensures Snapshot() == Contents(map[], map[], map[], map[], map[])
    {
      this.keepStops := keepStops;
      loadAllStops := |keepStops| == 0;
      stopsDb, tripDb, routeDb := map[], map[], map[];
      calendarDb, exceptionsDb := map[], map[];
    }

    function Snapshot(): Contents
      reads this
    {
      Contents(stopsDb, tripDb, routeDb, calendarDb, exceptionsDb)
    }

    /** `self._load(filename, keep)`. */
    method LoadFile(files: Loader.Files, filename: string, keep: Loader.Keep, decode: Loader.Decoder)
      returns (r: Result<seq<Row>, Error>)
      ensures r == Loader.Loaded(files, filename, keep, decode)
    {
      r := Loader.Load(files, filename, keep, Loader.MaxRowsPerChunk, decode);
    }

    method LoadStops(files: Loader.Files, decode: Loader.Decoder) returns (r: Result<map<string, seq<Row>>, Error>)
      requires loadAllStops == (|keepStops| == 0)
      ensures r == StopsIndex(files, keepStops, decode)
    {
      var tmpStopTimes;
      if loadAllStops {
        tmpStopTimes :- LoadFile(files, "stop_times.txt", map[], decode);
      } else {
        tmpStopTimes :- LoadFile(files, "stop_times.txt", map["stop_id" := set s | s in keepStops], decode);
      }
      var result := CollectAll(Some(tmpStopTimes), "stop_id");
      if result.None? {
        return Success(map[]);
      }
      return Success(result.value.entries);
    }

    /** The nested loop collecting `trip_ids`. */
    static method CollectTripIds(stops: map<string, seq<Row>>) returns (r: Result<set<string>, Error>)
      ensures r == TripIds(stops)
    {
      var tripIds: set<string> := {};
      var pending := stops.Keys;
      while pending != {}
        invariant pending <= stops.Keys
        invariant forall k, i :: k in stops && k !in pending && 0 <= i < |stops[k]| ==> "trip_id" in stops[k][i]
        invariant tripIds == set k, i | k in stops && k !in pending && 0 <= i < |stops[k]| :: stops[k][i]["trip_id"]
        decreases pending
      {
        var k :| k in pending;
        var vals := stops[k];
        for i := 0 to |vals|
          invariant forall j :: 0 <= j < i ==> "trip_id" in vals[j]
          invariant tripIds == (set k', j | k' in stops && k' !in pending && 0 <= j < |stops[k']| :: stops[k'][j]["trip_id"])
                               + (set j | 0 <= j < i :: vals[j]["trip_id"])
        {
          if "trip_id" !in vals[i] {
            return Failure(KeyError("trip_id"));
          }
          tripIds := tripIds + {vals[i]["trip_id"]};
        }
        assert vals[..] == vals;
        pending := pending - {k};
      }
      assert tripIds == set k, i | k in stops && 0 <= i < |stops[k]| :: stops[k][i]["trip_id"];
      return Success(tripIds);
    }

    method LoadTrips(files: Loader.Files, decode: Loader.Decoder)
      returns (r: Result<(map<string, Trip>, map<string, Route>), Error>)
      ensures r == TripTables(files, stopsDb, decode)
    {
      var tripIds :- CollectTripIds(stopsDb);
      var keep := map["trip_id" := tripIds];
      var stopTimeRows :- LoadFile(files, "stop_times.txt", keep, decode);
      var collected := CollectAll(Some(stopTimeRows), "trip_id");
      var stopTimes := collected.GetOr(Empty());
      var routeRows :- LoadFile(files, "routes.txt", map[], decode);
      var routesCollected := CollectLast(Some(routeRows), "route_id");
      var routes := routesCollected.GetOr(Empty());
      var tripRows :- LoadFile(files, "trips.txt", keep, decode);
      var tripsCollected := CollectLast(Some(tripRows), "trip_id");
      var trips := tripsCollected.GetOr(Empty());
      r := JoinLoop(trips, stopTimes.entries, routes.entries);
    }

    /** The `for trip_id, row in trips.items()` loop. */
    static method JoinLoop(trips: Dict<Row>, stopTimes: map<string, seq<Row>>, routes: map<string, Row>)
      returns (r: Result<(map<string, Trip>, map<string, Route>), Error>)
      requires Valid(trips)
      ensures r == JoinTrips(trips.keys, trips.entries, stopTimes, routes)
    {
      var tripDb: map<string, Trip> := map[];
      var routeDb: map<string, Route> := map[];
      for i := 0 to |trips.keys|
        invariant JoinTrips(trips.keys[..i], trips.entries, stopTimes, routes) == Success((tripDb, routeDb))
      {
        assert trips.keys[..i + 1][..i] == trips.keys[..i];
        JoinTripsFails(trips.keys, trips.entries, stopTimes, routes, i + 1);
        var tripId := trips.keys[i];
        var row := trips.entries[tripId];
        var routeId :- Field(row, "route_id");
        if routeId !in routes {
          continue;
        }
        var st := if tripId in stopTimes then stopTimes[tripId] else [];
        if routeId !in routeDb {
          var route :- NewRoute(routeId, routes[routeId], row);
          routeDb := routeDb[routeId := route];
        }
        var t :- NewTrip(tripId, row, routeDb[routeId], st);
        tripDb := tripDb[tripId := t];
      }
      assert trips.keys[..|trips.keys|] == trips.keys;
      return Success((tripDb, routeDb));
    }

    method LoadCalendar(files: Loader.Files, decode: Loader.Decoder) returns (r: Result<Services, Error>)
      ensures r == CalendarOf(files, decode)
    {
      var rows :- LoadFile(files, "calendar.txt", map[], decode);
      var collected := CollectLast(Some(rows), "service_id");
      var dates := collected.GetOr(Empty());
      r := ParseServices(dates);
    }

    method LoadExceptions(files: Loader.Files, decode: Loader.Decoder) returns (r: Result<Exceptions, Error>)
      ensures r == ExceptionsOf(files, decode)
    {
      var rows :- LoadFile(files, "calendar_dates.txt", map[], decode);
      var dates := CollectAll(Some(rows), "service_id");
      if dates.None? {
        return Failure(TypeError("'NoneType' object is not iterable"));
      }
      r := ParseExceptions(dates.value);
    }

    /** `load`: the data directory is a map from file name to lines. */
    method Load(files: Loader.Files, decode: Loader.Decoder) returns (r: Result<(), Error>)
      requires loadAllStops == (|keepStops| == 0)
      modifies this
      ensures (Snapshot(), r) == AfterLoad(old(Snapshot()), files, keepStops, decode)
    {
      stopsDb :- LoadStops(files, decode);
      var tables :- LoadTrips(files, decode);
      tripDb, routeDb := tables.0, tables.1;
      calendarDb :- LoadCalendar(files, decode);
      exceptionsDb :- LoadExceptions(files, decode);
      return Success(());
    }

    // -------------------------------------------------------------------------
    // Queries

    /** `get_trip`. */
    function GetTrip(tripId: string): (r: Option<Trip>)
      reads this
      ensures r.Some? <==> tripId in tripDb
      ensures r.Some? ==> r.value == tripDb[tripId] && r.value.tripId == tripDb[tripId].tripId
    {
      if tripId in tripDb then Some(tripDb[tripId]) else None
    }

    /** `get_route`. */
    function GetRoute(routeId: string): (r: Option<Route>)
      reads this
      ensures r.Some? <==> routeId in routeDb
      ensures r.Some? ==> r.value == routeDb[routeId]
    {
      if routeId in routeDb then Some(routeDb[routeId]) else None
    }

    /** After a load that succeeds, `get_trip` finds a trip only under its
        own id, only when some indexed stop time names it, and with a route
        `get_route` finds; `get_route` finds a route only under its own id
        and only when some trip `get_trip` finds runs on it. */
    lemma LookupsAfterLoad(before: Contents, files: Loader.Files, decode: Loader.Decoder, tripId: string, routeId: string)
      requires AfterLoad(before, files, keepStops, decode) == (Snapshot(), Success(()))
      ensures GetTrip(tripId).Some? ==>
                var t := GetTrip(tripId).value;
                && t.tripId == tripId && TripIds(stopsDb).Success? && tripId in TripIds(stopsDb).value
                && GetRoute(t.route.routeId) == Some(t.route)
      ensures GetRoute(routeId).Some? ==>
                && GetRoute(routeId).value.routeId == routeId
                && exists id :: GetTrip(id).Some? && GetTrip(id).value.route == GetRoute(routeId).value
    {
      LoadedTables(files, stopsDb, decode, tripId, routeId);
      if GetRoute(routeId).Some? {
        var id :| id in tripDb && tripDb[id].route == routeDb[routeId];
        assert GetTrip(id).Some?;
      }
    }

    /** `_is_valid_service_day`. */
    function IsValidServiceDay(d: Date, trip: Trip): bool
      reads this
    {
      ServiceDayValid(calendarDb, exceptionsDb, trip.serviceId, d)
    }

    /** The trips a list of candidates contributes (the `for p in possibles` loop). */
    function Selected(ps: seq<Possibility>, tripId: string, start: DateTime, end: DateTime): seq<Trip>
      reads this
    {
      if |ps| == 0 then []
      else
        var p := ps[|ps| - 1];
        Selected(ps[..|ps| - 1], tripId, start, end) +
          if tripId in tripDb && IsValidServiceDay(p.serviceDate, tripDb[tripId]) && start <= p.arrivalTime <= end
          then [tripDb[tripId]] else []
    }

    /** What one stop-time row contributes: a missing column raises, an
        unparsable arrival contributes nothing. */
    function FromRow(row: Row, start: DateTime, end: DateTime): Result<seq<Trip>, Error>
      reads this
    {
      var tripId :- Field(row, "trip_id");
      var arrival :- Field(row, "arrival_time");
      match ArrivalOffset(arrival)
      case None => Success([])
      case Some(offset) => Success(Selected(Possibles(DateOf(start) - 1, DateOf(end), offset), tripId, start, end))
    }

    function FromRows(rows: seq<Row>, start: DateTime, end: DateTime): Result<seq<Trip>, Error>
      reads this
    {
      if |rows| == 0 then Success([])
      else
        var before :- FromRows(rows[..|rows| - 1], start, end);
        var more :- FromRow(rows[|rows| - 1], start, end);
        Success(before + more)
    }

    /** What `get_scheduled_for` returns or raises. */
    function ScheduledFor(stopId: string, start: DateTime, end: DateTime): Result<seq<Trip>, Error>
      reads this
    {
      if stopId !in stopsDb || |stopsDb[stopId]| == 0 then Success([])
      else if end < start then Failure(ValueError("start must come before end"))
      else FromRows(stopsDb[stopId], start, end)
    }

    lemma {:induction false} FromRowsFails(rows: seq<Row>, start: DateTime, end: DateTime, n: nat)
      requires n <= |rows|
      ensures FromRows(rows[..n], start, end).Failure? ==> FromRows(rows, start, end) == FromRows(rows[..n], start, end)
    {
      if n < |rows| {
        FromRowsFails(rows[..|rows| - 1], start, end, n);
        assert rows[..|rows| - 1][..n] == rows[..n];
      } else {
        assert rows[..n] == rows;
      }
    }

    /** `get_scheduled_for`. */
    method GetScheduledFor(stopId: string, start: DateTime, end: DateTime) returns (r: Result<seq<Trip>, Error>)
      ensures r == ScheduledFor(stopId, start, end)
    {
      var ret: seq<Trip> := [];
      if stopId !in stopsDb || |stopsDb[stopId]| == 0 {
        return Success(ret);
      }
      var stops := stopsDb[stopId];
      if end < start {
        return Failure(ValueError("start must come before end"));
      }
      for i := 0 to |stops|
        invariant FromRows(stops[..i], start, end) == Success(ret)
      {
        assert stops[..i + 1][..i] == stops[..i];
        FromRowsFails(stops, start, end, i + 1);
        var more :- TripsOfRow(stops[i], start, end);
        ret := ret + more;
      }
      assert stops[..|stops|] == stops;
      return Success(ret);
    }

    /** One pass of the `for s in stops` loop: the candidate service dates of
        the row's arrival time, and the trips among them inside the window. */
    method TripsOfRow(s: Row, start: DateTime, end: DateTime) returns (r: Result<seq<Trip>, Error>)
      ensures r == FromRow(s, start, end)
    {
      var tripId :- Field(s, "trip_id");
      var arrivalTime :- Field(s, "arrival_time");
      var offset := ArrivalOffset(arrivalTime);
      if offset.None? {
        return Success([]);
      }
      var possibles := ServiceDates(DateOf(start) - 1, DateOf(end), offset.value);
      var trips := SelectTrips(possibles, tripId, start, end);
      return Success(trips);
    }

    /** The `for p in possibles` loop. */
    method SelectTrips(possibles: seq<Possibility>, tripId: string, start: DateTime, end: DateTime)
      returns (ret: seq<Trip>)
      ensures ret == Selected(possibles, tripId, start, end)
    {
      ret := [];
      for j := 0 to |possibles|
        invariant ret == Selected(possibles[..j], tripId, start, end)
      {
        assert possibles[..j + 1][..j] == possibles[..j];
        var p := possibles[j];
        var trip := GetTrip(tripId);
        if trip.None? {
          continue;
        }
        var validDay := IsValidServiceDay(p.serviceDate, trip.value);
        if validDay && start <= p.arrivalTime <= end {
          ret := ret + [trip.value];
        }
      }
      assert possibles[..|possibles|] == possibles;
    }

    // -------------------------------------------------------------------------
    // Properties of the query

    /** Trip `t` arrives at the stop through row `row` on service date `d`:
        the trip is known, `d` is a valid service day of it between the day
        before `start` and the day of `end`, and the arrival lies in
        [start, end]. */
    ghost predicate WindowMatch(row: Row, d: Date, t: Trip, start: DateTime, end: DateTime)
      reads this
    {
      && "trip_id" in row && "arrival_time" in row
      && row["trip_id"] in tripDb && tripDb[row["trip_id"]] == t
      && ArrivalOffset(row["arrival_time"]).Some?
      && DateOf(start) - 1 <= d <= DateOf(end)
      && ServiceDayValid(calendarDb, exceptionsDb, t.serviceId, d)
      && start <= Midnight(d) + ArrivalOffset(row["arrival_time"]).value <= end
    }

    lemma {:induction false} SelectedExactly(ps: seq<Possibility>, tripId: string, start: DateTime, end: DateTime, t: Trip)
      ensures t in Selected(ps, tripId, start, end) <==>
                && tripId in tripDb && tripDb[tripId] == t
                && exists k :: 0 <= k < |ps| && IsValidServiceDay(ps[k].serviceDate, t) && start <= ps[k].arrivalTime <= end
    {
      if |ps| > 0 {
        var init := ps[..|ps| - 1];
        SelectedExactly(init, tripId, start, end, t);
        assert forall k :: 0 <= k < |init| ==> init[k] == ps[k];
      }
    }

    /** The candidates of one arrival offset select exactly the service
        dates whose arrival falls in the window. */
    lemma SelectedWindow(first: Date, last: Date, offset: int, tripId: string, start: DateTime, end: DateTime, t: Trip)
      ensures t in Selected(Possibles(first, last, offset), tripId, start, end) <==>
                && tripId in tripDb && tripDb[tripId] == t
                && exists d :: first <= d <= last && IsValidServiceDay(d, t) && start <= Midnight(d) + offset <= end
    {
      var ps := Possibles(first, last, offset);
      SelectedExactly(ps, tripId, start, end, t);
      if exists d :: first <= d <= last && IsValidServiceDay(d, t) && start <= Midnight(d) + offset <= end {
        var d :| first <= d <= last && IsValidServiceDay(d, t) && start <= Midnight(d) + offset <= end;
        DayIsCandidate(first, last, offset, start, end, t, d);
      }
      if exists k :: 0 <= k < |ps| && IsValidServiceDay(ps[k].serviceDate, t) && start <= ps[k].arrivalTime <= end {
        var k :| 0 <= k < |ps| && IsValidServiceDay(ps[k].serviceDate, t) && start <= ps[k].arrivalTime <= end;
        CandidateDay(first, last, offset, start, end, t, k);
      }
    }

    /** Candidate `p` is a valid service day of `t` with its arrival in the window. */
    predicate InWindow(p: Possibility, t: Trip, start: DateTime, end: DateTime)
      reads this
    {
      IsValidServiceDay(p.serviceDate, t) && start <= p.arrivalTime <= end
    }

    lemma DayIsCandidate(first: Date, last: Date, offset: int, start: DateTime, end: DateTime, t: Trip, d: Date)
      requires first <= d <= last && IsValidServiceDay(d, t) && start <= Midnight(d) + offset <= end
      ensures exists k :: 0 <= k < |Possibles(first, last, offset)| && InWindow(Possibles(first, last, offset)[k], t, start, end)
    {
      var ps := Possibles(first, last, offset);
      var k := d - first;
      assert ps[k] == Possibility(d, Midnight(d) + offset);
      assert InWindow(ps[k], t, start, end);
    }

    lemma CandidateDay(first: Date, last: Date, offset: int, start: DateTime, end: DateTime, t: Trip, k: int)
      requires 0 <= k < |Possibles(first, last, offset)| && InWindow(Possibles(first, last, offset)[k], t, start, end)
      ensures exists d :: first <= d <= last && IsValidServiceDay(d, t) && start <= Midnight(d) + offset <= end
    {
      var ps := Possibles(first, last, offset);
      assert ps[k] == Possibility(first + k, Midnight(first + k) + offset);
      assert first <= first + k <= last && IsValidServiceDay(first + k, t) && start <= Midnight(first + k) + offset <= end;
    }

    /** Some service date brings trip `t` to the stop in the window through `row`. */
    ghost predicate MatchesOnSomeDay(row: Row, t: Trip, start: DateTime, end: DateTime)
      reads this
    {
      exists d :: WindowMatch(row, d, t, start, end)
    }

    lemma FromRowExactly(row: Row, start: DateTime, end: DateTime, t: Trip)
      requires FromRow(row, start, end).Success?
      ensures t in FromRow(row, start, end).value <==> MatchesOnSomeDay(row, t, start, end)
    {
      var offset := ArrivalOffset(row["arrival_time"]);
      if offset.Some? {
        var first, last, tripId := DateOf(start) - 1, DateOf(end), row["trip_id"];
        assert FromRow(row, start, end).value == Selected(Possibles(first, last, offset.value), tripId, start, end);
        SelectedWindow(first, last, offset.value, tripId, start, end, t);
        assert forall d :: WindowMatch(row, d, t, start, end) <==>
          (tripId in tripDb && tripDb[tripId] == t && first <= d <= last && IsValidServiceDay(d, t) &&
           start <= Midnight(d) + offset.value <= end);
      }
    }

    lemma {:induction false} FromRowsExactly(rows: seq<Row>, start: DateTime, end: DateTime, t: Trip)
      requires FromRows(rows, start, end).Success?
      ensures t in FromRows(rows, start, end).value <==>
                exists i :: 0 <= i < |rows| && MatchesOnSomeDay(rows[i], t, start, end)
    {
      if |rows| > 0 {
        var init := rows[..|rows| - 1];
        var last := rows[|rows| - 1];
        var before := FromRows(init, start, end);
        var more := FromRow(last, start, end);
        assert before.Success? && more.Success?;
        assert FromRows(rows, start, end).value == before.value + more.value;
        FromRowsExactly(init, start, end, t);
        FromRowExactly(last, start, end, t);
        SomeRowSplits(rows, start, end, t);
      }
    }

    /** A row of `rows` matches iff a row before the last one does or the last one does. */
    lemma SomeRowSplits(rows: seq<Row>, start: DateTime, end: DateTime, t: Trip)
      requires |rows| > 0
      ensures var init := rows[..|rows| - 1];
              (exists i :: 0 <= i < |rows| && MatchesOnSomeDay(rows[i], t, start, end)) <==>
                (exists i :: 0 <= i < |init| && MatchesOnSomeDay(init[i], t, start, end)) ||
                MatchesOnSomeDay(rows[|rows| - 1], t, start, end)
    {
      var init := rows[..|rows| - 1];
      assert forall i :: 0 <= i < |init| ==> rows[i] == init[i];
    }

    /** Window soundness and completeness: a trip is returned exactly when
        one of the stop's rows brings it to the stop, on a valid service date
        from the day before `start` to the day of `end`, within [start, end]. */
    lemma ScheduledForExactly(stopId: string, start: DateTime, end: DateTime, t: Trip)
      requires ScheduledFor(stopId, start, end).Success?
      ensures t in ScheduledFor(stopId, start, end).value <==>
                && stopId in stopsDb
                && exists i :: 0 <= i < |stopsDb[stopId]| && MatchesOnSomeDay(stopsDb[stopId][i], t, start, end)
    {
      if stopId in stopsDb && |stopsDb[stopId]| > 0 {
        FromRowsExactly(stopsDb[stopId], start, end, t);
      }
    }

    /** An unknown or empty stop yields no trips before the window is checked;
        otherwise a reversed window raises ValueError. */
    lemma ScheduledForErrors(stopId: string, start: DateTime, end: DateTime)
      ensures stopId !in stopsDb || |stopsDb[stopId]| == 0 ==> ScheduledFor(stopId, start, end) == Success([])
      ensures stopId in stopsDb && |stopsDb[stopId]| > 0 && end < start ==>
                ScheduledFor(stopId, start, end) == Failure(ValueError("start must come before end"))
    {
    }

    /** Rows with an unparsable arrival and rows of unknown trips are skipped:
        the query raises only for a reversed window or a row without a
        `trip_id` or `arrival_time` column. */
    lemma {:induction false} FromRowsRaises(rows: seq<Row>, start: DateTime, end: DateTime)
      requires FromRows(rows, start, end).Failure?
      ensures exists i :: 0 <= i < |rows| && ("trip_id" !in rows[i] || "arrival_time" !in rows[i])
    {
      var init := rows[..|rows| - 1];
      if FromRows(init, start, end).Failure? {
        FromRowsRaises(init, start, end);
        var i :| 0 <= i < |init| && ("trip_id" !in init[i] || "arrival_time" !in init[i]);
        assert rows[i] == init[i];
      } else {
        assert FromRow(rows[|rows| - 1], start, end).Failure?;
      }
    }

    /** The number of service dates, from the day before `start` up to
        `last`, on which `row` brings trip `t` to the stop in the window. */
    ghost function DaysMatching(row: Row, t: Trip, start: DateTime, end: DateTime, last: int): nat
      reads this
      decreases last - (DateOf(start) - 1)
    {
      if last < DateOf(start) - 1 then 0
      else DaysMatching(row, t, start, end, last - 1) + if WindowMatch(row, last, t, start, end) then 1 else 0
    }

    /** The number of (row, service date) pairs that bring `t` to the stop. */
    ghost function RowsMatching(rows: seq<Row>, t: Trip, start: DateTime, end: DateTime): nat
      reads this
    {
      if |rows| == 0 then 0
      else RowsMatching(rows[..|rows| - 1], t, start, end) + DaysMatching(rows[|rows| - 1], t, start, end, DateOf(end))
    }

    lemma {:induction false} NoDayMatches(row: Row, t: Trip, start: DateTime, end: DateTime, last: int)
      requires !("trip_id" in row && "arrival_time" in row && ArrivalOffset(row["arrival_time"]).Some?)
      ensures DaysMatching(row, t, start, end, last) == 0
      decreases last - (DateOf(start) - 1)
    {
      if last >= DateOf(start) - 1 {
        NoDayMatches(row, t, start, end, last - 1);
      }
    }

    lemma {:induction false} SelectedCount(row: Row, offset: int, last: int, start: DateTime, end: DateTime, t: Trip)
      requires "trip_id" in row && "arrival_time" in row && ArrivalOffset(row["arrival_time"]) == Some(offset)
      requires last <= DateOf(end)
      ensures multiset(Selected(Possibles(DateOf(start) - 1, last, offset), row["trip_id"], start, end))[t] ==
              DaysMatching(row, t, start, end, last)
      decreases last - (DateOf(start) - 1)
    {
      if last >= DateOf(start) - 1 {
        SelectedLast(row, offset, last, start, end, t);
        SelectedCount(row, offset, last - 1, start, end, t);
      }
    }

    /** The candidate of service date `last` adds `t` once exactly when that
        date brings it to the stop in the window. */
    lemma SelectedLast(row: Row, offset: int, last: int, start: DateTime, end: DateTime, t: Trip)
      requires "trip_id" in row && "arrival_time" in row && ArrivalOffset(row["arrival_time"]) == Some(offset)
      requires DateOf(start) - 1 <= last <= DateOf(end)
      ensures multiset(Selected(Possibles(DateOf(start) - 1, last, offset), row["trip_id"], start, end))[t] ==
              multiset(Selected(Possibles(DateOf(start) - 1, last - 1, offset), row["trip_id"], start, end))[t] +
              if WindowMatch(row, last, t, start, end) then 1 else 0
    {
      var first := DateOf(start) - 1;
      SelectedSnoc(Possibles(first, last - 1, offset), Possibility(last, Midnight(last) + offset), row["trip_id"], start, end);
      MatchOnDay(row, offset, last, start, end, t);
    }

    /** One more candidate adds the trip once when it is valid and in the window. */
    lemma SelectedSnoc(ps: seq<Possibility>, p: Possibility, tripId: string, start: DateTime, end: DateTime)
      ensures Selected(ps + [p], tripId, start, end) ==
              Selected(ps, tripId, start, end) +
                if tripId in tripDb && IsValidServiceDay(p.serviceDate, tripDb[tripId]) && start <= p.arrivalTime <= end
                then [tripDb[tripId]] else []
    {
      assert (ps + [p])[..|ps|] == ps;
    }

    lemma MatchOnDay(row: Row, offset: int, d: Date, start: DateTime, end: DateTime, t: Trip)
      requires "trip_id" in row && "arrival_time" in row && ArrivalOffset(row["arrival_time"]) == Some(offset)
      requires DateOf(start) - 1 <= d <= DateOf(end)
      ensures var tripId := row["trip_id"];
              var added := if tripId in tripDb && IsValidServiceDay(d, tripDb[tripId]) && start <= Midnight(d) + offset <= end
                           then [tripDb[tripId]] else [];
              multiset(added)[t] == if WindowMatch(row, d, t, start, end) then 1 else 0
    {
    }

    /** A row contributes a trip once per service date that brings it to the
        stop in the window. */
    lemma FromRowCount(row: Row, start: DateTime, end: DateTime, t: Trip)
      requires FromRow(row, start, end).Success?
      ensures multiset(FromRow(row, start, end).value)[t] == DaysMatching(row, t, start, end, DateOf(end))
    {
      var offset := ArrivalOffset(row["arrival_time"]);
      if offset.Some? {
        SelectedCount(row, offset.value, DateOf(end), start, end, t);
      } else {
        NoDayMatches(row, t, start, end, DateOf(end));
      }
    }

    lemma {:induction false} FromRowsCount(rows: seq<Row>, start: DateTime, end: DateTime, t: Trip)
      requires FromRows(rows, start, end).Success?
      ensures multiset(FromRows(rows, start, end).value)[t] == RowsMatching(rows, t, start, end)
    {
      if |rows| > 0 {
        var init, last := rows[..|rows| - 1], rows[|rows| - 1];
        var before, more := FromRows(init, start, end), FromRow(last, start, end);
        assert before.Success? && more.Success?;
        assert FromRows(rows, start, end).value == before.value + more.value;
        FromRowsCount(init, start, end, t);
        FromRowCount(last, start, end, t);
      }
    }

    /** A trip is returned once for every row and service date that bring it
        to the stop in the window, so a trip running past midnight can be
        returned for two service dates. */
    lemma ScheduledForCount(stopId: string, start: DateTime, end: DateTime, t: Trip)
      requires ScheduledFor(stopId, start, end).Success?
      ensures multiset(ScheduledFor(stopId, start, end).value)[t] ==
              if stopId in stopsDb then RowsMatching(stopsDb[stopId], t, start, end) else 0
    {
      if stopId in stopsDb && |stopsDb[stopId]| > 0 {
        FromRowsCount(stopsDb[stopId], start, end, t);
      }
    }
  }

  lemma {:induction false} JoinTripsFails(keys: seq<string>, trips: map<string, Row>, stopTimes: map<string, seq<Row>>,
                                          routes: map<string, Row>, n: nat)
    requires forall k :: k in keys ==> k in trips
    requires n <= |keys|
    ensures JoinTrips(keys[..n], trips, stopTimes, routes).Failure? ==>
              JoinTrips(keys, trips, stopTimes, routes) == JoinTrips(keys[..n], trips, stopTimes, routes)
  {
    if n < |keys| {
      JoinTripsFails(keys[..|keys| - 1], trips, stopTimes, routes, n);
      assert keys[..|keys| - 1][..n] == keys[..n];
    } else {
      assert keys[..n] == keys;
    }
  }
}
