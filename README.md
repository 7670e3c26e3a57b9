# gtfs-upcoming, modelled in Dafny

gtfs-upcoming answers one question for a fixed set of bus or rail stops: which
vehicles arrive at these stops in the next two hours? It combines two data
sources:

- a static GTFS schedule (`stop_times.txt`, `trips.txt`, `routes.txt`,
  `calendar.txt`, `calendar_dates.txt`), loaded once into an in-memory database;
- a GTFS-Realtime feed of trip updates, fetched on every query.

Live entries supersede scheduled ones for the same trip. Canceled trips are
dropped, and the rest are sorted by seconds until arrival.

The repository holds two generations of the same core, and both are modelled:

- **Current tree** (`src/gtfs_upcoming/`):
  - the chunked CSV loader, modelled in `loader.dfy`;
  - the schedule database, modelled in `database.dfy`, with its calendar rules in `calendar.dfy` and its service-date expansion in `schedule.dfy`;
  - the transit query layer, modelled in `transit.dfy`.
- **Legacy tree** (`gtfs_data/` and the root `transit.py`): modelled in `loader.dfy` (`LegacyLoad`), `legacy_database.dfy` and `legacy_transit.dfy`. The legacy code differs in how it treats unknown trips and realtime relationships, and in how it parses times.

The other files hold what both trees share:

- `wrappers.dfy`: `Result` and `Option`. Python's exceptions become `Failure`s that carry the exception's type and message.
- `dicts.dfy`: Python's insertion-ordered `dict`.
- `tables.dfy`: the `_collect` grouping of rows by a key column.
- `clock.dfy`: dates as day numbers, date-times as seconds, `str.split`, `int()`, `strftime('%H:%M:%S')` and `strptime('%Y%m%d')`.
- `realtime.dfy`: the GTFS-Realtime messages the core reads.
- `merge.dfy`: the realtime replay of delays and timestamps, `delta_seconds`, the scheduled/live merge of `get_upcoming`, and the stable `sorted(..., key=...)`.

Every state-changing piece of the source is a method:

- the database objects and their `load` are classes with `modifies` clauses;
- each loop is a method with a `while` or `for` loop;
- each method is proved equal to a specification function.

The properties are lemmas about those functions. The current time, the realtime feed and the conversion of POSIX timestamps to local time (`fromtimestamp`) are parameters: `now`, `feed` and `toLocal`. The files on disk are a map from file name to lines, and `csv.DictReader` is an abstract decoder.

## Model

| member | source | states |
|---|---|---|
| Loader.KeptExactly | src/gtfs_upcoming/schedule/loader.py:76-87 | a row is kept iff it was decoded and every `keep` column holds an allowed value; filtering never adds rows |
| Loader.KeptEverything | src/gtfs_upcoming/schedule/loader.py:72 | an empty (or `None`) `keep` keeps every row |
| Loader.KeptAppend | src/gtfs_upcoming/schedule/loader.py:142-147 | filtering distributes over concatenation, so chunk results can be concatenated in submission order |
| Loader.DecodedAppend | src/gtfs_upcoming/schedule/loader.py:124-140 | decoding under one header distributes over concatenation of data lines |
| Loader.RowMatches | src/gtfs_upcoming/schedule/loader.py:77-81 | the inner loop over `keep` answers exactly whether the row matches |
| Loader.LoadChunk | src/gtfs_upcoming/schedule/loader.py:58-88 | the worker returns the decoded rows of its chunk that match `keep`, and kept plus discarded equals the rows decoded |
| Loader.BomConsumed | src/gtfs_upcoming/schedule/loader.py:112-117 | exactly one leading byte-order mark is removed from the file text, and nothing else |
| Loader.WrapStep | src/gtfs_upcoming/schedule/loader.py:125-135 | when the count reaches a multiple of the chunk size, a non-empty accumulator becomes a header-prefixed chunk and a new one starts with the line |
| Loader.FillStep | src/gtfs_upcoming/schedule/loader.py:134-135 | otherwise the line is appended to the current chunk |
| Loader.FlushStep | src/gtfs_upcoming/schedule/loader.py:137-140 | after the last line, the chunks partition the data lines in order, each with the header and at most N lines |
| Loader.SplitChunks | src/gtfs_upcoming/schedule/loader.py:119-140 | cutting into chunks fails with ZeroDivisionError iff the chunk size is 0 and there is a data line; otherwise the chunks partition the data lines |
| Loader.Load | src/gtfs_upcoming/schedule/loader.py:91-152 | a missing file raises FileNotFoundError; a zero chunk size raises ZeroDivisionError once there is data; otherwise the result equals one unchunked pass over the file, whatever the chunk size |
| Loader.LegacyLoad | gtfs_data/loader.py:47-113 | the legacy loader with its fixed 100000-line chunks gives the same rows as one pass |
| Tables.GroupLastFails | src/gtfs_upcoming/schedule/database.py:329-356 | grouping gives `None` (the KeyError is caught and logged) iff some row lacks the key column |
| Tables.GroupAllFails | src/gtfs_upcoming/schedule/database.py:329-356 | the same for the list-valued grouping: `None` iff some row lacks the key column |
| Tables.GroupedKeys | src/gtfs_upcoming/schedule/database.py:342-351 | both groupings have exactly the key column's values as keys |
| Tables.ColumnValuesMembers | src/gtfs_upcoming/schedule/database.py:342 | a value belongs to the column iff some row carries it |
| Tables.GroupLastAt | src/gtfs_upcoming/schedule/database.py:349-351 | when a key does not occur again later, its entry is the row at that position |
| Tables.GroupLastKeepsLast | src/gtfs_upcoming/schedule/database.py:349-351 | every key maps to the last row that carries it (later rows overwrite earlier ones) |
| Tables.GroupAllInOrder | src/gtfs_upcoming/schedule/database.py:344-347 | a key maps to all rows with that key, in file order |
| Tables.RowsWithAbsent | src/gtfs_upcoming/schedule/database.py:344-347 | a value no row carries has no rows |
| Tables.CollectLast | src/gtfs_upcoming/schedule/database.py:329-356 | `_collect` without `multi`: no data gives an empty dict, and otherwise the last-row grouping, or `None` when a row lacks the key |
| Tables.CollectAll | src/gtfs_upcoming/schedule/database.py:329-356 | `_collect` with `multi`: the same for the list grouping |
| Calendar.ServiceDayValid | src/gtfs_upcoming/schedule/database.py:130-146 | a service day is valid only for a known service and a date inside its start/end range |
| Calendar.WeekdayRule | src/gtfs_upcoming/schedule/database.py:141-146 | in range, a weekday flagged "0" runs iff an exception adds it; any other flag runs unless an exception removes it |
| Calendar.AgreesWithReference | src/gtfs_upcoming/schedule/database.py:130-146 | for 0/1 weekday flags, the rule equals the GTFS reference definition (weekday on and not removed, or added) |
| Calendar.AddedOutsideRangeIgnored | src/gtfs_upcoming/schedule/database.py:136-139 | an exception that adds a date outside the service's range has no effect, because the range check comes first |
| Calendar.ServicesParsed | src/gtfs_upcoming/schedule/database.py:296-308 | the parsed calendar has exactly the loaded service ids, each with its row and its parsed start and end dates |
| Calendar.ServicesFromFails | src/gtfs_upcoming/schedule/database.py:300-306 | the first row whose date fails aborts the whole load |
| Calendar.ParseServices | src/gtfs_upcoming/schedule/database.py:300-306 | the loop over calendar rows computes the parsed calendar |
| Calendar.ExceptionDatesLatest | src/gtfs_upcoming/schedule/database.py:314-319 | each exception date maps to the exception type of the last row for that date |
| Calendar.ExceptionDatesFails | src/gtfs_upcoming/schedule/database.py:314-319 | the first row with a bad date or no exception type aborts the whole load |
| Calendar.ExceptionsFromFails | src/gtfs_upcoming/schedule/database.py:310-321 | the same over all services |
| Calendar.ParseExceptions | src/gtfs_upcoming/schedule/database.py:310-321 | the nested loops over exception rows compute the parsed exceptions |
| Schedule.ArrivalOffsetMeaning | src/gtfs_upcoming/schedule/database.py:184-196 | an arrival time is accepted iff it is three integers with hour in [0, 48), minute and second in [0, 60); the offset is hour, minute and second in seconds |
| Schedule.ArrivalDay | src/gtfs_upcoming/schedule/database.py:191-203 | hours of 24 and over fall on the next day, at hour − 24 |
| Schedule.Possibles | src/gtfs_upcoming/schedule/database.py:172-206 | one candidate per service date from the day before `start` to the day of `end`, each at that date's midnight plus the offset |
| Schedule.ServiceDates | src/gtfs_upcoming/schedule/database.py:198-206 | the while loop builds exactly those candidates |
| Database.StopsAllowlisted | src/gtfs_upcoming/schedule/database.py:233-244 | with an allowlist, only allowlisted stops are indexed; each stop maps to rows carrying that stop id; without one, every stop is indexed |
| Database.KeptGroupsAllowed | src/gtfs_upcoming/schedule/database.py:262-263 | rows loaded with a one-column allowlist group only under allowed keys |
| Database.LoadedTripsAllowed | src/gtfs_upcoming/schedule/database.py:247-263 | `trips.txt` is loaded only for the trip ids seen at the indexed stops |
| Database.TripsReachable | src/gtfs_upcoming/schedule/database.py:246-292 | every trip in the database stops at an indexed stop |
| Database.JoinedTrip | src/gtfs_upcoming/schedule/database.py:267-292 | a trip is stored iff its route is known; it holds its row's headsign, direction and service, its route and its stop times (or none) |
| Database.JoinKeepsRoutes | src/gtfs_upcoming/schedule/database.py:279-288 | a route, once built, is never replaced by a later trip |
| Database.JoinRouteStep | src/gtfs_upcoming/schedule/database.py:279-288 | a trip builds its route only when the route is known and not yet built |
| Database.RouteBuilt | src/gtfs_upcoming/schedule/database.py:279-288 | a route is stored iff it is in `routes.txt` and some loaded trip uses it |
| Database.RouteFromFirstTrip | src/gtfs_upcoming/schedule/database.py:279-288 | a stored route carries its inferred headsign, direction and service from the first trip that uses it |
| Database.Database.constructor | src/gtfs_upcoming/schedule/database.py:96-111 | a new database is empty; loading all stops iff the allowlist is empty |
| Database.Database.LoadFile | src/gtfs_upcoming/schedule/database.py:323-327 | `_load` loads a file of the data directory |
| Database.Database.LoadStops | src/gtfs_upcoming/schedule/database.py:233-244 | computes the stop index |
| Database.Database.CollectTripIds | src/gtfs_upcoming/schedule/database.py:247-250 | the loop gathers the trip ids of all indexed stop times, or raises KeyError |
| Database.Database.LoadTrips | src/gtfs_upcoming/schedule/database.py:246-294 | computes the trip and route tables |
| Database.Database.JoinLoop | src/gtfs_upcoming/schedule/database.py:265-292 | the loop over trips in file order computes the join |
| Database.Database.LoadCalendar | src/gtfs_upcoming/schedule/database.py:296-308 | computes the calendar |
| Database.Database.LoadExceptions | src/gtfs_upcoming/schedule/database.py:310-321 | computes the exceptions |
| Database.Database.Load | src/gtfs_upcoming/schedule/database.py:114-120 | `load` moves the database to the state the load order defines (stops, trips, calendar, exceptions); on an error the earlier tables stay loaded |
| Database.Database.LookupsAfterLoad | src/gtfs_upcoming/schedule/database.py:122-128 | after a successful load, `get_trip` finds a trip only under its own id, only if an indexed stop time names it, and `get_route` finds that trip's route; `get_route` finds a route only under its own id and only if some loaded trip runs on it |
| Database.Database.GetScheduledFor | src/gtfs_upcoming/schedule/database.py:149-231 | the query computes the scheduled trips of a stop in a window |
| Database.Database.TripsOfRow | src/gtfs_upcoming/schedule/database.py:180-222 | one stop-time row yields its trip once per valid candidate in the window |
| Database.Database.SelectTrips | src/gtfs_upcoming/schedule/database.py:215-222 | the loop over candidates computes the selected trips |
| Database.Database.SelectedExactly | src/gtfs_upcoming/schedule/database.py:215-222 | a trip is selected iff it is the known trip and some candidate is a valid service day with arrival in [start, end] |
| Database.Database.SelectedWindow | src/gtfs_upcoming/schedule/database.py:172-222 | the same, stated over service dates from the day before start to the day of end |
| Database.Database.FromRowExactly | src/gtfs_upcoming/schedule/database.py:180-222 | a row contributes a trip iff the trip matches the window on some service date |
| Database.Database.FromRowsExactly | src/gtfs_upcoming/schedule/database.py:180-222 | the result holds exactly the trips some row matches on some date |
| Database.Database.ScheduledForExactly | src/gtfs_upcoming/schedule/database.py:161-222 | the scheduled trips of a stop are exactly those its stop-time rows match in the window |
| Database.Database.ScheduledForErrors | src/gtfs_upcoming/schedule/database.py:163-170 | an unknown stop gives an empty list; otherwise end before start raises ValueError |
| Database.Database.FromRowsRaises | src/gtfs_upcoming/schedule/database.py:180-210 | the query fails only when some row lacks `trip_id` or `arrival_time` (a bad time is skipped) |
| Database.Database.FromRowCount | src/gtfs_upcoming/schedule/database.py:180-222 | a row contributes a trip once per service date on which it brings the trip to the stop in the window |
| Database.Database.FromRowsCount | src/gtfs_upcoming/schedule/database.py:180-222 | over all rows, a trip appears once per matching (row, service date) pair |
| Database.Database.ScheduledForCount | src/gtfs_upcoming/schedule/database.py:161-222 | the scheduled trips of a stop hold each trip once per matching (row, service date) pair, so a trip running past midnight can appear twice |
| Database.JoinedTables | src/gtfs_upcoming/schedule/database.py:265-292 | each joined trip is stored under its own id with the stored Route of its route id; each Route is stored under its own id and used by some stored trip |
| Database.LoadedTables | src/gtfs_upcoming/schedule/database.py:246-294 | the same for the tables `_load_trips` builds, whose trips are all named by indexed stop times |
| LegacyDatabase.UngroupableStops | gtfs_data/database.py:192-200 | when the stop index is `None`, the load fails, calling `.values()` on `None` |
| LegacyDatabase.JoinedTrip | gtfs_data/database.py:221-235 | every loaded trip is stored; its route and stop times are looked up by `.get`, so either may be `None` |
| LegacyDatabase.JoinNeedsTables | gtfs_data/database.py:221-235 | with at least one trip, a missing route or stop-time table raises |
| LegacyDatabase.TripsReachable | gtfs_data/database.py:202-219 | every legacy trip stops at an indexed stop |
| LegacyDatabase.LegacyDatabase.constructor | gtfs_data/database.py:76-90 | a new legacy database is empty |
| LegacyDatabase.LegacyDatabase.LoadStops | gtfs_data/database.py:192-200 | computes the legacy stop index |
| LegacyDatabase.LegacyDatabase.LoadTrips | gtfs_data/database.py:202-235 | computes the legacy trip table |
| LegacyDatabase.LegacyDatabase.JoinLoop | gtfs_data/database.py:221-235 | the loop over trips computes the legacy join |
| LegacyDatabase.LegacyDatabase.LoadCalendar | gtfs_data/database.py:237-247 | computes the calendar |
| LegacyDatabase.LegacyDatabase.LoadExceptions | gtfs_data/database.py:249-259 | computes the exceptions |
| LegacyDatabase.LegacyDatabase.Load | gtfs_data/database.py:93-99 | `Load` moves the database to the state the load order defines |
| LegacyDatabase.LegacyDatabase.GetTripAfterLoad | gtfs_data/database.py:101-104 | after a successful load, `GetTrip` finds a trip only under its own id and only if an indexed stop time names it |
| LegacyDatabase.LoadedTripsKeyed | gtfs_data/database.py:202-235 | the legacy trip table stores each trip under its own id, and only trips indexed stop times name |
| LegacyDatabase.LegacyDatabase.IsValidServiceDay | gtfs_data/database.py:106-125 | an unknown trip raises (attribute of `None`); otherwise the calendar rule of its service |
| LegacyDatabase.LegacyDatabase.SelectedFails | gtfs_data/database.py:183-186 | the first failing candidate aborts the query |
| LegacyDatabase.LegacyDatabase.GetScheduledFor | gtfs_data/database.py:127-190 | the query computes the legacy scheduled trips |
| LegacyDatabase.LegacyDatabase.TripsOfRow | gtfs_data/database.py:154-186 | one row yields its trip per valid candidate |
| LegacyDatabase.LegacyDatabase.SelectTrips | gtfs_data/database.py:183-186 | the loop computes the selected trips |
| LegacyDatabase.LegacyDatabase.UnknownTripRaises | gtfs_data/database.py:106-111 | a stop-time row whose trip was not loaded makes the whole query raise |
| LegacyDatabase.LegacyDatabase.SelectedExactly | gtfs_data/database.py:183-186 | for a known trip, it is selected iff some candidate is a valid service day inside the window |
| LegacyDatabase.LegacyDatabase.UnknownTripSelected | gtfs_data/database.py:183-186 | the candidates of an unknown trip raise AttributeError as soon as there is one, and give [] when there is none |
| LegacyDatabase.LegacyDatabase.SelectedWindow | gtfs_data/database.py:170-186 | for a known trip, the same stated over service dates from the day before start to the day of end |
| LegacyDatabase.LegacyDatabase.FromRowExactly | gtfs_data/database.py:154-186 | a row that does not raise contributes a trip iff the trip matches the window on some service date |
| LegacyDatabase.LegacyDatabase.FromRowsExactly | gtfs_data/database.py:154-186 | the result holds exactly the trips some row matches on some date |
| LegacyDatabase.LegacyDatabase.ScheduledForExactly | gtfs_data/database.py:140-186 | when the legacy query does not raise, the trips of a stop are exactly those its stop-time rows match in the window |
| LegacyDatabase.LegacyDatabase.ScheduledForErrors | gtfs_data/database.py:140-146 | a missing stop index raises AttributeError; an unknown or empty stop gives []; otherwise end before start raises ValueError |
| LegacyDatabase.LegacyDatabase.RowRaisesExactly | gtfs_data/database.py:154-186 | one row raises iff it lacks `trip_id` or `arrival_time`, or its arrival parses and its trip is unknown |
| LegacyDatabase.LegacyDatabase.FromRowsRaises | gtfs_data/database.py:154-186 | for a window with start ≤ end, the rows raise iff one of them does |
| Merge.DeltaSecondsAntisymmetric | src/gtfs_upcoming/transit.py:81-83 | swapping the arguments negates the difference; a time minus itself is 0 |
| Merge.FirstInterestingMeaning | src/gtfs_upcoming/transit.py:262-267 | the scan stops at the first stop time at an interesting stop; it finds none iff there is none; a stop time without `stop_id` before it raises |
| Merge.FindFirstInteresting | src/gtfs_upcoming/transit.py:262-267 | the loop computes the scan |
| Merge.Applicable | src/gtfs_upcoming/transit.py:271-284 | the updates applied are the leading ones with sequence ≤ the stop's; the first later one stops the loop |
| Merge.LastTimed | src/gtfs_upcoming/transit.py:277-281 | the last applied update that carries a timestamp |
| Merge.ReplayClosedForm | src/gtfs_upcoming/transit.py:269-284 | the updated arrival is the last timestamp (or the scheduled arrival) plus the delays that come after it |
| Merge.ApplyUpdates | src/gtfs_upcoming/transit.py:269-284 | the loop over stop-time updates computes the updated arrival |
| Merge.KnownKeys | src/gtfs_upcoming/transit.py:333 | the dict of scheduled entries has exactly their trip ids as keys |
| Merge.KnownValueAt | src/gtfs_upcoming/transit.py:333 | each trip id maps to its last scheduled entry |
| Merge.ForgetEntries | src/gtfs_upcoming/transit.py:337-340 | deleting the live trips leaves exactly the scheduled trips without a live entry |
| Merge.MergedMembers | src/gtfs_upcoming/transit.py:329-343 | an entry is in the merge iff it is live, or it is the last scheduled entry of a trip with no live entry |
| Merge.SurvivorIsLast | src/gtfs_upcoming/transit.py:342-343 | every scheduled survivor is the last entry of a trip with no live entry |
| Merge.LastSurvives | src/gtfs_upcoming/transit.py:342-343 | every such entry survives |
| Merge.Supersede | src/gtfs_upcoming/transit.py:332-343 | the loops compute the merge |
| Merge.AppendAll | src/gtfs_upcoming/transit.py:342-343 | the loop appends every surviving scheduled entry, in order, after the live ones |
| Merge.KnownTrips | src/gtfs_upcoming/transit.py:333 | the comprehension computes the dict of scheduled entries |
| Merge.ForgetLive | src/gtfs_upcoming/transit.py:337-340 | the loop computes the deletions |
| Merge.InsertPermutes | src/gtfs_upcoming/transit.py:350-351 | insertion adds exactly the one element |
| Merge.InsertSorted | src/gtfs_upcoming/transit.py:350-351 | insertion keeps a sequence sorted |
| Merge.SortBySorted | src/gtfs_upcoming/transit.py:350-351 | `sorted(key=...)` gives a sorted permutation |
| Merge.SortByStable | src/gtfs_upcoming/transit.py:350-351 | the sort is stable: entries with equal keys keep their relative order |
| Transit.ParseTimeMeaning | src/gtfs_upcoming/transit.py:68-78 | parse succeeds iff three integers with hour ≥ 0 and minute and second in [0, 60); the date is today plus hour/24 days and the time of day is (hour mod 24):minute:second |
| Transit.ParseTimeReadsFormatted | src/gtfs_upcoming/transit.py:68-78 | a time of day written as HH:MM:SS parses back to that instant on the given date |
| Transit.ParseTimeMatchesArrival | src/gtfs_upcoming/transit.py:68-78 | for every arrival time the database accepts, `parse_time` on today's date agrees with the database's arrival computation |
| Transit.FromTrip | src/gtfs_upcoming/transit.py:104-118 | building an entry fails iff the route type is not a known GTFS route type |
| Transit.DueTimeReadsBack | src/gtfs_upcoming/transit.py:104-118 | the formatted due time parses back to the due date-time on its date, and the seconds until due are due − now |
| Transit.AddedStopTimeReadsBack | src/gtfs_upcoming/transit.py:160-166 | a synthesized stop time carries the trip id, stop id, stop sequence (as text that reads back) and the local time of the event |
| Transit.AddedStopTimesMeaning | src/gtfs_upcoming/transit.py:144-166 | stop times are empty iff no update is at an interesting stop with a nonzero time; each comes from such an update, with departure overriding arrival |
| Transit.Transit.constructor | src/gtfs_upcoming/transit.py:122-125 | the query object holds the database |
| Transit.Transit.BuiltTripMeaning | src/gtfs_upcoming/transit.py:136-179 | an ADDED trip is built iff its route is known and some update is usable; it takes its route's inferred headsign, direction and service |
| Transit.Transit.BuildTripFromUpdate | src/gtfs_upcoming/transit.py:136-179 | the loop computes the built trip |
| Transit.Transit.DueOfMeaning | src/gtfs_upcoming/transit.py:192-198 | the due time is the parsed arrival at the first stop time for the stop, and is absent iff the trip has none |
| Transit.Transit.WithDueCount | src/gtfs_upcoming/transit.py:192-198 | the trips that reach the stop are kept as often as they occur, and the others not at all |
| Transit.Transit.TripEntriesFromDue | src/gtfs_upcoming/transit.py:192-203 | the entries of one stop correspond one to one, in order, to the trips that reach it: each carries its trip's id, is due at the trip's first arrival at the stop (the due time reads back as that instant; the seconds count from now), and is for that stop, from SCHEDULE, neither canceled nor added |
| Transit.Transit.TripEntriesFails | src/gtfs_upcoming/transit.py:192-203 | the first trip that fails aborts the stop |
| Transit.Transit.ScheduledEntriesFails | src/gtfs_upcoming/transit.py:189-203 | the first stop that fails aborts the query |
| Transit.Transit.ScheduledSorted | src/gtfs_upcoming/transit.py:183-208 | the scheduled departures are a sorted permutation of the entries |
| Transit.Transit.FindDue | src/gtfs_upcoming/transit.py:193-198 | the loop computes the due time |
| Transit.Transit.EntriesForTrips | src/gtfs_upcoming/transit.py:192-203 | the loop computes the entries of one stop |
| Transit.Transit.GetScheduled | src/gtfs_upcoming/transit.py:183-208 | the method computes the scheduled departures |
| Transit.Transit.LiveIgnores | src/gtfs_upcoming/transit.py:227-256 | an entity without a trip update, one with an unexpected relationship, and an unknown trip that is not ADDED all yield nothing |
| Transit.Transit.LiveEmits | src/gtfs_upcoming/transit.py:258-305 | an emitted entry is LIVE, for the trip, canceled iff CANCELED and added iff ADDED; a SCHEDULED one is not in the past; CANCELED and ADDED trips are always emitted |
| Transit.Transit.LiveDue | src/gtfs_upcoming/transit.py:258-305 | a SCHEDULED entry's seconds until due follow the closed form of the replay: the last applied timestamp (or scheduled arrival) plus later delays, minus now |
| Transit.Transit.LiveFails | src/gtfs_upcoming/transit.py:227-305 | the first entity that fails aborts the query |
| Transit.Transit.LocateTrip | src/gtfs_upcoming/transit.py:258-267 | the loop finds the first interesting stop, its sequence and its arrival |
| Transit.Transit.LiveEntryOf | src/gtfs_upcoming/transit.py:227-305 | one loop iteration computes that entity's entry |
| Transit.Transit.GetLive | src/gtfs_upcoming/transit.py:212-325 | the loop over entities computes the live entries |
| Transit.Transit.GetUpcoming | src/gtfs_upcoming/transit.py:329-351 | the method computes the upcoming list |
| Transit.Transit.UpcomingExactly | src/gtfs_upcoming/transit.py:329-351 | the result is sorted by seconds until due, and an entry is in it iff it is not canceled and is live, or is the last scheduled entry of a trip with no live entry |
| Transit.NotCanceled | src/gtfs_upcoming/transit.py:350 | the filter keeps exactly the entries that are not canceled |
| LegacyTransit.ParseTimeAsWritten | transit.py:57-63 | `parseTime` as written, replacing every "24:" in the text |
| LegacyTransit.ParseTimeAsWrittenMisreads | transit.py:57-63 | "24:24:10" is read as 00:00:10 the next day, not 00:24:10 |
| LegacyTransit.ParseTimeAsWrittenDay | transit.py:57-63 | the time read as written lies on today, or on the next day when the text starts with "24:" |
| LegacyTransit.ReplaceAbsent | transit.py:61 | `replace` leaves a text without the pattern unchanged |
| LegacyTransit.AsWrittenAgrees | transit.py:57-63 | wherever the corrected parse succeeds, the parse as written gives the same date-time, unless the text starts with "24:24:" |
| LegacyTransit.ParseTimeNextDay | transit.py:57-63 | the corrected parse reads "24:" + rest as "00:" + rest on the next day |
| LegacyTransit.ParseTimeReadsFormatted | transit.py:57-63 | a time of day formatted as HH:MM:SS parses back to that time today |
| LegacyTransit.ParseTimeAgreesWithCurrent | transit.py:57-63 | whenever the corrected legacy parse succeeds, the current `parse_time` gives the same date-time |
| LegacyTransit.FromTrip | transit.py:88-98 | building an entry fails iff the trip has no route, the route lacks its short name or type, the type is unknown, or the due text does not parse; otherwise the seconds until due are the parsed due time minus now |
| LegacyTransit.EmptyDueRaises | transit.py:122-130 | a trip that never stops at the stop has due text "", which makes the query raise |
| LegacyTransit.LegacyTransit.constructor | transit.py:102-104 | the query object holds the database |
| LegacyTransit.LegacyTransit.TripEntriesEveryTrip | transit.py:122-130 | one entry per trip, in order, for the queried stop, from SCHEDULE; its due text is the arrival of the trip's first stop time at the stop (so a trip without one makes the call fail), and its due-in seconds run from `now` to that text read on today's date |
| LegacyTransit.LegacyTransit.TripEntriesFails | transit.py:122-130 | the first trip that fails aborts the stop |
| LegacyTransit.LegacyTransit.ScheduledEntriesFails | transit.py:119-130 | the first stop that fails aborts the query |
| LegacyTransit.LegacyTransit.ScheduledSorted | transit.py:113-134 | the scheduled departures are a sorted permutation of the entries |
| LegacyTransit.LegacyTransit.FindDueText | transit.py:123-128 | the loop finds the first arrival text for the stop |
| LegacyTransit.LegacyTransit.EntriesForTrips | transit.py:122-130 | the loop computes the entries of one stop |
| LegacyTransit.LegacyTransit.GetScheduled | transit.py:113-134 | the method computes the scheduled departures |
| LegacyTransit.LegacyTransit.LiveIgnores | transit.py:148-162 | an entity without a trip update, any non-SCHEDULED relationship, and an unknown trip yield nothing |
| LegacyTransit.LegacyTransit.LiveDueLosesDate | transit.py:174-201 | a live entry's seconds until due are time-of-day(updated) − time-of-day(now): right on the same day, one day short across midnight |
| LegacyTransit.LegacyTransit.LiveFails | transit.py:148-201 | the first entity that fails aborts the query |
| LegacyTransit.LegacyTransit.LocateTrip | transit.py:164-172 | the loop finds the first interesting stop, its sequence and its arrival |
| LegacyTransit.LegacyTransit.LiveEntryOf | transit.py:148-201 | one loop iteration computes that entity's entry |
| LegacyTransit.LegacyTransit.GetLive | transit.py:137-210 | the loop over entities computes the live entries |
| LegacyTransit.LegacyTransit.GetUpcoming | transit.py:213-231 | the method computes the upcoming list |
| LegacyTransit.LegacyTransit.UpcomingExactly | transit.py:213-231 | the result is sorted, and an entry is in it iff it is live or is the last scheduled entry of a trip with no live entry (canceled trips never reach it) |
| Clock.ParseShowNat | src/gtfs_upcoming/transit.py:163 | a stop sequence written as text reads back with `int()` |
| Clock.ParseFormatHms | src/gtfs_upcoming/transit.py:114 | `strftime('%H:%M:%S')` of a time of day splits and parses back to its hour, minute and second |
| Clock.SplitJoin | src/gtfs_upcoming/transit.py:72 | splitting a join of separator-free fields gives the fields back |
| Clock.JoinSplit | src/gtfs_upcoming/transit.py:72 | joining the pieces of a split gives the text back |
| Dicts.Put | src/gtfs_upcoming/schedule/database.py:349-351 | assignment keeps an existing key's place and appends a new key |
| Dicts.Remove | src/gtfs_upcoming/transit.py:339 | `del` removes exactly that key |

## Left out

- Concurrency: the loader's `BufferedExecutor` runs chunks on threads or processes; the model runs them in submission order. Only the order of the concatenated results is observable, and that order is modelled.
- `csv.DictReader` is the abstract `decode` parameter: one data line under a header gives a row or nothing. Quoting, embedded newlines and short or long rows are not modelled.
- File I/O is a map from file name to lines. A missing file is FileNotFoundError.
- The GTFS-Realtime protobuf decoding (`load_from_api`, `LoadFromAPI`) and the HTTP fetch are out of scope. The decoded feed is the `feed` parameter.
- `datetime.datetime.now()` is the `now` parameter. The source calls it several times per query, a few microseconds apart; the model uses one instant.
- `datetime.fromtimestamp` (POSIX time to local time, which depends on the host's time zone) is the `toLocal` parameter.
- Loader.Matches: a `keep` column absent from a row counts as a non-match. `csv.DictReader` gives every header column to every row, so the source's KeyError cannot arise from a well-formed file.
- Loader.MaxRowsPerChunk: the command-line override of the chunk size is a parameter of `Load`. `main` is out of scope.
- Clock.ParseInt: `int()` also accepts surrounding whitespace, underscores between digits and non-ASCII digits. The model accepts only an optional sign and ASCII digits.
- LegacyTransit.StrpHms: `strptime`'s `%H`, `%M` and `%S` match any Unicode decimal digit, as `\d` does in Python. The model accepts only ASCII digits.
- Clock.ParseYmd: `strptime('%Y%m%d')` also accepts some shorter, unpadded forms. The model accepts only eight ASCII digits naming a real date.
- Years outside `datetime`'s 1..9999 range are not rejected.
- Merge.DeltaSeconds: `total_seconds()` returns a float, and `datetime.datetime.now()` carries microseconds. The model takes `now` at whole-second resolution and uses integers, so `dueInSeconds` has no fractional part, and the window test `arrival_time >= start` and the past test `current > updated_arrival_time` can differ from the source by under a second at their boundary. The `int(hour / 24)` float division of `parse_time` is exact for every hour a feed can contain, and the model uses integer division.
- Transit.AddedStopTime: the source stores the stop sequence as an int in the synthesized row; the model stores its decimal text, which `int()` reads back to the same value (`Clock.ParseShowNat`).
- Metrics, tracing and logging (Prometheus histograms, OpenTelemetry spans, the ontime/early/delayed counters) change no result and are left out.
- The HTTP server, the command-line `main` and the `fetch` module are not part of this model.
- Transit.Transit.ScheduledEntries: `get_scheduled` parses a trip's arrival with `parse_time`, which uses today's date. A trip selected through yesterday's service date (an arrival past 24:00 seen after midnight) therefore gets a due time a day late. In the mirror case, a trip selected through tomorrow's service date (an arrival before 24:00 on that date, seen before midnight) is read on today's date, so its `dueInSeconds` is negative, a day early. The model reproduces both, and `Transit.ParseTimeMatchesArrival` states exactly which date is used.
- LegacyTransit.LegacyTransit.LiveEntry: the legacy live path formats the updated arrival as HH:MM:SS and parses it back on today's date, losing the date. `LiveDueLosesDate` states the resulting one-day error across midnight; the model reproduces it rather than correcting it.
- LegacyTransit.FromTrip: reads the due text with the corrected `ParseTime` of the Findings table, not with `parseTime` as written, so a due text of the form "24:24:ss" gives a due time 1440 s later than the source's. `LegacyTransit.AsWrittenAgrees` shows that the two parsers agree on every other text the corrected one accepts.
- LegacyTransit.LegacyTransit.EntriesForTrips: its entries come from `FromTrip`, with the same corrected parse and the same "24:24:ss" gap.
- LegacyTransit.LegacyTransit.GetScheduled: its due times come from `FromTrip`, with the same corrected parse and the same "24:24:ss" gap.
- LegacyTransit.LegacyTransit.LocateTrip: reads the arrival text with the corrected `ParseTime`, so the base time of the replay differs from the source's only for an arrival "24:24:ss".
- LegacyTransit.LegacyTransit.LiveEntryOf: uses `Locate`, with the same "24:24:ss" gap.
- LegacyTransit.LegacyTransit.GetLive: uses `Locate`, with the same "24:24:ss" gap.
- LegacyTransit.LegacyTransit.GetUpcoming: its scheduled and live due times come through the corrected parse, with the same "24:24:ss" gap.
- LegacyTransit.LegacyTransit.UpcomingExactly: the legacy tree has no canceled flag, so the property has no cancel clause.

## Findings

| source | as written | input that shows it | evidently intended | confidence | as-written member | corrected member |
|---|---|---|---|---|---|---|
| transit.py:57-63 | `t.replace('24:', '00:')` replaces every occurrence of "24:", including a minute field of 24 | "24:24:10" becomes "00:00:10" on the next day | only the leading hour is rewritten: 00:24:10 on the next day | not executed | LegacyTransit.ParseTimeAsWrittenMisreads | LegacyTransit.ParseTime |

The corrected `LegacyTransit.ParseTime` rewrites only the leading "24:". These lemmas hold for it:

- `ParseTimeNextDay`: "24:" + rest reads as "00:" + rest on the next day.
- `ParseTimeReadsFormatted`: a formatted time of day reads back unchanged.
- `ParseTimeAgreesWithCurrent`: it agrees with the current tree's `parse_time`.
