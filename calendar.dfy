/** Service calendars: `_load_calendar`, `_load_exceptions` and the
    service-day rule `_is_valid_service_day` (schedule/database.py), shared
    with the legacy copies in gtfs_data/database.py, which are identical
    apart from how they look the trip up. */
module Calendar {
  import opened Wrappers
  import opened Dicts
  import opened Clock
  import opened Tables

  /** Column names of calendar.txt, indexed by `date.weekday()`. */
  const CalendarDays: seq<string> :=
    ["monday", "tuesday", "wednesday", "thursday", "friday", "saturday", "sunday"]

  const ServiceNotAvailable: string := "0"
  const ExceptionServiceAdded: string := "1"
  const ExceptionServiceRemoved: string := "2"

  /** A calendar.txt row whose `start_date` and `end_date` have been replaced
      by the dates they name. */
  datatype Service = Service(row: Row, startDate: Date, endDate: Date)

  /** service_id to its calendar entry. */
  type Services = map<string, Service>

  /** service_id to date to `exception_type`. */
  type Exceptions = map<string, map<Date, string>>

  /** `datetime.datetime.strptime(row[column], '%Y%m%d').date()`. */
  function DateField(row: Row, column: string): (r: Result<Date, Error>)
    ensures r.Success? <==> column in row && ParseYmd(row[column]).Some?
    ensures r.Success? ==> Some(r.value) == ParseYmd(row[column])
  {
    var text :- Field(row, column);
    match ParseYmd(text)
    case Some(d) => Success(d)
    case None => Failure(ValueError("time data does not match format '%Y%m%d'"))
  }

  /** `service.get(day)` for the weekday column of `d`. */
  function DayFlag(service: Service, d: Date): Option<string> {
    var day := CalendarDays[Weekday(d)];
    if day in service.row then Some(service.row[day]) else None
  }

  /** `exceptions_db.get(service_id, {}).get(d)`. */
  function ExceptionOn(exceptions: Exceptions, serviceId: string, d: Date): Option<string> {
    if serviceId in exceptions && d in exceptions[serviceId] then Some(exceptions[serviceId][d]) else None
  }

  /** The service-day rule as the code applies it. */
  function ServiceDayValid(services: Services, exceptions: Exceptions, serviceId: string, d: Date): (valid: bool)
    ensures valid ==> serviceId in services && services[serviceId].startDate <= d <= services[serviceId].endDate
  {
    if serviceId !in services then false
    else
      var service := services[serviceId];
      if d < service.startDate || d > service.endDate then false
      else
        var exc := ExceptionOn(exceptions, serviceId, d);
        if DayFlag(service, d) == Some(ServiceNotAvailable) then exc == Some(ExceptionServiceAdded)
        else exc != Some(ExceptionServiceRemoved)
  }

  /** The rule as the GTFS Schedule Reference states it for calendar.txt and
      calendar_dates.txt: a date is in service when calendar_dates.txt adds it,
      or when calendar.txt runs the service on that weekday within its range
      and calendar_dates.txt does not remove it. */
  predicate ReferenceActive(services: Services, exceptions: Exceptions, serviceId: string, d: Date) {
    var exc := ExceptionOn(exceptions, serviceId, d);
    || exc == Some(ExceptionServiceAdded)
    || (&& exc != Some(ExceptionServiceRemoved)
        && serviceId in services
        && services[serviceId].startDate <= d <= services[serviceId].endDate
        && DayFlag(services[serviceId], d) == Some("1"))
  }

  /** On a date inside the calendar.txt range whose weekday column is "0" or
      "1", the code's rule is the reference rule. */
  lemma AgreesWithReference(services: Services, exceptions: Exceptions, serviceId: string, d: Date)
    requires serviceId in services
    requires services[serviceId].startDate <= d <= services[serviceId].endDate
    requires DayFlag(services[serviceId], d) in {Some("0"), Some("1")}
    ensures ServiceDayValid(services, exceptions, serviceId, d) == ReferenceActive(services, exceptions, serviceId, d)
  {
  }

  /** The weekday column decides which exception matters: with "0" only an
      added date runs, otherwise only a removed date does not. */
  lemma WeekdayRule(services: Services, exceptions: Exceptions, serviceId: string, d: Date)
    requires serviceId in services
    requires services[serviceId].startDate <= d <= services[serviceId].endDate
    ensures DayFlag(services[serviceId], d) == Some("0") ==>
              (ServiceDayValid(services, exceptions, serviceId, d) <==> ExceptionOn(exceptions, serviceId, d) == Some("1"))
    ensures DayFlag(services[serviceId], d) != Some("0") ==>
              (ServiceDayValid(services, exceptions, serviceId, d) <==> ExceptionOn(exceptions, serviceId, d) != Some("2"))
  {
  }

  /** Where the code departs from the reference: a date that calendar_dates.txt
      adds outside the calendar.txt range does not run, nor does a service that
      only calendar_dates.txt lists. */
  lemma AddedOutsideRangeIgnored(serviceId: string, d: Date)
    ensures var services := map[serviceId := Service(map[], d + 1, d + 7)];
            var exceptions := map[serviceId := map[d := ExceptionServiceAdded]];
            ReferenceActive(services, exceptions, serviceId, d) &&
            !ServiceDayValid(services, exceptions, serviceId, d) &&
            ReferenceActive(map[], exceptions, serviceId, d) &&
            !ServiceDayValid(map[], exceptions, serviceId, d)
  {
  }

  // ---------------------------------------------------------------------------
  // Loading

  /** The calendar entries `_load_calendar` builds from the grouped rows,
      visited in dict order; the first unparsable date raises. */
  function ServicesFrom(keys: seq<string>, rows: map<string, Row>): Result<Services, Error>
    requires forall k :: k in keys ==> k in rows
  {
    if |keys| == 0 then Success(map[])
    else
      var services :- ServicesFrom(keys[..|keys| - 1], rows);
      var key := keys[|keys| - 1];
      var start :- DateField(rows[key], "start_date");
      var end :- DateField(rows[key], "end_date");
      Success(services[key := Service(rows[key], start, end)])
  }

  /** Every grouped row becomes the entry of its key, with both dates parsed
      from its own columns, and nothing else gets an entry. */
  lemma {:induction false} ServicesParsed(keys: seq<string>, rows: map<string, Row>, k: string)
    requires forall k :: k in keys ==> k in rows
    requires ServicesFrom(keys, rows).Success?
    ensures var services := ServicesFrom(keys, rows).value;
            && (k in services <==> k in keys)
            && (k in keys ==>
                  && services[k].row == rows[k]
                  && DateField(rows[k], "start_date") == Success(services[k].startDate)
                  && DateField(rows[k], "end_date") == Success(services[k].endDate))
  {
    if |keys| > 0 {
      var init := keys[..|keys| - 1];
      ServicesParsed(init, rows, k);
      assert k in keys <==> k in init || k == keys[|keys| - 1];
    }
  }

  /** Once a prefix of the rows has raised, the whole loop raises the same. */
  lemma {:induction false} ServicesFromFails(keys: seq<string>, rows: map<string, Row>, n: nat)
    requires forall k :: k in keys ==> k in rows
    requires n <= |keys|
    ensures ServicesFrom(keys[..n], rows).Failure? ==> ServicesFrom(keys, rows) == ServicesFrom(keys[..n], rows)
  {
    if n < |keys| {
      ServicesFromFails(keys[..|keys| - 1], rows, n);
      assert keys[..|keys| - 1][..n] == keys[..n];
    } else {
      assert keys[..n] == keys;
    }
  }

  /** The `for data in dates.values()` loop: each row gets its dates parsed. */
  method ParseServices(dates: Dict<Row>) returns (r: Result<Services, Error>)
    requires Valid(dates)
    ensures r == ServicesFrom(dates.keys, dates.entries)
  {
    var services: Services := map[];
    for i := 0 to |dates.keys|
      invariant ServicesFrom(dates.keys[..i], dates.entries) == Success(services)
    {
      assert dates.keys[..i + 1][..i] == dates.keys[..i];
      ServicesFromFails(dates.keys, dates.entries, i + 1);
      var key := dates.keys[i];
      var data := dates.entries[key];
      var start :- DateField(data, "start_date");
      var end :- DateField(data, "end_date");
      services := services[key := Service(data, start, end)];
    }
    assert dates.keys[..|dates.keys|] == dates.keys;
    return Success(services);
  }

  /** The date to exception type table of one service: a later row for the
      same date overwrites an earlier one. */
  function ExceptionDates(rows: seq<Row>): Result<map<Date, string>, Error> {
    if |rows| == 0 then Success(map[])
    else
      var dates :- ExceptionDates(rows[..|rows| - 1]);
      var row := rows[|rows| - 1];
      var d :- DateField(row, "date");
      var kind :- Field(row, "exception_type");
      Success(dates[d := kind])
  }

  function ExceptionsFrom(keys: seq<string>, groups: map<string, seq<Row>>): Result<Exceptions, Error>
    requires forall k :: k in keys ==> k in groups
  {
    if |keys| == 0 then Success(map[])
    else
      var exceptions :- ExceptionsFrom(keys[..|keys| - 1], groups);
      var key := keys[|keys| - 1];
      var dates :- ExceptionDates(groups[key]);
      Success(exceptions[key := dates])
  }

  lemma {:induction false} ExceptionDatesFails(rows: seq<Row>, n: nat)
    requires n <= |rows|
    ensures ExceptionDates(rows[..n]).Failure? ==> ExceptionDates(rows) == ExceptionDates(rows[..n])
  {
    if n < |rows| {
      ExceptionDatesFails(rows[..|rows| - 1], n);
      assert rows[..|rows| - 1][..n] == rows[..n];
    } else {
      assert rows[..n] == rows;
    }
  }

  lemma {:induction false} ExceptionsFromFails(keys: seq<string>, groups: map<string, seq<Row>>, n: nat)
    requires forall k :: k in keys ==> k in groups
    requires n <= |keys|
    ensures ExceptionsFrom(keys[..n], groups).Failure? ==> ExceptionsFrom(keys, groups) == ExceptionsFrom(keys[..n], groups)
  {
    if n < |keys| {
      ExceptionsFromFails(keys[..|keys| - 1], groups, n);
      assert keys[..|keys| - 1][..n] == keys[..n];
    } else {
      assert keys[..n] == keys;
    }
  }

  /** A row's exception type is recorded for its date unless a later row of
      the same service names the same date. */
  lemma {:induction false} ExceptionDatesLatest(rows: seq<Row>, i: int)
    requires 0 <= i < |rows|
    requires ExceptionDates(rows).Success?
    requires forall j :: i < j < |rows| ==> DateField(rows[j], "date") != DateField(rows[i], "date")
    ensures DateField(rows[i], "date").Success? && "exception_type" in rows[i]
    ensures var d := DateField(rows[i], "date").value;
            d in ExceptionDates(rows).value && ExceptionDates(rows).value[d] == rows[i]["exception_type"]
  {
    var init := rows[..|rows| - 1];
    if i < |init| {
      assert init[i] == rows[i];
      assert forall j :: i < j < |init| ==> init[j] == rows[j];
      ExceptionDatesLatest(init, i);
    }
  }

  /** `_load_exceptions` after grouping: fills `ret[service_id][dt]` row by row. */
  method ParseExceptions(dates: Dict<seq<Row>>) returns (r: Result<Exceptions, Error>)
    requires Valid(dates)
    ensures r == ExceptionsFrom(dates.keys, dates.entries)
  {
    var ret: Exceptions := map[];
    for i := 0 to |dates.keys|
      invariant ExceptionsFrom(dates.keys[..i], dates.entries) == Success(ret)
    {
      assert dates.keys[..i + 1][..i] == dates.keys[..i];
      var serviceId := dates.keys[i];
      var data := dates.entries[serviceId];
      var byDate: map<Date, string> := map[];
      for j := 0 to |data|
        invariant ExceptionDates(data[..j]) == Success(byDate)
      {
        assert data[..j + 1][..j] == data[..j];
        ExceptionDatesFails(data, j + 1);
        ExceptionsFromFails(dates.keys, dates.entries, i + 1);
        var d :- DateField(data[j], "date");
        var kind :- Field(data[j], "exception_type");
        byDate := byDate[d := kind];
      }
      assert data[..|data|] == data;
      ret := ret[serviceId := byDate];
    }
    assert dates.keys[..|dates.keys|] == dates.keys;
    return Success(ret);
  }
}
