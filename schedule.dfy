/** Pieces of the schedule query shared by both databases
    (schedule/database.py:149-231, gtfs_data/database.py:127-190): reading a
    stop time's `arrival_time` and enumerating the service dates around a
    time window. */
module Schedule {
  import opened Wrappers
  import opened Clock

  /** The GTFS Schedule Reference `route_type` codes the code knows. */
  const RouteTypes: map<string, string> := map[
    "0" := "TRAM", "1" := "SUBWAY", "2" := "RAIL", "3" := "BUS", "4" := "FERRY",
    "5" := "CABLE_TRAM", "6" := "AERIAL_LIFT", "7" := "FUNICULAR",
    "11" := "TROLLEYBUS", "12" := "MONORAIL"]

  /** The `try` block of the query: an `arrival_time` of 24:00:00 or later is
      moved to the next day, and `datetime.time` must accept what is left. The
      result is the arrival in seconds after midnight of the service date;
      None stands for the ValueError the query catches. */
  function ArrivalOffset(text: string): Option<int> {
    var t :- ParseHms(text);
    var hour := if t.hour >= 24 then t.hour - 24 else t.hour;
    var delta := if t.hour >= 24 then SecondsPerDay else 0;
    if 0 <= hour < 24 && 0 <= t.minute < 60 && 0 <= t.second < 60 then
      Some(hour * SecondsPerHour + t.minute * 60 + t.second + delta)
    else None
  }

  /** An arrival time is accepted exactly when its hour is below 48 and its
      minute and second are in range, and it is then simply that many hours,
      minutes and seconds after the service date's midnight. */
  lemma ArrivalOffsetMeaning(text: string)
    ensures ArrivalOffset(text).Some? <==>
              && ParseHms(text).Some?
              && 0 <= ParseHms(text).value.hour < 48
              && 0 <= ParseHms(text).value.minute < 60
              && 0 <= ParseHms(text).value.second < 60
    ensures ArrivalOffset(text).Some? ==>
              var t := ParseHms(text).value;
              ArrivalOffset(text).value == t.hour * SecondsPerHour + t.minute * 60 + t.second
  {
  }

  /** On service date `d`, an arrival below 24:00:00 falls on `d` at that time
      of day, and one of 24:00:00 or later falls on the next day at 24 hours
      less. */
  lemma ArrivalDay(d: Date, text: string)
    requires ArrivalOffset(text).Some?
    ensures var t := ParseHms(text).value;
            var arrival := Midnight(d) + ArrivalOffset(text).value;
            var clock := t.minute * 60 + t.second;
            && (t.hour < 24 ==> DateOf(arrival) == d && TimeOfDay(arrival) == t.hour * SecondsPerHour + clock)
            && (t.hour >= 24 ==> DateOf(arrival) == d + 1 && TimeOfDay(arrival) == (t.hour - 24) * SecondsPerHour + clock)
  {
    var t := ParseHms(text).value;
    var clock := t.minute * 60 + t.second;
    if t.hour < 24 {
      CombineSplits(d, t.hour * SecondsPerHour + clock);
    } else {
      CombineSplits(d + 1, (t.hour - 24) * SecondsPerHour + clock);
      assert Midnight(d) + ArrivalOffset(text).value == Midnight(d + 1) + (t.hour - 24) * SecondsPerHour + clock;
    }
  }

  /** One service date and the arrival it gives. */
  datatype Possibility = Possibility(serviceDate: Date, arrivalTime: DateTime)

  /** The candidates of the `while service_date <= end_service_date` loop. */
  function Possibles(first: Date, last: Date, offset: int): (ps: seq<Possibility>)
    decreases last - first
    ensures |ps| == if last < first then 0 else last - first + 1
    ensures forall k :: 0 <= k < |ps| ==> ps[k] == Possibility(first + k, Midnight(first + k) + offset)
  {
    if last < first then []
    else Possibles(first, last - 1, offset) + [Possibility(last, Midnight(last) + offset)]
  }

  /** The `while` loop itself. */
  method ServiceDates(first: Date, last: Date, offset: int) returns (possibles: seq<Possibility>)
    ensures possibles == Possibles(first, last, offset)
  {
    possibles := [];
    var serviceDate := first;
    while serviceDate <= last
      invariant first <= serviceDate && (serviceDate <= last + 1 || serviceDate == first)
      invariant possibles == Possibles(first, serviceDate - 1, offset)
      decreases last - serviceDate
    {
      possibles := possibles + [Possibility(serviceDate, Midnight(serviceDate) + offset)];
      serviceDate := serviceDate + 1;
    }
  }
}
