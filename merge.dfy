/** The pieces of the merge engine that both copies of transit.py share: the
    search for the first interesting stop time, the due-time fold over GTFS
    Realtime stop time updates, the supersession of scheduled entries by live
    ones, and Python's stable `sorted`. */
module Merge {
  import opened Wrappers
  import opened Dicts
  import opened Clock
  import opened Realtime

  type Row = map<string, string>

  /** `delta_seconds`: whole seconds from `then` (here `earlier`) to `now_time`. */
  function DeltaSeconds(nowTime: DateTime, earlier: DateTime): int {
    nowTime - earlier
  }

  lemma DeltaSecondsAntisymmetric(a: DateTime, b: DateTime)
    ensures DeltaSeconds(a, b) == -DeltaSeconds(b, a)
    ensures DeltaSeconds(a, a) == 0
  {
  }

  // ---------------------------------------------------------------------------
  // The first stop time at an interesting stop

  /** The loop `for stop_time in stop_times: if stop_time['stop_id'] in stops:
      ... break`, from position `i`: the index it stops at, None when it runs
      off the end, KeyError when a row before that has no `stop_id`. */
  function FirstInteresting(rows: seq<Row>, stops: seq<string>, i: nat): (r: Result<Option<nat>, Error>)
    ensures r.Success? && r.value.Some? ==>
              i <= r.value.value < |rows| && "stop_id" in rows[r.value.value] && rows[r.value.value]["stop_id"] in stops
    decreases |rows| - i
  {
    if i >= |rows| then Success(None)
    else if "stop_id" !in rows[i] then Failure(KeyError("stop_id"))
    else if rows[i]["stop_id"] in stops then Success(Some(i))
    else FirstInteresting(rows, stops, i + 1)
  }

  /** Rows `i` up to `k` all name a stop, none of them interesting. */
  ghost predicate Uninteresting(rows: seq<Row>, stops: seq<string>, i: int, k: int)
    requires 0 <= i && k <= |rows|
  {
    forall j :: i <= j < k ==> "stop_id" in rows[j] && rows[j]["stop_id"] !in stops
  }

  lemma {:induction false} FirstInterestingMeaning(rows: seq<Row>, stops: seq<string>, i: nat)
    requires i <= |rows|
    ensures var r := FirstInteresting(rows, stops, i);
            && (r.Success? && r.value.Some? ==>
                  var k := r.value.value;
                  i <= k < |rows| && "stop_id" in rows[k] && rows[k]["stop_id"] in stops && Uninteresting(rows, stops, i, k))
            && (r == Success(None) <==> Uninteresting(rows, stops, i, |rows|))
            && (r.Failure? ==>
                  r.error == KeyError("stop_id") &&
                  exists k :: i <= k < |rows| && "stop_id" !in rows[k] && Uninteresting(rows, stops, i, k))
    decreases |rows| - i
  {
    if i < |rows| && "stop_id" in rows[i] && rows[i]["stop_id"] !in stops {
      FirstInterestingMeaning(rows, stops, i + 1);
      var r := FirstInteresting(rows, stops, i + 1);
      if r.Failure? {
        var k :| i + 1 <= k < |rows| && "stop_id" !in rows[k] && Uninteresting(rows, stops, i + 1, k);
        assert Uninteresting(rows, stops, i, k);
      }
    }
  }

  method FindFirstInteresting(rows: seq<Row>, stops: seq<string>) returns (r: Result<Option<nat>, Error>)
    ensures r == FirstInteresting(rows, stops, 0)
  {
    for i := 0 to |rows|
      invariant FirstInteresting(rows, stops, 0) == FirstInteresting(rows, stops, i)
    {
      if "stop_id" !in rows[i] {
        return Failure(KeyError("stop_id"));
      }
      if rows[i]["stop_id"] in stops {
        return Success(Some(i));
      }
    }
    return Success(None);
  }

  // ---------------------------------------------------------------------------
  // The due-time fold

  /** One update's effect on the running arrival time: an arrival `delay`
      adds to it, then an arrival `time` replaces it. */
  function ApplyUpdate(u: StopTimeUpdate, t: DateTime, toLocal: int -> DateTime): DateTime {
    match u.arrival
    case None => t
    case Some(event) =>
      var delayed := if event.delay.Some? then t + event.delay.value else t;
      if event.time.Some? then toLocal(event.time.value) else delayed
  }

  /** The updates applied in order from `t`. */
  function Replay(updates: seq<StopTimeUpdate>, t: DateTime, toLocal: int -> DateTime): DateTime {
    if |updates| == 0 then t
    else ApplyUpdate(updates[|updates| - 1], Replay(updates[..|updates| - 1], t, toLocal), toLocal)
  }

  /** How many leading updates have `stop_sequence <= sequence`: the loop
      stops at the first update past the stop. */
  function Applicable(updates: seq<StopTimeUpdate>, sequence: int): (n: nat)
    ensures n <= |updates|
    ensures forall j :: 0 <= j < n ==> updates[j].stopSequence <= sequence
    ensures n < |updates| ==> updates[n].stopSequence > sequence
  {
    if |updates| == 0 || updates[0].stopSequence > sequence then 0
    else 1 + Applicable(updates[1..], sequence)
  }

  /** The updated arrival time of the `if scheduled:` loop of `get_live`. */
  function UpdatedArrival(updates: seq<StopTimeUpdate>, sequence: int, arrival: DateTime, toLocal: int -> DateTime): DateTime {
    Replay(updates[..Applicable(updates, sequence)], arrival, toLocal)
  }

  predicate HasTime(u: StopTimeUpdate) {
    u.arrival.Some? && u.arrival.value.time.Some?
  }

  function Delay(u: StopTimeUpdate): int {
    if u.arrival.Some? && u.arrival.value.delay.Some? then u.arrival.value.delay.value else 0
  }

  function SumDelays(updates: seq<StopTimeUpdate>): int {
    if |updates| == 0 then 0 else SumDelays(updates[..|updates| - 1]) + Delay(updates[|updates| - 1])
  }

  /** The position of the last update carrying an arrival time. */
  function LastTimed(updates: seq<StopTimeUpdate>): (r: Option<nat>)
    ensures r.Some? ==> r.value < |updates| && HasTime(updates[r.value])
    ensures r.Some? ==> forall j :: r.value < j < |updates| ==> !HasTime(updates[j])
    ensures r.None? ==> forall j :: 0 <= j < |updates| ==> !HasTime(updates[j])
  {
    if |updates| == 0 then None
    else if HasTime(updates[|updates| - 1]) then Some(|updates| - 1)
    else LastTimed(updates[..|updates| - 1])
  }

  /** The fold in closed form: the last absolute time wins, and every delay
      after it adds up; with no absolute time all delays add to the start. */
  lemma {:induction false} ReplayClosedForm(updates: seq<StopTimeUpdate>, t: DateTime, toLocal: int -> DateTime)
    ensures Replay(updates, t, toLocal) ==
              match LastTimed(updates)
              case None => t + SumDelays(updates)
              case Some(k) => toLocal(updates[k].arrival.value.time.value) + SumDelays(updates[k + 1..])
  {
    if |updates| > 0 {
      var init := updates[..|updates| - 1];
      var u := updates[|updates| - 1];
      ReplayClosedForm(init, t, toLocal);
      if HasTime(u) {
        assert updates[|updates|..] == [];
      } else if LastTimed(init).Some? {
        var k := LastTimed(init).value;
        assert updates[k + 1..][..|updates[k + 1..]| - 1] == init[k + 1..];
      }
    }
  }

  /** The `for stu in trip_update.stop_time_update` loop. */
  method ApplyUpdates(updates: seq<StopTimeUpdate>, sequence: int, arrival: DateTime, toLocal: int -> DateTime)
    returns (updated: DateTime)
    ensures updated == UpdatedArrival(updates, sequence, arrival, toLocal)
  {
    updated := arrival;
    var n := Applicable(updates, sequence);
    for i := 0 to |updates|
      invariant i <= n
      invariant updated == Replay(updates[..i], arrival, toLocal)
    {
      var stu := updates[i];
      if stu.stopSequence <= sequence {
        assert updates[..i + 1][..i] == updates[..i];
        if stu.arrival.Some? {
          if stu.arrival.value.delay.Some? {
            updated := updated + stu.arrival.value.delay.value;
          }
          if stu.arrival.value.time.Some? {
            updated := toLocal(stu.arrival.value.time.value);
          }
        }
      } else {
        return;
      }
    }
  }

  // ---------------------------------------------------------------------------
  // Live entries supersede scheduled ones

  /** `{s.trip_id: s for s in scheduled}`. */
  function Known<T>(scheduled: seq<T>, id: T -> string): (d: Dict<T>)
    ensures Valid(d)
  {
    if |scheduled| == 0 then Empty()
    else Put(Known(scheduled[..|scheduled| - 1], id), id(scheduled[|scheduled| - 1]), scheduled[|scheduled| - 1])
  }

  /** `for trip in live: if trip.trip_id in known: del known[trip.trip_id]`. */
  function Forget<T>(known: Dict<T>, live: seq<T>, id: T -> string): (d: Dict<T>)
    requires Valid(known)
    ensures Valid(d)
  {
    if |live| == 0 then known
    else
      var d := Forget(known, live[..|live| - 1], id);
      var k := id(live[|live| - 1]);
      if k in d.entries then Remove(d, k) else d
  }

  /** The live entries, then the scheduled entries no live entry shares a
      trip id with, in dict order. */
  function Merged<T>(scheduled: seq<T>, live: seq<T>, id: T -> string): seq<T> {
    live + Values(Forget(Known(scheduled, id), live, id))
  }

  ghost function Ids<T>(s: seq<T>, id: T -> string): set<string> {
    set x | x in s :: id(x)
  }

  /** `s[i]` is the last entry with its id. */
  ghost predicate LastWithId<T>(s: seq<T>, id: T -> string, i: int) {
    0 <= i < |s| && forall j :: i < j < |s| ==> id(s[j]) != id(s[i])
  }

  /** The dict's keys are the trip ids of the entries. */
  lemma {:induction false} KnownKeys<T>(scheduled: seq<T>, id: T -> string)
    ensures Known(scheduled, id).entries.Keys == Ids(scheduled, id)
  {
    if |scheduled| > 0 {
      var init := scheduled[..|scheduled| - 1];
      KnownKeys(init, id);
      assert forall x :: x in scheduled <==> x in init || x == scheduled[|scheduled| - 1];
    }
  }

  /** The last entry with a trip id is the one the dict holds for it. */
  lemma {:induction false} KnownValueAt<T>(scheduled: seq<T>, id: T -> string, i: int)
    requires LastWithId(scheduled, id, i)
    ensures id(scheduled[i]) in Known(scheduled, id).entries
    ensures Known(scheduled, id).entries[id(scheduled[i])] == scheduled[i]
  {
    if i < |scheduled| - 1 {
      var init := scheduled[..|scheduled| - 1];
      assert LastWithId(init, id, i);
      KnownValueAt(init, id, i);
    }
  }

  /** An id that occurs has a last occurrence. */
  lemma {:induction false} LastOccurrence<T>(s: seq<T>, id: T -> string, k: string)
    requires k in Ids(s, id)
    ensures exists i :: LastWithId(s, id, i) && id(s[i]) == k
  {
    var n := |s| - 1;
    if id(s[n]) == k {
      assert LastWithId(s, id, n);
    } else {
      var init := s[..n];
      IdBeforeLast(s, id, k);
      LastOccurrence(init, id, k);
      var i :| LastWithId(init, id, i) && id(init[i]) == k;
      LastExtends(s, id, i);
    }
  }

  /** An id the final entry does not carry occurs before it. */
  lemma IdBeforeLast<T>(s: seq<T>, id: T -> string, k: string)
    requires k in Ids(s, id) && |s| > 0 && id(s[|s| - 1]) != k
    ensures k in Ids(s[..|s| - 1], id)
  {
    var x :| x in s && id(x) == k;
    var j :| 0 <= j < |s| && s[j] == x;
    assert s[..|s| - 1][j] == x;
  }

  /** The last occurrence before the final entry stays last when the final
      entry has another id. */
  lemma LastExtends<T>(s: seq<T>, id: T -> string, i: int)
    requires |s| > 0 && LastWithId(s[..|s| - 1], id, i) && id(s[|s| - 1]) != id(s[i])
    ensures LastWithId(s, id, i)
  {
    var init := s[..|s| - 1];
    forall j | i < j < |s| ensures id(s[j]) != id(s[i]) {
      if j < |s| - 1 {
        assert s[j] == init[j];
      }
    }
  }

  /** Deleting the live ids leaves exactly the other entries. */
  lemma {:induction false} ForgetEntries<T>(known: Dict<T>, live: seq<T>, id: T -> string)
    requires Valid(known)
    ensures Forget(known, live, id).entries == known.entries - Ids(live, id)
  {
    if |live| > 0 {
      var init := live[..|live| - 1];
      ForgetEntries(known, init, id);
      assert forall x :: x in live <==> x in init || x == live[|live| - 1];
      assert Ids(live, id) == Ids(init, id) + {id(live[|live| - 1])};
    }
  }

  /** Every live entry is kept; a scheduled entry is kept exactly when it is
      the last scheduled entry with its trip id and no live entry has that id. */
  lemma MergedMembers<T>(scheduled: seq<T>, live: seq<T>, id: T -> string, x: T)
    ensures x in Merged(scheduled, live, id) <==>
              || x in live
              || (id(x) !in Ids(live, id) && exists i :: LastWithId(scheduled, id, i) && scheduled[i] == x)
  {
    var d := Forget(Known(scheduled, id), live, id);
    if x in Values(d) {
      SurvivorIsLast(scheduled, live, id, x);
    }
    if id(x) !in Ids(live, id) && exists i :: LastWithId(scheduled, id, i) && scheduled[i] == x {
      var i :| LastWithId(scheduled, id, i) && scheduled[i] == x;
      LastSurvives(scheduled, live, id, i);
    }
  }

  lemma SurvivorIsLast<T>(scheduled: seq<T>, live: seq<T>, id: T -> string, x: T)
    requires x in Values(Forget(Known(scheduled, id), live, id))
    ensures id(x) !in Ids(live, id) && exists i :: LastWithId(scheduled, id, i) && scheduled[i] == x
  {
    var known := Known(scheduled, id);
    var d := Forget(known, live, id);
    ForgetEntries(known, live, id);
    var vs := Values(d);
    var p :| 0 <= p < |vs| && vs[p] == x;
    var k := d.keys[p];
    assert k in d.entries && d.entries[k] == x;
    assert k in known.entries && k !in Ids(live, id) && known.entries[k] == x;
    KnownKeys(scheduled, id);
    LastOccurrence(scheduled, id, k);
    var i :| LastWithId(scheduled, id, i) && id(scheduled[i]) == k;
    KnownValueAt(scheduled, id, i);
  }

  lemma LastSurvives<T>(scheduled: seq<T>, live: seq<T>, id: T -> string, i: int)
    requires LastWithId(scheduled, id, i) && id(scheduled[i]) !in Ids(live, id)
    ensures scheduled[i] in Values(Forget(Known(scheduled, id), live, id))
  {
    var x := scheduled[i];
    var known := Known(scheduled, id);
    var d := Forget(known, live, id);
    ForgetEntries(known, live, id);
    KnownValueAt(scheduled, id, i);
    assert id(x) in d.entries && d.entries[id(x)] == x;
    var p :| 0 <= p < |d.keys| && d.keys[p] == id(x);
    assert Values(d)[p] == x;
  }

  /** The body of `get_upcoming` up to the final filter and sort. */
  method Supersede<T>(scheduled: seq<T>, live: seq<T>, id: T -> string) returns (ret: seq<T>)
    ensures ret == Merged(scheduled, live, id)
  {
    var known := KnownTrips(scheduled, id);
    known := ForgetLive(known, live, id);
    ret := AppendAll(live, Values(known));
  }

  /** `for value in values: ret.append(value)`. */
  method AppendAll<T>(front: seq<T>, values: seq<T>) returns (ret: seq<T>)
    ensures ret == front + values
  {
    ret := front;
    for i := 0 to |values|
      invariant ret == front + values[..i]
    {
      assert values[..i + 1] == values[..i] + [values[i]];
      ret := ret + [values[i]];
    }
    assert values[..|values|] == values;
  }

  /** The dict comprehension building `known_trips`. */
  method KnownTrips<T>(scheduled: seq<T>, id: T -> string) returns (known: Dict<T>)
    ensures known == Known(scheduled, id)
  {
    known := Empty();
    for i := 0 to |scheduled|
      invariant known == Known(scheduled[..i], id)
    {
      assert scheduled[..i + 1][..i] == scheduled[..i];
      known := Put(known, id(scheduled[i]), scheduled[i]);
    }
    assert scheduled[..|scheduled|] == scheduled;
  }

  /** The loop deleting the trip ids of live entries. */
  method ForgetLive<T>(known: Dict<T>, live: seq<T>, id: T -> string) returns (d: Dict<T>)
    requires Valid(known)
    ensures d == Forget(known, live, id)
  {
    d := known;
    for i := 0 to |live|
      invariant d == Forget(known, live[..i], id)
    {
      assert live[..i + 1][..i] == live[..i];
      if id(live[i]) in d.entries {
        d := Remove(d, id(live[i]));
      }
    }
    assert live[..|live|] == live;
  }

  // ---------------------------------------------------------------------------
  // sorted(xs, key=...)

  ghost predicate SortedBy<T>(s: seq<T>, key: T -> int) {
    forall i, j :: 0 <= i < j < |s| ==> key(s[i]) <= key(s[j])
  }

  /** Places `x` after every element whose key is not greater. */
  function Insert<T>(x: T, s: seq<T>, key: T -> int): seq<T> {
    if |s| == 0 then [x]
    else if key(x) < key(s[0]) then [x] + s
    else [s[0]] + Insert(x, s[1..], key)
  }

  /** Python's `sorted`, which is stable: each element is placed after the
      earlier ones with an equal key. */
  function SortBy<T>(xs: seq<T>, key: T -> int): seq<T> {
    if |xs| == 0 then [] else Insert(xs[|xs| - 1], SortBy(xs[..|xs| - 1], key), key)
  }

  /** The elements with key `k`, in order. */
  function WithKey<T>(s: seq<T>, key: T -> int, k: int): seq<T> {
    if |s| == 0 then [] else (if key(s[0]) == k then [s[0]] else []) + WithKey(s[1..], key, k)
  }

  lemma {:induction false} InsertPermutes<T>(x: T, s: seq<T>, key: T -> int)
    ensures multiset(Insert(x, s, key)) == multiset(s) + multiset{x}
  {
    if |s| > 0 && key(x) >= key(s[0]) {
      InsertPermutes(x, s[1..], key);
      assert s == [s[0]] + s[1..];
    }
  }

  lemma {:induction false} InsertSorted<T>(x: T, s: seq<T>, key: T -> int)
    requires SortedBy(s, key)
    ensures SortedBy(Insert(x, s, key), key)
  {
    if |s| > 0 && key(x) >= key(s[0]) {
      var r := Insert(x, s[1..], key);
      InsertSorted(x, s[1..], key);
      assert r[0] == x || r[0] == s[1];
      assert key(s[0]) <= key(r[0]);
      assert Insert(x, s, key) == [s[0]] + r;
    }
  }

  /** The result is ordered by key and is a permutation of the input. */
  lemma {:induction false} SortBySorted<T>(xs: seq<T>, key: T -> int)
    ensures SortedBy(SortBy(xs, key), key)
    ensures multiset(SortBy(xs, key)) == multiset(xs)
  {
    if |xs| > 0 {
      SortBySorted(xs[..|xs| - 1], key);
      InsertSorted(xs[|xs| - 1], SortBy(xs[..|xs| - 1], key), key);
      InsertPermutes(xs[|xs| - 1], SortBy(xs[..|xs| - 1], key), key);
      assert xs == xs[..|xs| - 1] + [xs[|xs| - 1]];
    }
  }

  lemma {:induction false} WithKeyNone<T>(s: seq<T>, key: T -> int, k: int)
    requires forall i :: 0 <= i < |s| ==> key(s[i]) != k
    ensures WithKey(s, key, k) == []
  {
    if |s| > 0 {
      WithKeyNone(s[1..], key, k);
    }
  }

  lemma {:induction false} WithKeyAppend<T>(s: seq<T>, x: T, key: T -> int, k: int)
    ensures WithKey(s + [x], key, k) == WithKey(s, key, k) + (if key(x) == k then [x] else [])
  {
    if |s| > 0 {
      WithKeyAppend(s[1..], x, key, k);
      assert (s + [x])[1..] == s[1..] + [x];
    }
  }

  lemma {:induction false} InsertWithKey<T>(x: T, s: seq<T>, key: T -> int, k: int)
    requires SortedBy(s, key)
    ensures WithKey(Insert(x, s, key), key, k) == WithKey(s, key, k) + (if key(x) == k then [x] else [])
  {
    if |s| > 0 {
      if key(x) < key(s[0]) {
        if key(x) == k {
          WithKeyNone(s, key, k);
        }
        assert ([x] + s)[1..] == s;
      } else {
        InsertWithKey(x, s[1..], key, k);
        assert ([s[0]] + Insert(x, s[1..], key))[1..] == Insert(x, s[1..], key);
      }
    }
  }

  /** Stability: the elements sharing a key keep their input order. */
  lemma {:induction false} SortByStable<T>(xs: seq<T>, key: T -> int, k: int)
    ensures WithKey(SortBy(xs, key), key, k) == WithKey(xs, key, k)
  {
    if |xs| > 0 {
      var init := xs[..|xs| - 1];
      SortByStable(init, key, k);
      SortBySorted(init, key);
      InsertWithKey(xs[|xs| - 1], SortBy(init, key), key, k);
      WithKeyAppend(init, xs[|xs| - 1], key, k);
      assert init + [xs[|xs| - 1]] == xs;
    }
  }
}
