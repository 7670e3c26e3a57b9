/** Dates, times of day and the text formats the core reads and writes.
    A date is a day number (days since 1970-01-01); a date-time is a naive
    local time in whole seconds since 1970-01-01 00:00:00. */
module Clock {
  import opened Wrappers

  type Date = int
  type DateTime = int

  const SecondsPerDay: int := 86400
  const SecondsPerHour: int := 3600

  function DateOf(t: DateTime): Date { t / SecondsPerDay }

  function TimeOfDay(t: DateTime): int { t % SecondsPerDay }

  function Midnight(d: Date): DateTime { d * SecondsPerDay }

  /** `datetime.combine(d, time)` splits back into its date and its time. */
  lemma CombineSplits(d: Date, secs: int)
    requires 0 <= secs < SecondsPerDay
    ensures DateOf(Midnight(d) + secs) == d && TimeOfDay(Midnight(d) + secs) == secs
  {
  }

  /** `date.weekday()`: Monday is 0, and 1970-01-01 was a Thursday. */
  function Weekday(d: Date): int { (d + 3) % 7 }

  // ---------------------------------------------------------------------------
  // Integers in text

  predicate IsDigit(c: char) { '0' <= c <= '9' }

  predicate AllDigits(s: string) { forall i :: 0 <= i < |s| ==> IsDigit(s[i]) }

  function DigitsValue(s: string): nat
    requires AllDigits(s)
  {
    if |s| == 0 then 0
    else DigitsValue(s[..|s| - 1]) * 10 + (s[|s| - 1] as int - '0' as int)
  }

  /** Python's `int(s)` on an optional sign followed by ASCII digits; anything
      else raises ValueError, here None. */
  function ParseInt(s: string): Option<int> {
    if |s| > 0 && (s[0] == '+' || s[0] == '-') then
      if |s| > 1 && AllDigits(s[1..]) then
        var v: int := DigitsValue(s[1..]);
        Some(if s[0] == '-' then -v else v)
      else None
    else if |s| > 0 && AllDigits(s) then Some(DigitsValue(s))
    else None
  }

  function Digit(n: nat): char
    requires n < 10
  {
    ('0' as int + n) as char
  }

  /** `str(n)` for a natural number. */
  function ShowNat(n: nat): string
  {
    if n < 10 then [Digit(n)] else ShowNat(n / 10) + [Digit(n % 10)]
  }

  lemma {:induction false} ShowNatDigits(n: nat)
    ensures |ShowNat(n)| > 0 && AllDigits(ShowNat(n)) && DigitsValue(ShowNat(n)) == n
  {
    if n >= 10 {
      ShowNatDigits(n / 10);
      var s := ShowNat(n);
      assert s[..|s| - 1] == ShowNat(n / 10);
    }
  }

  /** `int(str(n)) == n`: a stop sequence stored as text reads back unchanged. */
  lemma ParseShowNat(n: nat)
    ensures ParseInt(ShowNat(n)) == Some(n)
  {
    ShowNatDigits(n);
  }

  // ---------------------------------------------------------------------------
  // str.split and its inverse

  /** `s.split(sep)`: the pieces between separators, empty pieces included. */
  function Split(s: string, sep: char): (parts: seq<string>)
    ensures |parts| >= 1
    ensures forall i :: 0 <= i < |parts| ==> sep !in parts[i]
  {
    if |s| == 0 then [""]
    else
      var init := Split(s[..|s| - 1], sep);
      if s[|s| - 1] == sep then init + [""]
      else init[..|init| - 1] + [init[|init| - 1] + [s[|s| - 1]]]
  }

  /** `sep.join(parts)`. */
  function Join(parts: seq<string>, sep: char): string
    requires |parts| >= 1
  {
    if |parts| == 1 then parts[0]
    else Join(parts[..|parts| - 1], sep) + [sep] + parts[|parts| - 1]
  }

  lemma {:induction false} JoinSplit(s: string, sep: char)
    ensures Join(Split(s, sep), sep) == s
  {
    if |s| > 0 {
      var init := Split(s[..|s| - 1], sep);
      JoinSplit(s[..|s| - 1], sep);
      if s[|s| - 1] == sep {
        assert (init + [""])[..|init|] == init;
      } else if |init| > 1 {
        var parts := init[..|init| - 1] + [init[|init| - 1] + [s[|s| - 1]]];
        assert parts[..|parts| - 1] == init[..|init| - 1];
        assert Join(init, sep) == Join(init[..|init| - 1], sep) + [sep] + init[|init| - 1];
      }
      assert s == s[..|s| - 1] + [s[|s| - 1]];
    }
  }

  /** Appending text without a separator extends the last piece. */
  lemma {:induction false} SplitAppendPlain(x: string, b: string, sep: char)
    requires sep !in b
    ensures var p := Split(x, sep);
            Split(x + b, sep) == p[..|p| - 1] + [p[|p| - 1] + b]
  {
    var p := Split(x, sep);
    if |b| == 0 {
      assert x + b == x;
      assert p[|p| - 1] + b == p[|p| - 1];
      assert p == p[..|p| - 1] + [p[|p| - 1]];
    } else {
      var b' := b[..|b| - 1];
      SplitAppendPlain(x, b', sep);
      assert (x + b)[..|x + b| - 1] == x + b';
      assert (x + b)[|x + b| - 1] == b[|b| - 1];
      assert b' + [b[|b| - 1]] == b;
      assert b[|b| - 1] in b;
      var init := Split(x + b', sep);
      assert init[..|init| - 1] == p[..|p| - 1];
      assert init[|init| - 1] == p[|p| - 1] + b';
      assert (p[|p| - 1] + b') + [b[|b| - 1]] == p[|p| - 1] + b;
    }
  }

  lemma {:induction false} SplitJoin(parts: seq<string>, sep: char)
    requires |parts| >= 1
    requires forall i :: 0 <= i < |parts| ==> sep !in parts[i]
    ensures Split(Join(parts, sep), sep) == parts
  {
    if |parts| == 1 {
      SplitAppendPlain("", parts[0], sep);
      assert "" + parts[0] == parts[0];
    } else {
      var init := parts[..|parts| - 1];
      SplitJoin(init, sep);
      SplitJoinLast(init, parts[|parts| - 1], sep);
      assert parts == init + [parts[|parts| - 1]];
    }
  }

  /** Joining one more separator-free piece splits back into it. */
  lemma SplitJoinLast(init: seq<string>, last: string, sep: char)
    requires |init| >= 1 && sep !in last
    requires Split(Join(init, sep), sep) == init
    ensures Split(Join(init + [last], sep), sep) == init + [last]
  {
    var x := Join(init, sep) + [sep];
    assert (init + [last])[..|init|] == init;
    SplitSep(Join(init, sep), sep);
    SplitAppendPlain(x, last, sep);
    assert (init + [""])[..|init|] == init;
    assert "" + last == last;
  }

  /** A trailing separator starts an empty last piece. */
  lemma SplitSep(y: string, sep: char)
    ensures Split(y + [sep], sep) == Split(y, sep) + [""]
  {
    var x := y + [sep];
    assert x[..|x| - 1] == y;
  }

  lemma {:induction false} JoinCons(a: string, q: seq<string>, sep: char)
    requires |q| >= 1
    ensures Join([a] + q, sep) == a + [sep] + Join(q, sep)
  {
    if |q| > 1 {
      var init := q[..|q| - 1];
      JoinCons(a, init, sep);
      var p := [a] + q;
      assert p[..|p| - 1] == [a] + init && p[|p| - 1] == q[|q| - 1];
      assert Join(p, sep) == Join([a] + init, sep) + [sep] + q[|q| - 1];
    }
  }

  /** A leading field without the separator splits off as the first piece. */
  lemma SplitCons(a: string, r: string, sep: char)
    requires sep !in a
    ensures Split(a + [sep] + r, sep) == [a] + Split(r, sep)
  {
    var q := Split(r, sep);
    JoinSplit(r, sep);
    JoinCons(a, q, sep);
    SplitJoin([a] + q, sep);
  }

  // ---------------------------------------------------------------------------
  // HH:MM:SS

  datatype Hms = Hms(hour: int, minute: int, second: int)

  /** `hour, minute, second = (int(x) for x in s.split(':'))`: exactly three
      fields, each an integer; anything else raises ValueError, here None. */
  function ParseHms(s: string): Option<Hms> {
    var parts := Split(s, ':');
    if |parts| != 3 then None
    else
      var h :- ParseInt(parts[0]);
      var m :- ParseInt(parts[1]);
      var sec :- ParseInt(parts[2]);
      Some(Hms(h, m, sec))
  }

  function Pad2(n: nat): string
    requires n < 100
  {
    [Digit(n / 10), Digit(n % 10)]
  }

  /** `strftime('%H:%M:%S')` of a time of day given in seconds. */
  function FormatHms(t: int): string
    requires 0 <= t < SecondsPerDay
  {
    Join([Pad2(t / SecondsPerHour), Pad2(t / 60 % 60), Pad2(t % 60)], ':')
  }

  lemma ParsePad2(n: nat)
    requires n < 100
    ensures ParseInt(Pad2(n)) == Some(n)
  {
    var p := Pad2(n);
    assert p[..1] == [Digit(n / 10)];
    assert DigitsValue(p) == DigitsValue(p[..1]) * 10 + n % 10;
    assert p[..1][..0] == [];
  }

  /** A time of day splits into hour, minute and second. */
  lemma HmsOfSeconds(x: int)
    requires 0 <= x < SecondsPerDay
    ensures 0 <= x / SecondsPerHour < 24 && 0 <= x / 60 % 60 < 60 && 0 <= x % 60 < 60
    ensures x / SecondsPerHour * SecondsPerHour + x / 60 % 60 * 60 + x % 60 == x
  {
    var mins := x / 60;
    assert x == mins * 60 + x % 60;
    assert x / SecondsPerHour == mins / 60;
    assert mins == mins / 60 * 60 + mins % 60;
  }

  /** Formatting a time of day and parsing it back gives the same clock reading. */
  lemma ParseFormatHms(t: int)
    requires 0 <= t < SecondsPerDay
    ensures ParseHms(FormatHms(t)) == Some(Hms(t / SecondsPerHour, t / 60 % 60, t % 60))
  {
    var parts := [Pad2(t / SecondsPerHour), Pad2(t / 60 % 60), Pad2(t % 60)];
    SplitJoin(parts, ':');
    ParsePad2(t / SecondsPerHour);
    ParsePad2(t / 60 % 60);
    ParsePad2(t % 60);
  }

  // ---------------------------------------------------------------------------
  // YYYYMMDD

  predicate IsLeapYear(y: int) { y % 4 == 0 && (y % 100 != 0 || y % 400 == 0) }

  function DaysInMonth(y: int, m: int): int
    requires 1 <= m <= 12
  {
    if m == 2 then (if IsLeapYear(y) then 29 else 28)
    else if m == 4 || m == 6 || m == 9 || m == 11 then 30
    else 31
  }

  /** Day number of a proleptic Gregorian date (days since 1970-01-01). */
  function DaysFromCivil(y: int, m: int, d: int): Date
    requires 1 <= m <= 12
  {
    var y' := if m <= 2 then y - 1 else y;
    var era := y' / 400;
    var yoe := y' - era * 400;
    var doy := (153 * (if m > 2 then m - 3 else m + 9) + 2) / 5 + d - 1;
    var doe := yoe * 365 + yoe / 4 - yoe / 100 + doy;
    era * 146097 + doe - 719468
  }

  /** `datetime.strptime(s, '%Y%m%d').date()` on eight ASCII digits naming a real
      date; anything else raises ValueError, here None. */
  function ParseYmd(s: string): Option<Date> {
    if |s| != 8 || !AllDigits(s) then None
    else
      var y := DigitsValue(s[..4]);
      var m := DigitsValue(s[4..6]);
      var d := DigitsValue(s[6..]);
      if y < 1 || m < 1 || m > 12 || d < 1 || d > DaysInMonth(y, m) then None
      else Some(DaysFromCivil(y, m, d))
  }
}
