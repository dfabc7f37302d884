/** Epoch-aligned time arithmetic and the fixed-width timestamp formats of datetools.py.

    An instant (a naive `datetime`) is an integer number of microseconds counted
    from 0001-01-01 00:00:00, and a duration (a `timedelta`) is an integer number
    of microseconds: this is `timedelta`'s own resolution, so the floating-point
    `total_seconds()` round trips of the source become exact integer arithmetic. */
module DateTools {
  import opened Results
  import opened Strings

  // ----- Durations, in microseconds -----

  const SECOND: int := 1_000_000
  const MINUTE: int := 60 * SECOND
  const HOUR: int := 60 * MINUTE
  const DAY: int := 24 * HOUR
  const WEEK: int := 7 * DAY

  // ----- Python's floored division and modulo -----

  /** Python's `a % b`: the remainder takes the sign of the divisor. */
  function PyMod(a: int, b: int): (r: int)
    requires b != 0
    ensures b > 0 ==> 0 <= r < b
    ensures b < 0 ==> b < r <= 0
  {
    if b > 0 then a % b else -((-a) % (-b))
  }

  /** Python's `a // b`: the quotient rounded towards minus infinity. */
  function PyFloorDiv(a: int, b: int): (q: int)
    requires b != 0
    ensures a == b * q + PyMod(a, b)
  {
    if b > 0 then a / b else (-a) / (-b)
  }

  lemma MulMonotone(b: int, i: int, j: int)
    requires b > 0 && i <= j
    ensures b * i <= b * j
  {
    assert b * j - b * i == b * (j - i);
  }

  /** Floored quotient and remainder are the only pair that rebuilds `a` with a
      remainder of the divisor's sign and smaller magnitude. */
  lemma FlooredDivModUnique(a: int, b: int, q: int, r: int)
    requires b != 0 && a == b * q + r
    requires b > 0 ==> 0 <= r < b
    requires b < 0 ==> b < r <= 0
    ensures q == PyFloorDiv(a, b) && r == PyMod(a, b)
  {
    var q', r' := PyFloorDiv(a, b), PyMod(a, b);
    if b > 0 {
      if q < q' {
        MulMonotone(b, q + 1, q');
      } else if q' < q {
        MulMonotone(b, q' + 1, q);
      }
    } else {
      if q < q' {
        MulMonotone(-b, q + 1, q');
      } else if q' < q {
        MulMonotone(-b, q' + 1, q);
      }
    }
  }

  // ----- The alignment grid start + k * delta -----

  /** `t` lies on the grid of multiples of `delta` counted from `start`. */
  predicate OnGrid(t: int, delta: int, start: int)
    requires delta != 0
  {
    PyMod(t - start, delta) == 0
  }

  function GridPoint(start: int, delta: int, k: int): int {
    start + k * delta
  }

  /** The grid is exactly the set of points start + k * delta. */
  lemma OnGridIff(t: int, delta: int, start: int)
    requires delta != 0
    ensures OnGrid(t, delta, start) <==> exists k :: t == GridPoint(start, delta, k)
  {
    if OnGrid(t, delta, start) {
      assert t == GridPoint(start, delta, PyFloorDiv(t - start, delta));
    }
    if k :| t == GridPoint(start, delta, k) {
      FlooredDivModUnique(t - start, delta, k, 0);
    }
  }

  /** Two distinct points of a grid with a positive step are at least one step apart. */
  lemma GridSpacing(a: int, b: int, delta: int, start: int)
    requires delta > 0 && OnGrid(a, delta, start) && OnGrid(b, delta, start) && a < b
    ensures a + delta <= b
  {
    var i, j := PyFloorDiv(a - start, delta), PyFloorDiv(b - start, delta);
    if j <= i {
      MulMonotone(delta, j, i);
    }
    MulMonotone(delta, i + 1, j);
  }

  // ----- truncated_datetime, datetime_rounder, datetime_divmod -----

  /** `truncated_datetime(dt, delta, start)`: dt minus the floored remainder of
      (dt - start) by delta. */
  function Truncated(d: int, delta: int := MINUTE, start: int := START_TIME): (r: int)
    requires delta != 0
    ensures OnGrid(r, delta, start)
    ensures delta > 0 ==> r <= d < r + delta
    ensures delta < 0 ==> r + delta < d <= r
  {
    var q := PyFloorDiv(d - start, delta);
    FlooredDivModUnique(q * delta, delta, q, 0);
    d - PyMod(d - start, delta)
  }

  /** For a positive step, the truncation is the latest grid point not after `d`. */
  lemma TruncatedIsLatest(d: int, delta: int, start: int, g: int)
    requires delta > 0 && OnGrid(g, delta, start) && g <= d
    ensures g <= Truncated(d, delta, start)
  {
    var r := Truncated(d, delta, start);
    if r < g {
      GridSpacing(r, g, delta, start);
    }
  }

  /** For a negative step, the truncation rounds up: it is the earliest grid
      point not before `d`. */
  lemma TruncatedIsEarliestForNegativeStep(d: int, delta: int, start: int, g: int)
    requires delta < 0 && OnGrid(g, delta, start) && d <= g
    ensures Truncated(d, delta, start) <= g
  {
    var r := Truncated(d, delta, start);
    if g < r {
      assert OnGrid(g, -delta, start) && OnGrid(r, -delta, start) by {
        FlooredDivModUnique(g - start, -delta, -PyFloorDiv(g - start, delta), 0);
        FlooredDivModUnique(r - start, -delta, -PyFloorDiv(r - start, delta), 0);
      }
      GridSpacing(g, r, -delta, start);
    }
  }

  /** Points of the grid are fixed points of truncation (the start itself among them). */
  lemma TruncatedFixesGridPoints(t: int, delta: int, start: int)
    requires delta != 0 && OnGrid(t, delta, start)
    ensures Truncated(t, delta, start) == t
  {
  }

  lemma TruncatedFixesStart(delta: int, start: int)
    requires delta != 0
    ensures Truncated(start, delta, start) == start
  {
    FlooredDivModUnique(0, delta, 0, 0);
  }

  /** Truncating twice is truncating once. */
  lemma TruncatedIdempotent(d: int, delta: int, start: int)
    requires delta != 0
    ensures Truncated(Truncated(d, delta, start), delta, start) == Truncated(d, delta, start)
  {
    TruncatedFixesGridPoints(Truncated(d, delta, start), delta, start);
  }

  /** Two instants truncate to the same point exactly when no grid point lies in
      (t1, t2]. */
  lemma TruncatedSameCell(t1: int, t2: int, delta: int, start: int)
    requires delta > 0 && t1 <= t2
    ensures Truncated(t1, delta, start) == Truncated(t2, delta, start)
            <==> !exists g :: OnGrid(g, delta, start) && t1 < g <= t2
  {
    var r1, r2 := Truncated(t1, delta, start), Truncated(t2, delta, start);
    if r1 == r2 {
      forall g | OnGrid(g, delta, start) && t1 < g <= t2
        ensures false
      {
        TruncatedIsLatest(t2, delta, start, g);
      }
    } else {
      TruncatedIsLatest(t2, delta, start, r1);
      if r2 <= t1 {
        TruncatedIsLatest(t1, delta, start, r2);
      }
      assert OnGrid(r2, delta, start) && t1 < r2 <= t2;
    }
  }

  /** `datetime_rounder(delta, start)`: truncation with its step and start fixed. */
  function DatetimeRounder(delta: int := MINUTE, start: int := START_TIME): (rounder: int -> int)
    requires delta != 0
    ensures forall d :: rounder(d) == Truncated(d, delta, start)
  {
    d => Truncated(d, delta, start)
  }

  /** `datetime_divmod(dt, delta, start)`: the floored quotient and remainder of
      (dt - start) by delta. */
  function DatetimeDivmod(d: int, delta: int, start: int := START_TIME): (r: (int, int))
    requires delta != 0
    ensures start + r.0 * delta + r.1 == d
    ensures delta > 0 ==> 0 <= r.1 < delta
    ensures delta < 0 ==> delta < r.1 <= 0
  {
    (PyFloorDiv(TotalMicros(d, start), delta), PyMod(TotalMicros(d, start), delta))
  }

  /** The quotient and remainder are determined by the contract above, and the
      truncation is the grid point the quotient counts to. */
  lemma DatetimeDivmodUnique(d: int, delta: int, start: int, n: int, rem: int)
    requires delta != 0 && start + n * delta + rem == d
    requires delta > 0 ==> 0 <= rem < delta
    requires delta < 0 ==> delta < rem <= 0
    ensures DatetimeDivmod(d, delta, start) == (n, rem)
    ensures Truncated(d, delta, start) == start + n * delta == d - rem
  {
    FlooredDivModUnique(d - start, delta, n, rem);
  }

  // ----- total_seconds, timestamp, dt -----

  /** `total_seconds(dt, start)`: the signed offset of `dt` from `start`
      (in microseconds here, in float seconds in the source). */
  function TotalMicros(d: int, start: int := START_TIME): (r: int)
    ensures start + r == d
  {
    d - start
  }

  /** `timestamp(dt)`: the offset from BASE, 1970-01-01 00:00. */
  function Timestamp(d: int): (r: int)
    ensures Dt(r) == d
  {
    TotalMicros(d, BASE)
  }

  /** `dt(timestamp)`: the instant at the given offset from BASE. */
  function Dt(ts: int): (r: int)
    ensures TotalMicros(r, BASE) == ts
  {
    BASE + ts
  }

  lemma TimestampRoundTrip(d: int, ts: int)
    ensures Dt(Timestamp(d)) == d && Timestamp(Dt(ts)) == ts
    ensures Timestamp(BASE) == 0
  {
  }

  // ----- Calendar datetimes -----

  datatype DateTimeFields = DateTimeFields(
    year: int, month: int, day: int,
    hour: int, minute: int, second: int, microsecond: int)

  predicate IsLeap(y: int) {
    y % 4 == 0 && (y % 100 != 0 || y % 400 == 0)
  }

  function DaysInMonth(y: int, m: int): int
    requires 1 <= m <= 12
  {
    if m == 2 then (if IsLeap(y) then 29 else 28)
    else if m == 4 || m == 6 || m == 9 || m == 11 then 30
    else 31
  }

  /** The field ranges that Python's `datetime` constructor accepts. */
  predicate ValidFields(f: DateTimeFields) {
    && 1 <= f.year <= 9999
    && 1 <= f.month <= 12
    && 1 <= f.day <= DaysInMonth(f.year, f.month)
    && 0 <= f.hour < 24
    && 0 <= f.minute < 60
    && 0 <= f.second < 60
    && 0 <= f.microsecond < 1_000_000
  }

  type DateTime = f: DateTimeFields | ValidFields(f) witness DateTimeFields(1, 1, 1, 0, 0, 0, 0)

  /** The range of a C `int` (32 bits on every platform CPython 2.7 runs on). */
  predicate CInt(x: int) {
    -0x8000_0000 <= x < 0x8000_0000
  }

  predicate CInts(f: DateTimeFields) {
    && CInt(f.year) && CInt(f.month) && CInt(f.day) && CInt(f.hour)
    && CInt(f.minute) && CInt(f.second) && CInt(f.microsecond)
  }

  /** `datetime.datetime(y, m, d, h, mi, s, us)`. The constructor first reads every
      argument as a C `int` (OverflowError when one does not fit), then checks the
      field ranges (ValueError). */
  function MakeDateTime(y: int, mo: int, d: int, h: int, mi: int, s: int, us: int): (r: Result<DateTime>)
    ensures r.Ok? <==> ValidFields(DateTimeFields(y, mo, d, h, mi, s, us))
    ensures r.Ok? ==> r.value == DateTimeFields(y, mo, d, h, mi, s, us)
    ensures r.Err? ==> r.error == if CInts(DateTimeFields(y, mo, d, h, mi, s, us)) then ValueError else OverflowError
  {
    var f := DateTimeFields(y, mo, d, h, mi, s, us);
    if !CInts(f) then Err(OverflowError)
    else if ValidFields(f) then Ok(f)
    else Err(ValueError)
  }

  function DaysBeforeYear(y: int): int {
    var p := y - 1;
    p * 365 + p / 4 - p / 100 + p / 400
  }

  function DaysBeforeMonth(y: int, m: int): int
    requires 1 <= m <= 12
  {
    [0, 31, 59, 90, 120, 151, 181, 212, 243, 273, 304, 334][m - 1]
    + (if m > 2 && IsLeap(y) then 1 else 0)
  }

  /** The proleptic Gregorian day number of Python's `toordinal` (0001-01-01 is day 1). */
  function Ordinal(d: DateTime): int {
    DaysBeforeYear(d.year) + DaysBeforeMonth(d.year, d.month) + d.day
  }

  /** The instant a calendar datetime denotes. */
  function Micros(d: DateTime): int {
    (Ordinal(d) - 1) * DAY + d.hour * HOUR + d.minute * MINUTE + d.second * SECOND + d.microsecond
  }

  function DT(y: int, mo: int, d: int, h: int := 0, mi: int := 0, s: int := 0, us: int := 0): DateTime
    requires ValidFields(DateTimeFields(y, mo, d, h, mi, s, us))
  {
    DateTimeFields(y, mo, d, h, mi, s, us)
  }

  /** START_TIME, 2000-01-01 00:00. */
  const START_TIME: int := Micros(DateTimeFields(2000, 1, 1, 0, 0, 0, 0))
  /** BASE, 1970-01-01 00:00. */
  const BASE: int := Micros(DateTimeFields(1970, 1, 1, 0, 0, 0, 0))

  // ----- The "%Y-%m-%d %H:%M:%S.%f" layout -----

  /** DATEFORMAT as produced by `datetime2str`: every field zero-padded to its width. */
  function DateTimeToStr(d: DateTime): (s: string)
    ensures |s| == 26
  {
    PadNat(d.year, 4) + "-" + PadNat(d.month, 2) + "-" + PadNat(d.day, 2) + " "
    + PadNat(d.hour, 2) + ":" + PadNat(d.minute, 2) + ":" + PadNat(d.second, 2) + "."
    + PadNat(d.microsecond, 6)
  }

  /** The integers of seven fixed-width fields, the last scaled to microseconds,
      validated by the datetime constructor; any unreadable field is a ValueError,
      and a number too wide for a C `int` an OverflowError. */
  function FieldsToDateTime(year: string, month: string, day: string, hour: string,
                            minute: string, second: string, fraction: string, scale: int): (r: Result<DateTime>)
    ensures r.Err? ==> r.error == ValueError || r.error == OverflowError
    ensures r == Err(OverflowError) <==>
              && PyInt(year).Ok? && PyInt(month).Ok? && PyInt(day).Ok? && PyInt(hour).Ok?
              && PyInt(minute).Ok? && PyInt(second).Ok? && PyInt(fraction).Ok?
              && !CInts(DateTimeFields(PyInt(year).value, PyInt(month).value, PyInt(day).value,
                                       PyInt(hour).value, PyInt(minute).value, PyInt(second).value,
                                       PyInt(fraction).value * scale))
    ensures r.Ok? ==> && PyInt(year) == Ok(r.value.year) && PyInt(month) == Ok(r.value.month)
                      && PyInt(day) == Ok(r.value.day) && PyInt(hour) == Ok(r.value.hour)
                      && PyInt(minute) == Ok(r.value.minute) && PyInt(second) == Ok(r.value.second)
                      && PyInt(fraction).Ok? && r.value.microsecond == PyInt(fraction).value * scale
  {
    var y :- PyInt(year);
    var mo :- PyInt(month);
    var d :- PyInt(day);
    var h :- PyInt(hour);
    var mi :- PyInt(minute);
    var s :- PyInt(second);
    var f :- PyInt(fraction);
    MakeDateTime(y, mo, d, h, mi, s, f * scale)
  }

  lemma FieldsToDateTimeOk(year: string, month: string, day: string, hour: string,
                            minute: string, second: string, fraction: string, scale: int,
                            d: DateTime, f: int)
    requires PyInt(year) == Ok(d.year) && PyInt(month) == Ok(d.month) && PyInt(day) == Ok(d.day)
    requires PyInt(hour) == Ok(d.hour) && PyInt(minute) == Ok(d.minute) && PyInt(second) == Ok(d.second)
    requires PyInt(fraction) == Ok(f)
    ensures FieldsToDateTime(year, month, day, hour, minute, second, fraction, scale)
            == MakeDateTime(d.year, d.month, d.day, d.hour, d.minute, d.second, f * scale)
  {
  }

  /** `str2datetime_fast(s)`: integers read from the fixed slices 0:4, 5:7, 8:10,
      11:13, 14:16, 17:19 and 20: (microseconds). */
  function StrToDateTimeFast(s: string): (r: Result<DateTime>)
    ensures r.Err? ==> r.error == ValueError || r.error == OverflowError
    ensures r == Err(OverflowError) ==> PyInt(SliceFrom(s, 20)).Ok? && !CInt(PyInt(SliceFrom(s, 20)).value)
    ensures |s| <= 20 ==> r.Err?
  {
    ShortFieldsFit(Slice(s, 0, 4), Slice(s, 5, 7), Slice(s, 8, 10), Slice(s, 11, 13),
                   Slice(s, 14, 16), Slice(s, 17, 19));
    FieldsToDateTime(Slice(s, 0, 4), Slice(s, 5, 7), Slice(s, 8, 10), Slice(s, 11, 13),
                     Slice(s, 14, 16), Slice(s, 17, 19), SliceFrom(s, 20), 1)
  }

  /** Fields of at most four characters always fit a C `int`. */
  lemma ShortFieldsFit(year: string, month: string, day: string, hour: string, minute: string, second: string)
    requires |year| <= 4 && |month| <= 4 && |day| <= 4 && |hour| <= 4 && |minute| <= 4 && |second| <= 4
    ensures PyInt(year).Ok? ==> CInt(PyInt(year).value)
    ensures PyInt(month).Ok? ==> CInt(PyInt(month).value)
    ensures PyInt(day).Ok? ==> CInt(PyInt(day).value)
    ensures PyInt(hour).Ok? ==> CInt(PyInt(hour).value)
    ensures PyInt(minute).Ok? ==> CInt(PyInt(minute).value)
    ensures PyInt(second).Ok? ==> CInt(PyInt(second).value)
  {
    assert Pow10(4) == 10000;
    PyIntBound(year, 4);
    PyIntBound(month, 4);
    PyIntBound(day, 4);
    PyIntBound(hour, 4);
    PyIntBound(minute, 4);
    PyIntBound(second, 4);
  }

  /** A microseconds field wider than a C `int` is an OverflowError, not a ValueError. */
  lemma StrToDateTimeFastOverflow(s: string)
    requires s == "2013-02-24 12:37:51.2147483648"
    ensures StrToDateTimeFast(s) == Err(OverflowError)
  {
    OverflowLayout(s);
    WideMicros("2147483648");
    ReadableFields("2013", "02", "24", "12", "37", "51");
    Overflows("2013", "02", "24", "12", "37", "51", "2147483648");
  }

  lemma OverflowLayout(s: string)
    requires s == "2013-02-24 12:37:51.2147483648"
    ensures && Slice(s, 0, 4) == "2013" && Slice(s, 5, 7) == "02" && Slice(s, 8, 10) == "24"
            && Slice(s, 11, 13) == "12" && Slice(s, 14, 16) == "37" && Slice(s, 17, 19) == "51"
            && SliceFrom(s, 20) == "2147483648"
  {
    assert s == "2013" + "-" + "02" + "-" + "24" + " " + "12" + ":" + "37" + ":" + "51" + "." + "2147483648";
    DateTimeLayout("2013", "02", "24", "12", "37", "51", "2147483648");
  }

  lemma ReadableFields(year: string, month: string, day: string, hour: string, minute: string, second: string)
    requires year == "2013" && month == "02" && day == "24" && hour == "12" && minute == "37" && second == "51"
    ensures PyInt(year).Ok? && PyInt(month).Ok? && PyInt(day).Ok?
    ensures PyInt(hour).Ok? && PyInt(minute).Ok? && PyInt(second).Ok?
  {
    PyIntOfDigits(year);
    PyIntOfDigits(month);
    PyIntOfDigits(day);
    PyIntOfDigits(hour);
    PyIntOfDigits(minute);
    PyIntOfDigits(second);
  }

  /** Readable fields whose microseconds pass the C `int` range overflow. */
  lemma Overflows(year: string, month: string, day: string, hour: string,
                  minute: string, second: string, fraction: string)
    requires PyInt(year).Ok? && PyInt(month).Ok? && PyInt(day).Ok?
    requires PyInt(hour).Ok? && PyInt(minute).Ok? && PyInt(second).Ok?
    requires PyInt(fraction) == Ok(0x8000_0000)
    ensures FieldsToDateTime(year, month, day, hour, minute, second, fraction, 1) == Err(OverflowError)
  {
    assert !CInt(PyInt(fraction).value * 1);
  }

  /** One more than the largest C `int`. */
  lemma WideMicros(s: string)
    requires s == "2147483648"
    ensures PyInt(s) == Ok(0x8000_0000)
  {
    PyIntOfDigits(s);
    DigitsSplit(s, 5);
    WideMicrosHigh(s);
    WideMicrosLow(s[5..]);
    assert Pow10(5) == 100000;
  }

  lemma WideMicrosHigh(s: string)
    requires s == "2147483648"
    ensures DigitsToNat(s[..5]) == 21474
  {
    assert s[..0] == [];
    LastDigit(s, 1);
    assert DigitsToNat(s[..1]) == 2;
    LastDigit(s, 2);
    assert DigitsToNat(s[..2]) == 21;
    LastDigit(s, 3);
    assert DigitsToNat(s[..3]) == 214;
    LastDigit(s, 4);
    assert DigitsToNat(s[..4]) == 2147;
    LastDigit(s, 5);
    assert DigitsToNat(s[..5]) == 21474;
  }

  lemma WideMicrosLow(t: string)
    requires t == "83648"
    ensures DigitsToNat(t) == 83648
  {
    assert t[..0] == [];
    LastDigit(t, 1);
    assert DigitsToNat(t[..1]) == 8;
    LastDigit(t, 2);
    assert DigitsToNat(t[..2]) == 83;
    LastDigit(t, 3);
    assert DigitsToNat(t[..3]) == 836;
    LastDigit(t, 4);
    assert DigitsToNat(t[..4]) == 8364;
    LastDigit(t, 5);
    assert DigitsToNat(t[..5]) == 83648;
    assert t[..5] == t;
  }

  /** The value of the first k digits, from that of the first k - 1. */
  lemma LastDigit(s: string, k: nat)
    requires AllDigits(s) && 0 < k <= |s|
    ensures DigitsToNat(s[..k]) == 10 * DigitsToNat(s[..k - 1]) + DigitValue(s[k - 1])
  {
    assert s[..k][..k - 1] == s[..k - 1];
  }

  /** When every field that parses fits a C `int`, the only failure left is ValueError. */
  lemma FieldsFit(year: string, month: string, day: string, hour: string,
                  minute: string, second: string, fraction: string, scale: int)
    requires PyInt(year).Ok? ==> CInt(PyInt(year).value)
    requires PyInt(month).Ok? ==> CInt(PyInt(month).value)
    requires PyInt(day).Ok? ==> CInt(PyInt(day).value)
    requires PyInt(hour).Ok? ==> CInt(PyInt(hour).value)
    requires PyInt(minute).Ok? ==> CInt(PyInt(minute).value)
    requires PyInt(second).Ok? ==> CInt(PyInt(second).value)
    requires PyInt(fraction).Ok? ==> CInt(PyInt(fraction).value * scale)
    ensures FieldsToDateTime(year, month, day, hour, minute, second, fraction, scale).Err? ==>
            FieldsToDateTime(year, month, day, hour, minute, second, fraction, scale).error == ValueError
  {
  }

  /** A slice that lies inside a prefix of `s` is the same slice of the prefix. */
  lemma PrefixSlice(p: string, s: string, i: nat, j: nat)
    requires p <= s && i <= j <= |p|
    ensures Slice(s, i, j) == p[i..j]
  {
  }

  /** Reading a zero-padded field back gives its value. */
  lemma PyIntOfPadNat(n: nat, width: nat)
    requires 1 <= width && n < Pow10(width)
    ensures PyInt(PadNat(n, width)) == Ok(n)
  {
    PyIntOfDigits(PadNat(n, width));
  }

  /** Where each field of the DATEFORMAT layout lies. */
  lemma DateTimeLayout(y: string, mo: string, dd: string, h: string, mi: string, se: string, us: string)
    requires |y| == 4 && |mo| == 2 && |dd| == 2 && |h| == 2 && |mi| == 2 && |se| == 2
    ensures var s := y + "-" + mo + "-" + dd + " " + h + ":" + mi + ":" + se + "." + us;
            && Slice(s, 0, 4) == y && Slice(s, 5, 7) == mo && Slice(s, 8, 10) == dd
            && Slice(s, 11, 13) == h && Slice(s, 14, 16) == mi && Slice(s, 17, 19) == se
            && SliceFrom(s, 20) == us
  {
    var s := y + "-" + mo + "-" + dd + " " + h + ":" + mi + ":" + se + "." + us;
    var p1 := y + "-" + mo;
    var p2 := p1 + "-" + dd;
    var p3 := p2 + " " + h;
    var p4 := p3 + ":" + mi;
    var p5 := p4 + ":" + se;
    assert p1 <= p2 <= p3 <= p4 <= p5 <= s;
    PrefixSlice(p1, s, 0, 4);
    PrefixSlice(p1, s, 5, 7);
    PrefixSlice(p2, s, 8, 10);
    PrefixSlice(p3, s, 11, 13);
    PrefixSlice(p4, s, 14, 16);
    PrefixSlice(p5, s, 17, 19);
  }

  /** `str2datetime_fast` inverts the DATEFORMAT layout. */
  lemma StrToDateTimeFastRoundTrip(d: DateTime)
    ensures StrToDateTimeFast(DateTimeToStr(d)) == Ok(d)
  {
    assert Pow10(2) == 100 && Pow10(4) == 10000 && Pow10(6) == 1000000;
    DateTimeLayout(PadNat(d.year, 4), PadNat(d.month, 2), PadNat(d.day, 2), PadNat(d.hour, 2),
                   PadNat(d.minute, 2), PadNat(d.second, 2), PadNat(d.microsecond, 6));
    PyIntOfPadNat(d.year, 4);
    PyIntOfPadNat(d.month, 2);
    PyIntOfPadNat(d.day, 2);
    PyIntOfPadNat(d.hour, 2);
    PyIntOfPadNat(d.minute, 2);
    PyIntOfPadNat(d.second, 2);
    PyIntOfPadNat(d.microsecond, 6);
    FieldsToDateTimeOk(PadNat(d.year, 4), PadNat(d.month, 2), PadNat(d.day, 2), PadNat(d.hour, 2),
                       PadNat(d.minute, 2), PadNat(d.second, 2), PadNat(d.microsecond, 6), 1, d, d.microsecond);
  }

  lemma SliceAgree(s: string, t: string, i: nat, j: nat)
    requires |s| == |t| || (j <= |s| && j <= |t|)
    requires forall k :: i <= k < j && k < |s| && k < |t| ==> s[k] == t[k]
    ensures Slice(s, i, j) == Slice(t, i, j)
  {
  }

  lemma SliceFromAgree(s: string, t: string, i: nat)
    requires |s| == |t|
    requires forall k :: i <= k < |s| ==> s[k] == t[k]
    ensures SliceFrom(s, i) == SliceFrom(t, i)
  {
  }

  /** The separators of the layout, at offsets 4, 7, 10, 13, 16 and 19, are never read. */
  lemma StrToDateTimeFastIgnoresSeparators(s: string, t: string)
    requires |s| == |t|
    requires forall k :: 0 <= k < |s| && k != 4 && k != 7 && k != 10 && k != 13 && k != 16 && k != 19 ==> s[k] == t[k]
    ensures StrToDateTimeFast(s) == StrToDateTimeFast(t)
  {
    SliceAgree(s, t, 0, 4);
    SliceAgree(s, t, 5, 7);
    SliceAgree(s, t, 8, 10);
    SliceAgree(s, t, 11, 13);
    SliceAgree(s, t, 14, 16);
    SliceAgree(s, t, 17, 19);
    SliceFromAgree(s, t, 20);
  }

  // ----- The "%Y%m%d-%H:%M:%S.mmm" layout -----

  /** `dt2utcts(dt)`: the layout '%Y%m%d-%H:%M:%S.%f' with its last three characters
      cut, so the fraction is in whole milliseconds. */
  function Dt2Utcts(d: DateTime): (s: string)
    ensures |s| == 21
  {
    var full := PadNat(d.year, 4) + PadNat(d.month, 2) + PadNat(d.day, 2) + "-"
                + PadNat(d.hour, 2) + ":" + PadNat(d.minute, 2) + ":" + PadNat(d.second, 2) + "."
                + PadNat(d.microsecond, 6);
    full[..|full| - 3]
  }

  /** `utcts2dt(s)`: integers read from the fixed slices 0:4, 4:6, 6:8, 9:11, 12:14,
      15:17 and 18:21; the last is milliseconds. */
  function Utcts2Dt(s: string): (r: Result<DateTime>)
    ensures r.Err? ==> r.error == ValueError
    ensures |s| <= 18 ==> r.Err?
    ensures r.Ok? ==> r.value.microsecond % 1000 == 0
  {
    var millis := Slice(s, 18, 21);
    WholeMillis(PyInt(millis));
    ShortFieldsFit(Slice(s, 0, 4), Slice(s, 4, 6), Slice(s, 6, 8), Slice(s, 9, 11),
                   Slice(s, 12, 14), Slice(s, 15, 17));
    PyIntBound(millis, 3);
    assert Pow10(3) == 1000;
    FieldsFit(Slice(s, 0, 4), Slice(s, 4, 6), Slice(s, 6, 8), Slice(s, 9, 11),
              Slice(s, 12, 14), Slice(s, 15, 17), millis, 1000);
    FieldsToDateTime(Slice(s, 0, 4), Slice(s, 4, 6), Slice(s, 6, 8), Slice(s, 9, 11),
                     Slice(s, 12, 14), Slice(s, 15, 17), millis, 1000)
  }

  lemma WholeMillis(f: Result<int>)
    ensures f.Ok? ==> (f.value * 1000) % 1000 == 0
  {
    if f.Ok? {
      assert f.value * 1000 == 0 + 1000 * f.value;
    }
  }

  /** A digit string splits into a high and a low part. */
  lemma {:induction false} DigitsSplit(s: string, k: nat)
    requires AllDigits(s) && k <= |s|
    ensures DigitsToNat(s) == DigitsToNat(s[..k]) * Pow10(|s| - k) + DigitsToNat(s[k..])
    ensures DigitsToNat(s[k..]) < Pow10(|s| - k)
    decreases |s|
  {
    if k < |s| {
      var p, c := s[..|s| - 1], DigitValue(s[|s| - 1]);
      assert p[..k] == s[..k];
      assert s[k..][..|s| - k - 1] == p[k..];
      DigitsSplit(p, k);
      var hi, lo, pw := DigitsToNat(p[..k]), DigitsToNat(p[k..]), Pow10(|p| - k);
      assert DigitsToNat(s) == 10 * DigitsToNat(p) + c;
      assert DigitsToNat(s[k..]) == 10 * lo + c;
      assert Pow10(|s| - k) == 10 * pw;
      MulShift(hi, pw);
    } else {
      assert s[..k] == s;
    }
  }

  lemma MulShift(a: int, b: int)
    ensures 10 * (a * b) == a * (10 * b)
  {
  }

  /** The first three of six microsecond digits are the whole milliseconds. */
  lemma MillisOfPadded(us: nat)
    requires us < 1_000_000
    ensures PyInt(PadNat(us, 6)[..3]) == Ok(us / 1000)
  {
    var t := PadNat(us, 6);
    assert Pow10(6) == 1000000 && Pow10(3) == 1000;
    DigitsSplit(t, 3);
    var hi, lo := DigitsToNat(t[..3]), DigitsToNat(t[3..]);
    FlooredDivModUnique(us, 1000, hi, lo);
    PyIntOfDigits(t[..3]);
  }

  /** Where each field of the dt2utcts layout lies. */
  lemma UtcLayout(y: string, mo: string, dd: string, h: string, mi: string, se: string, ms: string)
    requires |y| == 4 && |mo| == 2 && |dd| == 2 && |h| == 2 && |mi| == 2 && |se| == 2 && |ms| == 3
    ensures var s := y + mo + dd + "-" + h + ":" + mi + ":" + se + "." + ms;
            && Slice(s, 0, 4) == y && Slice(s, 4, 6) == mo && Slice(s, 6, 8) == dd
            && Slice(s, 9, 11) == h && Slice(s, 12, 14) == mi && Slice(s, 15, 17) == se
            && Slice(s, 18, 21) == ms
  {
    var s := y + mo + dd + "-" + h + ":" + mi + ":" + se + "." + ms;
    var p1 := y + mo + dd;
    var p2 := p1 + "-" + h;
    var p3 := p2 + ":" + mi;
    var p4 := p3 + ":" + se;
    assert p1 <= p2 <= p3 <= p4 <= s;
    PrefixSlice(p1, s, 0, 4);
    PrefixSlice(p1, s, 4, 6);
    PrefixSlice(p1, s, 6, 8);
    PrefixSlice(p2, s, 9, 11);
    PrefixSlice(p3, s, 12, 14);
    PrefixSlice(p4, s, 15, 17);
    PrefixSlice(s, s, 18, 21);
  }

  /** dt2utcts cuts exactly the last three microsecond digits. */
  lemma Dt2UtctsShape(d: DateTime)
    ensures Dt2Utcts(d) == PadNat(d.year, 4) + PadNat(d.month, 2) + PadNat(d.day, 2) + "-"
                          + PadNat(d.hour, 2) + ":" + PadNat(d.minute, 2) + ":" + PadNat(d.second, 2) + "."
                          + PadNat(d.microsecond, 6)[..3]
  {
    var us := PadNat(d.microsecond, 6);
    assert Pow10(6) == 1000000 && |us| == 6;
  }

  /** `utcts2dt(dt2utcts(d))` is `d` with its microseconds cut to whole milliseconds. */
  lemma Utcts2DtRoundTrip(d: DateTime)
    ensures Utcts2Dt(Dt2Utcts(d)) == Ok(d.(microsecond := d.microsecond / 1000 * 1000))
  {
    assert Pow10(2) == 100 && Pow10(4) == 10000 && Pow10(6) == 1000000;
    Dt2UtctsShape(d);
    UtcLayout(PadNat(d.year, 4), PadNat(d.month, 2), PadNat(d.day, 2), PadNat(d.hour, 2),
              PadNat(d.minute, 2), PadNat(d.second, 2), PadNat(d.microsecond, 6)[..3]);
    PyIntOfPadNat(d.year, 4);
    PyIntOfPadNat(d.month, 2);
    PyIntOfPadNat(d.day, 2);
    PyIntOfPadNat(d.hour, 2);
    PyIntOfPadNat(d.minute, 2);
    PyIntOfPadNat(d.second, 2);
    MillisOfPadded(d.microsecond);
    FieldsToDateTimeOk(PadNat(d.year, 4), PadNat(d.month, 2), PadNat(d.day, 2), PadNat(d.hour, 2),
                       PadNat(d.minute, 2), PadNat(d.second, 2), PadNat(d.microsecond, 6)[..3], 1000,
                       d, d.microsecond / 1000);
    var ms := d.microsecond / 1000;
    assert 0 <= ms < 1000;
    MulMonotone(1000, ms, 999);
    MulMonotone(1000, 0, ms);
    assert ValidFields(d.(microsecond := ms * 1000));
  }

  /** The separators at offsets 8, 11, 14 and 17 and anything from offset 21 on
      are never read: the space of the documented example and the '-' that
      dt2utcts writes are both accepted, and two strings of at least 21
      characters that differ only there parse alike whatever their lengths. */
  lemma Utcts2DtIgnoresSeparators(s: string, t: string)
    requires |s| == |t| || (21 <= |s| && 21 <= |t|)
    requires forall k :: 0 <= k < 21 && k < |s| && k < |t| && k != 8 && k != 11 && k != 14 && k != 17 ==> s[k] == t[k]
    ensures Utcts2Dt(s) == Utcts2Dt(t)
  {
    SliceAgree(s, t, 0, 4);
    SliceAgree(s, t, 4, 6);
    SliceAgree(s, t, 6, 8);
    SliceAgree(s, t, 9, 11);
    SliceAgree(s, t, 12, 14);
    SliceAgree(s, t, 15, 17);
    SliceAgree(s, t, 18, 21);
  }

  /** Whatever follows the first 21 characters is ignored. */
  lemma Utcts2DtIgnoresTail(s: string, tail: string)
    requires |s| >= 21
    ensures Utcts2Dt(s + tail) == Utcts2Dt(s)
  {
    Utcts2DtIgnoresSeparators(s + tail, s);
  }

  // ----- The documented examples -----

  /** 2013-02-24 12:37:51 truncates to 12:37:00 by the minute and to 12:37:48 by
      twelve seconds; 01:00 on the start day is already aligned to the minute,
      and 2000-01-06 is not aligned to weeks counted from 2000-01-01. */
  lemma TruncatedExamples()
    ensures Truncated(Micros(DT(2013, 2, 24, 12, 37, 51))) == Micros(DT(2013, 2, 24, 12, 37))
    ensures Truncated(Micros(DT(2013, 2, 24, 12, 37, 51)), 12 * SECOND) == Micros(DT(2013, 2, 24, 12, 37, 48))
    ensures DatetimeRounder()(Micros(DT(2000, 1, 1, 1))) == Micros(DT(2000, 1, 1, 1))
    ensures DatetimeRounder(WEEK, Micros(DT(2000, 1, 1)))(Micros(DT(2000, 1, 6))) != Micros(DT(2000, 1, 6))
  {
    var d := Micros(DT(2013, 2, 24, 12, 37, 51));
    DatetimeDivmodUnique(d, MINUTE, START_TIME, 6917077, 51 * SECOND);
    DatetimeDivmodUnique(d, 12 * SECOND, START_TIME, 34585389, 3 * SECOND);
    DatetimeDivmodUnique(Micros(DT(2000, 1, 1, 1)), MINUTE, START_TIME, 60, 0);
    DatetimeDivmodUnique(Micros(DT(2000, 1, 6)), WEEK, Micros(DT(2000, 1, 1)), 0, 5 * DAY);
  }

  /** 2000-01-16 01:00 is two weeks, one day and 3600 seconds after the start. */
  lemma DatetimeDivmodExample()
    ensures DatetimeDivmod(Micros(DT(2000, 1, 16, 1)), WEEK) == (2, DAY + 3600 * SECOND)
  {
    DatetimeDivmodUnique(Micros(DT(2000, 1, 16, 1)), WEEK, START_TIME, 2, DAY + 3600 * SECOND);
  }

  /** The offsets of the docstring, and the Unix timestamp of 2000-01-01. */
  lemma TotalMicrosExamples()
    ensures TotalMicros(Micros(DT(2000, 1, 1, 1))) == 3600 * SECOND
    ensures TotalMicros(Micros(DT(2013, 2, 24, 12, 37, 51)), Micros(DT(2013, 2, 24, 12, 37))) == 51 * SECOND
    ensures Timestamp(START_TIME) == 946684800 * SECOND
  {
  }

  /** The fields of 2013-02-24 12:37:51, zero-padded. */
  lemma ExampleFields(d: DateTime)
    requires d == DT(2013, 2, 24, 12, 37, 51)
    ensures PadNat(d.year, 4) == "2013" && PadNat(d.month, 2) == "02" && PadNat(d.day, 2) == "24"
    ensures PadNat(d.hour, 2) == "12" && PadNat(d.minute, 2) == "37" && PadNat(d.second, 2) == "51"
    ensures PadNat(d.microsecond, 6) == "000000"
  {
    ExampleYear(d.year);
    PadOneDigit(d.month);
    PadTwoDigits(d.day);
    PadTwoDigits(d.hour);
    PadTwoDigits(d.minute);
    PadTwoDigits(d.second);
    assert NatToStr(d.microsecond) == "0";
  }

  lemma ExampleYear(y: nat)
    requires y == 2013
    ensures PadNat(y, 4) == "2013"
  {
    PadFourDigits(y);
    assert y / 10 / 10 / 10 == 2 && y / 10 / 10 % 10 == 0 && y / 10 % 10 == 1 && y % 10 == 3;
  }

  lemma ExampleDateTimeToStr(d: DateTime)
    requires d == DT(2013, 2, 24, 12, 37, 51)
    ensures DateTimeToStr(d) == "2013-02-24 12:37:51.000000"
  {
    ExampleFields(d);
    DateTimeJoin();
  }

  lemma DateTimeJoin()
    ensures "2013" + "-" + "02" + "-" + "24" + " " + "12" + ":" + "37" + ":" + "51" + "." + "000000"
            == "2013-02-24 12:37:51.000000"
  {
    assert "2013" + "-" + "02" + "-" + "24" == "2013-02-24";
    assert "2013-02-24" + " " + "12" + ":" + "37" == "2013-02-24 12:37";
    assert "2013-02-24 12:37" + ":" + "51" + "." == "2013-02-24 12:37:51.";
  }

  lemma DateTimeToStrExample()
    ensures DateTimeToStr(DT(2013, 2, 24, 12, 37, 51)) == "2013-02-24 12:37:51.000000"
  {
    ExampleDateTimeToStr(DT(2013, 2, 24, 12, 37, 51));
  }

  lemma StrToDateTimeFastExample()
    ensures StrToDateTimeFast("2013-02-24 12:37:51.000000") == Ok(DT(2013, 2, 24, 12, 37, 51))
  {
    DateTimeToStrExample();
    StrToDateTimeFastRoundTrip(DT(2013, 2, 24, 12, 37, 51));
  }

  lemma ExampleDt2Utcts(d: DateTime)
    requires d == DT(2013, 2, 24, 12, 37, 51)
    ensures Dt2Utcts(d) == "20130224-12:37:51.000"
  {
    ExampleFields(d);
    Dt2UtctsShape(d);
    UtctsJoin();
  }

  lemma UtctsJoin()
    ensures "2013" + "02" + "24" + "-" + "12" + ":" + "37" + ":" + "51" + "." + "000000"[..3]
            == "20130224-12:37:51.000"
  {
    assert "000000"[..3] == "000";
    assert "2013" + "02" + "24" + "-" + "12" == "20130224-12";
    assert "20130224-12" + ":" + "37" + ":" + "51" == "20130224-12:37:51";
  }

  /** Offset 8 of the dt2utcts layout may hold any separator. */
  lemma Utcts2DtAnySeparator(t: string, c: char)
    requires |t| >= 9
    ensures Utcts2Dt(t[..8] + [c] + t[9..]) == Utcts2Dt(t)
  {
    Utcts2DtIgnoresSeparators(t[..8] + [c] + t[9..], t);
  }

  lemma SpaceJoin()
    ensures "20130224-12:37:51.000"[..8] + [' '] + "20130224-12:37:51.000"[9..] == "20130224 12:37:51.000"
  {
  }

  lemma ExampleUtcts2Dt(s: string)
    requires s == "20130224 12:37:51.000"
    ensures Utcts2Dt(s) == Ok(DT(2013, 2, 24, 12, 37, 51))
  {
    var d := DT(2013, 2, 24, 12, 37, 51);
    var u := Dt2Utcts(d);
    ExampleUtctsRoundTrip(d);
    ExampleDt2Utcts(d);
    Utcts2DtAnySeparator(u, ' ');
    SpaceJoin();
  }

  lemma ExampleUtctsRoundTrip(d: DateTime)
    requires d == DT(2013, 2, 24, 12, 37, 51)
    ensures Utcts2Dt(Dt2Utcts(d)) == Ok(d)
  {
    WholeSecondRoundTrip(d);
  }

  lemma WholeSecondRoundTrip(d: DateTime)
    requires d.microsecond == 0
    ensures Utcts2Dt(Dt2Utcts(d)) == Ok(d)
  {
    assert d.microsecond / 1000 * 1000 == 0;
    assert d.(microsecond := d.microsecond / 1000 * 1000) == d;
    Utcts2DtRoundTrip(d);
  }

  lemma Utcts2DtExample()
    ensures Utcts2Dt("20130224 12:37:51.000") == Ok(DT(2013, 2, 24, 12, 37, 51))
  {
    ExampleUtcts2Dt("20130224 12:37:51.000");
  }
}
