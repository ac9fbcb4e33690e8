/**
  Python `datetime` values as the application uses them: the `created_at`
  column, its rendering with `strftime('%Y-%m-%d %H:%M')` in the exports, the
  upload-name prefix `strftime('%Y%m%d%H%M%S_')`, and the chronological order
  that `ORDER BY created_at` relies on.
 */
module Clock {
  import opened Wrappers
  import opened Text

  datatype Instant = Instant(year: int, month: int, day: int,
                             hour: int, minute: int, second: int, microsecond: int)

  predicate IsLeap(y: int) {
    y % 4 == 0 && (y % 100 != 0 || y % 400 == 0)
  }

  function DaysInMonth(y: int, m: int): int
    requires 1 <= m <= 12
  {
    if m == 2 then (if IsLeap(y) then 29 else 28)
    else if m == 4 || m == 6 || m == 9 || m == 11 then 30
    else 31
  }

  /** The ranges Python's `datetime` enforces on its fields. */
  predicate Valid(t: Instant) {
    && 1 <= t.year <= 9999
    && 1 <= t.month <= 12
    && 1 <= t.day <= DaysInMonth(t.year, t.month)
    && 0 <= t.hour < 24
    && 0 <= t.minute < 60
    && 0 <= t.second < 60
    && 0 <= t.microsecond < 1000000
  }

  type DateTime = t: Instant | Valid(t) witness Instant(1970, 1, 1, 0, 0, 0, 0)

  // ---------------------------------------------------------------------------
  // strftime renderings
  // ---------------------------------------------------------------------------

  function DigitChar(d: int): (c: char)
    requires 0 <= d < 10
    ensures '0' <= c <= '9' && c as int - '0' as int == d
  {
    ('0' as int + d) as char
  }

  /** Two decimal digits, zero-padded (`%m`, `%d`, `%H`, `%M`, `%S`). */
  function Pad2(n: int): (s: string)
    requires 0 <= n < 100
    ensures |s| == 2
  {
    [DigitChar(n / 10), DigitChar(n % 10)]
  }

  /** Four decimal digits, zero-padded (`%Y`). */
  function Pad4(n: int): (s: string)
    requires 0 <= n < 10000
    ensures |s| == 4
  {
    Pad2(n / 100) + Pad2(n % 100)
  }

  /** `t.strftime('%Y-%m-%d %H:%M')`: the date column of every export. */
  function FormatMinute(t: DateTime): (s: string)
    ensures |s| == 16
  {
    Pad4(t.year) + "-" + Pad2(t.month) + "-" + Pad2(t.day) + " " + Pad2(t.hour) + ":" + Pad2(t.minute)
  }

  /** `t.strftime('%Y%m%d%H%M%S_')`: the prefix of a stored upload's name. */
  function UploadStamp(t: DateTime): (s: string)
    ensures |s| == 15 && s[14] == '_'
    ensures forall i :: 0 <= i < 14 ==> '0' <= s[i] <= '9'
  {
    Pad4(t.year) + Pad2(t.month) + Pad2(t.day) + Pad2(t.hour) + Pad2(t.minute) + Pad2(t.second) + "_"
  }

  // ---------------------------------------------------------------------------
  // Reading the date column back
  // ---------------------------------------------------------------------------

  /** The part of a timestamp the date column keeps. */
  datatype Minute = Minute(year: int, month: int, day: int, hour: int, minute: int)

  function MinuteOf(t: DateTime): Minute {
    Minute(t.year, t.month, t.day, t.hour, t.minute)
  }

  predicate IsDigit(c: char) {
    '0' <= c <= '9'
  }

  /** The value of a string of decimal digits. */
  function Number(s: string): nat
    requires forall i :: 0 <= i < |s| ==> IsDigit(s[i])
  {
    if s == [] then 0
    else
      assert IsDigit(s[|s| - 1]);
      Number(s[..|s| - 1]) * 10 + (s[|s| - 1] as int - '0' as int)
  }

  /** Parses a `YYYY-MM-DD HH:MM` cell; `None` for anything of another shape. */
  function ParseMinute(s: string): Option<Minute> {
    if |s| == 16 && s[4] == '-' && s[7] == '-' && s[10] == ' ' && s[13] == ':'
       && (forall i :: 0 <= i < 16 && i !in {4, 7, 10, 13} ==> IsDigit(s[i]))
    then Some(Minute(Number(s[0..4]), Number(s[5..7]), Number(s[8..10]),
                     Number(s[11..13]), Number(s[14..16])))
    else None
  }

  lemma Pad2Value(n: int)
    requires 0 <= n < 100
    ensures forall i :: 0 <= i < 2 ==> IsDigit(Pad2(n)[i])
    ensures Number(Pad2(n)) == n
  {
    var s := Pad2(n);
    assert s[..1] == [s[0]];
    assert s[..1][..0] == [];
    assert Number(s[..1]) == n / 10;
  }

  lemma Pad4Value(n: int)
    requires 0 <= n < 10000
    ensures forall i :: 0 <= i < 4 ==> IsDigit(Pad4(n)[i])
    ensures Number(Pad4(n)) == n
  {
    var s := Pad4(n);
    Pad2Value(n / 100);
    Pad2Value(n % 100);
    assert s[..3][..2] == s[..2] == Pad2(n / 100);
    assert s[..3] == s[..2] + [s[2]];
    assert s[..4] == s;
  }

  /** The date column reads back as the timestamp's year, month, day, hour
      and minute: the rendering loses the seconds and nothing else. */
  lemma {:induction false} ParseFormatMinute(t: DateTime)
    ensures ParseMinute(FormatMinute(t)) == Some(MinuteOf(t))
  {
    var s := FormatMinute(t);
    Pad4Value(t.year);
    Pad2Value(t.month);
    Pad2Value(t.day);
    Pad2Value(t.hour);
    Pad2Value(t.minute);
    assert s[0..4] == Pad4(t.year);
    assert s[5..7] == Pad2(t.month);
    assert s[8..10] == Pad2(t.day);
    assert s[11..13] == Pad2(t.hour);
    assert s[14..16] == Pad2(t.minute);
  }

  /** Two timestamps render to the same date cell exactly when they agree
      down to the minute. */
  lemma FormatMinuteInjective(a: DateTime, b: DateTime)
    ensures FormatMinute(a) == FormatMinute(b) <==> MinuteOf(a) == MinuteOf(b)
  {
    ParseFormatMinute(a);
    ParseFormatMinute(b);
  }

  // ---------------------------------------------------------------------------
  // Chronological order
  // ---------------------------------------------------------------------------

  /** `a >= b` for Python datetimes: field by field, most significant first. */
  predicate NotBefore(a: Instant, b: Instant) {
    if a.year != b.year then a.year > b.year
    else if a.month != b.month then a.month > b.month
    else if a.day != b.day then a.day > b.day
    else if a.hour != b.hour then a.hour > b.hour
    else if a.minute != b.minute then a.minute > b.minute
    else if a.second != b.second then a.second > b.second
    else a.microsecond >= b.microsecond
  }

  /** `NotBefore` is a total order: total, transitive and antisymmetric. */
  lemma NotBeforeTotalOrder(a: Instant, b: Instant, c: Instant)
    ensures NotBefore(a, b) || NotBefore(b, a)
    ensures NotBefore(a, b) && NotBefore(b, c) ==> NotBefore(a, c)
    ensures NotBefore(a, b) && NotBefore(b, a) ==> a == b
  {
  }
}
