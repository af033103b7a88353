/** Timestamps on the wire: the `date-time` of RFC 3339 section 5.6, in UTC, to the millisecond. */
module JsonTimestamp {
  import opened JsonNumber
  import opened Calendar

  /** Milliseconds since 1970-01-01T00:00:00Z, before it when negative. */
  type Timestamp = int

  const MS_PER_DAY := 86_400_000

  /** floor<days>(timestamp), and what is left of the day. */
  function DayOf(t: Timestamp): int {
    t / MS_PER_DAY
  }

  function DateOf(t: Timestamp): Date {
    CivilFromDays(DayOf(t))
  }

  function TimeOf(t: Timestamp): (ms: nat)
    ensures ms < MS_PER_DAY
  {
    t % MS_PER_DAY
  }

  /** The range RFC 3339 can write. */
  predicate InRange(t: Timestamp) {
    0 <= DateOf(t).year <= 9999
  }

  // ---- decimal fields ------------------------------------------------------------------------

  const DIGITS := "0123456789"

  /** std::to_string() */
  function Decimal(n: nat): (s: string)
    ensures s != "" && forall k | 0 <= k < |s| :: IsDigit(s[k])
  {
    if n < 10 then [DIGITS[n]] else Decimal(n / 10) + [DIGITS[n % 10]]
  }

  function Zeros(n: nat): (s: string)
    ensures |s| == n && forall k | 0 <= k < |s| :: s[k] == '0'
  {
    if n == 0 then "" else "0" + Zeros(n - 1)
  }

  /** `n` in at least `width` digits. */
  function Padded(n: nat, width: nat): (s: string)
    ensures forall k | 0 <= k < |s| :: IsDigit(s[k])
  {
    var digits := Decimal(n);
    if |digits| < width then Zeros(width - |digits|) + digits else digits
  }

  lemma {:induction false} DigitRoundTrip(n: nat)
    requires n < 10
    ensures DigitValue(DIGITS[n]) == n
  {
  }

  lemma {:induction false} DecimalValue(n: nat, width: nat)
    requires n < Power(10, width) && 0 < width
    ensures DigitsValue(Decimal(n)) == n && |Decimal(n)| <= width
    decreases n
  {
    if n < 10 {
      DigitRoundTrip(n);
      assert [DIGITS[n]][..0] == "";
    } else {
      assert Power(10, 1) == 10;
      DecimalValue(n / 10, width - 1);
      DigitRoundTrip(n % 10);
      var s := Decimal(n);
      assert s[..|s| - 1] == Decimal(n / 10);
    }
  }

  lemma {:induction false} ZerosValue(n: nat, s: string)
    requires forall k | 0 <= k < |s| :: IsDigit(s[k])
    ensures DigitsValue(Zeros(n) + s) == DigitsValue(s)
    decreases |s|, n
  {
    var z := Zeros(n) + s;
    if s == "" {
      assert z == Zeros(n);
      JustZeros(z);
    } else {
      ZerosValue(n, s[..|s| - 1]);
      assert z[..|z| - 1] == Zeros(n) + s[..|s| - 1];
    }
  }

  lemma {:induction false} JustZeros(z: string)
    requires forall k | 0 <= k < |z| :: z[k] == '0'
    ensures DigitsValue(z) == 0
    decreases |z|
  {
    if z != "" { JustZeros(z[..|z| - 1]); }
  }

  /** A number that fits is written in exactly `width` digits, and they say that number. */
  lemma {:induction false} PaddedReads(n: nat, width: nat)
    requires n < Power(10, width) && 0 < width
    ensures |Padded(n, width)| == width && DigitsValue(Padded(n, width)) == n
  {
    DecimalValue(n, width);
    ZerosValue(width - |Decimal(n)|, Decimal(n));
  }

  method AppendZeroPadded(out: string, value: nat, width: nat) returns (r: string)
    ensures r == out + Padded(value, width)
  {
    var digits := Decimal(value);
    r := out;
    if |digits| < width {
      r := r + Zeros(width - |digits|);
    }
    r := r + digits;
  }

  // ---- the printer ---------------------------------------------------------------------------

  /** The seven fields, in the order they are written. */
  datatype Fields = Fields(year: nat, month: nat, day: nat, hour: nat, minute: nat, second: nat, ms: nat)

  function FieldsOf(t: Timestamp): Fields
    requires InRange(t)
  {
    CivilThenDays(DayOf(t));
    var date, time := DateOf(t), TimeOf(t);
    Fields(date.year, date.month, date.day,
           time / 3_600_000, time / 60_000 % 60, time / 1_000 % 60, time % 1_000)
  }

  function Spell(f: Fields): string {
    Padded(f.year, 4) + "-" + Padded(f.month, 2) + "-" + Padded(f.day, 2)
    + "T" + Padded(f.hour, 2) + ":" + Padded(f.minute, 2) + ":" + Padded(f.second, 2)
    + "." + Padded(f.ms, 3) + "Z"
  }

  function TimestampText(t: Timestamp): string
    requires InRange(t)
  {
    Spell(FieldsOf(t))
  }

  /** append_json_timestamp() */
  method AppendJsonTimestamp(out: string, t: Timestamp) returns (r: string)
    requires InRange(t)
    ensures r == out + "\"" + TimestampText(t) + "\""
  {
    CivilThenDays(DayOf(t));
    var date, time := DateOf(t), TimeOf(t);
    ghost var f := FieldsOf(t);
    hide Padded, CivilFromDays, IsDate, DaysFromCivil;
    r := out + "\"";
    ghost var start := r;
    r := AppendZeroPadded(r, date.year, 4);
    r := r + "-";
    r := AppendZeroPadded(r, date.month, 2);
    r := r + "-";
    r := AppendZeroPadded(r, date.day, 2);
    r := r + "T";
    r := AppendZeroPadded(r, time / 3_600_000, 2);
    r := r + ":";
    r := AppendZeroPadded(r, time / 60_000 % 60, 2);
    r := r + ":";
    r := AppendZeroPadded(r, time / 1_000 % 60, 2);
    r := r + ".";
    r := AppendZeroPadded(r, time % 1_000, 3);
    r := r + "Z\"";
    SpellOnto(start, f);
  }

  /** Appending the fields one after another appends their text. */
  lemma {:induction false} SpellOnto(start: string, f: Fields)
    ensures start + Padded(f.year, 4) + "-" + Padded(f.month, 2) + "-" + Padded(f.day, 2)
            + "T" + Padded(f.hour, 2) + ":" + Padded(f.minute, 2) + ":" + Padded(f.second, 2)
            + "." + Padded(f.ms, 3) + "Z\"" == start + Spell(f) + "\""
  {
    hide Padded;
    var date := Padded(f.year, 4) + "-" + Padded(f.month, 2) + "-" + Padded(f.day, 2);
    var time := Padded(f.hour, 2) + ":" + Padded(f.minute, 2) + ":" + Padded(f.second, 2);
    assert start + Padded(f.year, 4) + "-" + Padded(f.month, 2) + "-" + Padded(f.day, 2) == start + date;
    assert start + date + "T" + Padded(f.hour, 2) + ":" + Padded(f.minute, 2) + ":" + Padded(f.second, 2)
        == start + (date + "T" + time);
    assert date + "T" + Padded(f.hour, 2) + ":" + Padded(f.minute, 2) + ":" + Padded(f.second, 2) == date + "T" + time;
    var both := date + "T" + time;
    assert start + both + "." + Padded(f.ms, 3) + "Z\"" == start + (both + "." + Padded(f.ms, 3) + "Z") + "\"";
  }

  // ---- validity (RFC 3339 section 5.6) and the inverse ------------------------------------------

  /** Section 5.6 and 5.7: a real date and a real time of day. */
  predicate ValidFields(f: Fields) {
    && f.year <= 9999 && IsDate(Date(f.year, f.month, f.day))
    && f.hour <= 23 && f.minute <= 59 && f.second <= 59 && f.ms <= 999
  }

  /** The instant the fields name. */
  function Instant(f: Fields): Timestamp {
    MS_PER_DAY * DaysFromCivil(Date(f.year, f.month, f.day))
    + 3_600_000 * f.hour + 60_000 * f.minute + 1_000 * f.second + f.ms
  }

  predicate DigitsAt(s: string, i: nat, n: nat) {
    i + n <= |s| && forall k | i <= k < i + n :: IsDigit(s[k])
  }

  /** The layout yyyy-mm-ddThh:mm:ss.mmmZ. */
  predicate HasLayout(s: string) {
    && |s| == 24
    && DigitsAt(s, 0, 4) && s[4] == '-' && DigitsAt(s, 5, 2) && s[7] == '-' && DigitsAt(s, 8, 2) && s[10] == 'T'
    && DigitsAt(s, 11, 2) && s[13] == ':' && DigitsAt(s, 14, 2) && s[16] == ':' && DigitsAt(s, 17, 2) && s[19] == '.'
    && DigitsAt(s, 20, 3) && s[23] == 'Z'
  }

  function FieldAt(s: string, i: nat, n: nat): nat
    requires DigitsAt(s, i, n)
  {
    DigitsValue(s[i..i + n])
  }

  /** Reading the layout back. */
  function ReadFields(s: string): Fields
    requires HasLayout(s)
  {
    Fields(FieldAt(s, 0, 4), FieldAt(s, 5, 2), FieldAt(s, 8, 2),
           FieldAt(s, 11, 2), FieldAt(s, 14, 2), FieldAt(s, 17, 2), FieldAt(s, 20, 3))
  }

  lemma {:induction false} SpellLayout(f: Fields)
    requires ValidFields(f)
    ensures HasLayout(Spell(f)) && ReadFields(Spell(f)) == f
  {
    assert Power(10, 4) == 10_000 && Power(10, 3) == 1_000 && Power(10, 2) == 100;
    PaddedReads(f.year, 4);
    PaddedReads(f.month, 2);
    PaddedReads(f.day, 2);
    PaddedReads(f.hour, 2);
    PaddedReads(f.minute, 2);
    PaddedReads(f.second, 2);
    PaddedReads(f.ms, 3);
    hide Padded, DigitsValue, Power;
    LayoutOf(Padded(f.year, 4), Padded(f.month, 2), Padded(f.day, 2), Padded(f.hour, 2), Padded(f.minute, 2),
      Padded(f.second, 2), Padded(f.ms, 3));
  }

  lemma {:induction false} LayoutOf(y: string, mo: string, d: string, h: string, mi: string, s: string, ms: string)
    requires |y| == 4 && |mo| == |d| == |h| == |mi| == |s| == 2 && |ms| == 3
    ensures var r := y + "-" + mo + "-" + d + "T" + h + ":" + mi + ":" + s + "." + ms + "Z";
            && |r| == 24
            && r[0..4] == y && r[5..7] == mo && r[8..10] == d && r[11..13] == h && r[14..16] == mi && r[17..19] == s
            && r[20..23] == ms
            && r[4] == '-' && r[7] == '-' && r[10] == 'T' && r[13] == ':' && r[16] == ':' && r[19] == '.'
            && r[23] == 'Z'
  {
  }

  lemma {:induction false} FieldsAreValid(t: Timestamp)
    requires InRange(t)
    ensures ValidFields(FieldsOf(t)) && Instant(FieldsOf(t)) == t
  {
    CivilThenDays(DayOf(t));
    hide IsDate, DaysFromCivil, CivilFromDays;
    var time := TimeOf(t);
    assert time == 3_600_000 * (time / 3_600_000) + 60_000 * (time / 60_000 % 60) + 1_000 * (time / 1_000 % 60)
        + time % 1_000 by {
      assert time / 1_000 / 60 == time / 60_000;
      assert time / 60_000 / 60 == time / 3_600_000;
    }
  }

  /** Every printed timestamp is a date-time of RFC 3339, 24 bytes without its quotes, and names the
      instant it was printed from: before 1970 as well as after. */
  lemma {:induction false} TimestampReadsBack(t: Timestamp)
    requires InRange(t)
    ensures var s := TimestampText(t);
            && HasLayout(s)
            && ValidFields(ReadFields(s))
            && Instant(ReadFields(s)) == t
  {
    FieldsAreValid(t);
    SpellLayout(FieldsOf(t));
  }

  // ---- order --------------------------------------------------------------------------------

  /** Byte-wise comparison, as std::string's operator<. */
  predicate Less(a: string, b: string) {
    b != "" && (a == "" || a[0] < b[0] || (a[0] == b[0] && Less(a[1..], b[1..])))
  }

  lemma {:induction false} LessIrreflexive(a: string)
    ensures !Less(a, a)
    decreases |a|
  {
    if a != "" { LessIrreflexive(a[1..]); }
  }

  lemma {:induction false} LessAsymmetric(a: string, b: string)
    requires Less(a, b)
    ensures !Less(b, a)
    decreases |a|
  {
    if a != "" && a[0] == b[0] { LessAsymmetric(a[1..], b[1..]); }
  }

  /** A shared beginning does not matter; a first difference decides. */
  lemma {:induction false} LessConcat(a: string, b: string, x: string, y: string)
    requires |a| == |b|
    ensures a == b && Less(x, y) ==> Less(a + x, b + y)
    ensures Less(a, b) ==> Less(a + x, b + y)
    decreases |a|
  {
    if a == "" {
      assert a + x == x && b + y == y;
    } else {
      LessConcat(a[1..], b[1..], x, y);
      assert (a + x)[1..] == a[1..] + x && (b + y)[1..] == b[1..] + y;
    }
  }

  /** Digits of one length compare as their numbers do. */
  lemma {:induction false} LessDigits(a: string, b: string)
    requires |a| == |b| && (forall k | 0 <= k < |a| :: IsDigit(a[k]) && IsDigit(b[k]))
    ensures DigitsValue(a) < DigitsValue(b) ==> Less(a, b)
    ensures DigitsValue(a) == DigitsValue(b) ==> a == b
    decreases |a|
  {
    if a != "" {
      var n := |a| - 1;
      LessDigits(a[..n], b[..n]);
      LessConcat(a[..n], b[..n], a[n..], b[n..]);
      assert a == a[..n] + a[n..] && b == b[..n] + b[n..];
      assert Less(a[n..], b[n..]) <==> a[n] < b[n];
    }
  }

  predicate FieldsLess(f: Fields, g: Fields) {
    f.year < g.year || (f.year == g.year && (
    f.month < g.month || (f.month == g.month && (
    f.day < g.day || (f.day == g.day && (
    f.hour < g.hour || (f.hour == g.hour && (
    f.minute < g.minute || (f.minute == g.minute && (
    f.second < g.second || (f.second == g.second && f.ms < g.ms)))))))))))
  }

  /** One field in front: written in the same number of digits, followed by the same separator. */
  lemma {:induction false} FieldFirst(m: nat, n: nat, width: nat, separator: string, x: string, y: string)
    requires 0 < width && m < Power(10, width) && n < Power(10, width)
    ensures m < n || (m == n && Less(x, y)) ==>
              Less(Padded(m, width) + (separator + x), Padded(n, width) + (separator + y))
  {
    PaddedReads(m, width);
    PaddedReads(n, width);
    hide Padded;
    LessDigits(Padded(m, width), Padded(n, width));
    LessConcat(separator, separator, x, y);
    LessConcat(Padded(m, width), Padded(n, width), separator + x, separator + y);
  }

  /** The text from one field on. */
  function SecondOn(f: Fields): string {
    Padded(f.second, 2) + ("." + (Padded(f.ms, 3) + ("Z" + "")))
  }

  function HourOn(f: Fields): string {
    Padded(f.hour, 2) + (":" + (Padded(f.minute, 2) + (":" + SecondOn(f))))
  }

  function YearOn(f: Fields): string {
    Padded(f.year, 4) + ("-" + (Padded(f.month, 2) + ("-" + (Padded(f.day, 2) + ("T" + HourOn(f))))))
  }

  lemma {:induction false} SpellIsYearOn(f: Fields)
    ensures Spell(f) == YearOn(f)
  {
    hide Padded;
    var hour := Padded(f.hour, 2) + ":" + Padded(f.minute, 2) + ":" + Padded(f.second, 2) + "." + Padded(f.ms, 3) + "Z";
    assert hour == HourOn(f);
    assert Spell(f) == Padded(f.year, 4) + "-" + Padded(f.month, 2) + "-" + Padded(f.day, 2) + "T" + hour;
  }

  lemma {:induction false} TimeOrder(f: Fields, g: Fields)
    requires ValidFields(f) && ValidFields(g)
    requires f.hour < g.hour || (f.hour == g.hour && (
             f.minute < g.minute || (f.minute == g.minute && (
             f.second < g.second || (f.second == g.second && f.ms < g.ms)))))
    ensures Less(HourOn(f), HourOn(g))
  {
    assert Power(10, 3) == 1_000 && Power(10, 2) == 100;
    hide Padded, Power, IsDate;
    FieldFirst(f.ms, g.ms, 3, "Z", "", "");
    FieldFirst(f.second, g.second, 2, ".", Padded(f.ms, 3) + ("Z" + ""), Padded(g.ms, 3) + ("Z" + ""));
    FieldFirst(f.minute, g.minute, 2, ":", SecondOn(f), SecondOn(g));
    FieldFirst(f.hour, g.hour, 2, ":", Padded(f.minute, 2) + (":" + SecondOn(f)),
      Padded(g.minute, 2) + (":" + SecondOn(g)));
  }

  lemma {:induction false} FieldsOrder(f: Fields, g: Fields)
    requires ValidFields(f) && ValidFields(g) && FieldsLess(f, g)
    ensures Less(Spell(f), Spell(g))
  {
    assert Power(10, 4) == 10_000 && Power(10, 2) == 100;
    hide Padded, Power, HourOn, Spell;
    if f.year == g.year && f.month == g.month && f.day == g.day { TimeOrder(f, g); }
    var x, y := HourOn(f), HourOn(g);
    FieldFirst(f.day, g.day, 2, "T", x, y);
    FieldFirst(f.month, g.month, 2, "-", Padded(f.day, 2) + ("T" + x), Padded(g.day, 2) + ("T" + y));
    FieldFirst(f.year, g.year, 4, "-", Padded(f.month, 2) + ("-" + (Padded(f.day, 2) + ("T" + x))),
      Padded(g.month, 2) + ("-" + (Padded(g.day, 2) + ("T" + y))));
    SpellIsYearOn(f);
    SpellIsYearOn(g);
  }

  lemma {:induction false} EarlierFields(s: Timestamp, t: Timestamp)
    requires InRange(s) && InRange(t) && s < t
    ensures FieldsLess(FieldsOf(s), FieldsOf(t))
  {
    var a, b := TimeOf(s), TimeOf(t);
    CivilThenDays(DayOf(s));
    CivilThenDays(DayOf(t));
    DayOrderIsDateOrder(DayOf(s), DayOf(t));
    hide CivilFromDays, DaysFromCivil, IsDate;
    assert DayOf(s) < DayOf(t) || (DayOf(s) == DayOf(t) && a < b);
    if DayOf(s) == DayOf(t) { TimeFieldsOrder(a, b); }
  }

  lemma {:induction false} TimeFieldsOrder(a: nat, b: nat)
    requires a < b
    ensures a / 3_600_000 < b / 3_600_000 || (a / 3_600_000 == b / 3_600_000 && (
            a / 60_000 % 60 < b / 60_000 % 60 || (a / 60_000 % 60 == b / 60_000 % 60 && (
            a / 1_000 % 60 < b / 1_000 % 60 || (a / 1_000 % 60 == b / 1_000 % 60 && a % 1_000 < b % 1_000)))))
  {
    assert a / 1_000 / 60 == a / 60_000 && b / 1_000 / 60 == b / 60_000;
    assert a / 60_000 / 60 == a / 3_600_000 && b / 60_000 / 60 == b / 3_600_000;
  }

  /** Byte order of printed timestamps is order in time. */
  lemma {:induction false} TextOrderIsTimeOrder(s: Timestamp, t: Timestamp)
    requires InRange(s) && InRange(t)
    ensures s < t <==> Less(TimestampText(s), TimestampText(t))
    ensures s == t <==> TimestampText(s) == TimestampText(t)
  {
    FieldsAreValid(s);
    FieldsAreValid(t);
    hide Spell, FieldsOf, ValidFields, InRange;
    var a, b := TimestampText(s), TimestampText(t);
    if s < t {
      EarlierFields(s, t);
      FieldsOrder(FieldsOf(s), FieldsOf(t));
    } else if t < s {
      EarlierFields(t, s);
      FieldsOrder(FieldsOf(t), FieldsOf(s));
      LessAsymmetric(b, a);
    }
    LessIrreflexive(a);
  }
}
