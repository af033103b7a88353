/**
 The timestamp printer against a clock that only knows the next millisecond: no day length and no
 division stand in it, so it says independently what the printed fields of every instant are.
 */
module TimestampClock {
  import opened Calendar
  import opened JsonTimestamp

  /** One millisecond later. */
  function Tick(f: Fields): Fields
    requires IsDate(Date(f.year, f.month, f.day))
  {
    if f.ms < 999 then f.(ms := f.ms + 1)
    else if f.second < 59 then f.(second := f.second + 1, ms := 0)
    else if f.minute < 59 then f.(minute := f.minute + 1, second := 0, ms := 0)
    else if f.hour < 23 then f.(hour := f.hour + 1, minute := 0, second := 0, ms := 0)
    else
      var next := Next(Date(f.year, f.month, f.day));
      Fields(next.year, next.month, next.day, 0, 0, 0, 0)
  }

  lemma {:induction false} TimeTicks(time: int)
    requires 0 <= time && time + 1 < MS_PER_DAY
    ensures var (h, m, s, ms) := (time / 3_600_000, time / 60_000 % 60, time / 1_000 % 60, time % 1_000);
            var (h', m', s', ms') :=
              ((time + 1) / 3_600_000, (time + 1) / 60_000 % 60, (time + 1) / 1_000 % 60, (time + 1) % 1_000);
            if ms < 999 then (h', m', s', ms') == (h, m, s, ms + 1)
            else if s < 59 then (h', m', s', ms') == (h, m, s + 1, 0)
            else if m < 59 then (h', m', s', ms') == (h, m + 1, 0, 0)
            else h < 23 && (h', m', s', ms') == (h + 1, 0, 0, 0)
  {
    var s, m, h := time / 1_000, time / 60_000, time / 3_600_000;
    assert m == s / 60 && h == m / 60 && h <= 23;
    var s', m', h' := (time + 1) / 1_000, (time + 1) / 60_000, (time + 1) / 3_600_000;
    assert m' == s' / 60 && h' == m' / 60;
    assert s' == if time % 1_000 < 999 then s else s + 1;
  }

  /** The next millisecond of a day, or of the day after. */
  lemma {:induction false} DayTicks(t: Timestamp)
    ensures DayOf(t + 1) == if TimeOf(t) + 1 < MS_PER_DAY then DayOf(t) else DayOf(t) + 1
    ensures TimeOf(t + 1) == if TimeOf(t) + 1 < MS_PER_DAY then TimeOf(t) + 1 else 0
  {
  }

  lemma {:induction false} TickWithinDay(t: Timestamp)
    requires InRange(t) && InRange(t + 1) && TimeOf(t) + 1 < MS_PER_DAY && ValidFields(FieldsOf(t))
    ensures FieldsOf(t + 1) == Tick(FieldsOf(t))
  {
    DayTicks(t);
    TimeTicks(TimeOf(t));
    hide CivilFromDays, DaysFromCivil, IsDate, Next, DayOf, TimeOf;
  }

  lemma {:induction false} LastTick(time: int)
    requires time + 1 == MS_PER_DAY
    ensures time / 3_600_000 == 23 && time / 60_000 % 60 == 59 && time / 1_000 % 60 == 59 && time % 1_000 == 999
  {
  }

  /** The first and the last instant of a day. */
  lemma {:induction false} DayEnds(t: Timestamp)
    requires InRange(t)
    ensures var d, f := DateOf(t), FieldsOf(t);
            && (f.year, f.month, f.day) == (d.year, d.month, d.day)
            && (TimeOf(t) == 0 ==> (f.hour, f.minute, f.second, f.ms) == (0, 0, 0, 0))
            && (TimeOf(t) + 1 == MS_PER_DAY ==> (f.hour, f.minute, f.second, f.ms) == (23, 59, 59, 999))
  {
    hide CivilFromDays, DaysFromCivil, IsDate, DayOf, TimeOf;
    if TimeOf(t) + 1 == MS_PER_DAY { LastTick(TimeOf(t)); }
  }

  lemma {:induction false} TickAtMidnight(t: Timestamp)
    requires InRange(t) && InRange(t + 1) && TimeOf(t) + 1 == MS_PER_DAY && ValidFields(FieldsOf(t))
    ensures FieldsOf(t + 1) == Tick(FieldsOf(t))
  {
    hide CivilFromDays, DaysFromCivil, IsDate, Next, DayOf, TimeOf, FieldsOf;
    DayTicks(t);
    CivilIsTheCalendar(DayOf(t));
    DayEnds(t);
    DayEnds(t + 1);
  }

  /** The fields of every instant are the tick of the fields of the one before, before 1970 too. */
  lemma {:induction false} FieldsTick(t: Timestamp)
    requires InRange(t) && InRange(t + 1)
    ensures ValidFields(FieldsOf(t)) && FieldsOf(t + 1) == Tick(FieldsOf(t))
  {
    hide FieldsOf, ValidFields, InRange, DayOf;
    FieldsAreValid(t);
    if TimeOf(t) + 1 < MS_PER_DAY {
      TickWithinDay(t);
    } else {
      TickAtMidnight(t);
    }
  }

  /** And the clock starts at 1970-01-01T00:00:00.000Z, instant 0. */
  lemma {:induction false} ClockStarts()
    ensures InRange(0) && FieldsOf(0) == Fields(1970, 1, 1, 0, 0, 0, 0)
    ensures TimestampText(0) == "1970-01-01T00:00:00.000Z"
  {
    CivilIsTheCalendar(0);
    hide CivilFromDays, Padded;
    FirstFields();
  }

  lemma {:induction false} FirstFields()
    ensures Padded(1970, 4) == "1970" && Padded(1, 2) == "01" && Padded(0, 2) == "00" && Padded(0, 3) == "000"
  {
    assert Decimal(19) == Decimal(1) + "9";
    assert Decimal(197) == Decimal(19) + "7";
    assert Decimal(1970) == Decimal(197) + "0";
    assert Zeros(1) == "0" && Zeros(2) == "00";
  }

  /** The years 0000 to 9999 are the instants from 0000-01-01T00:00:00.000Z to 9999-12-31T23:59:59.999Z. */
  lemma {:induction false} RangeIs(t: Timestamp)
    ensures InRange(t) <==> -62_167_219_200_000 <= t <= 253_402_300_799_999
  {
    FirstAndLastDay();
    hide CivilFromDays, DaysFromCivil, IsDate;
    var day := DayOf(t);
    assert day < -719_528 <==> t < -62_167_219_200_000;
    assert day > 2_932_896 <==> t > 253_402_300_799_999;
    CivilThenDays(day);
    DayOrderIsDateOrder(day, -719_528);
    DayOrderIsDateOrder(2_932_896, day);
    DayInYear(day);
  }

  lemma {:induction false} FirstAndLastDay()
    ensures CivilFromDays(-719_528) == Date(0, 1, 1)
    ensures CivilFromDays(2_932_896) == Date(9999, 12, 31)
  {
    hide CivilFromDays;
    assert DaysFromCivil(Date(0, 1, 1)) == -719_528;
    assert DaysFromCivil(Date(9999, 12, 31)) == 2_932_896;
    assert IsDate(Date(0, 1, 1)) && IsDate(Date(9999, 12, 31));
    hide DaysFromCivil, IsDate;
    DaysThenCivil(Date(0, 1, 1));
    DaysThenCivil(Date(9999, 12, 31));
  }

  /** Within a year no date is before its first day or after its last. */
  lemma {:induction false} DayInYear(n: int)
    ensures var d := CivilFromDays(n);
            && (DateLess(d, Date(0, 1, 1)) <==> d.year < 0)
            && (DateLess(Date(9999, 12, 31), d) <==> d.year > 9999)
  {
    CivilThenDays(n);
    hide CivilFromDays, DaysFromCivil;
  }
}
