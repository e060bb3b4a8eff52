/** ISO week year and week number of a calendar day. */
module IsoWeek {

  const BASE_YEAR := 1900

  predicate Leap(y: int) {
    y % 4 == 0 && (y % 100 != 0 || y % 400 == 0)
  }

  function YearLength(y: int): int {
    if Leap(y) then 366 else 365
  }

  /** Day number of 1 January of year `y`: 365 days a year and one for each leap
      year before it, counted from 1 January of year 1. */
  function NewYear(y: int): int {
    365 * (y - 1) + (y - 1) / 4 - (y - 1) / 100 + (y - 1) / 400
  }

  /** The closed form agrees with the leap-year rule. */
  lemma NewYearStep(y: int)
    ensures NewYear(y + 1) == NewYear(y) + YearLength(y)
  {
    DivStep(y, 4);
    DivStep(y, 100);
    DivStep(y, 400);
    LeapRuleNests(y);
  }

  /** The calendar repeats every 400 years, which have 97 leap years. */
  lemma GregorianCycle(y: int)
    ensures NewYear(y + 400) == NewYear(y) + 400 * 365 + 97
    ensures Leap(y + 400) <==> Leap(y)
  {
    YearsCycle(y);
    LeapCycle(y);
    hide NewYear, Leap;
  }

  lemma YearsCycle(y: int)
    ensures NewYear(y + 400) == NewYear(y) + 400 * 365 + 97
  {
    DivShift4(y - 1);
    DivShift100(y - 1);
    DivShift400(y - 1);
  }

  lemma LeapCycle(y: int)
    ensures Leap(y + 400) <==> Leap(y)
  {
    DivShift4(y);
    DivShift100(y);
    DivShift400(y);
  }

  lemma DivShift4(y: int)
    ensures (y + 400) / 4 == y / 4 + 100 && (y + 400) % 4 == y % 4
  {
  }

  lemma DivShift100(y: int)
    ensures (y + 400) / 100 == y / 100 + 4 && (y + 400) % 100 == y % 100
  {
  }

  lemma DivShift400(y: int)
    ensures (y + 400) / 400 == y / 400 + 1 && (y + 400) % 400 == y % 400
  {
  }

  /** Centuries are leap years only every fourth time, and the year 2000 began on a Saturday. */
  lemma LeapYears()
    ensures Leap(2000) && !Leap(1900) && Leap(2024) && !Leap(2023)
    ensures NewYear(1) == 0 && Weekday(NewYear(2000)) == 5
  {
  }

  lemma LeapRuleNests(y: int)
    ensures y % 400 == 0 ==> y % 100 == 0
    ensures y % 100 == 0 ==> y % 4 == 0
  {
    if y % 400 == 0 { MultipleOf100(y, 4 * (y / 400)); }
    if y % 100 == 0 { MultipleOf4(y, 25 * (y / 100)); }
  }

  lemma MultipleOf100(y: int, q: int)
    requires y == 100 * q
    ensures y % 100 == 0
  {
  }

  lemma MultipleOf4(y: int, q: int)
    requires y == 4 * q
    ensures y % 4 == 0
  {
  }

  lemma DivStep(y: int, d: int)
    requires d in {4, 100, 400}
    ensures y / d == (y - 1) / d + (if y % d == 0 then 1 else 0)
  {
  }

  lemma {:induction false} NewYearsIncrease(a: int, b: int)
    requires a < b
    ensures NewYear(a) + 365 <= NewYear(b)
    decreases b - a
  {
    NewYearStep(b - 1);
    if a == b - 1 {
    } else {
      NewYearsIncrease(a, b - 1);
    }
  }

  /** Monday is 0. */
  function FromMonday(wday: int): int {
    (wday + 6) % 7
  }

  /** The day number of the Thursday of the Monday-based week that holds a day of
      year `y` with Sunday-based weekday `wday`. */
  function Thursday(y: int, yday: int, wday: int): int {
    NewYear(y) + yday - FromMonday(wday) + 3
  }

  /** Section 2.2.10 of ISO 8601:2004: a week belongs to the year its Thursday
      falls in and is numbered by that Thursday's position in the year. */
  ghost predicate IsIsoWeek(thursday: int, year: int, week: int) {
    && NewYear(year) <= thursday < NewYear(year + 1)
    && week == 1 + (thursday - NewYear(year)) / 7
  }

  lemma IsoWeekIsUnique(t: int, y1: int, w1: int, y2: int, w2: int)
    requires IsIsoWeek(t, y1, w1) && IsIsoWeek(t, y2, w2)
    ensures y1 == y2 && w1 == w2
  {
    if y1 < y2 {
      if y1 + 1 < y2 { NewYearsIncrease(y1 + 1, y2); }
    } else if y2 < y1 {
      if y2 + 1 < y1 { NewYearsIncrease(y2 + 1, y1); }
    }
  }

  /** Where a day stands relative to a Monday `b` that starts the year's week 1. */
  lemma Align(yday: int, wday: int, b: int)
    requires 0 <= wday <= 6 && -3 <= b <= 3
    requires (yday - FromMonday(wday) - b) % 7 == 0
    ensures 0 <= FromMonday(wday) <= 6
    ensures var th := yday - FromMonday(wday) + 3;
            (yday >= b <==> th >= 0) && (th >= 0 ==> (yday - b) / 7 == th / 7)
  {
    var k := (yday - FromMonday(wday) - b) / 7;
    assert yday - FromMonday(wday) == b + 7 * k;
    assert (yday - b) == 7 * k + FromMonday(wday);
  }

  /** The two bounds of the loop are Mondays, within three days of the year's ends. */
  lemma BoundsAreMondays(yday: int, wday: int, length: int)
    requires 0 <= wday <= 6 && length in {365, 366}
    ensures var bottom := (yday + 11 - wday) % 7 - 3;
            var t := bottom - length % 7;
            var top := if t < -3 then t + 7 else t;
            && -3 <= bottom <= 3 && (yday - FromMonday(wday) - bottom) % 7 == 0
            && -3 <= top <= 3 && (yday - length - FromMonday(wday) - top) % 7 == 0
  {
    var x := yday + 11 - wday;
    assert x == 7 * (x / 7) + x % 7;
    var m := if wday == 0 then 6 else wday - 1;
    assert FromMonday(wday) == m;
    assert yday - m - (x % 7 - 3) == 7 * (x / 7) + (wday - m - 8);
  }

  /** Year and week of a broken-down date, for every year, day of the year and
      weekday.  `rounds` counts the passes of the loop. */
  method CalYearWeek(tmYear: int, tmYday: int, tmWday: int) returns (year: int, w: int, ghost rounds: nat)
    requires 0 <= tmYday < YearLength(tmYear + BASE_YEAR) && 0 <= tmWday <= 6
    ensures IsIsoWeek(Thursday(tmYear + BASE_YEAR, tmYday, tmWday), year, w)
    ensures 1 <= w <= 53
    ensures rounds <= 2
  {
    hide NewYear, Leap, FromMonday;
    year := tmYear + BASE_YEAR;
    var yday := tmYday;
    var wday := tmWday;
    rounds := 0;
    w := 0;
    ghost var first := year;
    NewYearStep(first);
    NewYearStep(first + 1);
    NewYearStep(first - 1);
    while true
      invariant rounds <= 1 && year == first - rounds
      invariant NewYear(year) + yday == NewYear(first) + tmYday
      invariant rounds == 0 ==> yday == tmYday
      invariant rounds == 1 ==> yday == tmYday + YearLength(year)
                                && tmYday - FromMonday(wday) + 3 < 0
      decreases 2 - rounds
    {
      rounds := rounds + 1;
      var length := if Leap(year) then 366 else 365;
      BoundsAreMondays(yday, wday, length);
      var bottom := (yday + 11 - wday) % 7 - 3;
      Align(yday, wday, bottom);
      var top := bottom - length % 7;
      if top < -3 {
        top := top + 7;
      }
      Align(yday - length, wday, top);
      top := top + length;
      if yday >= top {
        year := year + 1;
        w := 1;
        break;
      }
      if yday >= bottom {
        w := 1 + (yday - bottom) / 7;
        break;
      }
      year := year - 1;
      yday := yday + (if Leap(year) then 366 else 365);
    }
  }

  /** Weekday of a day number, Monday being 0: day 0 is Monday 1 January of year 1. */
  function Weekday(day: int): int {
    day % 7
  }

  /** The seven days from a Monday to a Sunday share one Thursday, hence one ISO week. */
  lemma DaysOfOneWeekAgree(y1: int, d1: int, w1: int, y2: int, d2: int, w2: int)
    requires 0 <= w1 <= 6 && 0 <= w2 <= 6
    requires FromMonday(w1) == Weekday(NewYear(y1) + d1) && FromMonday(w2) == Weekday(NewYear(y2) + d2)
    ensures Thursday(y1, d1, w1) == Thursday(y2, d2, w2) <==>
              (NewYear(y1) + d1) / 7 == (NewYear(y2) + d2) / 7
  {
    var a, b := NewYear(y1) + d1, NewYear(y2) + d2;
    assert a == 7 * (a / 7) + a % 7 && b == 7 * (b / 7) + b % 7;
  }

  /** The fourth of January is always in week 1 of its own year. */
  lemma FourthOfJanuary(y: int, wday: int, year: int, week: int)
    requires 0 <= wday <= 6 && IsIsoWeek(Thursday(y, 3, wday), year, week)
    ensures year == y && week == 1
  {
    NewYearStep(y);
    IsoWeekIsUnique(Thursday(y, 3, wday), year, week, y, 1 + (3 - FromMonday(wday) + 3) / 7);
  }

  lemma LastThursday(n: int, d: int)
    requires d in {364, 365}
    ensures (n + d) % 7 == 3 <==> n % 7 == (if d == 364 then 3 else 2)
  {
  }

  /** A year has a week 53 exactly when it starts on a Thursday, or on a Wednesday
      and is a leap year. */
  lemma FiftyThreeWeeks(y: int)
    ensures (exists t :: Weekday(t) == 3 && IsIsoWeek(t, y, 53)) <==>
              Weekday(NewYear(y)) == 3 || (Weekday(NewYear(y)) == 2 && Leap(y))
  {
    NewYearStep(y);
    var n := NewYear(y);
    LastThursday(n, 364);
    LastThursday(n, 365);
    hide NewYear, Leap;
    if t :| Weekday(t) == 3 && IsIsoWeek(t, y, 53) {
      assert t == n + 364 || (t == n + 365 && Leap(y));
    }
    if Weekday(n) == 3 {
      assert Weekday(n + 364) == 3 && IsIsoWeek(n + 364, y, 53);
    }
    if Weekday(n) == 2 && Leap(y) {
      assert Weekday(n + 365) == 3 && IsIsoWeek(n + 365, y, 53);
    }
  }
  /** The first of January 2021, a Friday, was in week 53 of 2020. */
  method NewYear2021() returns (year: int, week: int)
    ensures year == 2020 && week == 53
  {
    ghost var rounds;
    year, week, rounds := CalYearWeek(121, 0, 5);
    IsoWeekIsUnique(Thursday(2021, 0, 5), year, week, 2020, 53);
  }
}
