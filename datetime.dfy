/**
  Unix time of the first instant of a year. chrono computes it; the value is
  fixed by the "Seconds Since the Epoch" formula of section 4.16 of the
  POSIX.1-2017 Base Definitions over the proleptic Gregorian calendar,
  which is what is written out here.
 */
module Datetime {

  const I32Min: int := -0x8000_0000
  const I32Max: int := 0x7fff_ffff
  const SecondsPerDay: int := 86400

  /** The fields of a broken-down UTC time that the POSIX formula reads:
      `tm_year` counts years from 1900, `tm_yday` days from 1 January. */
  datatype BrokenDownTime = BrokenDownTime(tmYear: int, tmYday: int, tmHour: int, tmMin: int, tmSec: int)

  /** `year_to_datetime`: 00:00:00 UTC on 1 January of `year`. */
  function YearToDateTime(year: int): (t: BrokenDownTime)
    ensures t.tmYear + 1900 == year
    ensures t.tmYday == 0 && t.tmHour == 0 && t.tmMin == 0 && t.tmSec == 0
  {
    BrokenDownTime(year - 1900, 0, 0, 0, 0)
  }

  /**
    Whole days since the Epoch at the start of day `tm_yday` of year
    `tm_year`: the day terms of the formula of section 4.16 of
    POSIX.1-2017, with floor division (Dafny's `/` for a positive divisor),
    which keeps the formula exact for years before 1970 as well.
   */
  function DaysSinceEpoch(t: BrokenDownTime): int {
    t.tmYday + (t.tmYear - 70) * 365 + (t.tmYear - 69) / 4 - (t.tmYear - 1) / 100 + (t.tmYear + 299) / 400
  }

  /** Seconds since the Epoch, section 4.16 of POSIX.1-2017 (each day term there carries the factor 86400). */
  function SecondsSinceEpoch(t: BrokenDownTime): int {
    t.tmSec + t.tmMin * 60 + t.tmHour * 3600 + DaysSinceEpoch(t) * SecondsPerDay
  }

  lemma MultipleOfDay(d: int)
    ensures (d * SecondsPerDay) % SecondsPerDay == 0
  {
  }

  /** `year_to_ts`: Unix seconds of 00:00:00 UTC on 1 January of `year`. */
  function YearToTs(year: int): (ts: int)
    requires I32Min <= year <= I32Max
    ensures ts % SecondsPerDay == 0
    ensures year == 1970 ==> ts == 0
  {
    var t := YearToDateTime(year);
    MultipleOfDay(DaysSinceEpoch(t));
    SecondsSinceEpoch(t)
  }

  /** Gregorian leap years: divisible by 4, and not by 100 unless also by 400. */
  predicate IsLeapYear(y: int) {
    y % 4 == 0 && (y % 100 != 0 || y % 400 == 0)
  }

  function DaysInYear(y: int): int {
    if IsLeapYear(y) then 366 else 365
  }

  lemma Step4(ty: int)
    ensures (ty + 1 - 69) / 4 - (ty - 69) / 4 == if (ty + 1900) % 4 == 0 then 1 else 0
  {
    assert ty + 1900 == (ty - 68) + 4 * 492;
  }

  lemma Step100(ty: int)
    ensures (ty + 1 - 1) / 100 - (ty - 1) / 100 == if (ty + 1900) % 100 == 0 then 1 else 0
  {
    assert ty + 1900 == ty + 100 * 19;
  }

  lemma Step400(ty: int)
    ensures (ty + 1 + 299) / 400 - (ty + 299) / 400 == if (ty + 1900) % 400 == 0 then 1 else 0
  {
    assert ty + 1900 == (ty + 300) + 400 * 4;
  }

  /** One more year of the formula adds 365 days and one per leap-day term that steps. */
  lemma DaysDiff(ty: int)
    ensures DaysSinceEpoch(BrokenDownTime(ty + 1, 0, 0, 0, 0)) - DaysSinceEpoch(BrokenDownTime(ty, 0, 0, 0, 0))
      == 365 + (if (ty + 1900) % 4 == 0 then 1 else 0) - (if (ty + 1900) % 100 == 0 then 1 else 0)
             + (if (ty + 1900) % 400 == 0 then 1 else 0)
  {
    Step4(ty);
    Step100(ty);
    Step400(ty);
  }

  lemma MultipleOf400(y: int)
    requires y % 400 == 0
    ensures y % 100 == 0
  {
    assert y == 100 * (4 * (y / 400));
  }

  lemma MultipleOf100(y: int)
    requires y % 100 == 0
    ensures y % 4 == 0
  {
    assert y == 4 * (25 * (y / 100));
  }

  lemma DaysStep(ty: int)
    ensures DaysSinceEpoch(BrokenDownTime(ty + 1, 0, 0, 0, 0)) - DaysSinceEpoch(BrokenDownTime(ty, 0, 0, 0, 0))
      == DaysInYear(ty + 1900)
  {
    DaysDiff(ty);
    var y := ty + 1900;
    if y % 400 == 0 {
      MultipleOf400(y);
    }
    if y % 100 == 0 {
      MultipleOf100(y);
    }
  }

  lemma YearToTsDays(y: int)
    requires I32Min <= y <= I32Max
    ensures YearToTs(y) == DaysSinceEpoch(BrokenDownTime(y - 1900, 0, 0, 0, 0)) * SecondsPerDay
  {
  }

  /** A year lasts 366 days if it is a leap year and 365 days otherwise. */
  lemma YearLength(y: int)
    requires I32Min <= y < I32Max
    ensures YearToTs(y + 1) - YearToTs(y) == DaysInYear(y) * SecondsPerDay
  {
    YearToTsDays(y);
    YearToTsDays(y + 1);
    DaysStep(y - 1900);
    assert y + 1 - 1900 == (y - 1900) + 1;
  }

  /** Days from 1 January 1970 to 1 January `y`, counted year by year
      (negative before 1970). */
  function DaysFromEpoch(y: int): int
    decreases if y >= 1970 then y - 1970 else 1970 - y
  {
    if y == 1970 then 0
    else if y > 1970 then DaysFromEpoch(y - 1) + DaysInYear(y - 1)
    else DaysFromEpoch(y + 1) - DaysInYear(y)
  }

  /** The closed formula agrees with counting whole days year by year from the Epoch. */
  lemma {:induction false} YearToTsCountsDays(y: int)
    requires I32Min <= y <= I32Max
    ensures YearToTs(y) == DaysFromEpoch(y) * SecondsPerDay
    decreases if y >= 1970 then y - 1970 else 1970 - y
  {
    if y > 1970 {
      YearToTsCountsDays(y - 1);
      YearLength(y - 1);
    } else if y < 1970 {
      YearToTsCountsDays(y + 1);
      YearLength(y);
    }
  }

  /** Later years start later. */
  lemma {:induction false} YearToTsIncreasing(y1: int, y2: int)
    requires I32Min <= y1 < y2 <= I32Max
    ensures YearToTs(y1) < YearToTs(y2)
    decreases y2 - y1
  {
    YearLength(y2 - 1);
    if y1 < y2 - 1 {
      YearToTsIncreasing(y1, y2 - 1);
    }
  }
}
