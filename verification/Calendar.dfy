/** Calendar time to seconds: the closed form with its 32-bit fast branch, against a month-by-month count. */
module Calendar {
  import opened Arith

  const TWO64: int := 0x1_0000_0000_0000_0000

  function ToU64(x: int): nat { x % TWO64 }

  // Fields as in C: `year` counts from 1900, `mon` from 0.
  datatype Tm = Tm(year: int, mon: int, mday: int, hour: int, min: int, sec: int) {
    predicate InRange() {
      FitsInt(year) && FitsInt(mon) && FitsInt(mday) && -0x8000_0000 < mday && FitsInt(hour) && FitsInt(min)
          && FitsInt(sec)
    }
  }

  lemma AddU64(x: int, y: int)
    ensures ToU64(ToU64(x) + y) == ToU64(x + y)
  {
    ShiftU64(x + y, -(x / TWO64));
  }

  lemma ShiftU64(x: int, k: int)
    ensures ToU64(x + k * TWO64) == ToU64(x)
  {
  }

  // ----- the code

  /** `__year_to_secs`: seconds at the start of the year, as an unsigned 64-bit value, and the leap flag. */
  method YearToSecs(year: int) returns (secs: nat, isLeap: bool)
    requires 0 <= year < TWO64
    ensures secs == YearSecs(year) && isLeap == LeapFlag(year)
  {
    hide ToU64, WrapInt;
    if ToU64(year - 2) <= 136 {
      var y := year;
      var leaps := (y - 68) / 4;  // arithmetic shift
      if (y - 68) % 4 == 0 {
        leaps := leaps - 1;
        isLeap := true;
      } else {
        isLeap := false;
      }
      secs := ToU64(31536000 * (y - 70) + 86400 * leaps);
      return;
    }
    var cycles := WrapInt(ToU64(year - 100) / 400);
    var rem := ToU64(year - 100) % 400;
    var centuries, leaps;
    if rem == 0 {
      isLeap := true;
      centuries := 0;
      leaps := 0;
    } else {
      if rem >= 200 {
        if rem >= 300 {
          centuries, rem := 3, rem - 300;
        } else {
          centuries, rem := 2, rem - 200;
        }
      } else {
        if rem >= 100 {
          centuries, rem := 1, rem - 100;
        } else {
          centuries := 0;
        }
      }
      if rem == 0 {
        isLeap := false;
        leaps := 0;
      } else {
        leaps := rem / 4;
        rem := rem % 4;
        isLeap := rem == 0;
      }
    }
    leaps := WrapInt(leaps + 97 * cycles + 24 * centuries - if isLeap then 1 else 0);
    secs := ToU64((year - 100) * 31536000 + leaps * 86400 + 946684800 + 86400);
  }

  /** The days before each month of a common year. */
  function Through(month: nat): nat
    requires month < 12
  {
    [0, 31, 59, 90, 120, 151, 181, 212, 243, 273, 304, 334][month]
  }

  /** C's `/` and `%` truncate toward zero. */
  function TruncDiv(a: int, b: int): int
    requires b > 0
  {
    if a >= 0 then a / b else -(-a / b)
  }

  lemma FloorMonth(mon: int)
    ensures var q, r := TruncDiv(mon, 12), mon - 12 * TruncDiv(mon, 12);
      && mon / 12 == (if r < 0 then q - 1 else q) && mon % 12 == (if r < 0 then r + 12 else r)
      && (0 <= mon < 12 ==> mon / 12 == 0 && mon % 12 == mon)
  {
  }

  lemma U64Range(x: int)
    ensures 0 <= ToU64(x) < TWO64
  {
  }

  method Mktime(tm: Tm) returns (t: nat)
    requires tm.InRange()
    ensures t == TmSecs(tm)
  {
    hide ToU64, YearSecs, LeapFlag;
    var year := ToU64(tm.year);
    var month := tm.mon;
    if month >= 12 || month < 0 {
      var adj := TruncDiv(month, 12);
      month := month - 12 * adj;
      if month < 0 {
        adj := adj - 1;
        month := month + 12;
      }
      AddU64(tm.year, adj);
      year := ToU64(year + adj);
    }
    FloorMonth(tm.mon);
    assert year == ToU64(TmYear(tm)) && month == tm.mon % 12;
    U64Range(TmYear(tm));
    var isLeap;
    t, isLeap := YearToSecs(year);
    ghost var sum := t + 86400 * Through(month);
    t := ToU64(t + 86400 * Through(month));
    if isLeap && month >= 2 {
      AddU64(sum, 86400);
      t := ToU64(t + 86400);
      sum := sum + 86400;
    }
    AddU64(sum, 86400 * (tm.mday - 1));
    t := ToU64(t + 86400 * (tm.mday - 1));
    sum := sum + 86400 * (tm.mday - 1);
    AddU64(sum, 3600 * tm.hour);
    t := ToU64(t + 3600 * tm.hour);
    sum := sum + 3600 * tm.hour;
    AddU64(sum, 60 * tm.min);
    t := ToU64(t + 60 * tm.min);
    sum := sum + 60 * tm.min;
    AddU64(sum, tm.sec);
    t := ToU64(t + tm.sec);
  }

  // ----- what the code computes, in closed form

  /** Leap days the slow branch counts for a remainder in a 400-year cycle, before the current year's flag. */
  function CycleFlag(rem: nat): bool
    requires rem < 400
  {
    rem == 0 || (rem % 100 != 0 && rem % 4 == 0)
  }

  function CycleLeaps(rem: nat): int
    requires rem < 400
  {
    24 * (rem / 100) + rem % 100 / 4 - if CycleFlag(rem) then 1 else 0
  }

  predicate Fast(year: int) { ToU64(year - 2) <= 136 }

  function LeapFlag(year: int): bool {
    if Fast(year) then (year - 68) % 4 == 0 else CycleFlag(ToU64(year - 100) % 400)
  }

  function YearSecs(year: int): nat {
    if Fast(year) then
      ToU64(31536000 * (year - 70) + 86400 * ((year - 68) / 4 - if LeapFlag(year) then 1 else 0))
    else
      var d := ToU64(year - 100);
      var leaps := WrapInt(97 * WrapInt(d / 400) + CycleLeaps(d % 400));
      ToU64((year - 100) * 31536000 + leaps * 86400 + 946684800 + 86400)
  }

  function TmYear(tm: Tm): int { tm.year + tm.mon / 12 }

  function TmSecs(tm: Tm): nat {
    var year, month := ToU64(TmYear(tm)), tm.mon % 12;
    ToU64(YearSecs(year) + 86400 * Through(month) + (if LeapFlag(year) && month >= 2 then 86400 else 0)
          + 86400 * (tm.mday - 1) + 3600 * tm.hour + 60 * tm.min + tm.sec)
  }

  // ----- the Gregorian calendar, month by month

  predicate IsLeap(year: int) {
    var y := 1900 + year;
    y % 4 == 0 && (y % 100 != 0 || y % 400 == 0)
  }

  function MonthDays(year: int, month: nat): nat
    requires month < 12
  {
    if month == 1 then (if IsLeap(year) then 29 else 28)
    else if month == 3 || month == 5 || month == 8 || month == 10 then 30
    else 31
  }

  const EPOCH: int := 840  // months from January 1900 to January 1970

  /** Days from 1 January 1970 to the first of month `m`, counted in months from January 1900. */
  function MonthStart(m: int): int
    decreases if m < EPOCH then EPOCH - m else m - EPOCH
  {
    if m == EPOCH then 0
    else if m > EPOCH then MonthStart(m - 1) + MonthDays((m - 1) / 12, (m - 1) % 12)
    else MonthStart(m + 1) - MonthDays(m / 12, m % 12)
  }

  /** Seconds since the epoch of a broken-down time, whatever its month, day, hour, minute and second. */
  function SecondsSinceEpoch(tm: Tm): int {
    86400 * (MonthStart(12 * tm.year + tm.mon) + tm.mday - 1) + 3600 * tm.hour + 60 * tm.min + tm.sec
  }

  // ----- closed forms

  /** Leap days between 1970 and the start of the year, by the rule of 4, 100 and 400. */
  function LeapDays(year: int): int { (year - 69) / 4 - (year - 1) / 100 + (year + 299) / 400 }

  function YearStart(year: int): int { 365 * (year - 70) + LeapDays(year) }

  lemma SameMultiple(x: int, k: int, c: int)
    requires k > 0
    ensures (x + c * k) % k == 0 <==> x % k == 0
  {
    assert x + c * k == (x / k + c) * k + x % k;
    DivMultiple(x / k + c, k, x % k);
  }

  lemma LeapStep(year: int)
    ensures LeapDays(year + 1) == LeapDays(year) + if IsLeap(year) then 1 else 0
  {
    var y := 1900 + year;
    StepDiv(year - 69, 4);
    StepDiv(year - 1, 100);
    StepDiv(year + 299, 400);
    SameMultiple(y, 4, -492);
    SameMultiple(y, 100, -19);
    SameMultiple(y, 400, -4);
    if y % 400 == 0 { MultipleOfMultiple(y, 400, 100); }
    if y % 100 == 0 { MultipleOfMultiple(y, 100, 4); }
  }

  lemma StepDiv(x: int, k: int)
    requires k > 0
    ensures (x + 1) / k == x / k + if (x + 1) % k == 0 then 1 else 0
  {
    var q, r := x / k, x % k;
    assert x == q * k + r;
    if r + 1 == k {
      assert x + 1 == (q + 1) * k;
      DivMultiple(q + 1, k, 0);
    } else {
      DivMultiple(q, k, r + 1);
    }
  }

  lemma DivMultiple(q: int, k: int, r: int)
    requires 0 <= r < k
    ensures (q * k + r) / k == q && (q * k + r) % k == r
  {
    var x := q * k + r;
    assert x == x / k * k + x % k;
    CloseMultiples(k, q, x / k);
  }

  function MonthForm(m: int): int {
    YearStart(m / 12) + Through(m % 12) + if IsLeap(m / 12) && m % 12 >= 2 then 1 else 0
  }

  lemma MonthFormStep(m: int)
    ensures MonthForm(m + 1) == MonthForm(m) + MonthDays(m / 12, m % 12)
  {
    LeapStep(m / 12);
    if m % 12 == 11 { assert (m + 1) / 12 == m / 12 + 1 && (m + 1) % 12 == 0; }
    else { assert (m + 1) / 12 == m / 12 && (m + 1) % 12 == m % 12 + 1; }
  }

  lemma NextMonth(m: int)
    ensures MonthStart(m + 1) == MonthStart(m) + MonthDays(m / 12, m % 12) && MonthStart(EPOCH) == 0
  {
  }

  /** The closed form is the month-by-month count. */
  lemma {:induction false} MonthStartClosed(m: int)
    ensures MonthStart(m) == MonthForm(m)
    decreases if m < EPOCH then EPOCH - m else m - EPOCH
  {
    assert MonthForm(EPOCH) == 0;
    NextMonth(m);
    NextMonth(m - 1);
    hide MonthForm, MonthDays, MonthStart;
    if m > EPOCH {
      MonthStartClosed(m - 1);
      MonthFormStep(m - 1);
    } else if m < EPOCH {
      MonthStartClosed(m + 1);
      MonthFormStep(m);
    }
  }

  // ----- the code meets the calendar

  /** In the fast branch the product, the leap seconds and their sum all fit a signed 32-bit int. */
  lemma FastBranchFitsInt32(year: int)
    requires 0 <= year < TWO64 && Fast(year)
    ensures 2 <= year <= 138
    ensures var leaps := (year - 68) / 4 - if LeapFlag(year) then 1 else 0;
      FitsInt(31536000 * (year - 70)) && FitsInt(86400 * leaps) && FitsInt(31536000 * (year - 70) + 86400 * leaps)
  {
  }

  lemma FastLeaps(year: int)
    requires 2 <= year <= 138
    ensures (year - 68) / 4 - (if (year - 68) % 4 == 0 then 1 else 0) == LeapDays(year)
    ensures (year - 68) % 4 == 0 <==> IsLeap(year)
  {
  }

  /** A 400-year cycle from 2000 on holds 97 leap days. */
  lemma CycleLeapDays(year: int)
    ensures var q, rem := (year - 100) / 400, (year - 100) % 400;
      LeapDays(year) == 97 * q + CycleLeaps(rem) + 8
  {
    var q, rem := (year - 100) / 400, (year - 100) % 400;
    assert year - 100 == 400 * q + rem;
    DivMultiple(100 * q + (31 + rem) / 4, 4, (31 + rem) % 4);
    DivMultiple(4 * q + (99 + rem) / 100, 100, (99 + rem) % 100);
    DivMultiple(q + (399 + rem) / 400, 400, (399 + rem) % 400);
    RemLeaps(rem);
  }

  lemma RemLeaps(rem: nat)
    requires rem < 400
    ensures (31 + rem) / 4 - (99 + rem) / 100 + (399 + rem) / 400 == CycleLeaps(rem) + 8
  {
    var c, r := rem / 100, rem % 100;
    var q, s := r / 4, r % 4;
    assert rem == 100 * c + r && r == 4 * q + s;
    DivMultiple(25 * c + q, 4, s);
    DivMultiple(25 * c + q + 7 + (if s == 0 then 0 else 1), 4, if s == 0 then 3 else s - 1);
    DivMultiple(c + (if r == 0 then 0 else 1), 100, if r == 0 then 99 else r - 1);
    DivMultiple(if rem == 0 then 0 else 1, 400, if rem == 0 then 399 else rem - 1);
  }

  lemma CycleFlagIsLeap(year: int)
    ensures CycleFlag((year - 100) % 400) <==> IsLeap(year)
  {
    var q, rem := (year - 100) / 400, (year - 100) % 400;
    assert 1900 + year == 400 * (q + 5) + rem;
    DivMultiple(q + 5, 400, rem);
    DivMultiple(100 * (q + 5) + rem / 4, 4, rem % 4);
    DivMultiple(4 * (q + 5) + rem / 100, 100, rem % 100);
  }

  /** Small values are held exactly. */
  lemma HeldExactly(x: int)
    ensures 0 <= x < TWO64 ==> ToU64(x) == x
    ensures FitsInt(x) ==> WrapInt(x) == x
  {
  }

  lemma CycleLeapsBounds(rem: nat)
    requires rem < 400
    ensures -1 <= CycleLeaps(rem) <= 97
  {
  }

  /** From 1902 on the code's start of year and leap flag are the calendar's. */
  lemma YearIsRight(year: int)
    requires 2 <= year < 0xC000_0000
    ensures YearSecs(year) == ToU64(86400 * YearStart(year)) && (LeapFlag(year) <==> IsLeap(year))
  {
    HeldExactly(year - 2);
    hide CycleLeaps, CycleFlag, IsLeap, LeapDays, WrapInt, ToU64;
    if year <= 138 {
      FastLeaps(year);
    } else {
      var d := year - 100;
      CycleLeapDays(year);
      CycleFlagIsLeap(year);
      CycleLeapsBounds(d % 400);
      HeldExactly(d);
      HeldExactly(d / 400);
      HeldExactly(97 * (d / 400) + CycleLeaps(d % 400));
      YearSumSlow(d, LeapDays(year));
    }
  }

  lemma YearSumSlow(d: int, leaps: int)
    ensures d * 31536000 + (leaps - 8) * 86400 + 946684800 + 86400 == 86400 * (365 * (d + 30) + leaps)
  {
  }

  // Before 1902 `year - 100` wraps to just below 2^64, whose quotient by 400 no longer fits an int.
  const WRAPPED_CYCLES: int := 46116860184273879  // 2^64 / 400

  /** The leap days the slow branch ends up with. */
  function CodeLeaps(year: int): int {
    var d := ToU64(year - 100);
    WrapInt(97 * WrapInt(d / 400) + CycleLeaps(d % 400))
  }

  lemma WrappedYear(year: int)
    requires -0xC000_0000 <= year < 2
    ensures var d := ToU64(ToU64(year) - 100);
      && !Fast(ToU64(year)) && d == year - 100 + TWO64
      && d / 400 == WRAPPED_CYCLES + (year - 84) / 400 && d % 400 == (year - 84) % 400
  {
    AddU64(year, -2);
    AddU64(year, -100);
    ShiftU64(year - 2, 1);
    ShiftU64(year - 100, 1);
    HeldExactly(year - 2 + TWO64);
    HeldExactly(year - 100 + TWO64);
    assert year - 100 + TWO64 == 400 * (WRAPPED_CYCLES + (year - 84) / 400) + (year - 84) % 400;
    DivMultiple(WRAPPED_CYCLES + (year - 84) / 400, 400, (year - 84) % 400);
  }

  lemma Int32Off(x: int)
    ensures FitsInt(WrapInt(x)) && (x - WrapInt(x)) % WORD_LIMIT == 0
  {
    var q := (x + 0x8000_0000) / WORD_LIMIT;
    assert x - WrapInt(x) == q * WORD_LIMIT;
    DivMultiple(q, WORD_LIMIT, 0);
  }

  lemma WrappedLeapsAreBounded(year: int)
    requires -0xC000_0000 <= year < 2
    ensures -0x2_0000_0000 < CodeLeaps(ToU64(year)) - (LeapDays(year) - 8) < 0x2_0000_0000
  {
    CycleLeapDays(year);
    hide ToU64, WrapInt, CycleLeaps, LeapDays;
    var d := ToU64(ToU64(year) - 100);
    CycleLeapsBounds((year - 100) % 400);
    Int32Off(97 * WrapInt(d / 400) + CycleLeaps(d % 400));
  }

  /** `WrapInt` drops a multiple of 2^32. */
  lemma Int32Drops(x: int) returns (k: int)
    ensures WrapInt(x) == x - k * WORD_LIMIT
  {
    Int32Off(x);
    k := (x - WrapInt(x)) / WORD_LIMIT;
  }

  /** What the two conversions to int drop. */
  lemma CodeLeapsDrop(year: int) returns (k: int)
    requires -0xC000_0000 <= year < 2
    ensures CodeLeaps(ToU64(year)) ==
            97 * (WRAPPED_CYCLES + (year - 84) / 400) + CycleLeaps((year - 84) % 400) - k * WORD_LIMIT
  {
    WrappedYear(year);
    hide ToU64, WrapInt, CycleLeaps;
    var q, leaps := WRAPPED_CYCLES + (year - 84) / 400, CycleLeaps((year - 84) % 400);
    var a := Int32Drops(q);
    var b := Int32Drops(97 * WrapInt(q) + leaps);
    k := 97 * a + b;
  }

  lemma NearQuotients(x: int)
    ensures 0 <= (x + 16) / 400 - x / 400 <= 1
  {
  }

  /** With wrap-around the leap days come out wrong by far more than a day. */
  lemma WrappedLeapsAreWrong(year: int)
    requires -0xC000_0000 <= year < 2
    ensures var off := CodeLeaps(ToU64(year)) - (LeapDays(year) - 8); off <= -2 || off >= 2
  {
    hide CodeLeaps, ToU64, LeapDays, CycleLeaps;
    CycleLeapDays(year);
    NearQuotients(year - 100);
    CycleLeapsBounds((year - 84) % 400);
    CycleLeapsBounds((year - 100) % 400);
    var k := CodeLeapsDrop(year);
    FarFromMultiples(97 * ((year - 84) / 400 - (year - 100) / 400)
                     + CycleLeaps((year - 84) % 400) - CycleLeaps((year - 100) % 400), k);
  }

  lemma FarFromMultiples(e: int, k: int)
    requires -300 <= e <= 300
    ensures var off := 97 * WRAPPED_CYCLES + e - k * WORD_LIMIT; off <= -2 || off >= 2
  {
    assert 97 * WRAPPED_CYCLES == 1041529569 * WORD_LIMIT + 1202590839;
  }

  // ----- mktime

  /** The part of the sum both sides share: everything below the year. */
  function WithinYear(tm: Tm): int {
    86400 * Through(tm.mon % 12) + 86400 * (tm.mday - 1) + 3600 * tm.hour + 60 * tm.min + tm.sec
  }

  function LeapSecs(leap: bool, month: nat): int { if leap && month >= 2 then 86400 else 0 }

  lemma SecondsSplit(tm: Tm)
    ensures SecondsSinceEpoch(tm) ==
      86400 * YearStart(TmYear(tm)) + LeapSecs(IsLeap(TmYear(tm)), tm.mon % 12) + WithinYear(tm)
  {
    var m := 12 * tm.year + tm.mon;
    MonthStartClosed(m);
    assert m == (tm.year + tm.mon / 12) * 12 + tm.mon % 12;
    DivMultiple(tm.year + tm.mon / 12, 12, tm.mon % 12);
    hide IsLeap, YearStart, Through, MonthStart;
  }

  lemma TmSecsSplit(tm: Tm, base: int)
    requires YearSecs(ToU64(TmYear(tm))) == ToU64(base)
    ensures TmSecs(tm) == ToU64(base + LeapSecs(LeapFlag(ToU64(TmYear(tm))), tm.mon % 12) + WithinYear(tm))
  {
    hide ToU64, YearSecs, LeapFlag, Through, TmYear;
    AddU64(base, LeapSecs(LeapFlag(ToU64(TmYear(tm))), tm.mon % 12) + WithinYear(tm));
  }

  lemma DifferentU64(x: int, d: int)
    requires d != 0 && -TWO64 < d < TWO64
    ensures ToU64(x + d) != ToU64(x)
  {
    var i, j := (x + d) / TWO64, x / TWO64;
    assert x + d == i * TWO64 + ToU64(x + d) && x == j * TWO64 + ToU64(x);
  }

  /** The year's start as the slow branch computes it for a wrapped year. */
  lemma WrappedYearSecs(year: int)
    requires -0xC000_0000 <= year < 2
    ensures var off := CodeLeaps(ToU64(year)) - (LeapDays(year) - 8);
      YearSecs(ToU64(year)) == ToU64(86400 * YearStart(year) + 86400 * off)
  {
    WrappedYear(year);
    hide WrapInt, LeapDays, CycleLeaps, Fast;
    var u, leaps := ToU64(year), CodeLeaps(ToU64(year));
    var k := (u - year) / TWO64;
    assert u == year + k * TWO64;
    ShiftU64((year - 100) * 31536000 + leaps * 86400 + 946684800 + 86400, k * 31536000);
    assert (u - 100) * 31536000 == (year - 100) * 31536000 + k * 31536000 * TWO64;
  }

  /** `mktime` gives the seconds of the month-by-month count, for every field in int range and any month,
      exactly when the normalised year is 1902 or later. */
  lemma MktimeIsRightFrom1902(tm: Tm)
    requires tm.InRange()
    ensures TmSecs(tm) == ToU64(SecondsSinceEpoch(tm)) <==> TmYear(tm) >= 2
  {
    var year := TmYear(tm);
    assert -0xC000_0000 <= year < 0xC000_0000;
    SecondsSplit(tm);
    if year >= 2 {
      HeldExactly(year);
      YearIsRight(year);
      TmSecsSplit(tm, 86400 * YearStart(year));
    } else {
      var off := CodeLeaps(ToU64(year)) - (LeapDays(year) - 8);
      WrappedYearSecs(year);
      WrappedLeapsAreWrong(year);
      WrappedLeapsAreBounded(year);
      TmSecsSplit(tm, 86400 * YearStart(year) + 86400 * off);
      hide ToU64, CodeLeaps, LeapDays, YearStart, LeapFlag, IsLeap, WithinYear, YearSecs;
      var d := 86400 * off + LeapSecs(LeapFlag(ToU64(year)), tm.mon % 12) - LeapSecs(IsLeap(year), tm.mon % 12);
      DifferentU64(SecondsSinceEpoch(tm), d);
    }
  }
}
