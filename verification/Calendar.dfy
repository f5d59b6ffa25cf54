/** Julian day numbers and the addition of offsets to broken-down times (o_time.c). */
module Calendar {
  import opened Bits

  /** Division of C: towards zero. */
  function TruncDiv(a: int, b: int): int
    requires b > 0
  {
    if a >= 0 then a / b else -((-a) / b)
  }

  // ---- the Gregorian calendar -----------------------------------------------------------------

  predicate IsLeap(y: int) { y % 4 == 0 && (y % 100 != 0 || y % 400 == 0) }

  function MonthLength(y: int, m: int): int
    requires 1 <= m <= 12
  {
    if m == 2 then (if IsLeap(y) then 29 else 28)
    else if m == 4 || m == 6 || m == 9 || m == 11 then 30
    else 31
  }

  datatype Date = Date(y: int, m: int, d: int) {
    predicate Valid() { 1 <= m <= 12 && 1 <= d <= MonthLength(y, m) }

    /** The day after. */
    function Next(): (r: Date)
      requires Valid()
    {
      if d < MonthLength(y, m) then Date(y, m, d + 1)
      else if m < 12 then Date(y, m + 1, 1)
      else Date(y + 1, 1, 1)
    }
  }

  // ---- the conversions ------------------------------------------------------------------------

  /** date_to_julian: days of the years, of the months, and leap days left out; `t` is -1 in January and
      February. */
  function Years(y: int, t: int): int { TruncDiv(1461 * (y + 4800 + t), 4) }
  function Months(m: int, t: int): int { TruncDiv(367 * (m - 2 - 12 * t), 12) }
  function Leaps(y: int, t: int): int { TruncDiv(3 * TruncDiv(y + 4900 + t, 100), 4) }

  function DateToJulian(y: int, m: int, d: int): int {
    var t := TruncDiv(m - 14, 12);
    Years(y, t) + Months(m, t) - Leaps(y, t) + d - 32075
  }

  function Julian(t: Date): int { DateToJulian(t.y, t.m, t.d) }

  /** The years of the conversion count from March; `c` whole centuries and `yy` years since -4800,
      and the month counted from March as 1. */
  datatype Parts = Parts(c: int, yy: int, mm: int, d: int) {
    predicate Valid() {
      && 0 <= c && 0 <= yy < 100 && 1 <= mm <= 12
      && 1 <= d <= Length()
    }

    function Length(): int
      requires 1 <= mm <= 12
    {
      if mm == 12 then (if (yy + 1) % 4 == 0 && (yy != 99 || (c + 1) % 4 == 0) then 29 else 28)
      else if mm == 2 || mm == 4 || mm == 7 || mm == 9 then 30
      else 31
    }

    function Number(): int {
      36525 * c + 1461 * yy / 4 + 367 * mm / 12 - 3 * (c + 1) / 4 + d - 32075
    }
  }

  function MarchYear(t: Date): int { t.y + 4800 - if t.m <= 2 then 1 else 0 }

  function ToParts(t: Date): Parts {
    var a := MarchYear(t);
    Parts(a / 100, a % 100, if t.m <= 2 then t.m + 10 else t.m - 2, t.d)
  }

  lemma {:induction false} PartsOf(t: Date)
    requires t.Valid() && t.y > -4800
    ensures ToParts(t).Valid() && Julian(t) == ToParts(t).Number()
  {
    var a, p := MarchYear(t), ToParts(t);
    assert TruncDiv(t.m - 14, 12) == if t.m <= 2 then -1 else 0;
    assert a == 100 * p.c + p.yy;
    assert 1461 * a == 4 * (36525 * p.c) + 1461 * p.yy;
    assert (a + 100) / 100 == p.c + 1;
    if t.m == 2 {
      assert t.y == 100 * p.c + p.yy + 1 - 4800;
      LeapParts(t.y, p.c, p.yy);
    }
  }

  lemma {:induction false} LeapParts(y: int, c: int, yy: int)
    requires y == 100 * c + yy + 1 - 4800 && 0 <= yy < 100
    ensures IsLeap(y) <==> (yy + 1) % 4 == 0 && (yy != 99 || (c + 1) % 4 == 0)
  {
    var k := c - 48;
    ModUnique(y, 4, 25 * k + (yy + 1) / 4, (yy + 1) % 4);
    if yy == 99 {
      ModUnique(y, 100, k + 1, 0);
      ModUnique(y, 400, (c + 1) / 4 - 12, (c + 1) % 4 * 100);
    } else {
      ModUnique(y, 100, k, yy + 1);
    }
  }

  /** julian_to_date: the century, the day in it, the year, the day in the year, the month. */
  function CenturyOf(L: int): int { TruncDiv(4 * L, 146097) }
  function InCentury(L: int): int { L - TruncDiv(146097 * CenturyOf(L) + 3, 4) }
  function YearOf(L: int): int { TruncDiv(4000 * (L + 1), 1461001) }
  function InYear(L: int): int { L - TruncDiv(1461 * YearOf(L), 4) + 31 }
  function MonthOf(L: int): int { TruncDiv(80 * L, 2447) }
  function DayOf(L: int): int { L - TruncDiv(2447 * MonthOf(L), 80) }

  function FromJulian(jd: int): Date {
    var c, L1 := CenturyOf(jd + 68569), InCentury(jd + 68569);
    var i, L2 := YearOf(L1), InYear(L1);
    var j := MonthOf(L2);
    Date(100 * (c - 49) + i + TruncDiv(j, 11), j + 2 - 12 * TruncDiv(j, 11), DayOf(L2))
  }

  lemma {:induction false} DivIs(a: int, b: int, q: int)
    requires b > 0 && q * b <= a < (q + 1) * b
    ensures a / b == q
    ensures a >= 0 ==> TruncDiv(a, b) == q
  {
    ModUnique(a, b, q, a - q * b);
  }

  /** Days of the March year before the day, as the conversion back sees them. */
  function YearDays(p: Parts): int { 1461 * p.yy / 4 + 367 * p.mm / 12 + p.d - 31 }

  lemma {:induction false} PartBounds(p: Parts)
    requires p.Valid()
    ensures 0 <= 1461 * p.yy / 4 <= 36159 && 0 <= 367 * p.mm / 12 + p.d - 31 <= 365
    ensures 367 * p.mm / 12 + p.d - 31 == 365 ==> (p.yy + 1) % 4 == 0 && (p.yy == 99 ==> (p.c + 1) % 4 == 0)
  {
    assert 367 * p.mm / 12 == [30, 61, 91, 122, 152, 183, 214, 244, 275, 305, 336, 367][p.mm - 1];
  }

  lemma {:induction false} CenturyStep(p: Parts)
    requires p.Valid()
    ensures var L := p.Number() + 68569;
            L > 0 && 4 * L / 146097 == p.c + 1 && L - (146097 * (p.c + 1) + 3) / 4 == YearDays(p)
  {
    PartBounds(p);
    var L, n, u := p.Number() + 68569, p.c + 1, YearDays(p);
    CenturyDays(n);
    assert L == 36525 * n + u - 3 * n / 4;
    DivIs(4 * L, 146097, n);
  }

  /** Days of `n` centuries, rounded up: the two divisions by 4 leave the same number. */
  lemma {:induction false} CenturyDays(n: int)
    ensures (146097 * n + 3) / 4 == 36525 * n - 3 * n / 4
  {
    var q := 3 * n / 4;
    var r := 3 * n - 4 * q;
    assert 0 <= r < 4;
    ModUnique(146097 * n + 3, 4, 36525 * n - q, 3 - r);
  }

  lemma {:induction false} YearStep(p: Parts)
    requires p.Valid()
    ensures YearOf(YearDays(p)) == p.yy && InYear(YearDays(p)) == 367 * p.mm / 12 + p.d
  {
    PartBounds(p);
    var f, e := 1461 * p.yy / 4, 367 * p.mm / 12 + p.d - 31;
    assert 1461 * p.yy - 3 <= 4 * f <= 1461 * p.yy;
    if e == 365 {
      assert 4 * f == 1461 * p.yy - 3;
    }
    DivIs(4000 * (f + e + 1), 1461001, p.yy);
  }

  lemma {:induction false} MonthStep(mm: int, d: int)
    requires 1 <= mm <= 12 && 1 <= d <= Parts(0, 3, mm, d).Length()
    ensures MonthOf(367 * mm / 12 + d) == mm && DayOf(367 * mm / 12 + d) == d
  {
    assert 367 * mm / 12 == [30, 61, 91, 122, 152, 183, 214, 244, 275, 305, 336, 367][mm - 1];
    assert 2447 * mm / 80 == 367 * mm / 12;
  }

  function FromParts(p: Parts): Date {
    Date(100 * (p.c - 48) + p.yy + p.mm / 11, p.mm + 2 - 12 * (p.mm / 11), p.d)
  }

  lemma {:induction false} FromNumber(p: Parts)
    requires p.Valid()
    ensures FromJulian(p.Number()) == FromParts(p)
  {
    YearStep(p);
    MonthStep(p.mm, p.d);
    CenturyIs(p);
    var L2 := 367 * p.mm / 12 + p.d;
    DateParts(p.Number(), p.c + 1, YearDays(p), p.yy, L2, p.mm, p.d);
    assert TruncDiv(p.mm, 11) == p.mm / 11;
  }

  lemma {:induction false} CenturyIs(p: Parts)
    requires p.Valid()
    ensures var L := p.Number() + 68569; CenturyOf(L) == p.c + 1 && InCentury(L) == YearDays(p)
  {
    CenturyStep(p);
  }

  /** The date that the parts of the conversion back make. */
  lemma {:induction false} DateParts(jd: int, c: int, L1: int, i: int, L2: int, j: int, d: int)
    requires CenturyOf(jd + 68569) == c && InCentury(jd + 68569) == L1
    requires YearOf(L1) == i && InYear(L1) == L2 && MonthOf(L2) == j && DayOf(L2) == d
    ensures FromJulian(jd) == Date(100 * (c - 49) + i + TruncDiv(j, 11), j + 2 - 12 * TruncDiv(j, 11), d)
  {
  }

  lemma {:induction false} PartsBack(t: Date)
    requires t.Valid() && t.y > -4800
    ensures FromParts(ToParts(t)) == t
  {
    var a := MarchYear(t);
    assert a == 100 * (a / 100) + a % 100;
  }

  /** Converting a date and back gives the date: every Gregorian date from the year -4799 on. */
  lemma {:induction false} DateRoundTrip(t: Date)
    requires t.Valid() && t.y > -4800
    ensures FromJulian(Julian(t)) == t
  {
    PartsOf(t);
    FromNumber(ToParts(t));
    PartsBack(t);
  }

  lemma {:induction false} DateOfParts(p: Parts)
    requires p.Valid() && p.c + p.yy > 0
    ensures FromParts(p).Valid() && FromParts(p).y > -4800 && ToParts(FromParts(p)) == p
  {
    var t := FromParts(p);
    ModUnique(100 * p.c + p.yy, 100, p.c, p.yy);
    if p.mm == 12 {
      LeapParts(t.y, p.c, p.yy);
    }
  }

  lemma {:induction false} CenturyBack(jd: int)
    requires jd >= 0
    ensures var n, u := CenturyOf(jd + 68569), InCentury(jd + 68569);
            && n >= 1 && 0 <= u <= 36524 && (u == 36524 ==> n % 4 == 0) && (n == 1 ==> u > 366)
            && jd + 68569 == 36525 * n + u - 3 * n / 4
  {
    var L, n := jd + 68569, CenturyOf(jd + 68569);
    assert 146097 * n <= 4 * L < 146097 * n + 146097;
    CenturyDays(n);
  }

  lemma {:induction false} YearBack(u: int)
    requires 0 <= u <= 36524
    ensures var i, e := YearOf(u), InYear(u) - 31;
            && 0 <= i < 100 && 0 <= e <= 365 && u == 1461 * i / 4 + e && (u > 366 ==> i > 0)
            && (e == 365 ==> (i + 1) % 4 == 0 && (i == 99 ==> u == 36524))
  {
    var i := YearOf(u);
    assert 1461001 * i <= 4000 * (u + 1) < 1461001 * i + 1461001;
    var f := 1461 * i / 4;
    assert 1461 * i - 3 <= 4 * f <= 1461 * i;
    if u - f == 365 {
      assert 1461 * i - 4 * f > 2;
    }
  }

  lemma {:induction false} MonthBack(L: int)
    requires 31 <= L <= 396
    ensures var j, d := MonthOf(L), DayOf(L);
            && 1 <= j <= 12 && L == 367 * j / 12 + d
            && 1 <= d <= (if j == 12 then 29 else Parts(0, 0, j, d).Length())
  {
    var j := MonthOf(L);
    assert 2447 * j <= 80 * L < 2447 * j + 2447;
    assert 367 * j / 12 == [30, 61, 91, 122, 152, 183, 214, 244, 275, 305, 336, 367][j - 1];
    assert 2447 * j / 80 == 367 * j / 12;
  }

  function PartsOfNumber(jd: int): Parts {
    var u := InCentury(jd + 68569);
    Parts(CenturyOf(jd + 68569) - 1, YearOf(u), MonthOf(InYear(u)), DayOf(InYear(u)))
  }

  lemma {:induction false} PartsOfNumberFit(jd: int)
    requires jd >= 0
    ensures PartsOfNumber(jd).Valid() && PartsOfNumber(jd).Number() == jd
    ensures PartsOfNumber(jd).c + PartsOfNumber(jd).yy > 0
  {
    var u := InCentury(jd + 68569);
    CenturyBack(jd);
    YearBack(u);
    MonthBack(InYear(u));
    LengthBack(PartsOfNumber(jd), u);
  }

  lemma {:induction false} LengthBack(p: Parts, u: int)
    requires 0 <= p.c && 0 <= p.yy < 100 && 1 <= p.mm <= 12
    requires 1 <= p.d <= (if p.mm == 12 then 29 else Parts(0, 0, p.mm, p.d).Length())
    requires 367 * p.mm / 12 + p.d - 31 == 365 ==> (p.yy + 1) % 4 == 0 && (p.yy == 99 ==> (p.c + 1) % 4 == 0)
    ensures p.Valid()
  {
  }

  /** Converting any day number and back gives the number, by way of a valid date. */
  lemma {:induction false} JulianRoundTrip(jd: int)
    requires jd >= 0
    ensures FromJulian(jd).Valid() && FromJulian(jd).y > -4800 && Julian(FromJulian(jd)) == jd
  {
    var p := PartsOfNumber(jd);
    PartsOfNumberFit(jd);
    FromNumber(p);
    DateOfParts(p);
    PartsOf(FromParts(p));
  }

  /** The next calendar day has the next number. */
  lemma {:induction false} NextDayIsNextNumber(t: Date)
    requires t.Valid() && t.y > -4800
    ensures t.Next().Valid() && Julian(t.Next()) == Julian(t) + 1
  {
    var p := ToParts(t);
    PartsOf(t);
    PartsOf(t.Next());
    if t.d < MonthLength(t.y, t.m) {
      LaterInMonth(t);
    } else if t.m == 2 {
      LastOfFebruary(t);
      MarchFirst(p);
    } else {
      LastOfOther(t);
      MonthFirst(p);
    }
  }

  lemma {:induction false} LaterInMonth(t: Date)
    requires t.Valid() && t.d < MonthLength(t.y, t.m)
    ensures ToParts(t.Next()).Number() == ToParts(t).Number() + 1
  {
    assert ToParts(t.Next()) == ToParts(t).(d := t.d + 1);
  }

  lemma {:induction false} LastOfOther(t: Date)
    requires t.Valid() && t.m != 2 && t.d == MonthLength(t.y, t.m)
    ensures var p := ToParts(t);
            p.mm < 12 && p.d == p.Length() && ToParts(t.Next()) == p.(mm := p.mm + 1, d := 1)
  {
    assert MarchYear(t.Next()) == MarchYear(t);
  }

  lemma {:induction false} MonthFirst(p: Parts)
    requires p.Valid() && p.mm < 12 && p.d == p.Length()
    ensures p.(mm := p.mm + 1, d := 1).Number() == p.Number() + 1
  {
    assert 367 * p.mm / 12 == [30, 61, 91, 122, 152, 183, 214, 244, 275, 305, 336, 367][p.mm - 1];
    assert 367 * (p.mm + 1) / 12 == [30, 61, 91, 122, 152, 183, 214, 244, 275, 305, 336, 367][p.mm];
  }

  lemma {:induction false} LastOfFebruary(t: Date)
    requires t.Valid() && t.y > -4800 && t.m == 2 && t.d == MonthLength(t.y, 2)
    ensures var p := ToParts(t);
            && p.mm == 12 && p.d == p.Length()
            && ToParts(t.Next()) == Parts(if p.yy == 99 then p.c + 1 else p.c, if p.yy == 99 then 0 else p.yy + 1, 1, 1)
  {
    var p, a := ToParts(t), MarchYear(t);
    assert a == 100 * p.c + p.yy;
    LeapParts(t.y, p.c, p.yy);
    if p.yy == 99 {
      ModUnique(a + 1, 100, p.c + 1, 0);
    } else {
      ModUnique(a + 1, 100, p.c, p.yy + 1);
    }
  }

  /** From the last day of February to the first of March. */
  lemma {:induction false} MarchFirst(p: Parts)
    requires p.Valid() && p.mm == 12 && p.d == p.Length()
    ensures Parts(if p.yy == 99 then p.c + 1 else p.c, if p.yy == 99 then 0 else p.yy + 1, 1, 1).Number()
            == p.Number() + 1
  {
    if p.yy == 99 {
      CenturyTurns(p.c + 1);
    } else {
      YearTurns(p.yy);
    }
  }

  lemma {:induction false} CenturyTurns(n: int)
    ensures 3 * (n + 1) / 4 == 3 * n / 4 + if n % 4 == 0 then 0 else 1
  {
    var k, r := n / 4, n % 4;
    ModUnique(3 * n, 4, 3 * k + 3 * r / 4, 3 * r % 4);
    ModUnique(3 * (n + 1), 4, 3 * k + 3 * (r + 1) / 4, 3 * (r + 1) % 4);
  }

  lemma {:induction false} YearTurns(yy: int)
    ensures 1461 * (yy + 1) / 4 == 1461 * yy / 4 + if (yy + 1) % 4 == 0 then 366 else 365
  {
    var k, r := yy / 4, yy % 4;
    ModUnique(1461 * yy, 4, 1461 * k + 1461 * r / 4, 1461 * r % 4);
    ModUnique(1461 * (yy + 1), 4, 1461 * k + 1461 * (r + 1) / 4, 1461 * (r + 1) % 4);
    ModUnique(yy + 1, 4, if r == 3 then k + 1 else k, if r == 3 then 0 else r + 1);
  }

  /** The numbering is that of astronomers: 1 January 2000 is day 2451545. */
  lemma {:induction false} Anchor()
    ensures DateToJulian(2000, 1, 1) == 2451545
    ensures DateToJulian(1900, 1, 1) == FIRST_DAY && DateToJulian(9999, 12, 31) == LAST_DAY
  {
  }

  const FIRST_DAY := 2415021
  const LAST_DAY := 5373484

  // ---- the range of years ---------------------------------------------------------------------

  /** What the March year `a` since -4800 contributes to a day number. */
  function YearPart(a: int): int {
    36525 * (a / 100) + 1461 * (a % 100) / 4 - 3 * (a / 100 + 1) / 4
  }

  lemma {:induction false} YearPartGrows(a: int, b: int)
    requires 0 <= a <= b
    ensures YearPart(b) >= YearPart(a) + 365 * (b - a)
    decreases b - a
  {
    if a < b {
      YearPartGrows(a, b - 1);
      YearPartStep(b - 1);
    }
  }

  lemma {:induction false} YearPartStep(a: int)
    requires 0 <= a
    ensures YearPart(a + 1) >= YearPart(a) + 365
  {
    var c, y := a / 100, a % 100;
    assert a == 100 * c + y;
    if y == 99 {
      ModUnique(a + 1, 100, c + 1, 0);
    } else {
      ModUnique(a + 1, 100, c, y + 1);
    }
  }

  /** Day of the March year: January and February come last. */
  lemma {:induction false} InYearBounds(t: Date)
    requires t.Valid() && t.y > -4800
    ensures var e := Julian(t) + 32075 - YearPart(MarchYear(t));
            if t.m <= 2 then 337 <= e <= 396 else 31 <= e <= 336
  {
    var p := ToParts(t);
    PartsOf(t);
    assert 367 * p.mm / 12 == [30, 61, 91, 122, 152, 183, 214, 244, 275, 305, 336, 367][p.mm - 1];
  }

  /** The years up to `y` end before the day numbers of the years after it begin. */
  lemma {:induction false} YearsAreOrdered(s: Date, t: Date)
    requires s.Valid() && t.Valid() && -4800 < s.y < t.y
    ensures Julian(s) < Julian(t)
  {
    InYearBounds(s);
    InYearBounds(t);
    if MarchYear(s) <= MarchYear(t) {
      YearPartGrows(MarchYear(s), MarchYear(t));
    }
  }

  lemma {:induction false} YearInRange(t: Date)
    requires t.Valid() && t.y > -4800
    ensures 1900 <= t.y <= 9999 <==> FIRST_DAY <= Julian(t) <= LAST_DAY
  {
    Anchor();
    if t.y < 1900 {
      YearsAreOrdered(t, Date(1900, 1, 1));
    } else if t.y > 9999 {
      YearsAreOrdered(Date(9999, 12, 31), t);
    } else {
      YearInside(t);
    }
  }

  lemma {:induction false} YearInside(t: Date)
    requires t.Valid() && 1900 <= t.y <= 9999
    ensures FIRST_DAY <= Julian(t) <= LAST_DAY
  {
    InYearBounds(t);
    YearPartGrows(6699, MarchYear(t));
    YearPartGrows(MarchYear(t), 14799);
    EndsOfRange();
  }

  lemma {:induction false} EndsOfRange()
    ensures YearPart(6699) + 337 - 32075 == FIRST_DAY
    ensures YearPart(14799) + 336 - 32075 == LAST_DAY
  {
  }

  // ---- machine integers -----------------------------------------------------------------------

  predicate In32(x: int) { -0x8000_0000 <= x < 0x8000_0000 }

  /** What a 32-bit register is left with: int, and long too on the machines the wallet is built for. */
  function I32(x: int): (r: int)
    ensures In32(r)
    decreases if x < 0 then -1 - x else x
  {
    if x >= 0x8000_0000 then I32(x - 0x1_0000_0000)
    else if x < -0x8000_0000 then I32(x + 0x1_0000_0000)
    else x
  }

  /** Two's complement: the result differs by a multiple of 2^32. */
  lemma {:induction false} I32Wraps(x: int, k: nat)
    ensures I32(x + k * 0x1_0000_0000) == I32(x)
    decreases k
  {
    if k > 0 {
      var y := x + k * 0x1_0000_0000;
      I32Wraps(x, k - 1);
      I32Back(y);
      assert y - 0x1_0000_0000 == x + (k - 1) * 0x1_0000_0000;
    }
  }

  lemma {:induction false} I32Back(y: int)
    ensures I32(y) == I32(y - 0x1_0000_0000)
  {
  }

  /** date_to_julian as the machine computes it: days of the years, of the months, and leap days left out. */
  function MachineYears(y: int, t: int): int { TruncDiv(I32(1461 * I32(I32(y + 4800) + t)), 4) }
  function MachineMonths(m: int, t: int): int { TruncDiv(I32(367 * I32(I32(m - 2) - I32(12 * t))), 12) }
  function MachineLeaps(y: int, t: int): int { TruncDiv(I32(3 * TruncDiv(I32(I32(y + 4900) + t), 100)), 4) }

  function MachineJulian(y: int, m: int, d: int): int {
    var t := TruncDiv(I32(m - 14), 12);
    MachineSum(MachineYears(y, t), MachineMonths(m, t), MachineLeaps(y, t), d)
  }

  /** julian_to_date: the century and the day in it, the year and the day in it, the month. */
  function MachineCentury(L: int): int { TruncDiv(I32(4 * L), 146097) }
  function MachineInCentury(L: int): int { I32(L - TruncDiv(I32(I32(146097 * MachineCentury(L)) + 3), 4)) }
  function MachineYear(L: int): int { TruncDiv(I32(4000 * I32(L + 1)), 1461001) }
  function MachineInYear(L: int): int { I32(I32(L - TruncDiv(I32(1461 * MachineYear(L)), 4)) + 31) }
  function MachineMonth(L: int): int { TruncDiv(I32(80 * L), 2447) }
  function MachineDay(L: int): int { I32(L - TruncDiv(I32(2447 * MachineMonth(L)), 80)) }

  function MachineDate(jd: int): Date {
    var L0 := I32(jd + 68569);
    var n, L1 := MachineCentury(L0), MachineInCentury(L0);
    var i, L2 := MachineYear(L1), MachineInYear(L1);
    var j := MachineMonth(L2);
    MachineEnd(n, i, j, MachineDay(L2))
  }

  function MachineEnd(n: int, i: int, j: int, d: int): Date {
    var l := TruncDiv(j, 11);
    Date(I32(I32(I32(100 * I32(n - 49)) + i) + l), I32(I32(j + 2) - I32(12 * l)), d)
  }

  /** Every intermediate of date_to_julian fits in 32 bits. */
  predicate JulianFits(date: Date) {
    match date
    case Date(y, m, d) =>
      var t := TruncDiv(m - 14, 12);
      && In32(m - 14) && YearsFit(y, t) && MonthsFit(m, t) && LeapsFit(y, t)
      && SumFits(Years(y, t), Months(m, t), Leaps(y, t), d)
  }

  predicate YearsFit(y: int, t: int) { In32(y + 4800) && In32(y + 4800 + t) && In32(1461 * (y + 4800 + t)) }

  predicate MonthsFit(m: int, t: int) {
    In32(m - 2) && In32(12 * t) && In32(m - 2 - 12 * t) && In32(367 * (m - 2 - 12 * t))
  }

  predicate LeapsFit(y: int, t: int) {
    In32(y + 4900) && In32(y + 4900 + t) && In32(3 * TruncDiv(y + 4900 + t, 100))
  }

  predicate SumFits(years: int, months: int, leaps: int, d: int) {
    && In32(years + months) && In32(years + months - leaps) && In32(years + months - leaps + d)
    && In32(years + months - leaps + d - 32075)
  }

  /** And every intermediate of julian_to_date. */
  predicate DateFits(jd: int) {
    var L0 := jd + 68569;
    var L1 := InCentury(L0);
    var L2 := InYear(L1);
    In32(L0) && CenturyFits(L0) && YearFits(L1) && MonthFits(L2) && EndFits(CenturyOf(L0), YearOf(L1), MonthOf(L2))
  }

  predicate CenturyFits(L: int) {
    In32(4 * L) && In32(146097 * CenturyOf(L)) && In32(146097 * CenturyOf(L) + 3) && In32(InCentury(L))
  }

  predicate YearFits(L: int) {
    In32(L + 1) && In32(4000 * (L + 1)) && In32(1461 * YearOf(L)) && In32(InYear(L) - 31) && In32(InYear(L))
  }

  predicate MonthFits(L: int) { In32(80 * L) && In32(2447 * MonthOf(L)) && In32(DayOf(L)) }

  predicate EndFits(n: int, i: int, j: int) {
    var l := TruncDiv(j, 11);
    && In32(j + 2) && In32(12 * l) && In32(j + 2 - 12 * l)
    && In32(n - 49) && In32(100 * (n - 49)) && In32(100 * (n - 49) + i) && In32(100 * (n - 49) + i + l)
  }

  lemma {:induction false} MachinePartsAre(L: int)
    ensures CenturyFits(L) ==> MachineCentury(L) == CenturyOf(L) && MachineInCentury(L) == InCentury(L)
    ensures YearFits(L) ==> MachineYear(L) == YearOf(L) && MachineInYear(L) == InYear(L)
    ensures MonthFits(L) ==> MachineMonth(L) == MonthOf(L) && MachineDay(L) == DayOf(L)
  {
  }

  lemma {:induction false} MachineJulianIs(y: int, m: int, d: int)
    requires JulianFits(Date(y, m, d))
    ensures MachineJulian(y, m, d) == DateToJulian(y, m, d)
  {
    var t := TruncDiv(m - 14, 12);
    YearsAre(y, t);
    MonthsAre(m, t);
    LeapsAre(y, t);
    SumIs(Years(y, t), Months(m, t), Leaps(y, t), d);
    MachineJulianSum(y, m, d, t);
    JulianSum(y, m, d, t);
  }

  function MachineSum(years: int, months: int, leaps: int, d: int): int {
    I32(I32(I32(I32(years + months) - leaps) + d) - 32075)
  }

  lemma {:induction false} YearsAre(y: int, t: int)
    requires YearsFit(y, t)
    ensures MachineYears(y, t) == Years(y, t)
  {
  }

  lemma {:induction false} MonthsAre(m: int, t: int)
    requires MonthsFit(m, t)
    ensures MachineMonths(m, t) == Months(m, t)
  {
  }

  lemma {:induction false} LeapsAre(y: int, t: int)
    requires LeapsFit(y, t)
    ensures MachineLeaps(y, t) == Leaps(y, t)
  {
  }

  lemma {:induction false} SumIs(years: int, months: int, leaps: int, d: int)
    requires SumFits(years, months, leaps, d)
    ensures MachineSum(years, months, leaps, d) == years + months - leaps + d - 32075
  {
  }

  lemma {:induction false} JulianSum(y: int, m: int, d: int, t: int)
    requires t == TruncDiv(m - 14, 12)
    ensures DateToJulian(y, m, d) == Years(y, t) + Months(m, t) - Leaps(y, t) + d - 32075
  {
  }

  lemma {:induction false} MachineJulianSum(y: int, m: int, d: int, t: int)
    requires In32(m - 14) && t == TruncDiv(m - 14, 12)
    ensures MachineJulian(y, m, d) == MachineSum(MachineYears(y, t), MachineMonths(m, t), MachineLeaps(y, t), d)
  {
  }

  lemma {:induction false} MachineDateIs(jd: int)
    requires DateFits(jd)
    ensures MachineDate(jd) == FromJulian(jd)
  {
    MachinePartsAre(jd + 68569);
    MachinePartsAre(InCentury(jd + 68569));
    MachinePartsAre(InYear(InCentury(jd + 68569)));
  }

  /** Of a valid date after the year -4800 everything fits exactly when the first product does. */
  lemma {:induction false} JulianFitsIff(t: Date)
    requires t.Valid() && t.y > -4800
    ensures JulianFits(t) <==> In32(1461 * MarchYear(t))
  {
    assert TruncDiv(t.m - 14, 12) == if t.m <= 2 then -1 else 0;
  }

  /** For the years it is used with everything fits. */
  lemma {:induction false} DateToJulianIn32(y: int, m: int, d: int)
    requires 1900 <= y <= 9999 && 1 <= m <= 12 && 1 <= d <= 31
    ensures JulianFits(Date(y, m, d))
  {
    assert TruncDiv(m - 14, 12) == if m <= 2 then -1 else 0;
  }

  /** And back from a day number, exactly when the first product does. */
  lemma {:induction false} JulianToDateIn32(jd: int)
    requires jd >= 0
    ensures DateFits(jd) <==> In32(4 * (jd + 68569))
    ensures jd <= LAST_DAY ==> DateFits(jd)
  {
    CenturyBack(jd);
    YearBack(InCentury(jd + 68569));
    MonthBack(InYear(InCentury(jd + 68569)));
  }

  /** What each value assigned to `L` is, and the local computed from the one before. */
  lemma {:induction false} MachineCenturyStep(L0: int, n: int, L: int)
    requires n == TruncDiv(I32(4 * L0), 146097) && L == I32(L0 - TruncDiv(I32(I32(146097 * n) + 3), 4))
    ensures n == MachineCentury(L0) && L == MachineInCentury(L0)
  {
  }

  lemma {:induction false} MachineYearStep(L1: int, i: int, L: int)
    requires i == TruncDiv(I32(4000 * I32(L1 + 1)), 1461001) && L == I32(I32(L1 - TruncDiv(I32(1461 * i), 4)) + 31)
    ensures i == MachineYear(L1) && L == MachineInYear(L1)
  {
  }

  lemma {:induction false} MachineMonthStep(L2: int, j: int, d: int)
    requires j == TruncDiv(I32(80 * L2), 2447) && d == I32(L2 - TruncDiv(I32(2447 * j), 80))
    ensures j == MachineMonth(L2) && d == MachineDay(L2)
  {
  }

  lemma {:induction false} MachineDateSteps(
    jd: int, L0: int, n: int, L1: int, i: int, L2: int, j: int, d: int)
    requires L0 == I32(jd + 68569) && n == MachineCentury(L0) && L1 == MachineInCentury(L0)
    requires i == MachineYear(L1) && L2 == MachineInYear(L1) && j == MachineMonth(L2) && d == MachineDay(L2)
    ensures MachineEnd(n, i, j, d) == MachineDate(jd)
  {
  }

  /** The method with the locals of C, which are reused. */
  method JulianToDate(jd: int) returns (y: int, m: int, d: int)
    ensures Date(y, m, d) == MachineDate(jd)
  {
    var L := I32(jd + 68569);
    ghost var L0 := L;
    var n := TruncDiv(I32(4 * L), 146097);
    L := I32(L - TruncDiv(I32(I32(146097 * n) + 3), 4));
    MachineCenturyStep(L0, n, L);
    ghost var L1 := L;
    var i := TruncDiv(I32(4000 * I32(L + 1)), 1461001);
    L := I32(I32(L - TruncDiv(I32(1461 * i), 4)) + 31);
    MachineYearStep(L1, i, L);
    ghost var L2 := L;
    var j := TruncDiv(I32(80 * L), 2447);
    d := I32(L - TruncDiv(I32(2447 * j), 80));
    MachineMonthStep(L2, j, d);
    MachineDateSteps(jd, L0, n, L1, i, L2, j, d);
    y, m := YearAndMonth(n, i, j, d);
  }

  method YearAndMonth(n: int, i: int, j: int, ghost d: int) returns (y: int, m: int)
    ensures Date(y, m, d) == MachineEnd(n, i, j, d)
  {
    var L := TruncDiv(j, 11);
    m := I32(I32(j + 2) - I32(12 * L));
    y := I32(I32(I32(100 * I32(n - 49)) + i) + L);
  }

  // ---- adding an offset to a time -------------------------------------------------------------

  const SECS_PER_DAY := 24 * 60 * 60

  lemma {:induction false} RestOfDay(x: int)
    ensures -SECS_PER_DAY < x - TruncDiv(x, SECS_PER_DAY) * SECS_PER_DAY < SECS_PER_DAY
  {
  }

  lemma {:induction false} Clock(s: int)
    requires 0 <= s < SECS_PER_DAY
    ensures 0 <= s / 3600 < 24 && 0 <= (s / 60) % 60 < 60 && 0 <= s % 60 < 60
    ensures s == s / 3600 * 3600 + (s / 60) % 60 * 60 + s % 60
  {
    assert s / 3600 == (s / 60) / 60;
  }

  /** struct tm, its years since 1900 and its months from 0. */
  datatype Time = Time(year: int, mon: int, mday: int, hour: int, min: int, sec: int) {
    function Day(): Date { Date(year + 1900, mon + 1, mday) }

    function Clock(): int { hour * 3600 + min * 60 + sec }

    /** A calendar day and a time of day; a leap second is let in. */
    predicate Valid() {
      match this
      case Time(_, _, _, h, m, s) => Day().Valid() && 0 <= h < 24 && 0 <= m < 60 && 0 <= s <= 60
    }

    /** Seconds since the start of day 0. */
    function Linear(): int { Julian(Day()) * SECS_PER_DAY + Clock() }

    function WithClock(s: int): Time { this.(hour := s / 3600, min := s / 60 % 60, sec := s % 60) }

    function WithDate(t: Date): Time { this.(year := I32(t.y - 1900), mon := I32(t.m - 1), mday := t.d) }
  }

  /** The time moved to the day `date`, whose number is `jd`, unless its year is not from 1900 to 9999. */
  function MovedTo(t: Time, jd: int, date: Date): (bool, Time) {
    if jd < 0 || date.y < 1900 || date.y > 9999 then (false, t) else (true, t.WithDate(date))
  }

  function Finished(moved: (bool, Time), hms: int): (int, Time) {
    if moved.0 then (1, moved.1.WithClock(hms)) else (0, moved.1)
  }

  /** The offset, and the time of day with it, as days and a second of the day; one carry or borrow. */
  function Carried(days: int, hms: int): (int, int) {
    if hms >= SECS_PER_DAY then (days + 1, hms - SECS_PER_DAY)
    else if hms < 0 then (days - 1, hms + SECS_PER_DAY)
    else (days, hms)
  }

  function SplitOf(clock: int, offDay: int, offsetSec: int): (int, int) {
    var q := TruncDiv(offsetSec, SECS_PER_DAY);
    Carried(q + offDay, offsetSec - q * SECS_PER_DAY + clock)
  }

  lemma {:induction false} SplitIsExact(clock: int, offDay: int, offsetSec: int)
    requires 0 <= clock <= SECS_PER_DAY
    ensures var (days, hms) := SplitOf(clock, offDay, offsetSec);
      0 <= hms < SECS_PER_DAY && days * SECS_PER_DAY + hms == offDay * SECS_PER_DAY + offsetSec + clock
  {
    RestOfDay(offsetSec);
  }

  /** OPENSSL_gmtime_adj on integers without bounds. */
  function AdjustOf(t: Time, offDay: int, offsetSec: int): (int, Time) {
    var (days, hms) := SplitOf(t.Clock(), offDay, offsetSec);
    Finished(MoveOf(t, Julian(t.Day()) + days), hms)
  }

  function MoveOf(t: Time, jd: int): (bool, Time) { MovedTo(t, jd, FromJulian(jd)) }

  /** What the addition promises: 1 exactly when the instant lies in the years 1900 to 9999, and then a
      well-formed time that is that instant; otherwise nothing changes. */
  predicate IsExact(t: Time, offDay: int, offsetSec: int, result: (int, Time)) {
    match result
    case (r, u) =>
      var sum := t.Linear() + offDay * SECS_PER_DAY + offsetSec;
      && (r == 1 || r == 0) && (r == 1 <==> FIRST_DAY * SECS_PER_DAY <= sum < (LAST_DAY + 1) * SECS_PER_DAY)
      && (r == 1 ==> u.Valid() && u.sec < 60 && 0 <= u.year <= 8099 && u.Linear() == sum)
      && (r == 0 ==> u == t)
  }

  /** Exact addition of days and seconds of either sign. */
  lemma {:induction false} AdjustIsExact(t: Time, offDay: int, offsetSec: int)
    requires t.Valid() && t.year + 1900 > -4800
    ensures IsExact(t, offDay, offsetSec, AdjustOf(t, offDay, offsetSec))
  {
    var (days, hms) := SplitOf(t.Clock(), offDay, offsetSec);
    var jd := Julian(t.Day()) + days;
    SplitIsExact(t.Clock(), offDay, offsetSec);
    MoveIsExact(t, jd);
    FinishedIsExact(t, offDay, offsetSec, days, hms, MoveOf(t, jd));
  }

  lemma {:induction false} FinishedIsExact(
    t: Time, offDay: int, offsetSec: int, days: int, hms: int, moved: (bool, Time))
    requires t.Valid() && 0 <= hms < SECS_PER_DAY
    requires days * SECS_PER_DAY + hms == offDay * SECS_PER_DAY + offsetSec + t.Clock()
    requires IsMove(t, Julian(t.Day()) + days, moved)
    ensures IsExact(t, offDay, offsetSec, Finished(moved, hms))
  {
    Reached(Julian(t.Day()), days, hms, offDay * SECS_PER_DAY + offsetSec, t.Clock());
    if moved.0 {
      ClockIsExact(moved.1, hms);
    }
  }

  /** The date moves to day `jd`, exactly when its year is from 1900 to 9999. */
  predicate IsMove(t: Time, jd: int, moved: (bool, Time)) {
    match moved
    case (ok, u) =>
      && (ok <==> FIRST_DAY <= jd <= LAST_DAY) && (!ok ==> u == t)
      && (ok ==> u.Valid() && 0 <= u.year <= 8099 && Julian(u.Day()) == jd)
  }

  lemma {:induction false} MoveIsExact(t: Time, jd: int)
    requires t.Valid()
    ensures IsMove(t, jd, MoveOf(t, jd))
  {
    if jd >= 0 {
      JulianRoundTrip(jd);
      YearInRange(FromJulian(jd));
      MovedIsMove(t, jd, FromJulian(jd));
    }
  }

  lemma {:induction false} MovedIsMove(t: Time, jd: int, date: Date)
    requires t.Valid() && jd >= 0 && date.Valid() && Julian(date) == jd
    requires 1900 <= date.y <= 9999 <==> FIRST_DAY <= jd <= LAST_DAY
    ensures IsMove(t, jd, MovedTo(t, jd, date))
  {
  }

  lemma {:induction false} ClockIsExact(t: Time, hms: int)
    requires 0 <= hms < SECS_PER_DAY && t.Valid()
    ensures var u := t.WithClock(hms); u.Day() == t.Day() && u.Valid() && u.sec < 60 && u.Clock() == hms
  {
    Clock(hms);
  }

  /** Where the offset leads, as a day and a second of it. */
  lemma {:induction false} Reached(day: int, offsetDay: int, offsetHms: int, offset: int, clock: int)
    requires 0 <= offsetHms < SECS_PER_DAY
    requires offsetDay * SECS_PER_DAY + offsetHms == offset + clock
    ensures (day + offsetDay) * SECS_PER_DAY + offsetHms == day * SECS_PER_DAY + clock + offset
    ensures FIRST_DAY * SECS_PER_DAY <= day * SECS_PER_DAY + clock + offset < (LAST_DAY + 1) * SECS_PER_DAY
            <==> FIRST_DAY <= day + offsetDay <= LAST_DAY
  {
  }

  /** The same on the machine. */
  function MachineCarried(days: int, hms: int): (int, int) {
    if hms >= SECS_PER_DAY then (I32(days + 1), I32(hms - SECS_PER_DAY))
    else if hms < 0 then (I32(days - 1), I32(hms + SECS_PER_DAY))
    else (days, hms)
  }

  function MachineSplit(t: Time, offDay: int, offsetSec: int): (int, int) {
    var q := I32(TruncDiv(offsetSec, SECS_PER_DAY));
    var clock := I32(I32(I32(t.hour * 3600) + I32(t.min * 60)) + t.sec);
    MachineCarried(I32(q + offDay), I32(I32(offsetSec - I32(q * SECS_PER_DAY)) + clock))
  }

  function MachineNumber(t: Time, days: int): int {
    I32(MachineJulian(I32(t.year + 1900), I32(t.mon + 1), t.mday) + days)
  }

  function MachineMove(t: Time, days: int): (bool, Time) {
    MachineMoveTo(t, MachineNumber(t, days))
  }

  function MachineMoveTo(t: Time, jd: int): (bool, Time) { MovedTo(t, jd, MachineDate(jd)) }

  function MachineAdjust(t: Time, offDay: int, offsetSec: int): (int, Time) {
    var (days, hms) := MachineSplit(t, offDay, offsetSec);
    Finished(MachineMove(t, days), hms)
  }

  /** Every intermediate of OPENSSL_gmtime_adj fits in 32 bits. */
  predicate EveryStepFits(t: Time, offDay: int, offsetSec: int) {
    SplitFits(t, offDay, offsetSec) && MoveFits(t, SplitOf(t.Clock(), offDay, offsetSec).0)
  }

  predicate SplitFits(t: Time, offDay: int, offsetSec: int) {
    var q := TruncDiv(offsetSec, SECS_PER_DAY);
    var hms := offsetSec - q * SECS_PER_DAY + t.Clock();
    var (days, rest) := Carried(q + offDay, hms);
    && In32(q) && In32(q * SECS_PER_DAY) && In32(offsetSec - q * SECS_PER_DAY)
    && In32(t.hour * 3600) && In32(t.min * 60) && In32(t.hour * 3600 + t.min * 60) && In32(t.Clock())
    && In32(q + offDay) && In32(hms) && In32(days) && In32(rest)
  }

  predicate MoveFits(t: Time, days: int) {
    match t
    case Time(_, _, _, _, _, _) =>
      NumberFits(t, days) && ReachFits(t, Julian(t.Day()) + days)
  }

  predicate ReachFits(t: Time, jd: int) {
    match t
    case Time(_, _, _, _, _, _) => jd >= 0 ==> DateFits(jd)
  }

  predicate NumberFits(t: Time, days: int) {
    match t
    case Time(year, mon, mday, _, _, _) =>
      In32(year + 1900) && In32(mon + 1) && JulianFits(t.Day()) && In32(Julian(t.Day()) + days)
  }

  /** What a caller can check beforehand: the year is not too large for the first product, the days of
      the offset do not overflow before or after the carry, and the day they lead to is not too large
      for the product it meets first. */
  predicate Fits(t: Time, offDay: int, offsetSec: int) {
    match SplitOf(t.Clock(), offDay, offsetSec)
    case (days, _) =>
      var jd := Julian(t.Day()) + days;
      && In32(1461 * MarchYear(t.Day())) && In32(TruncDiv(offsetSec, SECS_PER_DAY) + offDay) && In32(days)
      && In32(jd) && (jd >= 0 ==> In32(4 * (jd + 68569)))
  }

  lemma {:induction false} EveryStepFitsIff(t: Time, offDay: int, offsetSec: int)
    requires t.Valid() && t.year + 1900 > -4800 && In32(offsetSec)
    ensures EveryStepFits(t, offDay, offsetSec) <==> Fits(t, offDay, offsetSec)
  {
    SplitFitsIff(t, offDay, offsetSec);
    MoveFitsIff(t, SplitOf(t.Clock(), offDay, offsetSec).0);
  }

  lemma {:induction false} SplitFitsIff(t: Time, offDay: int, offsetSec: int)
    requires t.Valid() && In32(offsetSec)
    ensures SplitFits(t, offDay, offsetSec)
            <==> In32(TruncDiv(offsetSec, SECS_PER_DAY) + offDay) && In32(SplitOf(t.Clock(), offDay, offsetSec).0)
  {
    RestOfDay(offsetSec);
  }

  lemma {:induction false} MoveFitsIff(t: Time, days: int)
    requires t.Valid() && t.year + 1900 > -4800
    ensures var jd := Julian(t.Day()) + days;
      MoveFits(t, days) <==> In32(1461 * MarchYear(t.Day())) && In32(jd) && (jd >= 0 ==> In32(4 * (jd + 68569)))
  {
    JulianFitsIff(t.Day());
    if Julian(t.Day()) + days >= 0 {
      JulianToDateIn32(Julian(t.Day()) + days);
    }
  }

  lemma {:induction false} MachineSplitIs(t: Time, offDay: int, offsetSec: int)
    requires SplitFits(t, offDay, offsetSec)
    ensures MachineSplit(t, offDay, offsetSec) == SplitOf(t.Clock(), offDay, offsetSec)
  {
  }

  /** Where every step fits, the machine does what the integers do. */
  lemma {:induction false} MachineAdjustIs(t: Time, offDay: int, offsetSec: int)
    requires EveryStepFits(t, offDay, offsetSec)
    ensures MachineAdjust(t, offDay, offsetSec) == AdjustOf(t, offDay, offsetSec)
  {
    MachineSplitIs(t, offDay, offsetSec);
    var (days, hms) := SplitOf(t.Clock(), offDay, offsetSec);
    MachineMoveIs(t, days);
    SameEnd(t, offDay, offsetSec, days, hms);
  }

  lemma {:induction false} SameEnd(t: Time, offDay: int, offsetSec: int, days: int, hms: int)
    requires MachineSplit(t, offDay, offsetSec) == (days, hms) && SplitOf(t.Clock(), offDay, offsetSec) == (days, hms)
    requires MachineMove(t, days) == MoveOf(t, Julian(t.Day()) + days)
    ensures MachineAdjust(t, offDay, offsetSec) == AdjustOf(t, offDay, offsetSec)
  {
  }

  lemma {:induction false} MachineMoveIs(t: Time, days: int)
    requires MoveFits(t, days)
    ensures MachineMove(t, days) == MoveOf(t, Julian(t.Day()) + days)
  {
    var jd := Julian(t.Day()) + days;
    MachineNumberIs(t, days);
    MoveCong(t, days, jd);
    MachineMoveToIs(t, jd);
  }

  lemma {:induction false} MachineNumberIs(t: Time, days: int)
    requires NumberFits(t, days)
    ensures MachineNumber(t, days) == Julian(t.Day()) + days
  {
    MachineJulianIs(t.year + 1900, t.mon + 1, t.mday);
    NumberSteps(t, days, t.year + 1900, t.mon + 1, Julian(t.Day()));
  }

  lemma {:induction false} MachineMoveToIs(t: Time, jd: int)
    requires ReachFits(t, jd)
    ensures MachineMoveTo(t, jd) == MoveOf(t, jd)
  {
    if jd >= 0 {
      MachineDateIs(jd);
    }
  }

  /** The whole of it: on the machine the addition is exact for every valid time after the year -4800
      and all offsets that fit as `Fits` says. */
  lemma {:induction false} MachineAdjustIsExact(t: Time, offDay: int, offsetSec: int)
    requires t.Valid() && t.year + 1900 > -4800 && In32(offsetSec) && Fits(t, offDay, offsetSec)
    ensures IsExact(t, offDay, offsetSec, MachineAdjust(t, offDay, offsetSec))
  {
    EveryStepFitsIff(t, offDay, offsetSec);
    MachineAdjustIs(t, offDay, offsetSec);
    AdjustIsExact(t, offDay, offsetSec);
  }

  /** Where it does not fit, the year can come out in range by accident: 1073705300 days after
      1 January 2000 the machine reports success and a day of January 1900 that no month has. */
  lemma {:induction false} MachineAdjustGoesWrong(t: Time, offDay: int, nonsense: Time)
    requires t == Time(100, 0, 1, 0, 0, 0) && offDay == 1073705300
    requires nonsense == Time(0, 0, 1073741825, 0, 0, 0)
    ensures MachineAdjust(t, offDay, 0) == (1, nonsense)
    ensures !IsExact(t, offDay, 0, MachineAdjust(t, offDay, 0))
  {
    SplitThatWraps(t, offDay);
    MoveThatWraps(t, offDay);
    NoSuchDay(nonsense);
    EndThatWraps(t, offDay, offDay, (true, nonsense));
  }

  /** That offset is one of those that do not fit. */
  lemma {:induction false} WrongDoesNotFit(t: Time, offDay: int)
    requires t == Time(100, 0, 1, 0, 0, 0) && offDay == 1073705300
    ensures t.Valid() && !Fits(t, offDay, 0)
  {
    FirstOfMonth(t);
    var day := 2451545;
    assert 0 <= day + offDay && !In32(4 * (day + offDay + 68569));
    DayOfY2K(t);
    LateDaysDoNotFit(t, offDay, day);
  }

  lemma {:induction false} FirstOfMonth(t: Time)
    requires 0 <= t.mon < 12 && t.mday == 1 && t.hour == t.min == t.sec == 0
    ensures t.Valid()
  {
  }

  lemma {:induction false} LateDaysDoNotFit(t: Time, offDay: int, day: int)
    requires t.hour == t.min == t.sec == 0 && In32(offDay) && Julian(t.Day()) == day
    requires 0 <= day + offDay && !In32(4 * (day + offDay + 68569))
    ensures !Fits(t, offDay, 0)
  {
    SplitThatWraps(t, offDay);
  }

  lemma {:induction false} NoSuchDay(t: Time)
    requires t.mday > 31
    ensures !t.Valid()
  {
  }

  lemma {:induction false} DayOfY2K(t: Time)
    requires t.year == 100 && t.mon == 0 && t.mday == 1
    ensures Julian(t.Day()) == 2451545
  {
    Anchor();
  }

  lemma {:induction false} SplitThatWraps(t: Time, offDay: int)
    requires t.hour == t.min == t.sec == 0 && In32(offDay)
    ensures SplitOf(t.Clock(), offDay, 0) == (offDay, 0) && MachineSplit(t, offDay, 0) == (offDay, 0)
  {
  }

  lemma {:induction false} EndThatWraps(t: Time, offDay: int, days: int, moved: (bool, Time))
    requires MachineSplit(t, offDay, 0) == (days, 0) && MachineMove(t, days) == moved
    requires moved.0 && !moved.1.Valid() && moved.1.hour == moved.1.min == moved.1.sec == 0
    ensures MachineAdjust(t, offDay, 0) == (1, moved.1)
    ensures !IsExact(t, offDay, 0, MachineAdjust(t, offDay, 0))
  {
    assert MachineAdjust(t, offDay, 0) == Finished(moved, 0);
    assert moved.1.WithClock(0) == moved.1;
  }

  lemma {:induction false} MoveThatWraps(t: Time, days: int)
    requires t == Time(100, 0, 1, 0, 0, 0) && days == 1073705300
    ensures MachineMove(t, days) == (true, Time(0, 0, 1073741825, 0, 0, 0))
  {
    NumberOfY2K(t, days);
    DayThatWraps(1076156845);
    MoveCong(t, days, 1076156845);
  }

  lemma {:induction false} NumberOfY2K(t: Time, days: int)
    requires t.year == 100 && t.mon == 0 && t.mday == 1 && In32(2451545 + days)
    ensures MachineNumber(t, days) == 2451545 + days
  {
    DateToJulianIn32(2000, 1, 1);
    MachineJulianIs(2000, 1, 1);
    Anchor();
  }

  lemma {:induction false} MoveCong(t: Time, days: int, jd: int)
    requires MachineNumber(t, days) == jd
    ensures MachineMove(t, days) == MachineMoveTo(t, jd)
  {
  }

  lemma {:induction false} DayThatWraps(jd: int)
    requires jd == 1076156845
    ensures MachineDate(jd) == Date(1900, 1, 1073741825)
  {
    I32Wraps(9934360, 1);
    assert MachineCentury(1076225414) == 67 && MachineInCentury(1076225414) == 1073778289;
    I32Wraps(145864000, 1000);
    assert MachineYear(1073778289) == 99 && MachineInYear(1073778289) == 1073742161;
    I32Wraps(26960, 20);
    assert MachineMonth(1073742161) == 11 && MachineDay(1073742161) == 1073741825;
  }

  lemma {:induction false} AdjustSteps(
    t: Time, offDay: int, offsetSec: int, days: int, hms: int, moved: (bool, Time))
    requires MachineSplit(t, offDay, offsetSec) == (days, hms) && MachineMove(t, days) == moved
    ensures MachineAdjust(t, offDay, offsetSec) == Finished(moved, hms)
  {
  }

  lemma {:induction false} NumberSteps(t: Time, days: int, y: int, m: int, jd: int)
    requires y == I32(t.year + 1900) && m == I32(t.mon + 1) && jd == MachineJulian(y, m, t.mday)
    ensures MachineNumber(t, days) == I32(jd + days)
  {
  }

  lemma {:induction false} MoveToSteps(t: Time, jd: int, date: Date)
    requires date == MachineDate(jd)
    ensures MachineMoveTo(t, jd) == MovedTo(t, jd, date)
  {
  }

  class Tm {
    var year: int  // since 1900
    var mon: int   // January is 0
    var mday: int
    var hour: int
    var min: int
    var sec: int

    constructor (t: Time)
      ensures Value() == t
    {
      year, mon, mday := t.year, t.mon, t.mday;
      hour, min, sec := t.hour, t.min, t.sec;
    }

    ghost function Value(): Time
      reads this
    {
      Time(year, mon, mday, hour, min, sec)
    }

    /** OPENSSL_gmtime_adj on 32-bit integers. */
    method Adjust(offDay: int, offsetSec: int) returns (r: int)
      requires Value().Valid() && In32(offDay) && In32(offsetSec)
      modifies this
      ensures (r, Value()) == MachineAdjust(old(Value()), offDay, offsetSec)
    {
      ghost var t := Value();
      var offsetDay, offsetHms := SplitOffset(offDay, offsetSec);
      var ok := MoveDate(offsetDay);
      AdjustSteps(t, offDay, offsetSec, offsetDay, offsetHms, (ok, Value()));
      r := 0;
      if ok {
        SetClock(offsetHms);
        r := 1;
      }
    }

    method SetClock(s: int)
      modifies this`hour, this`min, this`sec
      ensures Value() == old(Value()).WithClock(s)
    {
      hour := s / 3600;
      min := s / 60 % 60;
      sec := s % 60;
    }

    /** The offset as days and a time of day. */
    method SplitOffset(offDay: int, offsetSec: int) returns (offsetDay: int, offsetHms: int)
      ensures (offsetDay, offsetHms) == MachineSplit(Value(), offDay, offsetSec)
    {
      offsetDay := I32(TruncDiv(offsetSec, SECS_PER_DAY));
      offsetHms := I32(offsetSec - I32(offsetDay * SECS_PER_DAY));
      offsetDay := I32(offsetDay + offDay);
      offsetHms := I32(offsetHms + I32(I32(I32(hour * 3600) + I32(min * 60)) + sec));
      if offsetHms >= SECS_PER_DAY {
        offsetDay := I32(offsetDay + 1);
        offsetHms := I32(offsetHms - SECS_PER_DAY);
      } else if offsetHms < 0 {
        offsetDay := I32(offsetDay - 1);
        offsetHms := I32(offsetHms + SECS_PER_DAY);
      }
    }

    /** Move the date by whole days, unless that leaves the years 1900 to 9999. */
    method MoveDate(offsetDay: int) returns (ok: bool)
      modifies this`year, this`mon, this`mday
      ensures (ok, Value()) == MachineMove(old(Value()), offsetDay)
    {
      ghost var t := Value();
      var timeJd := DayNumber(offsetDay);
      ok := SetDay(timeJd);
      MoveCong(t, offsetDay, timeJd);
    }

    method DayNumber(offsetDay: int) returns (timeJd: int)
      ensures timeJd == MachineNumber(Value(), offsetDay)
    {
      var timeYear, timeMonth, timeDay := I32(year + 1900), I32(mon + 1), mday;
      timeJd := MachineJulian(timeYear, timeMonth, timeDay);
      NumberSteps(Value(), offsetDay, timeYear, timeMonth, timeJd);
      timeJd := I32(timeJd + offsetDay);
    }

    method SetDay(timeJd: int) returns (ok: bool)
      modifies this`year, this`mon, this`mday
      ensures (ok, Value()) == MachineMoveTo(old(Value()), timeJd)
    {
      ghost var t := Value();
      if timeJd < 0 {
        return false;
      }
      var timeYear, timeMonth, timeDay := JulianToDate(timeJd);
      MoveToSteps(t, timeJd, Date(timeYear, timeMonth, timeDay));
      if timeYear < 1900 || timeYear > 9999 {
        return false;
      }
      SetDate(timeYear, timeMonth, timeDay);
      return true;
    }

    method SetDate(y: int, m: int, d: int)
      modifies this`year, this`mon, this`mday
      ensures Value() == old(Value()).WithDate(Date(y, m, d))
    {
      year, mon, mday := I32(y - 1900), I32(m - 1), d;
    }
  }
}
