// src/platform/render.rs, iso_time: the civil-from-days algorithm against the calendar of RFC 3339.
module IsoTime {

  // ---------------------------------------------------------------- the calendar, sections 5.7 and Appendix C

  predicate IsLeap(year: nat) { year % 4 == 0 && (year % 100 != 0 || year % 400 == 0) }

  function DaysInMonth(year: nat, month: nat): nat
    requires 1 <= month <= 12
  {
    if month == 2 then (if IsLeap(year) then 29 else 28)
    else if month == 4 || month == 6 || month == 9 || month == 11 then 30
    else 31
  }

  predicate IsDate(year: nat, month: nat, day: nat) { 1 <= month <= 12 && 1 <= day <= DaysInMonth(year, month) }

  /** Days from 1970-01-01 to the first day of a year. */
  function DaysBeforeYear(year: nat): nat
    requires year >= 1970
  {
    if year == 1970 then 0 else DaysBeforeYear(year - 1) + if IsLeap(year - 1) then 366 else 365
  }

  /** Days from the first day of a year to the first day of a month. */
  function DaysBeforeMonth(year: nat, month: nat): nat
    requires 1 <= month <= 12
  {
    if month == 1 then 0 else DaysBeforeMonth(year, month - 1) + DaysInMonth(year, month - 1)
  }

  /** Days from 1970-01-01 to a date. */
  function DayNumber(year: nat, month: nat, day: nat): int
    requires year >= 1970 && IsDate(year, month, day)
  {
    DaysBeforeYear(year) + DaysBeforeMonth(year, month) + day - 1
  }

  // ---------------------------------------------------------------- the algorithm

  datatype Date = Date(year: nat, month: nat, day: nat)

  /** Days before year y of an era of 400 years that begins on 1 March. */
  function YearStart(y: nat): nat { 365 * y + y / 4 - y / 100 }

  function YearOfEra(day: nat): int { (day - day / 1460 + day / 36524 - day / 146096) / 365 }

  /** A day of an era by century, cycle of four years, year of the cycle and day of the year. */
  ghost predicate IsDecomposed(day: nat, c: nat, q: nat, t: nat, u: nat) {
    && day == 36524 * c + 1461 * q + 365 * t + u && c < 4 && q < 25 && t < 4 && u < 366
    && (u == 365 ==> t == 3 && (q < 24 || c == 3))
  }

  lemma Decompose(day: nat) returns (c: nat, q: nat, t: nat, u: nat)
    requires day < 146097
    ensures IsDecomposed(day, c, q, t, u)
  {
    c := if day == 146096 then 3 else day / 36524;
    var r := day - 36524 * c;
    q := if r == 36524 then 24 else r / 1461;
    var s := r - 1461 * q;
    t := if s == 1460 then 3 else s / 365;
    u := s - 365 * t;
  }

  lemma StartOf(c: nat, q: nat, t: nat)
    requires c < 4 && q < 25 && t < 4
    ensures YearStart(100 * c + 4 * q + t) == 36524 * c + 1461 * q + 365 * t
  {
    var y := 100 * c + 4 * q + t;
    assert y / 4 == 25 * c + q;
    assert y / 100 == c;
  }

  lemma NextStart(c: nat, q: nat, t: nat)
    requires c < 4 && q < 25 && t < 4
    ensures YearStart(100 * c + 4 * q + t + 1) == 36524 * c + 1461 * q + 365 * t + if t == 3 && q < 24 then 366 else 365
  {
    if t < 3 {
      StartOf(c, q, t + 1);
    } else if q < 24 {
      StartOf(c, q + 1, 0);
    } else {
      var y := 100 * (c + 1);
      assert y / 4 == 25 * (c + 1) && y / 100 == c + 1;
    }
  }

  lemma YearOfDecomposed(day: nat, c: nat, q: nat, t: nat, u: nat)
    requires IsDecomposed(day, c, q, t, u)
    ensures YearOfEra(day) == 100 * c + 4 * q + t
  {
    var e := 24 * c + q + 365 * t + u;
    assert day == 1460 * (25 * c + q) + e;
    var carry := if e >= 1460 then 1 else 0;
    assert day / 1460 == 25 * c + q + carry;
    var last := if day == 146096 then 1 else 0;
    assert day / 36524 == c + last && day / 146096 == last;
    assert day - day / 1460 + day / 36524 - day / 146096 == 365 * (100 * c + 4 * q + t) + (u - carry);
  }

  lemma YearOfEraIsRight(day: nat)
    requires day < 146097
    ensures 0 <= YearOfEra(day) < 400 && YearStart(YearOfEra(day)) <= day
    ensures day < YearStart(YearOfEra(day) + 1) || (day == 146096 && YearOfEra(day) == 399)
    ensures day - YearStart(YearOfEra(day)) < 366
  {
    var c, q, t, u := Decompose(day);
    YearOfDecomposed(day, c, q, t, u);
    StartOf(c, q, t);
    NextStart(c, q, t);
  }

  // ---------------------------------------------------------------- days of a year

  function MonthStart(index: nat): nat { (153 * index + 2) / 5 }

  function MonthIndex(dayOfYear: nat): nat { (5 * dayOfYear + 2) / 153 }

  function MonthOf(index: nat): nat
    requires index < 12
  {
    if index < 10 then index + 3 else index - 9
  }

  /** The first days of the months, counted from 1 March: the month index is that of the last month
      that has begun. */
  lemma MonthIndexIsRight(dayOfYear: nat)
    requires dayOfYear < 366
    ensures MonthIndex(dayOfYear) < 12
    ensures MonthStart(MonthIndex(dayOfYear)) <= dayOfYear
    ensures MonthIndex(dayOfYear) < 11 ==> dayOfYear < MonthStart(MonthIndex(dayOfYear) + 1)
  {
  }

  lemma MonthsOfYear(year: nat)
    ensures DaysBeforeMonth(year, 1) == 0 && DaysBeforeMonth(year, 2) == 31
    ensures DaysBeforeMonth(year, 3) == 59 + if IsLeap(year) then 1 else 0
  {
    assert DaysBeforeMonth(year, 2) == DaysBeforeMonth(year, 1) + DaysInMonth(year, 1);
    assert DaysBeforeMonth(year, 3) == DaysBeforeMonth(year, 2) + DaysInMonth(year, 2);
  }

  /** From March on, month starts follow the formula, and so do month lengths. */
  lemma {:induction false} MonthsFollow(year: nat, index: nat)
    requires index < 10
    ensures DaysBeforeMonth(year, index + 3) == DaysBeforeMonth(year, 3) + MonthStart(index)
    ensures DaysInMonth(year, index + 3) == MonthStart(index + 1) - MonthStart(index)
  {
    if index > 0 { MonthsFollow(year, index - 1); }
  }

  // ---------------------------------------------------------------- days of an era

  /** Days from 1 March of year 0 to 1 March of a year. */
  function MarchFirst(year: nat): nat { 365 * year + year / 4 - year / 100 + year / 400 }

  const EPOCH := 719_468

  lemma MarchFirstOfEra(era: nat, y: nat)
    requires y < 400
    ensures MarchFirst(400 * era + y) == 146097 * era + YearStart(y)
  {
    var year := 400 * era + y;
    assert year / 4 == 100 * era + y / 4;
    assert year / 100 == 4 * era + y / 100;
    assert year / 400 == era;
  }

  lemma MarchFirstStep(year: nat)
    requires year > 0
    ensures MarchFirst(year) == MarchFirst(year - 1) + if IsLeap(year) then 366 else 365
  {
    DivStep(year, 4);
    DivStep(year, 100);
    DivStep(year, 400);
    CenturiesDivide(year);
  }

  lemma CenturiesDivide(year: nat)
    ensures (year % 400 == 0 ==> year % 100 == 0) && (year % 100 == 0 ==> year % 4 == 0)
  {
    if year % 100 == 0 { MultipleDivides(year, 4, 25 * (year / 100)); }
    if year % 400 == 0 { MultipleDivides(year, 100, 4 * (year / 400)); }
  }

  lemma MultipleDivides(n: nat, d: nat, k: nat)
    requires d > 0 && n == d * k
    ensures n % d == 0
  {
    DivExact(n, d, k, 0);
  }

  lemma DivStep(n: nat, d: nat)
    requires n > 0 && d > 1
    ensures n / d == (n - 1) / d + if n % d == 0 then 1 else 0
  {
    var q, r := (n - 1) / d, (n - 1) % d;
    assert n - 1 == d * q + r;
    if r == d - 1 {
      assert n == d * (q + 1);
      DivExact(n, d, q + 1, 0);
    } else {
      DivExact(n, d, q, r + 1);
    }
  }

  lemma DivExact(n: nat, d: nat, q: nat, r: nat)
    requires d > 0 && n == d * q + r && r < d
    ensures n / d == q && n % d == r
  {
    var q', r' := n / d, n % d;
    assert n == d * q' + r';
    if q' < q { Scaled(d, q' + 1, q); } else if q < q' { Scaled(d, q + 1, q'); }
  }

  lemma Scaled(d: nat, x: nat, y: nat)
    requires x <= y
    ensures d * x <= d * y
  {
    assert d * y == d * x + d * (y - x);
  }

  lemma {:induction false} YearsFollow(year: nat)
    requires year >= 1970
    ensures DaysBeforeYear(year) + EPOCH == MarchFirst(year - 1) + 306
  {
    if year > 1970 {
      YearsFollow(year - 1);
      MarchFirstStep(year - 1);
    }
  }

  lemma {:induction false} MarchFirstGrows(x: nat, y: nat)
    requires x <= y
    ensures MarchFirst(x) <= MarchFirst(y)
    decreases y
  {
    if x < y {
      MarchFirstGrows(x, y - 1);
      MarchFirstStep(y);
    }
  }

  // ---------------------------------------------------------------- the date of a day

  /** The date of a day of the year that begins on 1 March. */
  function DateOf(year: nat, dayOfYear: nat): Date
    requires dayOfYear < 366
  {
    var index := MonthIndex(dayOfYear);
    MonthIndexIsRight(dayOfYear);
    var month := MonthOf(index);
    Date(year + (if month <= 2 then 1 else 0), month, dayOfYear - MonthStart(index) + 1)
  }

  function DateInEra(era: nat, dayOfEra: nat): Date
    requires dayOfEra < 146097
  {
    var yearOfEra := YearOfEra(dayOfEra);
    YearOfEraIsRight(dayOfEra);
    DateOf(yearOfEra + era * 400, dayOfEra - YearStart(yearOfEra))
  }

  /** The date of a number of days since 1970-01-01. */
  function Civil(days: nat): Date {
    var z := days + EPOCH;
    DateInEra(z / 146097, z % 146097)
  }

  /** The last day of a year that begins in March is 29 February, and only leap years have it. */
  lemma LastDayIsLeap(day: nat, era: nat)
    requires day < 146097 && day - YearStart(YearOfEra(day)) == 365
    ensures YearOfEra(day) >= 0 && IsLeap(400 * era + YearOfEra(day) + 1)
  {
    var c, q, t, u := Decompose(day);
    YearOfDecomposed(day, c, q, t, u);
    StartOf(c, q, t);
    LastOfFour(day, c, q, t, u);
    LeapAfter(era, c, q);
  }

  lemma LeapAfter(era: nat, c: nat, q: nat)
    requires c < 4 && q < 25 && (q == 24 ==> c == 3)
    ensures IsLeap(400 * era + (100 * c + 4 * q + 3) + 1)
  {
    if q < 24 {
      FourthIsLeap(era, c, q, 100 * c + 4 * (q + 1));
    } else {
      DivExact(400 * era + 400, 400, era + 1, 0);
      assert 400 * era + (100 * c + 4 * q + 3) + 1 == 400 * era + 400;
    }
  }

  /** Day 365 of a year comes only in the last of four years, and in a century only in the last of four. */
  lemma LastOfFour(day: nat, c: nat, q: nat, t: nat, u: nat)
    requires IsDecomposed(day, c, q, t, u) && day - (36524 * c + 1461 * q + 365 * t) == 365
    ensures t == 3 && (q == 24 ==> c == 3)
  {
  }

  lemma FourthIsLeap(era: nat, c: nat, q: nat, y: nat)
    requires q < 24 && c < 4 && y == 100 * c + 4 * (q + 1)
    ensures IsLeap(400 * era + y)
  {
    DivExact(400 * era + y, 100, 4 * era + c, 4 * (q + 1));
    DivExact(400 * era + y, 4, 100 * era + 25 * c + q + 1, 0);
  }

  /** Converting the date back gives the day, for a day of the year that begins in March. */
  lemma DateOfYearDay(year: nat, dayOfYear: nat)
    requires dayOfYear < 366 && (dayOfYear == 365 ==> IsLeap(year + 1)) && MarchFirst(year) + dayOfYear >= EPOCH
    ensures var date := DateOf(year, dayOfYear);
            && date.year >= 1970 && IsDate(date.year, date.month, date.day)
            && DayNumber(date.year, date.month, date.day) + EPOCH == MarchFirst(year) + dayOfYear
  {
    MonthIndexIsRight(dayOfYear);
    if year < 1969 { MarchFirstGrows(year, 1968); }
    if MonthIndex(dayOfYear) < 10 {
      FromMarch(year, dayOfYear, MonthIndex(dayOfYear));
    } else {
      BeforeMarch(year, dayOfYear, MonthIndex(dayOfYear));
    }
  }

  lemma FromMarch(year: nat, dayOfYear: nat, index: nat)
    requires year >= 1969 && MarchFirst(year) + dayOfYear >= EPOCH && dayOfYear < 366
    requires index < 10 && MonthStart(index) <= dayOfYear < MonthStart(index + 1)
    ensures year >= 1970 && IsDate(year, index + 3, dayOfYear - MonthStart(index) + 1)
    ensures DayNumber(year, index + 3, dayOfYear - MonthStart(index) + 1) + EPOCH == MarchFirst(year) + dayOfYear
  {
    if year == 1969 { FirstMarch(index, dayOfYear); }
    MarchFirstStep(year);
    MonthsOfYear(year);
    MonthsFollow(year, index);
    YearsFollow(year);
  }

  lemma FirstMarch(index: nat, dayOfYear: nat)
    requires index < 10 && dayOfYear < MonthStart(index + 1)
    ensures MarchFirst(1969) + dayOfYear < EPOCH
  {
  }

  lemma BeforeMarch(year: nat, dayOfYear: nat, index: nat)
    requires year >= 1969 && dayOfYear < 366 && (dayOfYear == 365 ==> IsLeap(year + 1))
    requires (index == 10 && 306 <= dayOfYear < 337) || (index == 11 && 337 <= dayOfYear)
    ensures IsDate(year + 1, index - 9, dayOfYear - MonthStart(index) + 1)
    ensures DayNumber(year + 1, index - 9, dayOfYear - MonthStart(index) + 1) + EPOCH == MarchFirst(year) + dayOfYear
  {
    MonthsOfYear(year + 1);
    YearsFollow(year + 1);
  }

  ghost predicate IsDateOf(date: Date, day: nat) {
    date.year >= 1970 && IsDate(date.year, date.month, date.day) && DayNumber(date.year, date.month, date.day) == day
  }

  lemma DateInEraIsRight(era: nat, dayOfEra: nat, day: nat)
    requires dayOfEra < 146097 && day + EPOCH == 146097 * era + dayOfEra
    ensures IsDateOf(DateInEra(era, dayOfEra), day)
  {
    hide DateOf;
    var y := YearInEra(era, dayOfEra);
    DateOfYearDay(400 * era + y, dayOfEra - YearStart(y));
  }

  lemma YearInEra(era: nat, dayOfEra: nat) returns (y: nat)
    requires dayOfEra < 146097
    ensures y == YearOfEra(dayOfEra) && 0 <= dayOfEra - YearStart(y) < 366
    ensures dayOfEra - YearStart(y) == 365 ==> IsLeap(400 * era + y + 1)
    ensures MarchFirst(400 * era + y) + dayOfEra - YearStart(y) == 146097 * era + dayOfEra
  {
    YearOfEraIsRight(dayOfEra);
    y := YearOfEra(dayOfEra);
    MarchFirstOfEra(era, y);
    if dayOfEra - YearStart(y) == 365 { LastDayIsLeap(dayOfEra, era); }
  }

  /** Every day has a valid date, and converting the date back gives the day. */
  lemma CivilIsRight(days: nat)
    ensures IsDateOf(Civil(days), days)
  {
    var era, dayOfEra := EraOf(days + EPOCH);
    DateInEraIsRight(era, dayOfEra, days);
  }

  lemma EraOf(z: nat) returns (era: nat, dayOfEra: nat)
    ensures era == z / 146097 && dayOfEra == z % 146097 && z == 146097 * era + dayOfEra
  {
    era, dayOfEra := z / 146097, z % 146097;
  }

  // ---------------------------------------------------------------- the text

  function Digit(n: nat): char
    requires n < 10
  {
    (n as char) + '0'
  }

  function Decimal(n: nat): string { if n < 10 then [Digit(n)] else Decimal(n / 10) + [Digit(n % 10)] }

  function Zeros(n: nat): string { if n == 0 then "" else "0" + Zeros(n - 1) }

  /** A number with at least `width` digits. */
  function Padded(n: nat, width: nat): string {
    if |Decimal(n)| < width then Zeros(width - |Decimal(n)|) + Decimal(n) else Decimal(n)
  }

  function Clock(rest: nat): string
    requires rest < 86400
  {
    "T" + Padded(rest / 3600, 2) + ":" + Padded(rest % 3600 / 60, 2) + ":" + Padded(rest % 60, 2) + "Z"
  }

  function Render(millis: nat): string {
    var seconds := millis / 1000;
    var date := Civil(seconds / 86400);
    Padded(date.year, 4) + "-" + Padded(date.month, 2) + "-" + Padded(date.day, 2) + Clock(seconds % 86400)
  }

  // ---------------------------------------------------------------- reading the text

  function Value(s: string): int { if s == "" then 0 else Value(s[..|s| - 1]) * 10 + (s[|s| - 1] as int - '0' as int) }

  predicate AreDigits(s: string) { forall i :: 0 <= i < |s| ==> '0' <= s[i] <= '9' }

  lemma {:induction false} DecimalValue(n: nat)
    ensures Value(Decimal(n)) == n && Decimal(n) != "" && AreDigits(Decimal(n))
  {
    if n >= 10 {
      DecimalValue(n / 10);
      var s := Decimal(n / 10);
      assert (s + [Digit(n % 10)])[..|s|] == s;
    }
  }

  lemma {:induction false} ZerosAddNothing(k: nat, s: string)
    ensures Value(Zeros(k) + s) == Value(s)
    decreases |s| + k
  {
    if s != "" {
      var t := Zeros(k) + s;
      assert t[..|t| - 1] == Zeros(k) + s[..|s| - 1];
      ZerosAddNothing(k, s[..|s| - 1]);
    } else if k > 0 {
      ZerosEnd(k);
      assert Zeros(k) + s == Zeros(k) && Zeros(k - 1) + s == Zeros(k - 1);
      ZerosAddNothing(k - 1, s);
    }
  }

  lemma {:induction false} ZerosEnd(k: nat)
    requires k > 0
    ensures |Zeros(k)| == k && Zeros(k)[..k - 1] == Zeros(k - 1) && Zeros(k)[k - 1] == '0' && AreDigits(Zeros(k))
  {
    if k > 1 { ZerosEnd(k - 1); }
  }

  lemma PaddedValue(n: nat, width: nat)
    ensures Value(Padded(n, width)) == n && |Padded(n, width)| >= width && AreDigits(Padded(n, width))
  {
    hide Decimal, Zeros, Value;
    DecimalValue(n);
    if |Decimal(n)| < width {
      ZerosAddNothing(width - |Decimal(n)|, Decimal(n));
      ZerosEnd(width - |Decimal(n)|);
    }
  }

  lemma TwoDigits(n: nat)
    requires n < 100
    ensures |Padded(n, 2)| == 2
  {
    assert n < 10 ==> Decimal(n) == [Digit(n)];
    assert n >= 10 ==> Decimal(n / 10) == [Digit(n / 10)];
    if n < 10 { ZerosEnd(1); }
  }

  /** The fields of a time, as section 5.6 of RFC 3339 writes them: the last 16 characters follow the year. */
  predicate IsTimeText(s: string) {
    && |s| >= 20 && AreDigits(s[..|s| - 16])
    && var r := s[|s| - 16..];
    && r[0] == '-' && r[3] == '-' && r[6] == 'T' && r[9] == ':' && r[12] == ':' && r[15] == 'Z'
    && AreDigits(r[1..3]) && AreDigits(r[4..6]) && AreDigits(r[7..9]) && AreDigits(r[10..12]) && AreDigits(r[13..15])
  }

  /** The second that the fields of a time name. */
  ghost predicate NamesSecond(s: string, second: int)
    requires |s| >= 20
  {
    var year, r := Value(s[..|s| - 16]), s[|s| - 16..];
    var month, day, hour, minute := Value(r[1..3]), Value(r[4..6]), Value(r[7..9]), Value(r[10..12]);
    && year >= 1970 && month >= 0 && day >= 0 && IsDate(year, month, day)
    && 0 <= hour < 24 && 0 <= minute < 60 && 0 <= Value(r[13..15]) < 60
    && DayNumber(year, month, day) * 86400 + hour * 3600 + minute * 60 + Value(r[13..15]) == second
  }

  lemma Parts(rest: nat) returns (h: nat, m: nat, s: nat)
    requires rest < 86400
    ensures h == rest / 3600 && m == rest % 3600 / 60 && s == rest % 60 && rest == 3600 * h + 60 * m + s
    ensures h < 24 && m < 60 && s < 60
  {
    var r := rest % 3600;
    h, m := rest / 3600, r / 60;
    s := r % 60;
    DivExact(rest, 60, 60 * h + m, s);
  }

  lemma FieldSlices(month: string, day: string, hour: string, minute: string, second: string, s: string)
    requires |month| == 2 && |day| == 2 && |hour| == 2 && |minute| == 2 && |second| == 2
    requires s == "-" + month + "-" + day + "T" + hour + ":" + minute + ":" + second + "Z"
    ensures |s| == 16 && s[0] == '-' && s[3] == '-' && s[6] == 'T' && s[9] == ':' && s[12] == ':' && s[15] == 'Z'
    ensures s[1..3] == month && s[4..6] == day && s[7..9] == hour && s[10..12] == minute && s[13..15] == second
  {
    var a := "-" + month;
    var b := a + "-" + day;
    var c := b + "T" + hour;
    var d := c + ":" + minute;
    var e := d + ":" + second;
    FieldBehind(s, d, ":", second);
    FieldBehind(s, c, ":", minute);
    FieldBehind(s, b, "T", hour);
    FieldBehind(s, a, "-", day);
    assert "" + "-" + month == a;
    FieldBehind(s, "", "-", month);
    assert s == e + "Z" && s[|e|] == 'Z';
  }

  /** A mark and a field of two characters behind some text. */
  lemma FieldBehind(s: string, before: string, mark: string, field: string)
    requires |mark| == 1 && |field| == 2 && before + mark + field <= s
    ensures before <= s && s[|before|] == mark[0] && s[|before| + 1..|before| + 3] == field
  {
    var n := |before|;
    assert before + mark + field == before + (mark + field);
    assert s[..n + 3] == before + mark + field;
    assert s[n + 1] == (before + mark + field)[n + 1] && s[n + 2] == (before + mark + field)[n + 2];
  }

  lemma YearInFront(year: string, s: string)
    requires |s| == 16
    ensures (year + s)[..|year + s| - 16] == year && (year + s)[|year + s| - 16..] == s
  {
  }

  lemma RenderParts(year: string, month: string, day: string, hour: string, minute: string, second: string)
    ensures year + "-" + month + "-" + day + ("T" + hour + ":" + minute + ":" + second + "Z")
            == year + ("-" + month + "-" + day + "T" + hour + ":" + minute + ":" + second + "Z")
  {
    var clock := "T" + hour + ":" + minute + ":" + second + "Z";
    assert "-" + month + "-" + day + "T" + hour + ":" + minute + ":" + second + "Z" == "-" + month + "-" + day + clock;
  }

  lemma IsDateBounds(year: nat, month: nat, day: nat)
    requires IsDate(year, month, day)
    ensures month < 100 && day < 100
  {
  }

  /** The text of a time is well-formed and names its second. */
  lemma RenderReads(millis: nat)
    ensures IsTimeText(Render(millis)) && NamesSecond(Render(millis), millis / 1000)
  {
    hide Civil, DayNumber, IsDate, Padded, AreDigits, Value;
    var seconds := millis / 1000;
    var date, rest := Civil(seconds / 86400), seconds % 86400;
    CivilIsRight(seconds / 86400);
    IsDateBounds(date.year, date.month, date.day);
    var h, m, s := Parts(rest);
    PaddedValue(date.year, 4);
    TwoDigitValue(date.month);
    TwoDigitValue(date.day);
    TwoDigitValue(h);
    TwoDigitValue(m);
    TwoDigitValue(s);
    var year, month, day := Padded(date.year, 4), Padded(date.month, 2), Padded(date.day, 2);
    var fields := "-" + month + "-" + day + "T" + Padded(h, 2) + ":" + Padded(m, 2) + ":" + Padded(s, 2) + "Z";
    RenderParts(year, month, day, Padded(h, 2), Padded(m, 2), Padded(s, 2));
    FieldSlices(month, day, Padded(h, 2), Padded(m, 2), Padded(s, 2), fields);
    YearInFront(year, fields);
    assert Render(millis) == year + fields;
  }

  lemma TwoDigitValue(n: nat)
    requires n < 100
    ensures |Padded(n, 2)| == 2 && Value(Padded(n, 2)) == n && AreDigits(Padded(n, 2))
  {
    TwoDigits(n);
    PaddedValue(n, 2);
  }

  // ---------------------------------------------------------------- distinct seconds, distinct texts

  /** A text after a number of fixed width is read back. */
  lemma SplitsAt(x: string, y: string, x': string, y': string)
    requires |y| == |y'| && x + y == x' + y'
    ensures x == x' && y == y'
  {
    assert (x + y)[..|x|] == x && (x' + y')[..|x'|] == x' && |x| == |x'|;
    assert (x + y)[|x|..] == y && (x' + y')[|x'|..] == y';
  }

  lemma FieldSplits(x: string, mark: string, n: nat, x': string, n': nat)
    requires n < 100 && n' < 100 && x + mark + Padded(n, 2) == x' + mark + Padded(n', 2)
    ensures x == x' && n == n'
  {
    TwoDigits(n);
    TwoDigits(n');
    SplitsAt(x + mark, Padded(n, 2), x' + mark, Padded(n', 2));
    SplitsAt(x, mark, x', mark);
    PaddedValue(n, 2);
    PaddedValue(n', 2);
  }

  lemma FieldsSplit(day: string, h: nat, m: nat, s: nat, day': string, h': nat, m': nat, s': nat)
    requires h < 100 && m < 100 && s < 100 && h' < 100 && m' < 100 && s' < 100
    requires day + "T" + Padded(h, 2) + ":" + Padded(m, 2) + ":" + Padded(s, 2) + "Z"
             == day' + "T" + Padded(h', 2) + ":" + Padded(m', 2) + ":" + Padded(s', 2) + "Z"
    ensures day == day' && h == h' && m == m' && s == s'
  {
    var a, a' := day + "T" + Padded(h, 2), day' + "T" + Padded(h', 2);
    var b, b' := a + ":" + Padded(m, 2), a' + ":" + Padded(m', 2);
    var c, c' := b + ":" + Padded(s, 2), b' + ":" + Padded(s', 2);
    SplitsAt(c, "Z", c', "Z");
    FieldSplits(b, ":", s, b', s');
    FieldSplits(a, ":", m, a', m');
    FieldSplits(day, "T", h, day', h');
  }

  lemma ClockParts(day: string, rest: nat, h: nat, m: nat, s: nat)
    requires rest < 86400 && h == rest / 3600 && m == rest % 3600 / 60 && s == rest % 60
    ensures day + Clock(rest) == day + "T" + Padded(h, 2) + ":" + Padded(m, 2) + ":" + Padded(s, 2) + "Z"
  {
  }

  lemma ClockSplits(day: string, rest: nat, day': string, rest': nat)
    requires rest < 86400 && rest' < 86400 && day + Clock(rest) == day' + Clock(rest')
    ensures day == day' && rest == rest'
  {
    var h, m, s := Parts(rest);
    var h', m', s' := Parts(rest');
    ClockParts(day, rest, h, m, s);
    ClockParts(day', rest', h', m', s');
    FieldsSplit(day, h, m, s, day', h', m', s');
  }

  /** Distinct seconds give distinct texts. */
  lemma TextsAreDistinct(millis: nat, millis': nat)
    requires Render(millis) == Render(millis')
    ensures millis / 1000 == millis' / 1000
  {
    hide Civil;
    var seconds, seconds' := millis / 1000, millis' / 1000;
    var x, y := Civil(seconds / 86400), Civil(seconds' / 86400);
    CivilIsRight(seconds / 86400);
    CivilIsRight(seconds' / 86400);
    var a, a' := Padded(x.year, 4) + "-" + Padded(x.month, 2), Padded(y.year, 4) + "-" + Padded(y.month, 2);
    ClockSplits(a + "-" + Padded(x.day, 2), seconds % 86400, a' + "-" + Padded(y.day, 2), seconds' % 86400);
    FieldSplits(a, "-", x.day, a', y.day);
    FieldSplits(Padded(x.year, 4), "-", x.month, Padded(y.year, 4), y.month);
    PaddedValue(x.year, 4);
    PaddedValue(y.year, 4);
    assert x == y;
  }
}
