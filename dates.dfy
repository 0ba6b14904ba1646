/** `java.time.LocalDate` as far as the library uses it: comparison,
 *  `toString` and `hashCode`. A date is represented by its epoch day. */
module Dates {
  import opened JavaLang

  /** A `LocalDate` as its epoch day: day 0 is 1970-01-01 in the proleptic
   *  Gregorian calendar. */
  type Date = int

  /** `isAfter`: strictly later. */
  predicate IsAfter(d: Date, other: Date)
  {
    d > other
  }

  /** A calendar date: year, month (1-12), day of month (1-31). */
  datatype Ymd = Ymd(year: int, month: int, day: int)

  /** The calendar date of an epoch day, counting in 400-year eras of
   *  146097 days that start on 1 March. */
  function Civil(d: Date): (r: Ymd)
    ensures 1 <= r.month <= 12 && 1 <= r.day <= 31
  {
    var z := d + 719468;
    var era := z / 146097;
    var c := DateInEra(z % 146097);
    Ymd(c.year + era * 400 + (if c.month <= 2 then 1 else 0), c.month, c.day)
  }

  /** The year within the era (counted from its 1 March), month and day of
   *  day `doe` of an era. */
  function DateInEra(doe: int): (r: Ymd)
    requires 0 <= doe < 146097
    ensures 0 <= r.year <= 399 && 1 <= r.month <= 12 && 1 <= r.day <= 31
  {
    var yoe := (doe - doe / 1460 + doe / 36524 - doe / 146096) / 365;
    var doy := doe - (365 * yoe + yoe / 4 - yoe / 100);
    var mp := (5 * doy + 2) / 153;
    var day := doy - (153 * mp + 2) / 5 + 1;
    var month := if mp < 10 then mp + 3 else mp - 9;
    Ymd(yoe, month, day)
  }

  /** The day of its era that a year within the era, month and day fall on. */
  function DayOfEra(c: Ymd): int
  {
    var mp := if c.month > 2 then c.month - 3 else c.month + 9;
    365 * c.year + c.year / 4 - c.year / 100 + (153 * mp + 2) / 5 + c.day - 1
  }

  /** The epoch day of a calendar date (`LocalDate.toEpochDay`), counting
   *  the same eras from the other end: the inverse of `Civil`. */
  function DaysFromCivil(c: Ymd): Date
  {
    var y := c.year - (if c.month <= 2 then 1 else 0);
    var era := y / 400;
    era * 146097 + DayOfEra(Ymd(y - era * 400, c.month, c.day)) - 719468
  }

  /** Within an era, the date of a day counts back to that day. */
  lemma EraRoundTrip(doe: int)
    requires 0 <= doe < 146097
    ensures DayOfEra(DateInEra(doe)) == doe
  {
    DayOfYearInRange(doe);
    var c := DateInEra(doe);
    var yoe := (doe - doe / 1460 + doe / 36524 - doe / 146096) / 365;
    var doy := doe - (365 * yoe + yoe / 4 - yoe / 100);
    var mp := (5 * doy + 2) / 153;
    assert c.year == yoe && 0 <= mp <= 11;
    assert c.day == doy - (153 * mp + 2) / 5 + 1;
    assert (if c.month > 2 then c.month - 3 else c.month + 9) == mp;
  }

  /** The year within the era that `DateInEra` picks leaves between 0 and
   *  365 days of the era's day after the years before it: the era splits
   *  into centuries of 36524 days (the last one a day longer), those into
   *  four-year cycles of 1461 days, those into years of 365 days. */
  lemma DayOfYearInRange(doe: int)
    requires 0 <= doe < 146097
    ensures var yoe := (doe - doe / 1460 + doe / 36524 - doe / 146096) / 365;
            var doy := doe - (365 * yoe + yoe / 4 - yoe / 100);
            0 <= doy <= 365
  {
    var c := if doe < 146096 then doe / 36524 else 3;
    var rc := doe - 36524 * c;
    assert 0 <= c <= 3 && 0 <= rc <= 36524;
    var q := rc / 1461;
    var r := rc - 1461 * q;
    assert 0 <= q <= 24 && 0 <= r <= 1460;
    var k := if r < 1095 then r / 365 else 3;
    assert 0 <= k <= 3 && 0 <= r - 365 * k <= 365;
    var extra := (24 * c + q + r) / 1460;
    assert doe / 1460 == 25 * c + q + extra;
    assert doe / 36524 - doe / 146096 == c;
    assert extra == 1 ==> k == 3;
    var yoe := (doe - doe / 1460 + doe / 36524 - doe / 146096) / 365;
    assert yoe == 100 * c + 4 * q + k;
    assert yoe / 4 == 25 * c + q + k / 4;
    assert yoe / 100 == c;
  }

  /** Every epoch day names the calendar date that counts back to it. */
  lemma CivilRoundTrip(d: Date)
    ensures DaysFromCivil(Civil(d)) == d
  {
    var z := d + 719468;
    var era, doe := z / 146097, z % 146097;
    var c := DateInEra(doe);
    assert Civil(d) == Ymd(c.year + era * 400 + (if c.month <= 2 then 1 else 0), c.month, c.day);
    EraDays(era, c);
    EraRoundTrip(doe);
  }

  /** A date `c.year` years into era `era` counts as that era's days before
   *  it plus its day of the era. */
  lemma EraDays(era: int, c: Ymd)
    requires 0 <= c.year < 400
    ensures DaysFromCivil(Ymd(c.year + era * 400 + (if c.month <= 2 then 1 else 0), c.month, c.day))
            == era * 146097 + DayOfEra(c) - 719468
  {
    var y := c.year + era * 400;
    assert y / 400 == era;
  }

  /** Day 0 is 1 January 1970. */
  lemma EpochDay()
    ensures Civil(0) == Ymd(1970, 1, 1)
  {
    assert DateInEra(135080) == Ymd(369, 1, 1);
  }

  /** Two digits, with a leading zero below 10. */
  function TwoDigits(n: nat): string
  {
    if n < 10 then "0" + NatText(n) else NatText(n)
  }

  /** The year as `LocalDate.toString` writes it: at least four digits, a
   *  minus sign before negative years, a plus sign before years past 9999. */
  function YearText(y: int): string
  {
    var a := if y < 0 then -y else y;
    if a < 1000 then
      (if y < 0 then "-" else "") + NatText(a + 10000)[1..]
    else
      (if y > 9999 then "+" else "") + IntText(y)
  }

  /** `LocalDate.toString`: `yyyy-MM-dd`. */
  function IsoText(d: Date): string
  {
    var c := Civil(d);
    YearText(c.year) + "-" + TwoDigits(c.month) + "-" + TwoDigits(c.day)
  }

  /** The 32 bits of an `int`. */
  function Bits(x: int): bv32
  {
    (x % 0x1_0000_0000) as bv32
  }

  /** The `int` whose 32 bits are `b`. */
  function Signed(b: bv32): Int32
  {
    if b as int < 0x8000_0000 then b as int else b as int - 0x1_0000_0000
  }

  /** `LocalDate.hashCode`: `(year & 0xFFFFF800) ^ ((year << 11) + (month << 6) + day)`
   *  in `int` arithmetic. */
  function DateHash(d: Date): Int32
  {
    var c := Civil(d);
    var y := Bits(c.year);
    Signed((y & 0xFFFF_F800) ^ ((y << 11) + (Bits(c.month) << 6) + Bits(c.day)))
  }
}
