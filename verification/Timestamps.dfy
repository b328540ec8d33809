/** The exFAT timestamp codec of fs/exfat/time.c.
  *
  * The reference is a calendar that counts day by day from 1 January 1980, with
  * every fourth year a leap year (years are counted from 1980). */
module Timestamps {
  import opened Bytes

  /** 1 January 1980 is 3652 days after 1 January 1970. */
  const EPOCH: int := 3652 * 86400

  datatype Date = Date(year: nat, month: nat, day: nat)

  predicate Leap(year: nat) { (1980 + year) % 4 == 0 }

  function MonthDays(year: nat, month: nat): nat
    requires 1 <= month <= 12
  {
    if month == 2 then (if Leap(year) then 29 else 28)
    else if month == 4 || month == 6 || month == 9 || month == 11 then 30
    else 31
  }

  predicate IsDate(d: Date) { 1 <= d.month <= 12 && 1 <= d.day <= MonthDays(d.year, d.month) }

  function NextDay(d: Date): Date
    requires IsDate(d)
  {
    if d.day < MonthDays(d.year, d.month) then d.(day := d.day + 1)
    else if d.month < 12 then Date(d.year, d.month + 1, 1)
    else Date(d.year + 1, 1, 1)
  }

  /** The date `n` days after 1 January 1980. */
  function Calendar(n: nat): (d: Date)
    ensures IsDate(d)
  {
    if n == 0 then Date(0, 1, 1) else NextDay(Calendar(n - 1))
  }

  // ---- day numbers, as the source computes them ----

  function LeapYears(year: nat): int { (1980 + year - 1) / 4 - (1980 - 1) / 4 }

  const DaysInYear: seq<int> := [0, 0, 31, 59, 90, 120, 151, 181, 212, 243, 273, 304, 334]

  function DayNumber(d: Date): int
    requires 1 <= d.month <= 12
  {
    d.year * 365 + LeapYears(d.year) + DaysInYear[d.month]
    + (if Leap(d.year) && d.month > 2 then 1 else 0) + d.day - 1
  }

  lemma NextDayNumber(d: Date)
    requires IsDate(d)
    ensures IsDate(NextDay(d)) && DayNumber(NextDay(d)) == DayNumber(d) + 1
    ensures DateCode(d) < DateCode(NextDay(d))
  {
    assert LeapYears(d.year + 1) == LeapYears(d.year) + if Leap(d.year) then 1 else 0;
  }

  lemma {:induction false} CalendarNumber(n: nat)
    ensures DayNumber(Calendar(n)) == n
  {
    if n > 0 {
      CalendarNumber(n - 1);
      NextDayNumber(Calendar(n - 1));
    }
  }

  lemma {:induction false} CalendarOrdered(a: nat, b: nat)
    requires a < b
    ensures DateCode(Calendar(a)) < DateCode(Calendar(b))
  {
    NextDayNumber(Calendar(b - 1));
    if a < b - 1 { CalendarOrdered(a, b - 1); }
  }

  lemma SameYear(d: Date, e: Date)
    requires IsDate(d) && IsDate(e) && DayNumber(d) == DayNumber(e)
    ensures d.year <= e.year
  {
    YearSpan(d);
    YearSpan(e);
  }

  lemma YearSpan(d: Date)
    requires IsDate(d)
    ensures d.year * 365 + LeapYears(d.year) <= DayNumber(d) < (d.year + 1) * 365 + LeapYears(d.year + 1)
  {
    assert LeapYears(d.year + 1) == LeapYears(d.year) + if Leap(d.year) then 1 else 0;
  }

  /** A day number belongs to one date. */
  lemma DayNumberInjective(d: Date, e: Date)
    requires IsDate(d) && IsDate(e) && DayNumber(d) == DayNumber(e)
    ensures d == e
  {
    SameYear(d, e);
    SameYear(e, d);
  }

  // ---- stamps ----

  /** The four fields of a directory entry that hold one timestamp. */
  datatype Stamp = Stamp(date: u16, time: u16, centisec: byte, tzoffset: byte)

  /** A time of day with two-second granularity, and the odd second apart. */
  datatype Clock = Clock(hour: nat, min: nat, twosec: nat, odd: nat)

  predicate IsClock(c: Clock) { c.hour < 24 && c.min < 60 && c.twosec < 30 && c.odd < 2 }

  function Seconds(c: Clock): nat { c.hour * 3600 + c.min * 60 + c.twosec * 2 + c.odd }

  function ClockOf(n: nat): Clock { Clock(n % 86400 / 3600, n % 3600 / 60, n % 60 / 2, n % 2) }

  function DayOf(n: nat): nat { n / 86400 }

  lemma HourPart(n: nat)
    ensures n % 86400 == n % 86400 / 3600 * 3600 + n % 3600
  {
    var q, a := n / 86400, n % 86400;
    var h, r := a / 3600, a % 3600;
    DivModUnique(24 * q + h, r, 3600);
    assert (24 * q + h) * 3600 + r == n;
  }

  lemma MinutePart(n: nat)
    ensures n % 3600 == n % 3600 / 60 * 60 + n % 60
  {
    var q, a := n / 3600, n % 3600;
    var m, r := a / 60, a % 60;
    DivModUnique(60 * q + m, r, 60);
    assert (60 * q + m) * 60 + r == n;
  }

  lemma SecondPart(n: nat)
    ensures n % 60 == n % 60 / 2 * 2 + n % 2
  {
    var q, a := n / 60, n % 60;
    var t, r := a / 2, a % 2;
    DivModUnique(30 * q + t, r, 2);
    assert (30 * q + t) * 2 + r == n;
  }

  lemma ClockBounds(n: nat)
    ensures IsClock(ClockOf(n)) && n == DayOf(n) * 86400 + n % 86400
  {
  }

  /** The fields of the clock give back the second of the day. */
  lemma ClockFacts(n: nat)
    ensures IsClock(ClockOf(n)) && n == DayOf(n) * 86400 + Seconds(ClockOf(n))
  {
    ClockBounds(n);
    HourPart(n);
    MinutePart(n);
    SecondPart(n);
    var c := ClockOf(n);
    assert c.hour == n % 86400 / 3600 && c.min == n % 3600 / 60 && c.twosec == n % 60 / 2 && c.odd == n % 2;
    hide ClockOf, DayOf;
  }

  function DateCode(d: Date): nat { d.day + d.month * 32 + d.year * 512 }

  lemma DateCodeFields(d: Date)
    requires IsDate(d)
    ensures var c := DateCode(d) % 0x1_0000; c % 32 == d.day && c / 32 % 16 == d.month && c / 512 == d.year % 128
  {
    assert DateCode(d) % 0x1_0000 == d.day + d.month * 32 + d.year % 128 * 512;
  }

  function TimeCode(c: Clock): nat { c.twosec + c.min * 32 + c.hour * 2048 }

  lemma TimeCodeFields(c: Clock)
    requires IsClock(c)
    ensures var t := TimeCode(c); t < 0x1_0000 && t % 32 == c.twosec && t / 32 % 64 == c.min && t / 2048 == c.hour
  {
  }

  /** The 7-bit two's complement value of a number. */
  function Signed7(p: int): int {
    if p % 128 < 64 then p % 128 else p % 128 - 128
  }

  function ZoneByte(tz: int): (b: byte)
    ensures b >= 128
  {
    var p := Quot(Quot(-tz, 60), 15) % 256;
    if p >= 128 then p else p + 128
  }

  /** Seconds since the exFAT epoch in local time; earlier times are clamped. */
  function Local(t: int, tz: int): nat { if t < EPOCH + tz then 0 else t - (EPOCH + tz) }

  /** The stamp of a Unix time, by the calendar. */
  function Encoded(t: int, tz: int): (s: Stamp) {
    var n := Local(t, tz);
    ClockFacts(n);
    TimeCodeFields(ClockOf(n));
    Stamp(DateCode(Calendar(DayOf(n))) % 0x1_0000, TimeCode(ClockOf(n)), ClockOf(n).odd * 100, ZoneByte(tz))
  }

  function DateOf(s: Stamp): Date { Date(s.date / 512, s.date / 32 % 16, s.date % 32) }

  function TimeOf(s: Stamp): Clock { Clock(s.time / 2048, s.time / 32 % 64, s.time % 32, s.centisec / 100) }

  predicate BadStamp(s: Stamp) {
    || DateOf(s).day == 0 || DateOf(s).month == 0 || DateOf(s).month > 12
    || !IsClock(TimeOf(s))
  }

  /** The correction from local time to UTC. */
  function Zone(tzoffset: byte, tz: int): int {
    if tzoffset >= 128 then -Signed7(tzoffset) * 900 else tz
  }

  function Decoded(s: Stamp, tz: int): int {
    if BadStamp(s) then 0
    else EPOCH + DayNumber(DateOf(s)) * 86400 + Seconds(TimeOf(s)) + Zone(s.tzoffset, tz)
  }

  // ---- the codec is exact ----

  /** A zone is stored exactly when it is a whole number of quarter hours that
    * fits in seven bits. */
  predicate Storable(tz: int) { tz % 900 == 0 && -64 <= -tz / 900 <= 63 }

  predicate InRange(t: int, tz: int) { EPOCH + tz <= t < EPOCH + tz + 46752 * 86400 }

  lemma QuotTwice(x: int)
    ensures Quot(Quot(x, 60), 15) == Quot(x, 900)
  {
    var a := if x >= 0 then x else -x;
    assert a / 60 / 15 == a / 900;
  }

  lemma Signed7Of(p: int, b: byte)
    requires b == (if p % 256 >= 128 then p % 256 else p % 256 + 128)
    ensures Signed7(b) == Signed7(p) && -64 <= Signed7(p) <= 63
    ensures Signed7(p) == p <==> -64 <= p <= 63
  {
    ModMod7(p);
    assert b % 128 == p % 128;
  }

  lemma ModMod7(p: int)
    ensures p % 256 % 128 == p % 128
  {
  }

  lemma ZoneExact(tz: int)
    ensures Zone(ZoneByte(tz), tz) == tz <==> Storable(tz)
  {
    var p := Quot(-tz, 900);
    QuotTwice(-tz);
    Signed7Of(p, ZoneByte(tz));
    hide Signed7;
    var k := Signed7(p);
    assert Zone(ZoneByte(tz), tz) == -k * 900;
    if -k * 900 == tz { assert tz % 900 == 0 && -tz / 900 == k; }
    if Storable(tz) { assert p == -tz / 900; }
  }

  lemma YearFits(n: nat)
    ensures Calendar(n).year < 128 <==> n < 46752
  {
    CalendarNumber(n);
    YearSpan(Calendar(n));
  }

  /** What a stamp decodes to: the date with its year cut to seven bits. */
  lemma DecodeEncoded(t: int, tz: int)
    ensures var n := Local(t, tz);
            var d := Calendar(DayOf(n));
            Decoded(Encoded(t, tz), tz)
            == EPOCH + DayNumber(d.(year := d.year % 128)) * 86400 + Seconds(ClockOf(n)) + Zone(ZoneByte(tz), tz)
  {
    hide Calendar, DayNumber, ClockOf, DayOf, DateCode, TimeCode, Zone, ZoneByte, Seconds, Local;
    var n := Local(t, tz);
    var c, d := ClockOf(n), Calendar(DayOf(n));
    ClockFacts(n);
    TimeCodeFields(c);
    DateCodeFields(d);
    var s := Encoded(t, tz);
    assert DateOf(s) == d.(year := d.year % 128);
    assert TimeOf(s) == c;
  }

  /** For every second of the 46752 days, the round trip is exact if and only
    * if the zone is a whole number of quarter hours in the 7-bit range. */
  lemma RoundTrip(t: int, tz: int)
    requires InRange(t, tz)
    ensures Decoded(Encoded(t, tz), tz) == t <==> Storable(tz)
  {
    hide Calendar, DayNumber, ClockOf, DayOf, Zone, ZoneByte, Encoded, Decoded, Storable;
    var n := Local(t, tz);
    DecodeEncoded(t, tz);
    ZoneExact(tz);
    ClockFacts(n);
    YearFits(DayOf(n));
    CalendarNumber(DayOf(n));
    assert Calendar(DayOf(n)).year % 128 == Calendar(DayOf(n)).year;
  }

  /** With such a zone, no other second survives. */
  lemma RoundTripRange(t: int, tz: int)
    requires Storable(tz)
    ensures Decoded(Encoded(t, tz), tz) == t <==> InRange(t, tz)
  {
    hide Calendar, DayNumber, ClockOf, DayOf, Zone, ZoneByte, Encoded, Decoded, Storable;
    var n := Local(t, tz);
    var d := Calendar(DayOf(n));
    DecodeEncoded(t, tz);
    ZoneExact(tz);
    ClockFacts(n);
    YearFits(DayOf(n));
    YearCut(d);
    CalendarNumber(DayOf(n));
    if InRange(t, tz) { assert d.year % 128 == d.year; }
  }

  lemma YearCut(d: Date)
    requires IsDate(d)
    ensures DayNumber(d.(year := d.year % 128)) < 46752
  {
    var e := d.(year := d.year % 128);
    assert Leap(e.year) == Leap(d.year);
    YearSpan(e);
  }

  function Key(s: Stamp): nat { (s.date * 0x1_0000 + s.time) * 0x100 + s.centisec }

  lemma ClockOrdered(c: Clock, d: Clock)
    requires IsClock(c) && IsClock(d) && Seconds(c) < Seconds(d)
    ensures TimeCode(c) * 0x100 + c.odd * 100 < TimeCode(d) * 0x100 + d.odd * 100
  {
    assert c.hour <= d.hour;
    assert c.hour == d.hour ==> c.min <= d.min;
  }

  /** Stamps are ordered as the times are. */
  lemma Ordered(a: int, b: int, tz: int)
    requires InRange(a, tz) && InRange(b, tz) && a < b
    ensures Key(Encoded(a, tz)) < Key(Encoded(b, tz))
  {
    hide ClockOf, DayOf, TimeCode, ZoneByte, DateCode, Calendar;
    var (m, n) := (Local(a, tz), Local(b, tz));
    var (c, d) := (ClockOf(m), ClockOf(n));
    ClockFacts(m);
    ClockFacts(n);
    YearFits(DayOf(m));
    YearFits(DayOf(n));
    TimeCodeFields(c);
    TimeCodeFields(d);
    DateCodeBound(DayOf(m));
    DateCodeBound(DayOf(n));
    if DayOf(m) < DayOf(n) {
      CalendarOrdered(DayOf(m), DayOf(n));
    } else {
      ClockOrdered(c, d);
    }
  }

  lemma DateCodeBound(n: nat)
    requires n < 46752
    ensures DateCode(Calendar(n)) < 0x1_0000
  {
    YearFits(n);
  }

  // ---- what a stamp looks like ----

  lemma CalendarDate(d: Date)
    requires IsDate(d)
    ensures DayNumber(d) >= 0 && Calendar(DayNumber(d)) == d
  {
    YearSpan(d);
    CalendarNumber(DayNumber(d));
    DayNumberInjective(Calendar(DayNumber(d)), d);
  }

  lemma ClockUnique(n: nat, day: nat, c: Clock)
    requires IsClock(c) && n == day * 86400 + Seconds(c)
    ensures DayOf(n) == day && ClockOf(n) == c
  {
    ClockFacts(n);
    var e := ClockOf(n);
    hide ClockOf;
    assert Seconds(e) < 86400 && Seconds(c) < 86400;
    assert DayOf(n) == day && Seconds(e) == Seconds(c);
    assert e.hour == c.hour;
    assert e.min == c.min;
  }

  /** Any date of the 128 years and any second of a day, counted from second
    * 315532800, in the fields of a directory entry. */
  lemma StampLayout(d: Date, c: Clock, tz: int)
    requires IsDate(d) && d.year < 128 && IsClock(c)
    ensures Encoded(315532800 + tz + DayNumber(d) * 86400 + Seconds(c), tz)
         == Stamp(d.day + 32 * d.month + 512 * d.year, c.twosec + 32 * c.min + 2048 * c.hour, 100 * c.odd, ZoneByte(tz))
  {
    hide Calendar, DayNumber, ClockOf, DayOf, ZoneByte, Seconds, DateCode, TimeCode;
    CalendarDate(d);
    var n: nat := DayNumber(d) * 86400 + Seconds(c);
    ClockUnique(n, DayNumber(d), c);
    CodesOf(d, c);
    assert Local(315532800 + tz + n, tz) == n;
  }

  lemma CodesOf(d: Date, c: Clock)
    requires IsDate(d) && d.year < 128 && IsClock(c)
    ensures DateCode(d) % 0x1_0000 == d.day + 32 * d.month + 512 * d.year && TimeCode(c) == c.twosec + 32 * c.min + 2048 * c.hour
  {
  }

  /** `q` quarter hours east of Greenwich are stored as seven bits under a set one. */
  lemma ZoneLayout(q: int)
    requires -64 <= q < 64
    ensures ZoneByte(-900 * q) == if q >= 0 then 128 + q else 256 + q
  {
    QuotTwice(900 * q);
  }

  /** A stamp with those fields decodes to that second. */
  lemma StampDecodes(s: Stamp, d: Date, c: Clock, q: int)
    requires IsDate(d) && d.year < 128 && IsClock(c) && -64 <= q < 64
    requires s == Stamp(d.day + 32 * d.month + 512 * d.year, c.twosec + 32 * c.min + 2048 * c.hour, 100 * c.odd, if q >= 0 then 128 + q else 256 + q)
    ensures forall tz :: Decoded(s, tz) == 315532800 + DayNumber(d) * 86400 + Seconds(c) - 900 * q
  {
    FieldsOf(s, d, c);
    SevenBits(q, s.tzoffset);
    hide DayNumber, Seconds, Signed7, DateOf, TimeOf;
  }

  lemma FieldsOf(s: Stamp, d: Date, c: Clock)
    requires IsDate(d) && d.year < 128 && IsClock(c)
    requires s.date == d.day + 32 * d.month + 512 * d.year && s.time == c.twosec + 32 * c.min + 2048 * c.hour && s.centisec == 100 * c.odd
    ensures DateOf(s) == d && TimeOf(s) == c
  {
    CodesOf(d, c);
    DateCodeFields(d);
    TimeCodeFields(c);
    hide DateCode, TimeCode;
  }

  lemma SevenBits(q: int, b: byte)
    requires -64 <= q < 64 && b == if q >= 0 then 128 + q else 256 + q
    ensures b >= 128 && Signed7(b) == q
  {
  }

  lemma FirstSecond(d: Date, c: Clock)
    requires d.year == 0 && d.month == 1 && d.day == 1 && c.hour == 0 && c.min == 0 && c.twosec == 0 && c.odd == 0
    ensures IsDate(d) && IsClock(c) && DayNumber(d) == 0 && Seconds(c) == 0
  {
  }

  /** Second 315532800 in Greenwich is 1 January 1980 at midnight. */
  lemma EpochStamp(t: int, tz: int, s: Stamp)
    requires t == 315532800 && tz == 0 && s == Stamp(0x0021, 0, 0, 0x80)
    ensures Encoded(t, tz) == s && Decoded(s, tz) == t
  {
    hide Encoded, Decoded, DayNumber, Seconds;
    var (d, c) := (Calendar(0), ClockOf(0));
    FirstSecond(d, c);
    KnownDay(d, c, 0, 0, t, tz, s);
  }

  /** 29 February 2024, 13:45:57, one hour east. */
  lemma LeapDayStamp(t: int, tz: int, s: Stamp)
    requires t == 1709210757 && tz == -3600 && s == Stamp(0x585d, 0x6dbc, 100, 0x84)
    ensures Encoded(t, tz) == s && Decoded(s, 0) == t
  {
    hide Encoded, Decoded;
    KnownDay(Date(44, 2, 29), Clock(13, 45, 28, 1), 4, 16130, t, tz, s);
  }

  lemma KnownDay(d: Date, c: Clock, q: int, n: nat, t: int, tz: int, s: Stamp)
    requires tz == -900 * q && IsDate(d) && d.year < 128 && IsClock(c) && -64 <= q < 64 && DayNumber(d) == n && t == 315532800 - 900 * q + n * 86400 + Seconds(c)
    requires s.date == d.day + 32 * d.month + 512 * d.year && s.time == c.twosec + 32 * c.min + 2048 * c.hour
    requires s.centisec == 100 * c.odd && s.tzoffset == if q >= 0 then 128 + q else 256 + q
    ensures Encoded(t, tz) == s && Decoded(s, 0) == t
  {
    hide DayNumber, Seconds, Encoded, Decoded, ZoneByte;
    StampLayout(d, c, -900 * q);
    ZoneLayout(q);
    StampDecodes(s, d, c, q);
  }

  // ---- the source's loops ----

  lemma YearOf(n: nat)
    ensures var year := 4 * n / 1461; 0 <= n - (year * 365 + LeapYears(year)) < if Leap(year) then 366 else 365
  {
  }

  /** The month search of exfat_unix2exfat: `left` days into a year. */
  method MonthOf(year: nat, left: nat) returns (month: nat, day: nat)
    requires left < if Leap(year) then 366 else 365
    ensures IsDate(Date(year, month, day))
    ensures DayNumber(Date(year, month, day)) == year * 365 + LeapYears(year) + left
  {
    var days: int := left;
    month := 0;
    var i := 1;
    while i <= 12
      invariant 1 <= i <= 12 && month == 0 && days == left
      invariant left >= DaysInYear[i] + (if Leap(year) && i >= 3 then 1 else 0)
      decreases 12 - i
    {
      var leapDay := if Leap(year) && i == 2 then 1 else 0;
      var leapSub := if Leap(year) && i >= 3 then 1 else 0;
      if i == 12 || days - leapSub < DaysInYear[i + 1] + leapDay {
        month := i;
        days := days - (DaysInYear[i] + leapSub);
        break;
      }
      i := i + 1;
    }
    day := days + 1;
  }

  /** exfat_unix2exfat. The calendar year fits its 16-bit variable. */
  method UnixToExfat(t: int, tz: int) returns (s: Stamp)
    requires DayOf(Local(t, tz)) < 23937024
    ensures s == Encoded(t, tz)
  {
    hide DayNumber, ClockOf, DayOf, DateCode, TimeCode, ZoneByte, Calendar;
    var n := Local(t, tz);
    var year := 4 * DayOf(n) / 1461;
    YearOf(DayOf(n));
    var month, day := MonthOf(year, DayOf(n) - (year * 365 + LeapYears(year)));
    CalendarNumber(DayOf(n));
    DayNumberInjective(Date(year, month, day), Calendar(DayOf(n)));
    ClockFacts(n);
    TimeCodeFields(ClockOf(n));
    s := Stamp(DateCode(Date(year, month, day)) % 0x1_0000, TimeCode(ClockOf(n)), ClockOf(n).odd * 100, ZoneByte(tz));
  }

  /** exfat_exfat2unix. */
  method ExfatToUnix(s: Stamp, tz: int) returns (t: int)
    ensures t == Decoded(s, tz)
  {
    hide DayNumber, Signed7;
    var d, c := DateOf(s), TimeOf(s);
    if d.day == 0 || d.month == 0 || d.month > 12 { return 0; }
    if c.hour > 23 || c.min > 59 || c.twosec > 29 { return 0; }
    if s.centisec > 199 { return 0; }
    t := EPOCH;
    t := t + DateSeconds(d);
    t := t + c.hour * 3600;
    t := t + c.min * 60;
    t := t + c.twosec * 2;
    t := t + c.odd;
    var zone := ZoneOf(s.tzoffset, tz);
    t := t + zone;
  }

  /** The date part of exfat_exfat2unix, accumulated as the source does. */
  function DateSeconds(d: Date): (t: int)
    requires 1 <= d.month <= 12
    ensures t == DayNumber(d) * 86400
  {
    d.year * 365 * 86400 + LeapYears(d.year) * 86400 + DaysInYear[d.month] * 86400
    + (if Leap(d.year) && d.month > 2 then 86400 else 0) + (d.day - 1) * 86400
  }

  /** The zone part: a signed 8-bit shift, in fifteen-minute units. */
  method ZoneOf(tzoffset: byte, tz: int) returns (z: int)
    ensures z == Zone(tzoffset, tz)
  {
    if tzoffset >= 128 {
      var shifted := tzoffset * 2 % 256;
      var signed := if shifted >= 128 then shifted - 256 else shifted;
      assert signed == 2 * Signed7(tzoffset);
      z := -Quot(signed * 15 * 60, 2);
    } else {
      z := tz;
    }
  }
}
