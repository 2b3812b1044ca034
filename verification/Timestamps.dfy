/** RFC 3339 instants (src/payload.ts) and the three analytical range gates. */
module Timestamps {
  import opened Common

  const DASH: Unit := 0x2D
  const PLUS: Unit := 0x2B
  const COLON: Unit := 0x3A
  const POINT: Unit := 0x2E
  const LETTER_T: Unit := 0x54
  const LETTER_Z: Unit := 0x5A
  const NANOS_PER_SECOND := 1_000_000_000
  const SECONDS_PER_DAY := 86_400

  datatype Instant = Instant(seconds: int, nanos: int)

  // ----- The text -----

  datatype Offset = Utc | Shifted(negative: bool, hour: nat, minute: nat)

  datatype Fields = Fields(year: nat, month: nat, day: nat, hour: nat, minute: nat, second: nat,
                           fraction: Text, offset: Offset)

  predicate AllDigits(t: Text) {
    forall i :: 0 <= i < |t| ==> IsDigit(t[i])
  }

  function Number(digits: Text): nat
    requires AllDigits(digits)
  {
    if digits == [] then 0
    else Number(digits[..|digits| - 1]) * 10 + (digits[|digits| - 1] - 0x30)
  }

  function DigitRun(t: Text): (n: nat)
    ensures n <= |t| && AllDigits(t[..n])
  {
    if t != [] && IsDigit(t[0]) then 1 + DigitRun(t[1..]) else 0
  }

  function MatchOffset(t: Text): Option<Offset> {
    if t == [LETTER_Z] then Some(Utc)
    else if |t| == 6 && (t[0] == PLUS || t[0] == DASH) && AllDigits(t[1..3]) && t[3] == COLON && AllDigits(t[4..])
    then Some(Shifted(t[0] == DASH, Number(t[1..3]), Number(t[4..])))
    else None
  }

  /** A date, "T" and a time of day at fixed positions; the fraction and the offset are left to fill in. */
  function MatchClock(t: Text): (r: Option<Fields>)
    ensures r.Some? ==> r.value.fraction == [] && r.value.offset == Utc
  {
    if |t| == 19
       && AllDigits(t[..4]) && t[4] == DASH && AllDigits(t[5..7]) && t[7] == DASH && AllDigits(t[8..10])
       && t[10] == LETTER_T && AllDigits(t[11..13]) && t[13] == COLON && AllDigits(t[14..16]) && t[16] == COLON
       && AllDigits(t[17..])
    then
      Some(Fields(Number(t[..4]), Number(t[5..7]), Number(t[8..10]), Number(t[11..13]), Number(t[14..16]),
                  Number(t[17..]), [], Utc))
    else None
  }

  /** An optional fraction of 1 to 9 digits, then the offset. */
  function MatchRest(t: Text): (r: Option<(Text, Offset)>)
    ensures r.Some? ==> AllDigits(r.value.0) && |r.value.0| <= 9
  {
    if t == [] || t[0] != POINT then
      var offset :- MatchOffset(t);
      Some(([], offset))
    else
      var n := DigitRun(t[1..]);
      if !(1 <= n <= 9) then None
      else
        var offset :- MatchOffset(t[1 + n..]);
        Some((t[1..][..n], offset))
  }

  /** RFC3339_TIMESTAMP. */
  function Match(t: Text): (r: Option<Fields>)
    ensures r.Some? ==> AllDigits(r.value.fraction) && |r.value.fraction| <= 9
  {
    if |t| < 20 then None
    else
      var clock :- MatchClock(t[..19]);
      var rest :- MatchRest(t[19..]);
      Some(clock.(fraction := rest.0, offset := rest.1))
  }

  // ----- Writing it (section 5.6 of RFC 3339) -----

  function Pow10(n: nat): nat {
    if n == 0 then 1 else 10 * Pow10(n - 1)
  }

  function Digits(n: nat, width: nat): Text {
    if width == 0 then [] else Digits(n / 10, width - 1) + [0x30 + n % 10]
  }

  /** full-date. */
  function WriteDate(f: Fields): Text {
    Digits(f.year, 4) + [0x2D] + Digits(f.month, 2) + [0x2D] + Digits(f.day, 2)
  }

  /** partial-time, without the fraction. */
  function WriteTime(f: Fields): Text {
    Digits(f.hour, 2) + [0x3A] + Digits(f.minute, 2) + [0x3A] + Digits(f.second, 2)
  }

  function WriteClock(f: Fields): Text {
    WriteDate(f) + [0x54] + WriteTime(f)
  }

  /** time-secfrac, if there is one. */
  function WriteFraction(digits: Text): Text {
    if digits == [] then [] else [0x2E] + digits
  }

  /** time-offset. */
  function WriteOffset(o: Offset): Text {
    match o
    case Utc => [0x5A]
    case Shifted(negative, hour, minute) =>
      [if negative then 0x2D else 0x2B] + Digits(hour, 2) + [0x3A] + Digits(minute, 2)
  }

  function Write(f: Fields): Text {
    WriteClock(f) + (WriteFraction(f.fraction) + WriteOffset(f.offset))
  }

  /** The fields fit their widths, and the fraction has at most nine digits. */
  predicate WellSized(f: Fields) {
    && f.year < 10_000 && f.month < 100 && f.day < 100 && f.hour < 100 && f.minute < 100 && f.second < 100
    && AllDigits(f.fraction) && |f.fraction| <= 9
    && (f.offset.Shifted? ==> f.offset.hour < 100 && f.offset.minute < 100)
  }

  lemma {:induction false} DigitsOfNumber(digits: Text)
    requires AllDigits(digits)
    ensures Digits(Number(digits), |digits|) == digits && Number(digits) < Pow10(|digits|)
    decreases |digits|
  {
    if digits != [] {
      var most, last := digits[..|digits| - 1], digits[|digits| - 1];
      DigitsOfNumber(most);
      assert (Number(most) * 10 + (last - 0x30)) / 10 == Number(most);
      assert digits == most + [last];
    }
  }

  lemma {:induction false} NumberOfDigits(n: nat, width: nat)
    requires n < Pow10(width)
    ensures |Digits(n, width)| == width && AllDigits(Digits(n, width)) && Number(Digits(n, width)) == n
  {
    if width > 0 {
      NumberOfDigits(n / 10, width - 1);
      var digits := Digits(n, width);
      assert digits[..width - 1] == Digits(n / 10, width - 1);
    }
  }

  lemma Powers()
    ensures Pow10(2) == 100 && Pow10(4) == 10_000
  {
    assert Pow10(3) == 10 * Pow10(2);
  }

  lemma TwoDigits(n: nat)
    requires n < 100
    ensures |Digits(n, 2)| == 2 && AllDigits(Digits(n, 2)) && Number(Digits(n, 2)) == n
  {
    Powers();
    NumberOfDigits(n, 2);
  }

  lemma TwoRead(t: Text)
    requires |t| == 2 && AllDigits(t)
    ensures Digits(Number(t), 2) == t && Number(t) < 100
  {
    Powers();
    DigitsOfNumber(t);
  }

  lemma FourDigits(n: nat)
    requires n < 10_000
    ensures |Digits(n, 4)| == 4 && AllDigits(Digits(n, 4)) && Number(Digits(n, 4)) == n
  {
    Powers();
    NumberOfDigits(n, 4);
  }

  lemma FourRead(t: Text)
    requires |t| == 4 && AllDigits(t)
    ensures Digits(Number(t), 4) == t && Number(t) < 10_000
  {
    Powers();
    DigitsOfNumber(t);
  }

  lemma OffsetRead(t: Text)
    requires MatchOffset(t).Some?
    ensures var o := MatchOffset(t).value;
            t == WriteOffset(o) && (o.Shifted? ==> o.hour < 100 && o.minute < 100)
  {
    if t != [LETTER_Z] {
      TwoRead(t[1..3]);
      TwoRead(t[4..]);
      assert t == [t[0]] + t[1..3] + [t[3]] + t[4..];
    }
  }

  lemma OffsetWritten(o: Offset)
    requires o.Shifted? ==> o.hour < 100 && o.minute < 100
    ensures MatchOffset(WriteOffset(o)) == Some(o)
    ensures WriteOffset(o) != [] && !IsDigit(WriteOffset(o)[0]) && WriteOffset(o)[0] != POINT
  {
    if o.Shifted? {
      var t := WriteOffset(o);
      TwoDigits(o.hour);
      TwoDigits(o.minute);
      assert t[1..3] == Digits(o.hour, 2) && t[4..] == Digits(o.minute, 2);
    }
  }

  lemma {:induction false} DigitRunStops(digits: Text, rest: Text)
    requires AllDigits(digits) && (rest != [] ==> !IsDigit(rest[0]))
    ensures DigitRun(digits + rest) == |digits|
  {
    if digits != [] {
      assert (digits + rest)[1..] == digits[1..] + rest;
      DigitRunStops(digits[1..], rest);
    } else {
      assert digits + rest == rest;
    }
  }

  lemma RestRead(t: Text)
    requires MatchRest(t).Some?
    ensures var (fraction, offset) := MatchRest(t).value;
            t == WriteFraction(fraction) + WriteOffset(offset)
            && (offset.Shifted? ==> offset.hour < 100 && offset.minute < 100)
  {
    if t == [] || t[0] != POINT {
      OffsetRead(t);
      assert [] + t == t;
    } else {
      var n := DigitRun(t[1..]);
      OffsetRead(t[1 + n..]);
      assert t == [t[0]] + t[1..][..n] + t[1 + n..];
    }
  }

  lemma FractionWritten(fraction: Text, tail: Text)
    requires AllDigits(fraction) && 1 <= |fraction| <= 9 && tail != [] && !IsDigit(tail[0])
    ensures var t := [POINT] + fraction + tail;
            && DigitRun(t[1..]) == |fraction| && t[1..][..|fraction|] == fraction && t[1 + |fraction|..] == tail
  {
    var t := [POINT] + fraction + tail;
    assert t[1..] == fraction + tail;
    DigitRunStops(fraction, tail);
  }

  lemma RestWritten(fraction: Text, o: Offset)
    requires AllDigits(fraction) && |fraction| <= 9 && (o.Shifted? ==> o.hour < 100 && o.minute < 100)
    ensures MatchRest(WriteFraction(fraction) + WriteOffset(o)) == Some((fraction, o))
  {
    OffsetWritten(o);
    var tail := WriteOffset(o);
    if fraction == [] {
      assert [] + tail == tail;
    } else {
      FractionWritten(fraction, tail);
    }
  }

  lemma ClockSized(t: Text)
    requires MatchClock(t).Some?
    ensures WellSized(MatchClock(t).value)
  {
    FourRead(t[..4]);
    TwoRead(t[5..7]);
    TwoRead(t[8..10]);
    TwoRead(t[11..13]);
    TwoRead(t[14..16]);
    TwoRead(t[17..]);
  }

  lemma DateParts(t: Text)
    requires |t| == 19
    ensures t[..4] + [t[4]] + t[5..7] + [t[7]] + t[8..10] == t[..10]
  {
  }

  lemma TimeParts(t: Text)
    requires |t| == 19
    ensures t[11..13] + [t[13]] + t[14..16] + [t[16]] + t[17..] == t[11..]
  {
  }

  lemma ClockRead(t: Text)
    requires MatchClock(t).Some?
    ensures t == WriteClock(MatchClock(t).value)
  {
    var f := MatchClock(t).value;
    assert WriteDate(f) == t[..10] by {
      FourRead(t[..4]);
      TwoRead(t[5..7]);
      TwoRead(t[8..10]);
      DateParts(t);
    }
    assert WriteTime(f) == t[11..] by {
      TwoRead(t[11..13]);
      TwoRead(t[14..16]);
      TwoRead(t[17..]);
      TimeParts(t);
    }
    assert t[..10] + [t[10]] + t[11..] == t;
  }

  lemma DateWritten(f: Fields, rest: Text)
    requires WellSized(f)
    ensures var t := WriteDate(f) + rest;
            && |WriteDate(f)| == 10 && t[..10] == WriteDate(f) && t[10..] == rest
            && t[..4] == Digits(f.year, 4) && t[5..7] == Digits(f.month, 2) && t[8..10] == Digits(f.day, 2)
            && t[4] == DASH && t[7] == DASH
  {
    FourDigits(f.year);
    TwoDigits(f.month);
    TwoDigits(f.day);
  }

  lemma TimeWritten(f: Fields, ahead: Text)
    requires WellSized(f) && |ahead| == 11
    ensures var t := ahead + WriteTime(f);
            && |t| == 19
            && t[11..13] == Digits(f.hour, 2) && t[14..16] == Digits(f.minute, 2) && t[17..] == Digits(f.second, 2)
            && t[13] == COLON && t[16] == COLON
  {
    TwoDigits(f.hour);
    TwoDigits(f.minute);
    TwoDigits(f.second);
  }

  lemma ClockWritten(f: Fields)
    requires WellSized(f)
    ensures |WriteClock(f)| == 19 && MatchClock(WriteClock(f)) == Some(f.(fraction := [], offset := Utc))
  {
    DateWritten(f, [LETTER_T] + WriteTime(f));
    TimeWritten(f, WriteDate(f) + [LETTER_T]);
    assert WriteClock(f) == WriteDate(f) + ([LETTER_T] + WriteTime(f));
    FourDigits(f.year);
    TwoDigits(f.month);
    TwoDigits(f.day);
    TwoDigits(f.hour);
    TwoDigits(f.minute);
    TwoDigits(f.second);
  }

  /** The fields of a text are those that write it, and only texts so written match. */
  lemma MatchReadsWritten(t: Text, f: Fields)
    ensures Match(t) == Some(f) <==> WellSized(f) && t == Write(f)
  {
    if Match(t) == Some(f) {
      ClockSized(t[..19]);
      ClockRead(t[..19]);
      RestRead(t[19..]);
      assert t == t[..19] + t[19..];
    }
    if WellSized(f) && t == Write(f) {
      ClockWritten(f);
      OffsetWritten(f.offset);
      RestWritten(f.fraction, f.offset);
      assert t[..19] == WriteClock(f) && t[19..] == WriteFraction(f.fraction) + WriteOffset(f.offset);
    }
  }

  // ----- What the code computes -----

  predicate IsLeap(year: int) {
    year % 4 == 0 && (year % 100 != 0 || year % 400 == 0)
  }

  function DaysInMonth(year: int, month: int): int {
    if month == 2 then (if IsLeap(year) then 29 else 28)
    else if month in {4, 6, 9, 11} then 30
    else 31
  }

  predicate InRange(f: Fields) {
    && f.year >= 1
    && 1 <= f.month <= 12
    && 1 <= f.day <= DaysInMonth(f.year, f.month)
    && f.hour <= 23
    && f.minute <= 59
    && f.second <= 59
    && (f.offset.Shifted? ==> f.offset.hour <= 23 && f.offset.minute <= 59)
  }

  /** DayFromYear, section 21.4.1.3 of ECMA-262; `/` rounds down. */
  function DayFromYear(y: int): int {
    365 * (y - 1970) + (y - 1969) / 4 - (y - 1901) / 100 + (y - 1601) / 400
  }

  /** Days of the year before the month, section 21.4.1.11 of ECMA-262. */
  function DayOfMonthStart(year: int, month: int): int
    requires 1 <= month <= 12
  {
    [0, 31, 59, 90, 120, 151, 181, 212, 243, 273, 304, 334][month - 1] + if month > 2 && IsLeap(year) then 1 else 0
  }

  function OffsetSeconds(o: Offset): int {
    match o
    case Utc => 0
    case Shifted(negative, hour, minute) =>
      var s := hour * 3600 + minute * 60;
      if negative then -s else s
  }

  function EcmaSeconds(f: Fields): int
    requires InRange(f)
  {
    (DayFromYear(f.year) + DayOfMonthStart(f.year, f.month) + f.day - 1) * SECONDS_PER_DAY
    + f.hour * 3600 + f.minute * 60 + f.second - OffsetSeconds(f.offset)
  }

  /** Date.parse, in milliseconds; `sub` is however many milliseconds the host keeps of the fraction. */
  function DateParse(f: Fields, sub: nat): int
    requires InRange(f) && sub < 1000
  {
    EcmaSeconds(f) * 1000 + sub
  }

  function PadEnd(digits: Text): (r: Text)
    requires |digits| <= 9 && AllDigits(digits)
    ensures AllDigits(r)
    decreases 9 - |digits|
  {
    if |digits| == 9 then digits else PadEnd(digits + [0x30])
  }

  function ParseRfc3339Instant(value: Text, sub: nat): Option<Instant>
    requires sub < 1000
  {
    var f :- Match(value);
    if !InRange(f) then None
    else Some(Instant(DateParse(f, sub) / 1000, Number(PadEnd(f.fraction))))
  }

  // ----- What the text denotes, by counting days -----

  function YearLength(year: int): int {
    if IsLeap(year) then 366 else 365
  }

  /** Days from 1 January of year 1 to 1 January of the year. */
  function DaysBeforeYear(year: nat): int
    requires year >= 1
  {
    if year == 1 then 0 else DaysBeforeYear(year - 1) + YearLength(year - 1)
  }

  function DaysBeforeMonth(year: nat, month: nat): int
    requires 1 <= month <= 12
  {
    if month == 1 then 0 else DaysBeforeMonth(year, month - 1) + DaysInMonth(year, month - 1)
  }

  function DaysSinceEpoch(year: nat, month: nat, day: nat): int
    requires year >= 1 && 1 <= month <= 12
  {
    DaysBeforeYear(year) + DaysBeforeMonth(year, month) + day - 1 - DaysBeforeYear(1970)
  }

  /** Nanoseconds since the epoch of the instant the fields write down. */
  function Denotes(f: Fields): int
    requires InRange(f) && AllDigits(f.fraction) && |f.fraction| <= 9
  {
    (DaysSinceEpoch(f.year, f.month, f.day) * SECONDS_PER_DAY + f.hour * 3600 + f.minute * 60 + f.second
     - OffsetSeconds(f.offset)) * NANOS_PER_SECOND
    + Number(f.fraction) * Pow10(9 - |f.fraction|)
  }

  function ToNanos(i: Instant): int {
    i.seconds * NANOS_PER_SECOND + i.nanos
  }

  lemma {:induction false} YearsClosedForm(year: nat)
    requires year >= 1
    ensures DaysBeforeYear(year) == 365 * (year - 1) + (year - 1) / 4 - (year - 1) / 100 + (year - 1) / 400
  {
    if year > 1 {
      YearsClosedForm(year - 1);
      Quotient4(year - 1);
      Quotient100(year - 1);
      Quotient400(year - 1);
      Centuries(year - 1);
    }
  }

  lemma Quotient4(n: nat)
    requires n > 0
    ensures n / 4 == (n - 1) / 4 + if n % 4 == 0 then 1 else 0
  {
  }

  lemma Quotient100(n: nat)
    requires n > 0
    ensures n / 100 == (n - 1) / 100 + if n % 100 == 0 then 1 else 0
  {
  }

  lemma Quotient400(n: nat)
    requires n > 0
    ensures n / 400 == (n - 1) / 400 + if n % 400 == 0 then 1 else 0
  {
  }

  lemma MultipleOf100(k: nat)
    ensures (100 * k) % 100 == 0
  {
  }

  lemma MultipleOf4(k: nat)
    ensures (4 * k) % 4 == 0
  {
  }

  lemma Centuries(n: nat)
    ensures n % 400 == 0 ==> n % 100 == 0
    ensures n % 100 == 0 ==> n % 4 == 0
  {
    if n % 400 == 0 {
      assert n == 100 * (4 * (n / 400));
      MultipleOf100(4 * (n / 400));
    }
    if n % 100 == 0 {
      assert n == 4 * (25 * (n / 100));
      MultipleOf4(25 * (n / 100));
    }
  }

  lemma {:induction false} MonthsByTable(year: nat, month: nat)
    requires 1 <= month <= 12
    ensures DaysBeforeMonth(year, month) == DayOfMonthStart(year, month)
  {
    if month > 1 {
      MonthsByTable(year, month - 1);
    }
  }

  lemma ShiftDigit(n: nat, scale: nat)
    ensures n * 10 * scale == n * (10 * scale)
  {
  }

  lemma {:induction false} PaddingScales(digits: Text)
    requires |digits| <= 9 && AllDigits(digits)
    ensures Number(PadEnd(digits)) == Number(digits) * Pow10(9 - |digits|)
    decreases 9 - |digits|
  {
    if |digits| < 9 {
      var longer := digits + [0x30];
      assert longer[..|longer| - 1] == digits;
      PaddingScales(longer);
      ShiftDigit(Number(digits), Pow10(9 - |longer|));
    }
  }

  lemma {:induction false} NumberBound(digits: Text)
    requires AllDigits(digits)
    ensures Number(digits) < Pow10(|digits|)
    decreases |digits|
  {
    if digits != [] {
      NumberBound(digits[..|digits| - 1]);
    }
  }

  lemma {:induction false} PadEndLength(digits: Text)
    requires |digits| <= 9 && AllDigits(digits)
    ensures |PadEnd(digits)| == 9
    decreases 9 - |digits|
  {
    if |digits| < 9 {
      PadEndLength(digits + [0x30]);
    }
  }

  lemma TenToTheNinth()
    ensures Pow10(9) == NANOS_PER_SECOND
  {
    assert Pow10(3) == 1000;
    assert Pow10(6) == 1_000_000;
  }

  /** ECMA-262's day arithmetic counts real days. */
  lemma EcmaDaysAreDays(year: nat, month: nat, day: nat)
    requires year >= 1 && 1 <= month <= 12
    ensures DayFromYear(year) + DayOfMonthStart(year, month) + day - 1 == DaysSinceEpoch(year, month, day)
  {
    YearsClosedForm(year);
    YearsClosedForm(1970);
    MonthsByTable(year, month);
    assert (year - 1969) / 4 == (year - 1) / 4 - 492;
    assert (year - 1901) / 100 == (year - 1) / 100 - 19;
    assert (year - 1601) / 400 == (year - 1) / 400 - 4;
  }

  /**
    A written timestamp is accepted exactly when its fields are a date of the calendar and a
    time of day, and is then read as the instant it denotes, before 1970 too: the seconds
    round down and the nanoseconds count up from there.
   */
  lemma ParseIsExact(f: Fields, sub: nat)
    requires sub < 1000 && WellSized(f)
    ensures ParseRfc3339Instant(Write(f), sub).Some? <==>
            && 1 <= f.year && 1 <= f.month <= 12
            && 1 <= f.day <= (if f.month == 2 then (if IsLeap(f.year) then 29 else 28)
                              else if f.month in {4, 6, 9, 11} then 30 else 31)
            && f.hour < 24 && f.minute < 60 && f.second < 60
            && (f.offset.Shifted? ==> f.offset.hour < 24 && f.offset.minute < 60)
    ensures ParseRfc3339Instant(Write(f), sub).Some? ==>
              && InRange(f)
              && ToNanos(ParseRfc3339Instant(Write(f), sub).value) == Denotes(f)
              && Normal(ParseRfc3339Instant(Write(f), sub).value)
  {
    ParsesTo(f, sub);
    if InRange(f) {
      InstantIsExact(f, sub);
    }
  }

  lemma ParsesTo(f: Fields, sub: nat)
    requires sub < 1000 && WellSized(f)
    ensures ParseRfc3339Instant(Write(f), sub) ==
            if InRange(f) then Some(Instant(DateParse(f, sub) / 1000, Number(PadEnd(f.fraction)))) else None
  {
    MatchReadsWritten(Write(f), f);
  }

  lemma InstantIsExact(f: Fields, sub: nat)
    requires sub < 1000 && InRange(f) && AllDigits(f.fraction) && |f.fraction| <= 9
    ensures var i := Instant(DateParse(f, sub) / 1000, Number(PadEnd(f.fraction)));
            ToNanos(i) == Denotes(f) && Normal(i)
  {
    Divides1000(EcmaSeconds(f), sub);
    EcmaSecondsAreSeconds(f);
    FractionIsNanos(f.fraction);
  }

  lemma EcmaSecondsAreSeconds(f: Fields)
    requires InRange(f)
    ensures EcmaSeconds(f) == DaysSinceEpoch(f.year, f.month, f.day) * SECONDS_PER_DAY
                              + f.hour * 3600 + f.minute * 60 + f.second - OffsetSeconds(f.offset)
  {
    EcmaDaysAreDays(f.year, f.month, f.day);
  }

  lemma FractionIsNanos(fraction: Text)
    requires AllDigits(fraction) && |fraction| <= 9
    ensures Number(PadEnd(fraction)) == Number(fraction) * Pow10(9 - |fraction|) < NANOS_PER_SECOND
  {
    PaddingScales(fraction);
    PadEndLength(fraction);
    NumberBound(PadEnd(fraction));
    TenToTheNinth();
  }

  /** Nothing but a written timestamp is accepted. */
  lemma OnlyWrittenAccepted(value: Text, sub: nat) returns (f: Fields)
    requires sub < 1000 && ParseRfc3339Instant(value, sub).Some?
    ensures WellSized(f) && value == Write(f)
  {
    f := Match(value).value;
    MatchReadsWritten(value, f);
  }

  /** The offset is the lead of the local clock over UTC (section 4.2 of RFC 3339). */
  lemma OffsetIsLead(f: Fields, hour: nat, minute: nat)
    requires InRange(f) && WellSized(f) && f.offset == Utc && hour <= 23 && minute <= 59
    ensures Denotes(f.(offset := Shifted(false, hour, minute))) == Denotes(f) - (hour * 60 + minute) * 60_000_000_000
    ensures Denotes(f.(offset := Shifted(true, hour, minute))) == Denotes(f) + (hour * 60 + minute) * 60_000_000_000
  {
  }

  /** The twelve months make up the year. */
  lemma MonthsFillYear(year: nat)
    requires year >= 1
    ensures DaysBeforeMonth(year, 12) + DaysInMonth(year, 12) == YearLength(year)
    ensures DaysBeforeYear(year + 1) == DaysBeforeYear(year) + YearLength(year)
  {
    MonthsByTable(year, 12);
  }

  lemma Divides1000(seconds: int, sub: nat)
    requires sub < 1000
    ensures (seconds * 1000 + sub) / 1000 == seconds
  {
  }

  // ----- Order and range -----

  function Compare(left: Instant, right: Instant): int {
    if left.seconds == right.seconds then left.nanos - right.nanos else left.seconds - right.seconds
  }

  predicate Normal(i: Instant) {
    0 <= i.nanos < NANOS_PER_SECOND
  }

  /** `compare` has the sign of the difference between the two instants. */
  lemma CompareOrdersInstants(left: Instant, right: Instant)
    requires Normal(left) && Normal(right)
    ensures Compare(left, right) < 0 <==> ToNanos(left) < ToNanos(right)
    ensures Compare(left, right) == 0 <==> left == right
    ensures Compare(left, right) == 0 <==> ToNanos(left) == ToNanos(right)
  {
  }

  function Midnight(year: nat, month: nat, day: nat): Fields {
    Fields(year, month, day, 0, 0, 0, [], Utc)
  }

  /** The date texts the TypeScript bounds are computed from. */
  const MIN_FIELDS := Midnight(1900, 1, 1)
  const MAX_FIELDS := Fields(2262, 4, 11, 23, 47, 16, [], Utc)
  const MIN_TIMESTAMP_MS := DateParse(MIN_FIELDS, 0)
  const MAX_TIMESTAMP_SECONDS := DateParse(MAX_FIELDS, 0) / 1000
  const MAX_TIMESTAMP_NANOS := 854_775_807
  const MAX_INT64 := 0x7FFF_FFFF_FFFF_FFFF
  const MIN_INT64 := -0x8000_0000_0000_0000

  predicate TsInRange(i: Instant) {
    !(i.seconds < MIN_TIMESTAMP_MS / 1000
      || i.seconds > MAX_TIMESTAMP_SECONDS
      || (i.seconds == MAX_TIMESTAMP_SECONDS && i.nanos > MAX_TIMESTAMP_NANOS))
  }

  const PY_MIN := Instant(-2_208_988_800, 0)
  const PY_MAX := Instant(9_223_372_036, 854_775_807)
  const MIN_PROTOBUF_SECONDS := -62_135_596_800
  const MAX_PROTOBUF_SECONDS := 253_402_300_799

  /** Protobuf's own validity check, which Go and Python apply first. */
  predicate ProtobufValid(i: Instant) {
    MIN_PROTOBUF_SECONDS <= i.seconds <= MAX_PROTOBUF_SECONDS && Normal(i)
  }

  /** Python's tuple order. */
  predicate AtMost(a: Instant, b: Instant) {
    a.seconds < b.seconds || (a.seconds == b.seconds && a.nanos <= b.nanos)
  }

  predicate PyInRange(i: Instant) {
    ProtobufValid(i) && AtMost(PY_MIN, i) && AtMost(i, PY_MAX)
  }

  /** Go compares time.Time values built from the same two dates. */
  predicate GoInRange(i: Instant) {
    ProtobufValid(i)
    && !(ToNanos(i) < EcmaSeconds(MIN_FIELDS) * NANOS_PER_SECOND)
    && !(ToNanos(i) > EcmaSeconds(MAX_FIELDS) * NANOS_PER_SECOND + MAX_TIMESTAMP_NANOS)
  }

  lemma MinSeconds()
    ensures EcmaSeconds(MIN_FIELDS) == PY_MIN.seconds
  {
    assert DayFromYear(1900) == -25567 && DayOfMonthStart(1900, 1) == 0;
  }

  lemma MaxSeconds()
    ensures EcmaSeconds(MAX_FIELDS) == PY_MAX.seconds
  {
    assert DayFromYear(2262) == 106_651 && DayOfMonthStart(2262, 4) == 90;
  }

  /** 1900-01-01 really is that many seconds before the epoch, counting days. */
  lemma MinDenotes()
    ensures Denotes(MIN_FIELDS) == ToNanos(PY_MIN)
  {
    MinSeconds();
    EcmaDaysAreDays(1900, 1, 1);
    assert Number([]) == 0;
  }

  /** The numeric constants in Python are the date texts in TypeScript and Go. */
  lemma BoundsAgree()
    ensures MIN_TIMESTAMP_MS == PY_MIN.seconds * 1000 && MAX_TIMESTAMP_SECONDS == PY_MAX.seconds
    ensures EcmaSeconds(MIN_FIELDS) == PY_MIN.seconds && EcmaSeconds(MAX_FIELDS) == PY_MAX.seconds
    ensures ToNanos(PY_MAX) == MAX_INT64
    ensures ToNanos(PY_MIN) == Denotes(MIN_FIELDS)
  {
    MinSeconds();
    MaxSeconds();
    MinDenotes();
  }

  /**
    The three gates accept the same instants: from 1900-01-01 up to the last nanosecond a
    signed 64-bit count holds. So every accepted instant fits that count.
   */
  lemma RangeGatesAgree(i: Instant)
    requires Normal(i)
    ensures TsInRange(i) <==> Denotes(MIN_FIELDS) <= ToNanos(i) <= MAX_INT64
    ensures GoInRange(i) <==> TsInRange(i)
    ensures PyInRange(i) <==> TsInRange(i)
    ensures TsInRange(i) ==> MIN_INT64 < ToNanos(i) <= MAX_INT64
  {
    BoundsAgree();
  }

  /** optionalTimestamp and timestampBounds: both ends in range, and the lower strictly earlier. */
  datatype BoundsError = InvalidTimestamp | OutOfRange | InvalidRange

  function OptionalTimestamp(value: Option<Text>, sub: nat): (r: (Option<Instant>, Option<BoundsError>))
    requires sub < 1000
  {
    if value.None? then (None, None)
    else
      match ParseRfc3339Instant(value.value, sub)
      case None => (None, Some(InvalidTimestamp))
      case Some(i) => if TsInRange(i) then (Some(i), None) else (None, Some(OutOfRange))
  }

  function TimestampBounds(from: Option<Text>, to: Option<Text>, sub: nat): Option<BoundsError>
    requires sub < 1000
  {
    var lower := OptionalTimestamp(from, sub);
    var upper := OptionalTimestamp(to, sub);
    if lower.1.Some? then lower.1
    else if upper.1.Some? then upper.1
    else if lower.0.Some? && upper.0.Some? && Compare(lower.0.value, upper.0.value) >= 0 then Some(InvalidRange)
    else None
  }

  /** The nanoseconds a text denotes, if it is a timestamp at all. */
  function Meaning(t: Text): Option<int> {
    var f :- Match(t);
    if InRange(f) then Some(Denotes(f)) else None
  }

  predicate Storable(t: Text) {
    Meaning(t).Some? && Denotes(MIN_FIELDS) <= Meaning(t).value <= MAX_INT64
  }

  /** A pair of bounds passes exactly when both denote storable instants, the first before the second. */
  lemma BoundsAcceptedIff(from: Option<Text>, to: Option<Text>, sub: nat)
    requires sub < 1000
    ensures TimestampBounds(from, to, sub).None? <==>
            && (from.Some? ==> Storable(from.value))
            && (to.Some? ==> Storable(to.value))
            && (from.Some? && to.Some? ==> Meaning(from.value).value < Meaning(to.value).value)
    ensures TimestampBounds(from, to, sub) == Some(InvalidRange) <==>
            from.Some? && to.Some? && Storable(from.value) && Storable(to.value)
            && Meaning(from.value).value >= Meaning(to.value).value
    ensures TimestampBounds(from, to, sub) == Some(InvalidTimestamp) <==>
            || (from.Some? && Meaning(from.value).None?)
            || ((from.Some? ==> Storable(from.value)) && to.Some? && Meaning(to.value).None?)
  {
    if from.Some? {
      TimestampAcceptedIff(from.value, sub);
    }
    if to.Some? {
      TimestampAcceptedIff(to.value, sub);
    }
    if OptionalTimestamp(from, sub).0.Some? && OptionalTimestamp(to, sub).0.Some? {
      CompareOrdersInstants(OptionalTimestamp(from, sub).0.value, OptionalTimestamp(to, sub).0.value);
    }
  }

  lemma TimestampAcceptedIff(t: Text, sub: nat)
    requires sub < 1000
    ensures OptionalTimestamp(Some(t), sub).1.None? <==> Storable(t)
    ensures OptionalTimestamp(Some(t), sub).1 == Some(InvalidTimestamp) <==> Meaning(t).None?
    ensures Storable(t) ==> OptionalTimestamp(Some(t), sub).0.Some?
                            && Normal(OptionalTimestamp(Some(t), sub).0.value)
                            && ToNanos(OptionalTimestamp(Some(t), sub).0.value) == Meaning(t).value
  {
    if ParseRfc3339Instant(t, sub).Some? {
      var f := OnlyWrittenAccepted(t, sub);
      MatchReadsWritten(t, f);
      ParseIsExact(f, sub);
      RangeGatesAgree(ParseRfc3339Instant(t, sub).value);
    }
  }
}
