/** Every date-time of the RFC 3339 grammar, and what the parser reads it as. */
module Rfc3339Stamps {
  import opened Wrappers
  import opened Calendar
  import opened SinkFile
  import opened Rfc3339

  // ----- every RFC 3339 date-time -----

  /** `Z` may be written in lower case. */
  datatype Zone = Zulu(lower: bool) | Apart(ahead: bool, hours: nat, minutes: nat)

  /** A date-time in the grammar of section 5.6 of RFC 3339. An empty fraction means none is written;
      `T` may be written in lower case. */
  datatype Stamp = Stamp(date: Date, lowerT: bool, hour: nat, minute: nat, second: nat, fraction: string, zone: Zone)

  predicate Grammatical(s: Stamp) {
    && 0 <= s.date.year <= 9999 && 1 <= s.date.month <= 12 && 1 <= s.date.day <= 31
    && s.hour <= 23 && s.minute <= 59 && s.second <= 60
    && (forall i :: 0 <= i < |s.fraction| ==> IsDigit(s.fraction[i]))
    && (s.zone.Apart? ==> s.zone.hours <= 23 && s.zone.minutes <= 59)
  }

  function Two(n: nat): string
    requires n < 100
  {
    [Digit(n / 10), Digit(n % 10)]
  }

  function Four(n: nat): string
    requires n < 10000
  {
    [Digit(n / 1000)] + [Digit(n / 100 % 10)] + [Digit(n / 10 % 10)] + [Digit(n % 10)]
  }

  function Head(s: Stamp): (h: string)
    requires Grammatical(s)
    ensures |h| == 19
  {
    Four(s.date.year) + "-" + Two(s.date.month) + "-" + Two(s.date.day) +
    (if s.lowerT then "t" else "T") + Two(s.hour) + ":" + Two(s.minute) + ":" + Two(s.second)
  }

  function ZoneText(z: Zone): string
    requires z.Apart? ==> z.hours <= 23 && z.minutes <= 59
  {
    match z
    case Zulu(lower) => if lower then "z" else "Z"
    case Apart(ahead, hours, minutes) => (if ahead then "+" else "-") + (Two(hours) + ":" + Two(minutes))
  }

  function Text(s: Stamp): string
    requires Grammatical(s)
  {
    Head(s) + ((if s.fraction == [] then [] else "." + s.fraction) + ZoneText(s.zone))
  }

  function ZoneSeconds(z: Zone): int {
    match z
    case Zulu(_) => 0
    case Apart(ahead, hours, minutes) => (if ahead then 1 else -1) * (hours * 3_600 + minutes * 60)
  }

  /** The microsecond a date-time names, by the calendar. */
  function InstantOf(s: Stamp): int
    requires Grammatical(s)
  {
    var local := GregorianDays(s.date) * 86_400 + s.hour * 3_600 + s.minute * 60 + s.second;
    (local - ZoneSeconds(s.zone)) * 1_000_000 + FractionMicros(s.fraction)
  }

  function FractionMicros(f: string): int {
    if DigitsValue(f).None? then 0 else Micros(DigitsValue(f).value, |f|)
  }

  function FieldsIn(s: Stamp): Fields {
    Fields(s.date.year, s.date.month, s.date.day, s.hour, s.minute, s.second)
  }

  ghost predicate Lands(f: Fields, apart: int, micros: int, instant: int) {
    InMicros(Seconds(f) - apart, micros) == Got(instant)
  }

  lemma TwoParses(n: nat)
    requires n < 100
    ensures ParseI64(Two(n)) == Some(n) && ':' !in Two(n)
  {
    var s := Two(n);
    assert DigitsValue(s[..1]) == Some(n / 10);
    assert DigitsValue(s) == Some(n);
  }

  lemma DigitAppends(front: string, v: nat, d: nat)
    requires d < 10 && DigitsValue(front) == Some(v)
    ensures DigitsValue(front + [Digit(d)]) == Some(10 * v + d)
  {
    var s := front + [Digit(d)];
    assert s[..|s| - 1] == front;
  }

  lemma Places(n: nat, a: nat, b: nat, c: nat)
    requires a == n / 1000 && b == n / 100 && c == n / 10
    ensures n == 10 * c + n % 10 && c == 10 * b + c % 10 && b == 10 * a + b % 10
  {
  }

  lemma FourParses(n: nat)
    requires n < 10000
    ensures ParseI64(Four(n)) == Some(n)
  {
    var a, b, c := n / 1000, n / 100, n / 10;
    Places(n, a, b, c);
    DigitAppends([Digit(a)], a, b % 10);
    DigitAppends([Digit(a)] + [Digit(b % 10)], b, c % 10);
    DigitAppends([Digit(a)] + [Digit(b % 10)] + [Digit(c % 10)], c, n % 10);
  }

  lemma HeadFields(s: Stamp, tail: string)
    requires Grammatical(s)
    ensures var t := Head(s) + tail;
            && t[4] == t[7] == '-' && t[13] == t[16] == ':' && t[19..] == tail
            && t[10] == (if s.lowerT then 't' else 'T')
            && t[0..4] == Four(s.date.year) && t[5..7] == Two(s.date.month) && t[8..10] == Two(s.date.day)
            && t[11..13] == Two(s.hour) && t[14..16] == Two(s.minute) && t[17..19] == Two(s.second)
  {
    var t := Head(s) + tail;
    assert t[0..4] == Four(s.date.year);
    assert t[5..7] == Two(s.date.month);
    assert t[8..10] == Two(s.date.day);
    assert t[11..13] == Two(s.hour);
    assert t[14..16] == Two(s.minute);
    assert t[17..19] == Two(s.second);
  }

  lemma HeadReads(s: Stamp, tail: string)
    requires Grammatical(s)
    ensures FieldsOf(Head(s) + tail) == if s.lowerT then None else Some(FieldsIn(s))
  {
    HeadFields(s, tail);
    FourParses(s.date.year);
    TwoParses(s.date.month);
    TwoParses(s.date.day);
    TwoParses(s.hour);
    TwoParses(s.minute);
    TwoParses(s.second);
  }

  lemma {:induction false} DigitsOf(f: string, rest: string)
    requires forall i :: 0 <= i < |f| ==> IsDigit(f[i])
    requires rest != [] && !IsDigit(rest[0])
    ensures Digits(f + rest) == f
  {
    if f != [] {
      assert (f + rest)[1..] == f[1..] + rest;
      DigitsOf(f[1..], rest);
    } else {
      assert f + rest == rest;
    }
  }

  /** Digits are a number with at most as many digits. */
  lemma {:induction false} DigitsBound(f: string)
    requires f != [] && forall i :: 0 <= i < |f| ==> IsDigit(f[i])
    ensures DigitsValue(f).Some? && DigitsValue(f).value < Pow10(|f|)
  {
    if |f| > 1 { DigitsBound(f[..|f| - 1]); }
  }

  lemma MicrosBound(f: string)
    requires forall i :: 0 <= i < |f| ==> IsDigit(f[i])
    ensures 0 <= FractionMicros(f) < 1_000_000
  {
    if f != [] {
      DigitsBound(f);
      SmallQuotient(DigitsValue(f).value, Pow10(|f|));
    }
  }

  lemma SmallQuotient(v: nat, p: nat)
    requires v < p
    ensures 0 <= v * 1_000_000 / p < 1_000_000
  {
    var a := v * 1_000_000;
    var m := a / p;
    assert a == p * m + a % p;
    if m >= 1_000_000 {
      MulMono(1_000_000, m, p);
    } else if m < 0 {
      MulMono(m, -1, p);
    }
  }

  lemma DigitsAreNumber(f: string)
    requires f != [] && forall i :: 0 <= i < |f| ==> IsDigit(f[i])
    ensures DigitsValue(f).Some?
    ensures ParseI64(f) == if DigitsValue(f).value > I64_MAX then None else Some(DigitsValue(f).value)
  {
    DigitsBound(f);
  }

  lemma WrittenFraction(f: string, zone: string)
    requires f != [] && forall i :: 0 <= i < |f| ==> IsDigit(f[i])
    requires zone != [] && !IsDigit(zone[0])
    ensures FractionOf("." + f + zone) ==
            if ParseI64(f).None? then None else Some((FractionMicros(f), zone))
  {
    var rest := "." + f + zone;
    assert rest[0] == '.' && rest[1..] == f + zone && rest[1 + |f|..] == zone;
    DigitsOf(f, zone);
    DigitsAreNumber(f);
  }

  lemma FractionReads(f: string, z: Zone)
    requires forall i :: 0 <= i < |f| ==> IsDigit(f[i])
    requires z.Apart? ==> z.hours <= 23 && z.minutes <= 59
    ensures FractionOf((if f == [] then [] else "." + f) + ZoneText(z)) ==
            if f != [] && ParseI64(f).None? then None else Some((FractionMicros(f), ZoneText(z)))
  {
    if f == [] {
      assert [] + ZoneText(z) == ZoneText(z);
    } else {
      WrittenFraction(f, ZoneText(z));
    }
  }

  lemma {:induction false} SplitAt(a: string, c: char, b: string)
    requires c !in a
    ensures SplitOnce(a + [c] + b, c) == Some((a, b))
  {
    var s := a + [c] + b;
    if a != [] {
      assert s[1..] == a[1..] + [c] + b;
      SplitAt(a[1..], c, b);
      assert [a[0]] + a[1..] == a;
    } else {
      assert s[1..] == b;
    }
  }

  lemma ZoneReads(z: Zone)
    requires z.Apart? ==> z.hours <= 23 && z.minutes <= 59
    ensures OffsetOf(ZoneText(z)) == Got(ZoneSeconds(z))
  {
    if z.Apart? {
      var t := ZoneText(z);
      assert t[1..] == Two(z.hours) + ":" + Two(z.minutes);
      TwoParses(z.hours);
      TwoParses(z.minutes);
      SplitAt(Two(z.hours), ':', Two(z.minutes));
    }
  }

  lemma DateBound(d: Date)
    requires 0 <= d.year <= 9999 && 1 <= d.month <= 12 && 1 <= d.day <= 31
    ensures -800_000 < GregorianDays(d) < 4_000_000
  {
    YearStartClosed(d.year);
    MonthStartClosed(d.year, d.month);
  }

  lemma InstantFits(s: Stamp)
    requires Grammatical(s)
    ensures Lands(FieldsIn(s), ZoneSeconds(s.zone), FractionMicros(s.fraction), InstantOf(s))
  {
    DaysAreGregorian(s.date.year, s.date.month, s.date.day);
    DateBound(s.date);
    MicrosBound(s.fraction);
    assert -90_000 < ZoneSeconds(s.zone) < 90_000;
  }

  /** Every date-time of the grammar is read as the microsecond it names by the calendar, except that a
      lower-case `t` is refused and so is a fraction too long for a 64-bit number. */
  lemma ReadsEveryStamp(s: Stamp)
    requires Grammatical(s)
    ensures var f := DigitsValue(s.fraction);
            Timestamp(Text(s)) ==
            if s.lowerT || (f.Some? && f.value > I64_MAX) then Rejected else Got(InstantOf(s))
  {
    if s.lowerT {
      LowerRefused(s);
    } else {
      UpperReads(s);
    }
  }

  lemma LowerRefused(s: Stamp)
    requires Grammatical(s) && s.lowerT
    ensures Timestamp(Text(s)) == Rejected
  {
    var tail := (if s.fraction == [] then [] else "." + s.fraction) + ZoneText(s.zone);
    HeadReads(s, tail);
    HeadFields(s, tail);
    NotANumber(Text(s), 4);
  }

  lemma UpperReads(s: Stamp)
    requires Grammatical(s) && !s.lowerT
    ensures var f := DigitsValue(s.fraction);
            Timestamp(Text(s)) == if f.Some? && f.value > I64_MAX then Rejected else Got(InstantOf(s))
  {
    var tail := (if s.fraction == [] then [] else "." + s.fraction) + ZoneText(s.zone);
    HeadReads(s, tail);
    HeadFields(s, tail);
    FractionReads(s.fraction, s.zone);
    ZoneReads(s.zone);
    InstantFits(s);
    var parsed := if s.fraction == [] then Some(0) else ParseI64(s.fraction);
    if s.fraction != [] { DigitsAreNumber(s.fraction); }
    ReadsParts(Text(s), tail, FieldsIn(s), parsed, FractionMicros(s.fraction), ZoneText(s.zone),
               ZoneSeconds(s.zone), InstantOf(s));
    assert parsed.None? <==> DigitsValue(s.fraction).Some? && DigitsValue(s.fraction).value > I64_MAX;
  }

  lemma ReadsParts(text: string, tail: string, f: Fields, parsed: Option<int>, micros: int, zone: string, apart: int,
                   instant: int)
    requires FieldsOf(text) == Some(f) && |text| >= 19 && text[19..] == tail && text[4] == '-'
    requires FractionOf(tail) == (if parsed.None? then None else Some((micros, zone)))
    requires OffsetOf(zone) == Got(apart) && Lands(f, apart, micros, instant)
    ensures Timestamp(text) == if parsed.None? then Rejected else Got(instant)
  {
    NotANumber(text, 4);
  }

  lemma {:induction false} NotDigits(s: string, k: nat)
    requires k < |s| && !IsDigit(s[k])
    ensures DigitsValue(s).None?
  {
    if k < |s| - 1 { NotDigits(s[..|s| - 1], k); }
  }

  lemma NotANumber(s: string, k: nat)
    requires 0 < k < |s| && !IsDigit(s[k])
    ensures ParseI64(s).None?
  {
    NotDigits(s, k);
    NotDigits(s[1..], k - 1);
  }

  lemma SameDayReadsSame(s: Stamp, t: Stamp)
    requires Grammatical(s) && Grammatical(t) && t == s.(date := t.date)
    requires GregorianDays(s.date) == GregorianDays(t.date)
    ensures Timestamp(Text(s)) == Timestamp(Text(t))
  {
    ReadsEveryStamp(s);
    ReadsEveryStamp(t);
  }

  /** A day that its month does not have (section 5.7 of RFC 3339) is accepted all the same, and read
      as a day of the next month. */
  lemma ShortMonthsRunOn(s: Stamp) returns (t: Stamp)
    requires Grammatical(s) && !IsDate(s.date)
    ensures Grammatical(t) && IsDate(t.date) && t == s.(date := t.date)
    ensures Timestamp(Text(s)) == Timestamp(Text(t))
  {
    var d := s.date;
    t := s.(date := Date(d.year, d.month + 1, d.day - DaysInMonth(d.year, d.month)));
    SameDayReadsSame(s, t);
  }
}
