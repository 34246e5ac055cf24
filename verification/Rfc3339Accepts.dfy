/** Which of the texts the parser accepts are date-times of the RFC 3339 grammar. */
module Rfc3339Accepts {
  import opened Wrappers
  import opened Calendar
  import opened SinkFile
  import opened Rfc3339
  import opened Rfc3339Stamps

  // ----- separators -----

  /** The characters between hour, minute and second play no part. */
  lemma SeparatorsIgnored(text: string, x: char, y: char)
    requires |text| >= 19
    ensures Reads(text[13 := x][16 := y]) == Reads(text)
  {
    var t := text[13 := x][16 := y];
    assert t[0..4] == text[0..4];
    assert t[5..7] == text[5..7];
    assert t[8..10] == text[8..10];
    assert t[11..13] == text[11..13];
    assert t[14..16] == text[14..16];
    assert t[17..19] == text[17..19];
    assert t[19..] == text[19..];
  }

  const SAMPLE := Stamp(Date(2026, 7, 24), false, 13, 37, 9, "", Zulu(false))

  lemma SampleText()
    ensures Grammatical(SAMPLE) && Text(SAMPLE) == "2026-07-24T13:37:09Z"
  {
    assert Four(2026) == "2026" && Two(7) == "07" && Two(24) == "24";
    assert Two(13) == "13" && Two(37) == "37" && Two(9) == "09";
  }

  lemma Lettered(t: string)
    requires t == "2026-07-24T13:37:09Z"
    ensures t[13 := 'x'][16 := 'y'] == "2026-07-24T13x37y09Z"
  {
  }

  /** A date-time with other separators is read as the one with colons. */
  lemma LooseSeparators(s: Stamp, x: char, y: char)
    requires Grammatical(s)
    ensures |Text(s)| >= 19 && Reads(Text(s)[13 := x][16 := y]) == Timestamp(Text(s))
  {
    var tail := (if s.fraction == [] then [] else "." + s.fraction) + ZoneText(s.zone);
    HeadFields(s, tail);
    NotANumber(Text(s), 4);
    SeparatorsIgnored(Text(s), x, y);
  }

  lemma SampleReads()
    ensures Grammatical(SAMPLE) && Timestamp(Text(SAMPLE)) == Got(InstantOf(SAMPLE))
  {
    ReadsEveryStamp(SAMPLE);
  }

  /** For one, 13x37y09 is read as 13:37:09. */
  lemma LettersForColons()
    ensures Reads("2026-07-24T13x37y09Z") == Got(InstantOf(SAMPLE))
  {
    SampleText();
    SampleReads();
    LooseSeparators(SAMPLE, 'x', 'y');
    Lettered(Text(SAMPLE));
  }

  // ----- the exact condition -----

  predicate AllDigits(s: string) {
    forall i :: 0 <= i < |s| ==> IsDigit(s[i])
  }

  /** Colons where they belong, and no field with a sign. */
  predicate ProperHead(text: string)
    requires |text| >= 19
  {
    && text[13] == ':' && text[16] == ':'
    && AllDigits(text[0..4]) && AllDigits(text[5..7]) && AllDigits(text[8..10])
    && AllDigits(text[11..13]) && AllDigits(text[14..16]) && AllDigits(text[17..19])
  }

  predicate InRange(f: Fields) {
    f.hour <= 23 && f.minute <= 59 && f.second <= 60
  }

  /** `Z`, or a sign, two digits, a colon and two digits, within a day. */
  predicate ProperZone(z: string) {
    || z == "Z" || z == "z"
    || (&& |z| == 6 && (z[0] == '+' || z[0] == '-') && z[3] == ':'
        && AllDigits(z[1..3]) && AllDigits(z[4..6])
        && ParseI64(z[1..3]).Some? && ParseI64(z[1..3]).value <= 23
        && ParseI64(z[4..6]).Some? && ParseI64(z[4..6]).value <= 59)
  }

  predicate Proper(text: string) {
    && |text| >= 19 && ProperHead(text)
    && FieldsOf(text).Some? && InRange(FieldsOf(text).value)
    && FractionOf(text[19..]).Some? && ProperZone(FractionOf(text[19..]).value.1)
  }

  lemma TwoIs(s: string)
    requires |s| == 2 && AllDigits(s)
    ensures ParseI64(s).Some? && 0 <= ParseI64(s).value < 100 && s == Two(ParseI64(s).value)
  {
    var a, b := DigitValue(s[0]), DigitValue(s[1]);
    assert Digit(a) == s[0] && Digit(b) == s[1];
    assert s == Two(10 * a + b);
    TwoParses(10 * a + b);
  }

  lemma FourIs(s: string)
    requires |s| == 4 && AllDigits(s)
    ensures ParseI64(s).Some? && 0 <= ParseI64(s).value < 10000 && s == Four(ParseI64(s).value)
  {
    var a, b, c, d := DigitValue(s[0]), DigitValue(s[1]), DigitValue(s[2]), DigitValue(s[3]);
    var n := 1000 * a + 100 * b + 10 * c + d;
    assert Digit(a) == s[0] && Digit(b) == s[1] && Digit(c) == s[2] && Digit(d) == s[3];
    FourPlaces(a, b, c, d, n);
    assert s == Four(n);
    FourParses(n);
  }

  lemma FourPlaces(a: nat, b: nat, c: nat, d: nat, n: nat)
    requires a < 10 && b < 10 && c < 10 && d < 10 && n == 1000 * a + 100 * b + 10 * c + d
    ensures n / 1000 == a && n / 100 % 10 == b && n / 10 % 10 == c && n % 10 == d
  {
    assert n / 10 == 100 * a + 10 * b + c;
    assert n / 100 == 10 * a + b;
  }

  lemma TwoDigits(n: nat)
    requires n < 100
    ensures AllDigits(Two(n))
  {
  }

  lemma FourDigits(n: nat)
    requires n < 10000
    ensures AllDigits(Four(n))
  {
  }

  // ----- a proper text is a date-time -----

  lemma HeadIs(text: string, s: Stamp)
    requires |text| >= 19 && ProperHead(text) && Grammatical(s) && !s.lowerT
    requires FieldsOf(text) == Some(FieldsIn(s))
    ensures text[..19] == Head(s)
  {
    FourIs(text[0..4]);
    TwoIs(text[5..7]);
    TwoIs(text[8..10]);
    TwoIs(text[11..13]);
    TwoIs(text[14..16]);
    TwoIs(text[17..19]);
    Pieces(text, Four(s.date.year), Two(s.date.month), Two(s.date.day), Two(s.hour), Two(s.minute), Two(s.second));
  }

  lemma Pieces(text: string, y: string, mo: string, d: string, h: string, mi: string, s: string)
    requires |text| >= 19 && text[4] == text[7] == '-' && text[10] == 'T' && text[13] == text[16] == ':'
    requires text[0..4] == y && text[5..7] == mo && text[8..10] == d
    requires text[11..13] == h && text[14..16] == mi && text[17..19] == s
    ensures text[..19] == y + "-" + mo + "-" + d + "T" + h + ":" + mi + ":" + s
  {
  }

  /** What follows the seconds is the fraction as written and the zone. */
  lemma TailIs(tail: string) returns (fraction: string)
    requires FractionOf(tail).Some?
    ensures AllDigits(fraction)
    ensures tail == (if fraction == [] then [] else "." + fraction) + FractionOf(tail).value.1
  {
    fraction := [];
    if tail != [] && tail[0] == '.' {
      fraction := Digits(tail[1..]);
      assert tail == "." + fraction + tail[1 + |fraction|..];
    } else {
      assert [] + tail == tail;
    }
  }

  lemma ZoneIs(z: string) returns (zone: Zone)
    requires ProperZone(z)
    ensures (zone.Apart? ==> zone.hours <= 23 && zone.minutes <= 59) && z == ZoneText(zone)
  {
    if z == "Z" || z == "z" {
      zone := Zulu(z == "z");
    } else {
      TwoIs(z[1..3]);
      TwoIs(z[4..6]);
      zone := Apart(z[0] == '+', ParseI64(z[1..3]).value, ParseI64(z[4..6]).value);
      assert z == [z[0]] + (z[1..3] + ":" + z[4..6]);
    }
  }

  lemma FieldsNatural(text: string)
    requires |text| >= 19 && ProperHead(text) && FieldsOf(text).Some?
    ensures var f := FieldsOf(text).value;
            && 0 <= f.year <= 9999 && 1 <= f.month <= 12 && 1 <= f.day <= 31
            && 0 <= f.hour && 0 <= f.minute && 0 <= f.second
  {
    FourIs(text[0..4]);
    TwoIs(text[11..13]);
    TwoIs(text[14..16]);
    TwoIs(text[17..19]);
  }

  lemma ProperIsText(text: string) returns (s: Stamp)
    requires Proper(text)
    ensures Grammatical(s) && text == Text(s)
  {
    var f := FieldsOf(text).value;
    FieldsNatural(text);
    var fraction := TailIs(text[19..]);
    var zone := ZoneIs(FractionOf(text[19..]).value.1);
    s := Stamp(Date(f.year, f.month, f.day), false, f.hour, f.minute, f.second, fraction, zone);
    HeadIs(text, s);
    assert text == text[..19] + text[19..];
  }

  // ----- and the other way round -----

  lemma ZoneIsProper(z: Zone)
    requires z.Apart? ==> z.hours <= 23 && z.minutes <= 59
    ensures ProperZone(ZoneText(z))
  {
    if z.Apart? {
      var t := ZoneText(z);
      assert t[1..3] == Two(z.hours) && t[4..6] == Two(z.minutes);
      TwoParses(z.hours);
      TwoParses(z.minutes);
    }
  }

  lemma HeadIsProper(s: Stamp, tail: string)
    requires Grammatical(s)
    ensures |Head(s) + tail| >= 19 && ProperHead(Head(s) + tail)
  {
    HeadFields(s, tail);
    FourDigits(s.date.year);
    TwoDigits(s.date.month);
    TwoDigits(s.date.day);
    TwoDigits(s.hour);
    TwoDigits(s.minute);
    TwoDigits(s.second);
  }

  lemma TextIsProper(s: Stamp)
    requires Grammatical(s)
    ensures Reads(Text(s)).Got? ==> Proper(Text(s))
  {
    var tail := (if s.fraction == [] then [] else "." + s.fraction) + ZoneText(s.zone);
    HeadIsProper(s, tail);
    HeadReads(s, tail);
    HeadFields(s, tail);
    FractionReads(s.fraction, s.zone);
    ZoneIsProper(s.zone);
  }

  /** An accepted text is a date-time of the grammar if and only if its separators are colons, no field
      is signed, the time of day is in range and the zone is written out properly. */
  lemma AcceptedExactly(text: string)
    requires Reads(text).Got?
    ensures (exists s :: Grammatical(s) && text == Text(s)) <==> Proper(text)
  {
    if Proper(text) {
      var s := ProperIsText(text);
    }
    if s :| Grammatical(s) && text == Text(s) {
      TextIsProper(s);
    }
  }

  // ----- a text that is not one -----

  const LOOSE := "2026-+7-24T99:37:-9"

  lemma OneDigit(c: char)
    requires IsDigit(c)
    ensures ParseI64(['+', c]) == Some(DigitValue(c)) && ParseI64(['-', c]) == Some(-(DigitValue(c) as int))
  {
    assert ['+', c][1..] == [c] && ['-', c][1..] == [c];
  }

  lemma LooseDate()
    ensures LOOSE[0..4] == Four(2026) && LOOSE[5..7] == ['+', '7'] && LOOSE[8..10] == Two(24)
  {
  }

  lemma LooseTime()
    ensures LOOSE[11..13] == Two(99) && LOOSE[14..16] == Two(37) && LOOSE[17..19] == ['-', '9'] && LOOSE[19..] == ""
  {
  }

  lemma LooseFields()
    ensures FieldsOf(LOOSE) == Some(Fields(2026, 7, 24, 99, 37, -9)) && LOOSE[19..] == ""
  {
    LooseDate();
    LooseTime();
    FourParses(2026);
    TwoParses(24);
    TwoParses(99);
    TwoParses(37);
    OneDigit('7');
    OneDigit('9');
  }

  /** Signs, hour 99 and no zone at all are accepted, and the text is no date-time. */
  lemma LooseIsAccepted()
    ensures Reads(LOOSE).Got? && forall s :: Grammatical(s) ==> LOOSE != Text(s)
  {
    LooseFields();
    DateBound(Date(2026, 7, 24));
    DaysAreGregorian(2026, 7, 24);
    AcceptedExactly(LOOSE);
  }
}
