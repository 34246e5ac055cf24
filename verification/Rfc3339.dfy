/** The point-in-time argument: RFC 3339 text to microseconds since the epoch. A text is one
    character per byte; bytes from 0x80 up belong to multi-byte characters. */
module Rfc3339 {
  import opened Wrappers
  import opened Calendar
  import opened SinkFile

  const I64_MIN: int := -0x8000_0000_0000_0000
  const I64_MAX: int := 0x7fff_ffff_ffff_ffff

  /** A signed 64-bit number: an optional sign, then digits, within range. */
  function ParseI64(s: string): Option<int> {
    if s == [] then None
    else
      var v := DigitsValue(if s[0] == '+' || s[0] == '-' then s[1..] else s);
      if v.None? then None
      else
        var magnitude: int := v.value;
        var n := if s[0] == '-' then -magnitude else magnitude;
        if Fits(n) then Some(n) else None
  }

  predicate Fits(n: int) {
    I64_MIN <= n <= I64_MAX
  }

  /** `Aborts`: the arithmetic overflows, or a multi-byte character is cut in two. */
  datatype Reading = Got(value: int) | Rejected | Aborts

  // ----- fraction of a second -----

  function Pow10(n: nat): (p: nat)
    ensures p > 0
  {
    if n == 0 then 1 else 10 * Pow10(n - 1)
  }

  /** The leading digits of a text. */
  function Digits(s: string): (d: string)
    ensures d <= s && forall i :: 0 <= i < |d| ==> IsDigit(d[i])
    ensures |d| < |s| ==> !IsDigit(s[|d|])
  {
    if s == [] || !IsDigit(s[0]) then [] else [s[0]] + Digits(s[1..])
  }

  /** Whole microseconds in the fraction `value / 10^digits`, rounded down. */
  function Micros(value: nat, digits: nat): int {
    value * 1_000_000 / Pow10(digits)
  }

  lemma {:induction false} PowAdd(a: nat, b: nat)
    ensures Pow10(a + b) == Pow10(a) * Pow10(b)
  {
    if a > 0 {
      PowAdd(a - 1, b);
      assert Pow10(a + b) == 10 * Pow10(a - 1 + b);
      Regroup(10, Pow10(a - 1), Pow10(b));
    }
  }

  lemma Regroup(a: int, b: int, c: int)
    ensures a * b * c == a * (b * c)
  {
  }

  lemma MulMono(a: int, b: int, p: nat)
    requires a <= b
    ensures a * p <= b * p
  {
  }

  lemma QuotientIs(a: nat, p: nat, m: nat)
    requires p > 0
    ensures m * p <= a < (m + 1) * p ==> a / p == m
  {
    var q := a / p;
    assert q * p <= a < (q + 1) * p;
    if m < q {
      MulMono(m + 1, q, p);
    } else if q < m {
      MulMono(q + 1, m, p);
    }
  }

  /** Padding with zeros is exact. */
  lemma Padded(parsed: nat, digits: nat)
    requires digits <= 6
    ensures Micros(parsed, digits) == parsed * Pow10(6 - digits)
  {
    PowAdd(6 - digits, digits);
    assert Pow10(6) == 1_000_000;
    var m := parsed * Pow10(6 - digits);
    Regroup(parsed, Pow10(6 - digits), Pow10(digits));
    assert m * Pow10(digits) == parsed * 1_000_000;
    QuotientIs(parsed * 1_000_000, Pow10(digits), m);
  }

  /** Dropping digits rounds down. */
  lemma Dropped(parsed: nat, digits: nat, value: nat)
    requires digits >= 6
    ensures value * Pow10(digits - 6) <= parsed < (value + 1) * Pow10(digits - 6) ==> Micros(parsed, digits) == value
  {
    PowAdd(digits - 6, 6);
    assert Pow10(6) == 1_000_000;
    var p := Pow10(digits - 6);
    if value * p <= parsed < (value + 1) * p {
      Regroup(value, p, 1_000_000);
      Regroup(value + 1, p, 1_000_000);
      MulMono(value * p, parsed, 1_000_000);
      MulMono(parsed + 1, (value + 1) * p, 1_000_000);
      QuotientIs(parsed * 1_000_000, Pow10(digits), value);
    }
  }

  /** Scales a fraction of any number of digits to exactly six. */
  method Scale(digits: nat, parsed: nat) returns (value: nat)
    ensures value == Micros(parsed, digits)
  {
    value := parsed;
    var k := digits;
    while k < 6
      invariant digits <= k && (k <= 6 || k == digits)
      invariant value == parsed * Pow10(k - digits)
    {
      Regroup(parsed, Pow10(k - digits), 10);
      value, k := value * 10, k + 1;
    }
    if digits <= 6 {
      Padded(parsed, digits);
    }
    k := 6;
    while k < digits
      invariant digits >= 6 ==> k <= digits && value * Pow10(k - 6) <= parsed < (value + 1) * Pow10(k - 6)
      invariant digits < 6 ==> k == 6 && value == Micros(parsed, digits)
      decreases digits - k
    {
      Tenth(value, Pow10(k - 6), parsed);
      value, k := value / 10, k + 1;
    }
    if digits >= 6 {
      Dropped(parsed, digits, value);
    }
  }

  lemma Tenth(value: nat, p: nat, a: nat)
    ensures value * p <= a < (value + 1) * p ==> value / 10 * (10 * p) <= a < (value / 10 + 1) * (10 * p)
  {
    var q := value / 10;
    Regroup(q, 10, p);
    Regroup(q + 1, 10, p);
    MulMono(q * 10, value, p);
    MulMono(value + 1, (q + 1) * 10, p);
  }

  // ----- the parser -----

  datatype Fields = Fields(year: int, month: int, day: int, hour: int, minute: int, second: int)

  /** The fixed-width part. The characters between hour, minute and second are not looked at. */
  function FieldsOf(text: string): Option<Fields> {
    if |text| < 19 || text[4] != '-' || text[7] != '-' || text[10] != 'T' then None
    else
      var y, mo, d := ParseI64(text[0..4]), ParseI64(text[5..7]), ParseI64(text[8..10]);
      var h, mi, s := ParseI64(text[11..13]), ParseI64(text[14..16]), ParseI64(text[17..19]);
      if y.None? || mo.None? || d.None? || h.None? || mi.None? || s.None? then None
      else if !(1 <= mo.value <= 12) || !(1 <= d.value <= 31) then None
      else Some(Fields(y.value, mo.value, d.value, h.value, mi.value, s.value))
  }

  /** The fraction in microseconds, and what follows it. */
  function FractionOf(rest: string): Option<(int, string)> {
    if rest == [] || rest[0] != '.' then Some((0, rest))
    else
      var digits := Digits(rest[1..]);
      var v := ParseI64(digits);
      DigitsParse(digits);
      if v.None? then None else Some((Micros(v.value, |digits|), rest[1 + |digits|..]))
  }

  function SplitOnce(s: string, c: char): Option<(string, string)> {
    if s == [] then None
    else if s[0] == c then Some(([], s[1..]))
    else
      var r := SplitOnce(s[1..], c);
      if r.None? then None else Some(([s[0]] + r.value.0, r.value.1))
  }

  /** The distance from UTC in seconds. */
  function OffsetOf(rest: string): Reading {
    if rest == "Z" || rest == "z" || rest == "" then Got(0)
    else if rest[0] as int >= 0x80 then Aborts
    else if rest[0] != '+' && rest[0] != '-' then Rejected
    else
      var parts := SplitOnce(rest[1..], ':');
      if parts.None? then Rejected
      else
        var hh, mm := ParseI64(parts.value.0), ParseI64(parts.value.1);
        if hh.None? || mm.None? then Rejected
        else
          var n := hh.value * 3_600 + mm.value * 60;
          if !Fits(hh.value * 3_600) || !Fits(mm.value * 60) || !Fits(n) || !Fits(-n) then Aborts
          else Got(if rest[0] == '+' then n else -n)
  }

  function Seconds(f: Fields): int {
    DaysFromCivil(f.year, f.month, f.day) * 86_400 + f.hour * 3_600 + f.minute * 60 + f.second
  }

  function InMicros(seconds: int, micros: int): Reading {
    if Fits(seconds) && Fits(seconds * 1_000_000) && Fits(seconds * 1_000_000 + micros)
    then Got(seconds * 1_000_000 + micros) else Aborts
  }

  /** What the parser makes of a text. */
  function Reads(text: string): Reading {
    var f := FieldsOf(text);
    if f.None? then Rejected
    else
      var fraction := FractionOf(text[19..]);
      if fraction.None? then Rejected
      else
        var offset := OffsetOf(fraction.value.1);
        if !offset.Got? then offset else InMicros(Seconds(f.value) - offset.value, fraction.value.0)
  }

  method ReadFraction(rest: string) returns (r: Option<(int, string)>)
    ensures r == FractionOf(rest)
  {
    if rest == [] || rest[0] != '.' {
      return Some((0, rest));
    }
    var digits := Digits(rest[1..]);
    var value := ParseI64(digits);
    if value.None? {
      return None;
    }
    DigitsParse(digits);
    var micros := Scale(|digits|, value.value);
    r := Some((micros, rest[1 + |digits|..]));
  }

  method ParseRfc3339(text: string) returns (r: Reading)
    ensures r == Reads(text)
  {
    var f := FieldsOf(text);
    if f.None? {
      return Rejected;
    }
    var fraction := ReadFraction(text[19..]);
    if fraction.None? {
      return Rejected;
    }
    var offset := OffsetOf(fraction.value.1);
    if !offset.Got? {
      return offset;
    }
    r := InMicros(Seconds(f.value) - offset.value, fraction.value.0);
  }

  /** The argument as given, blanks already trimmed: a plain number of microseconds, or RFC 3339. */
  function Timestamp(text: string): Reading {
    var n := ParseI64(text);
    if n.Some? then Got(n.value) else Reads(text)
  }

  lemma DigitsParse(s: string)
    requires forall i :: 0 <= i < |s| ==> IsDigit(s[i])
    ensures ParseI64(s).Some? ==> ParseI64(s).value >= 0
  {
  }
}
