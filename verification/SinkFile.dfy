/** The persisted resume point of a sink: one decimal number in a small file. */
module SinkFile {
  import opened Wrappers

  const U64_LIMIT: nat := 0x1_0000_0000_0000_0000

  /** A checkpoint file as the next start finds it. */
  datatype File = Missing | Unreadable | Holding(text: string)

  function Digit(d: nat): char
    requires d < 10
  {
    '0' + d as char
  }

  predicate IsDigit(c: char) {
    '0' <= c <= '9'
  }

  function DigitValue(c: char): nat
    requires IsDigit(c)
  {
    c as int - '0' as int
  }

  /** The decimal text of `n`. */
  function Decimal(n: nat): (s: string)
    ensures s != [] && forall i :: 0 <= i < |s| ==> IsDigit(s[i])
  {
    if n < 10 then [Digit(n)] else Decimal(n / 10) + [Digit(n % 10)]
  }

  /** The value of a run of digits; `None` when it is empty or holds anything else. */
  function DigitsValue(s: string): Option<nat> {
    if s == [] then None
    else
      var n := |s| - 1;
      if !IsDigit(s[n]) then None
      else if n == 0 then Some(DigitValue(s[n]))
      else
        var front := DigitsValue(s[..n]);
        if front.None? then None else Some(10 * front.value + DigitValue(s[n]))
  }

  /** An unsigned 64-bit number: an optional plus sign, then digits, within range. */
  function ParseU64(s: string): Option<nat> {
    var v := DigitsValue(if s != [] && s[0] == '+' then s[1..] else s);
    if v.Some? && v.value < U64_LIMIT then v else None
  }

  predicate IsSpace(c: char) {
    || 9 <= c as int <= 13 || c == ' ' || c as int in {0x85, 0xA0, 0x1680, 0x2028, 0x2029, 0x202F, 0x205F, 0x3000}
    || 0x2000 <= c as int <= 0x200A
  }

  function TrimEnd(s: string): string {
    if s != [] && IsSpace(s[|s| - 1]) then TrimEnd(s[..|s| - 1]) else s
  }

  function TrimStart(s: string): string {
    if s != [] && IsSpace(s[0]) then TrimStart(s[1..]) else s
  }

  /** The offset a start resumes from; anything unreadable means 0. */
  function Load(f: File): nat {
    match f
    case Missing => 0
    case Unreadable => 0
    case Holding(text) =>
      var v := ParseU64(TrimEnd(TrimStart(text)));
      if v.None? then 0 else v.value
  }

  /** How one attempt to persist an offset can end. */
  datatype StoreFate = Stored | Untouched | Cut(bytes: nat)

  function AfterStore(f: File, n: nat, fate: StoreFate): File {
    match fate
    case Stored => Holding(Decimal(n))
    case Untouched => f
    case Cut(k) => Holding(Decimal(n)[..if k <= |Decimal(n)| then k else |Decimal(n)|])
  }

  // ----- what a start can find -----

  lemma {:induction false} DecimalValue(n: nat)
    ensures DigitsValue(Decimal(n)) == Some(n)
  {
    if n >= 10 {
      DecimalValue(n / 10);
      var s := Decimal(n);
      assert s[..|s| - 1] == Decimal(n / 10);
    }
  }

  /** A cut decimal reads as a smaller number. */
  lemma {:induction false} CutValue(n: nat, k: nat)
    requires 0 < k <= |Decimal(n)|
    ensures DigitsValue(Decimal(n)[..k]).Some? && DigitsValue(Decimal(n)[..k]).value <= n
  {
    var s := Decimal(n);
    if k == |s| {
      DecimalValue(n);
      assert s[..k] == s;
    } else {
      assert n >= 10;
      var front := Decimal(n / 10);
      assert s[..k] == front[..k];
      CutValue(n / 10, k);
    }
  }

  lemma DigitsTrimmed(s: string)
    requires forall i :: 0 <= i < |s| ==> IsDigit(s[i])
    ensures TrimEnd(TrimStart(s)) == s
    ensures s != [] ==> s[0] != '+'
  {
  }

  lemma DigitsLoad(s: string)
    requires forall i :: 0 <= i < |s| ==> IsDigit(s[i])
    ensures Load(Holding(s)) ==
            if DigitsValue(s).Some? && DigitsValue(s).value < U64_LIMIT then DigitsValue(s).value else 0
  {
    DigitsTrimmed(s);
  }

  /** Round trip: what was stored is what is loaded. */
  lemma StoredLoads(n: nat)
    requires n < U64_LIMIT
    ensures Load(Holding(Decimal(n))) == n
  {
    DecimalValue(n);
    DigitsLoad(Decimal(n));
  }

  /** However storing `n` over a file ends, the next start resumes from `n`, from below it, or from
      what the file held before: never from a later offset. */
  lemma TornLoadsNoLater(f: File, n: nat, fate: StoreFate)
    requires n < U64_LIMIT
    ensures Load(AfterStore(f, n, fate)) <= n || (fate == Untouched && Load(AfterStore(f, n, fate)) == Load(f))
    ensures fate == Stored ==> Load(AfterStore(f, n, fate)) == n
  {
    StoredLoads(n);
    if fate.Cut? {
      var k := if fate.bytes <= |Decimal(n)| then fate.bytes else |Decimal(n)|;
      DigitsLoad(Decimal(n)[..k]);
      if k > 0 { CutValue(n, k); }
    }
  }
}
