/** Comparing decimals of different scales in 128-bit integers. */
module Decimals {
  import opened Wrappers

  const I128_MIN: int := -0x8000_0000_0000_0000_0000_0000_0000_0000
  const I128_MAX: int := 0x7fff_ffff_ffff_ffff_ffff_ffff_ffff_ffff

  type I128 = n: int | I128_MIN <= n <= I128_MAX
  type Scale = n: nat | n < 256

  /** `unscaled * 10^-scale`. */
  datatype Decimal = Decimal(unscaled: I128, scale: Scale)

  datatype Ordering = Less | Equal | Greater

  function Compare(a: int, b: int): Ordering {
    if a < b then Less else if a == b then Equal else Greater
  }

  function Reverse(o: Ordering): Ordering {
    match o
    case Less => Greater
    case Equal => Equal
    case Greater => Less
  }

  function Pow10(n: nat): (p: int)
    ensures p > 0
  {
    if n == 0 then 1 else 10 * Pow10(n - 1)
  }

  function Checked(n: int): Option<I128> {
    if I128_MIN <= n <= I128_MAX then Some(n) else None
  }

  /** The coefficient at a larger scale, if it fits. */
  function Lift(d: Decimal, scale: Scale): Option<I128>
    requires d.scale <= scale
  {
    var p := Checked(Pow10(scale - d.scale));
    if p.None? then None else Checked(d.unscaled * p.value)
  }

  function ValueCmp(a: Decimal, b: Decimal): Ordering {
    if a.scale == b.scale then Compare(a.unscaled, b.unscaled)
    else
      var scale := if a.scale < b.scale then b.scale else a.scale;
      match (Lift(a, scale), Lift(b, scale))
      case (Some(x), Some(y)) => Compare(x, y)
      case (None, Some(_)) => Compare(a.unscaled, 0)
      case (Some(_), None) => Reverse(Compare(b.unscaled, 0))
      case (None, None) => Compare(a.unscaled, b.unscaled)
  }

  /** The number a decimal stands for. */
  ghost function Value(d: Decimal): real {
    d.unscaled as real / Pow10(d.scale) as real
  }

  ghost function CompareReals(x: real, y: real): Ordering {
    if x < y then Less else if x == y then Equal else Greater
  }

  // ----- powers of ten -----

  lemma {:induction false} PowAdd(a: nat, b: nat)
    ensures Pow10(a + b) == Pow10(a) * Pow10(b)
  {
    if a > 0 {
      PowAdd(a - 1, b);
      assert Pow10(a + b) == 10 * Pow10(a - 1 + b);
      assert 10 * (Pow10(a - 1) * Pow10(b)) == 10 * Pow10(a - 1) * Pow10(b);
    }
  }

  lemma {:induction false} PowGrows(a: nat, b: nat)
    requires a <= b
    ensures Pow10(a) <= Pow10(b)
  {
    if a < b { PowGrows(a, b - 1); }
  }

  lemma Pow38()
    ensures Pow10(38) == 100_000_000_000_000_000_000_000_000_000_000_000_000
  {
    PowAdd(19, 19);
    PowAdd(10, 9);
    PowAdd(5, 5);
    PowAdd(5, 4);
    assert Pow10(4) == 10_000 && Pow10(5) == 100_000;
  }

  /** `10^n` fits exactly up to 38. */
  lemma PowFits(n: nat)
    ensures Checked(Pow10(n)).Some? <==> n <= 38
  {
    Pow38();
    if n <= 38 {
      PowGrows(n, 38);
    } else {
      PowGrows(39, n);
      assert Pow10(39) == 10 * Pow10(38);
    }
  }

  // ----- cross-multiplication -----

  lemma CrossMultiply(x: int, p: int, y: int, q: int)
    requires p > 0 && q > 0
    ensures CompareReals(x as real / p as real, y as real / q as real) == Compare(x * q, y * p)
  {
    var u, v := x as real / p as real, y as real / q as real;
    var pq := p as real * q as real;
    assert pq > 0.0;
    assert u * pq == x as real * q as real;
    assert v * pq == y as real * p as real;
    assert u < v <==> u * pq < v * pq;
    assert u == v <==> u * pq == v * pq;
  }

  lemma Cancel(x: int, y: int, k: int)
    requires k > 0
    ensures Compare(x * k, y * k) == Compare(x, y)
  {
    if x < y {
      assert x * k < y * k;
    } else if x > y {
      assert x * k > y * k;
    }
  }

  /** Values compare as coefficients do once both are at the larger scale. */
  lemma Aligned(a: Decimal, b: Decimal)
    requires a.scale <= b.scale
    ensures CompareReals(Value(a), Value(b)) == Compare(a.unscaled * Pow10(b.scale - a.scale), b.unscaled)
  {
    var n := b.scale - a.scale;
    CrossMultiply(a.unscaled, Pow10(a.scale), b.unscaled, Pow10(b.scale));
    PowAdd(n, a.scale);
    CancelPower(a.unscaled, Pow10(n), b.unscaled, Pow10(a.scale), Pow10(b.scale));
  }

  lemma CancelPower(x: int, up: int, y: int, p: int, q: int)
    requires p > 0 && q == up * p
    ensures Compare(x * q, y * p) == Compare(x * up, y)
  {
    assert x * (up * p) == (x * up) * p;
    Cancel(x * up, y, p);
  }

  // ----- the comparison -----

  /** The coefficient at the larger scale always fits, so both lifts never fail at once. */
  lemma OneLiftFits(a: Decimal, b: Decimal)
    ensures a.scale <= b.scale ==> Lift(b, b.scale) == Some(b.unscaled)
    ensures b.scale <= a.scale ==> Lift(a, a.scale) == Some(a.unscaled)
  {
  }

  /** Swapping the operands reverses the answer, right or wrong. */
  lemma Antisymmetric(a: Decimal, b: Decimal)
    ensures ValueCmp(b, a) == Reverse(ValueCmp(a, b))
  {
  }

  /** Scales 39 or more apart, a zero at the smaller one and no zero at the larger. */
  predicate ZeroTooFar(a: Decimal, b: Decimal) {
    a.scale + 39 <= b.scale && a.unscaled == 0 && b.unscaled != 0
  }

  lemma Multiple(x: int, p: int)
    requires p > 0
    ensures x > 0 ==> x * p >= p
    ensures x < 0 ==> x * p <= -p
  {
  }

  lemma LiftedNear(a: Decimal, b: Decimal)
    requires a.scale < b.scale <= a.scale + 38
    ensures ValueCmp(a, b) == CompareReals(Value(a), Value(b))
  {
    Aligned(a, b);
    OneLiftFits(a, b);
    PowFits(b.scale - a.scale);
  }

  lemma LiftedFar(a: Decimal, b: Decimal)
    requires a.scale + 38 < b.scale
    ensures ValueCmp(a, b) == CompareReals(Value(a), Value(b)) <==> !ZeroTooFar(a, b)
  {
    var n := b.scale - a.scale;
    Aligned(a, b);
    OneLiftFits(a, b);
    PowFits(n);
    Multiple(a.unscaled, Pow10(n));
  }

  lemma LiftedUp(a: Decimal, b: Decimal)
    requires a.scale < b.scale
    ensures ValueCmp(a, b) == CompareReals(Value(a), Value(b)) <==> !ZeroTooFar(a, b)
  {
    if b.scale - a.scale <= 38 {
      LiftedNear(a, b);
    } else {
      LiftedFar(a, b);
    }
  }

  lemma RealsReverse(x: real, y: real)
    ensures CompareReals(y, x) == Reverse(CompareReals(x, y))
  {
  }

  lemma TooFarIsEqual(a: Decimal, b: Decimal)
    requires ZeroTooFar(a, b)
    ensures ValueCmp(a, b) == Equal
  {
    PowFits(b.scale - a.scale);
  }

  /** The comparison decides the exact order of the two numbers, except for a zero against a non-zero
      number whose scale is at least 39 larger; every such pair it calls equal. */
  lemma ComparesValues(a: Decimal, b: Decimal)
    ensures ValueCmp(a, b) == CompareReals(Value(a), Value(b)) <==> !ZeroTooFar(a, b) && !ZeroTooFar(b, a)
    ensures ZeroTooFar(a, b) || ZeroTooFar(b, a) ==> ValueCmp(a, b) == Equal
  {
    Antisymmetric(a, b);
    RealsReverse(Value(a), Value(b));
    if a.scale < b.scale {
      LiftedUp(a, b);
      if ZeroTooFar(a, b) { TooFarIsEqual(a, b); }
    } else if b.scale < a.scale {
      LiftedUp(b, a);
      if ZeroTooFar(b, a) { TooFarIsEqual(b, a); }
    } else {
      Aligned(a, b);
    }
  }

  predicate Near(a: Decimal, b: Decimal) {
    a.scale <= b.scale + 38 && b.scale <= a.scale + 38
  }

  /** Decimals whose scales are within 38 of each other are totally preordered. */
  lemma Transitive(a: Decimal, b: Decimal, c: Decimal)
    requires Near(a, b) && Near(b, c) && Near(a, c)
    requires !ValueCmp(a, b).Greater? && !ValueCmp(b, c).Greater?
    ensures !ValueCmp(a, c).Greater?
    ensures ValueCmp(a, c).Equal? <==> ValueCmp(a, b).Equal? && ValueCmp(b, c).Equal?
  {
    ComparesValues(a, b);
    ComparesValues(b, c);
    ComparesValues(a, c);
  }

  /** Beyond that they are not: both neighbours of zero equal it, but not each other. */
  lemma NotTransitive()
    ensures var small, zero, negative := Decimal(1, 39), Decimal(0, 0), Decimal(-1, 39);
            && ValueCmp(negative, zero) == Equal && ValueCmp(zero, small) == Equal
            && ValueCmp(negative, small) == Less
  {
    PowFits(39);
  }
}
