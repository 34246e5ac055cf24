/** Strictly sorted sequences: the facts that make "the sorted order" a well-defined thing. */
module Sorted {
  ghost predicate StrictlySorted<T>(s: seq<T>, less: (T, T) -> bool) {
    forall i, j :: 0 <= i < j < |s| ==> less(s[i], s[j])
  }

  ghost predicate Asymmetric<T(!new)>(less: (T, T) -> bool) {
    forall x, y :: less(x, y) ==> !less(y, x)
  }

  lemma ConcatSorted<T>(a: seq<T>, b: seq<T>, less: (T, T) -> bool)
    requires StrictlySorted(a, less) && StrictlySorted(b, less)
    requires forall x, y :: x in a && y in b ==> less(x, y)
    ensures StrictlySorted(a + b, less)
  {
  }

  lemma HeadsAgree<T(!new)>(a: seq<T>, b: seq<T>, less: (T, T) -> bool)
    requires Asymmetric(less)
    requires StrictlySorted(a, less) && StrictlySorted(b, less)
    requires forall x :: x in a <==> x in b
    requires a != [] || b != []
    ensures a != [] && b != [] && a[0] == b[0]
  {
    var x := if a != [] then a[0] else b[0];
    assert x in a && x in b;
    assert b[0] in a && a[0] in b;
    var i :| 0 <= i < |a| && a[i] == b[0];
    var j :| 0 <= j < |b| && b[j] == a[0];
  }

  /** Two strictly sorted sequences with the same elements are the same sequence. */
  lemma {:induction false} SortedUnique<T(!new)>(a: seq<T>, b: seq<T>, less: (T, T) -> bool)
    requires Asymmetric(less)
    requires StrictlySorted(a, less) && StrictlySorted(b, less)
    requires forall x :: x in a <==> x in b
    ensures a == b
  {
    if a != [] || b != [] {
      HeadsAgree(a, b, less);
      forall x ensures x in a[1..] <==> x in b[1..] {
        TailMembership(a, x, less);
        TailMembership(b, x, less);
      }
      SortedUnique(a[1..], b[1..], less);
      assert a == [a[0]] + a[1..] && b == [b[0]] + b[1..];
    }
  }

  lemma TailMembership<T(!new)>(a: seq<T>, x: T, less: (T, T) -> bool)
    requires a != [] && StrictlySorted(a, less) && Asymmetric(less)
    ensures x in a[1..] <==> x in a && x != a[0]
  {
    if x in a[1..] {
      var i :| 0 <= i < |a[1..]| && a[1..][i] == x;
      assert less(a[0], a[i + 1]);
    }
    if x in a && x != a[0] {
      var i :| 0 <= i < |a| && a[i] == x;
      assert a[1..][i - 1] == x;
    }
  }

  /** A strictly sorted sequence names each of its elements once. */
  lemma IndexUnique<T(!new)>(a: seq<T>, i: int, j: int, less: (T, T) -> bool)
    requires StrictlySorted(a, less) && Asymmetric(less)
    requires 0 <= i < |a| && 0 <= j < |a| && a[i] == a[j]
    ensures i == j
  {
  }

  // ----- sorting with ties -----

  ghost predicate NonDecreasing<T>(s: seq<T>, above: (T, T) -> bool) {
    forall i, j :: 0 <= i < j < |s| ==> !above(s[i], s[j])
  }

  lemma NonDecreasingSplice<T>(s: seq<T>, k: nat, x: T, above: (T, T) -> bool)
    requires NonDecreasing(s, above) && k <= |s|
    requires forall j :: 0 <= j < k ==> !above(s[j], x)
    requires forall j :: k <= j < |s| ==> !above(x, s[j])
    ensures NonDecreasing(Splice(s, k, x), above)
  {
  }

  lemma SpliceMultiset<T>(s: seq<T>, k: nat, x: T)
    requires k <= |s|
    ensures multiset(Splice(s, k, x)) == multiset(s) + multiset{x}
  {
    assert s == s[..k] + s[k..];
  }

  // ----- filtering -----

  ghost function Filter<T>(s: seq<T>, keep: T -> bool): seq<T> {
    if s == [] then []
    else
      var n := |s| - 1;
      Filter(s[..n], keep) + if keep(s[n]) then [s[n]] else []
  }

  lemma {:induction false} FilterMember<T>(s: seq<T>, keep: T -> bool, x: T)
    ensures x in Filter(s, keep) <==> x in s && keep(x)
  {
    if s != [] {
      var n := |s| - 1;
      FilterMember(s[..n], keep, x);
      assert s == s[..n] + [s[n]];
    }
  }

  lemma {:induction false} FilterConcat<T>(a: seq<T>, b: seq<T>, keep: T -> bool)
    ensures Filter(a + b, keep) == Filter(a, keep) + Filter(b, keep)
  {
    if b == [] {
      assert a + b == a;
    } else {
      var n := |b| - 1;
      FilterConcat(a, b[..n], keep);
      assert (a + b)[..|a + b| - 1] == a + b[..n];
    }
  }

  lemma {:induction false} FilterAgree<T>(s: seq<T>, f: T -> bool, g: T -> bool)
    requires forall x :: x in s ==> f(x) == g(x)
    ensures Filter(s, f) == Filter(s, g)
  {
    if s != [] {
      FilterAgree(s[..|s| - 1], f, g);
      assert s[|s| - 1] in s;
    }
  }

  lemma {:induction false} FilterSorted<T>(s: seq<T>, keep: T -> bool, less: (T, T) -> bool)
    requires StrictlySorted(s, less)
    ensures StrictlySorted(Filter(s, keep), less)
  {
    if s != [] {
      var n := |s| - 1;
      FilterSorted(s[..n], keep, less);
      forall x | x in Filter(s[..n], keep) ensures less(x, s[n]) {
        FilterMember(s[..n], keep, x);
      }
    }
  }

  // ----- splicing -----

  /** `s` with `x` put in before position `k`. */
  function Splice<T>(s: seq<T>, k: nat, x: T): seq<T>
    requires k <= |s|
  {
    s[..k] + [x] + s[k..]
  }

  /** `s` with the `n` elements from position `k` taken out. */
  function Without<T>(s: seq<T>, k: nat, n: nat): seq<T>
    requires k + n <= |s|
  {
    s[..k] + s[k + n..]
  }

  /** `s` with `t` put in before position `k`. */
  function SpliceAll<T>(s: seq<T>, k: nat, t: seq<T>): seq<T>
    requires k <= |s|
  {
    s[..k] + t + s[k..]
  }

  lemma SpliceNext<T>(s: seq<T>, k: nat, t: seq<T>, i: nat, n: nat)
    requires k <= |s| && i < |t| && n == k + i
    ensures Splice(SpliceAll(s, k, t[..i]), n, t[i]) == SpliceAll(s, k, t[..i + 1])
  {
  }

  lemma WithoutNext<T>(s: seq<T>, k: nat, i: nat)
    requires k + i < |s|
    ensures Without(s, k, i)[k] == s[k + i]
    ensures Without(Without(s, k, i), k, 1) == Without(s, k, i + 1)
  {
  }

  lemma SplicedSorted<T>(s: seq<T>, k: nat, x: T, less: (T, T) -> bool)
    requires StrictlySorted(s, less) && k <= |s|
    requires forall y :: y in s[..k] ==> less(y, x)
    requires forall y :: y in s[k..] ==> less(x, y)
    ensures StrictlySorted(Splice(s, k, x), less)
  {
    var a, b := s[..k], s[k..];
    ConcatSorted(a, [x], less);
    forall y, z | y in a + [x] && z in b ensures less(y, z) {
      if y in a {
        var i :| 0 <= i < |a| && a[i] == y;
        var j :| 0 <= j < |b| && b[j] == z;
        assert less(s[i], s[k + j]);
      }
    }
    ConcatSorted(a + [x], b, less);
  }

  lemma FilterCutAt<T(!new)>(a: seq<T>, x: T, b: seq<T>, p: nat, q: nat, keep: T -> bool, less: (T, T) -> bool)
    requires StrictlySorted(Filter(a + [x] + b, keep), less) && Asymmetric(less) && keep(x) && q == p + 1
    requires p < |Filter(a + [x] + b, keep)| && Filter(a + [x] + b, keep)[p] == x
    ensures Filter(a, keep) == Filter(a + [x] + b, keep)[..p]
    ensures Filter(a + [x], keep) == Filter(a + [x] + b, keep)[..q]
    ensures Filter(b, keep) == Filter(a + [x] + b, keep)[q..]
  {
    FilterConcat(a + [x], b, keep);
    FilterPush(a, x, keep);
    IndexUnique(Filter(a + [x] + b, keep), |Filter(a, keep)|, p, less);
  }

  /** Cutting `s` right behind its `pos`-th kept element cuts what is kept at `pos`. */
  lemma FilterCut<T(!new)>(s: seq<T>, k: nat, pos: nat, keep: T -> bool, less: (T, T) -> bool)
    requires StrictlySorted(s, less) && Asymmetric(less)
    requires k <= |s| && pos <= |Filter(s, keep)|
    requires if pos == 0 then k == 0 else k > 0 && s[k - 1] == Filter(s, keep)[pos - 1]
    ensures Filter(s[..k], keep) == Filter(s, keep)[..pos]
    ensures Filter(s[k..], keep) == Filter(s, keep)[pos..]
  {
    if k > 0 {
      var j, p := k - 1, pos - 1;
      var a, x, b := s[..j], s[j], s[k..];
      CutPieces(s, j, k);
      FilterMember(s, keep, x);
      FilterSorted(s, keep, less);
      FilterCutAt(a, x, b, p, pos, keep, less);
    } else {
      assert s[0..] == s && s[..0] == [];
    }
  }

  lemma CutPieces<T>(s: seq<T>, j: nat, k: nat)
    requires j < |s| && k == j + 1
    ensures s == s[..j] + [s[j]] + s[k..] && s[..k] == s[..j] + [s[j]]
  {
  }

  /** Splicing in a kept newcomer splices it into what is kept. */
  lemma FilterSplice<T>(s: seq<T>, k: nat, x: T, keep: T -> bool, keep': T -> bool)
    requires k <= |s| && keep'(x) && forall y :: y in s ==> keep(y) == keep'(y)
    ensures Filter(Splice(s, k, x), keep') == Filter(s[..k], keep) + [x] + Filter(s[k..], keep)
  {
    FilterConcat(s[..k] + [x], s[k..], keep');
    FilterConcat(s[..k], [x], keep');
    assert [x][..0] == [];
    assert Filter([x], keep') == [x];
    FilterAgree(s[..k], keep, keep');
    FilterAgree(s[k..], keep, keep');
  }

  lemma FilterGap<T>(a: seq<T>, x: T, b: seq<T>, keep: T -> bool)
    requires !keep(x)
    ensures Filter(a + [x] + b, keep) == Filter(a, keep) + Filter(b, keep)
  {
    FilterConcat(a + [x], b, keep);
    assert (a + [x])[..|a|] == a;
  }

  lemma FilterPush<T>(s: seq<T>, x: T, keep: T -> bool)
    ensures Filter(s + [x], keep) == Filter(s, keep) + if keep(x) then [x] else []
  {
    assert (s + [x])[..|s|] == s;
  }

  /** No longer keeping one element removes it, and nothing else, from what is kept. */
  lemma FilterWithout<T(!new)>(s: seq<T>, pos: nat, keep: T -> bool, keep': T -> bool, less: (T, T) -> bool)
    requires StrictlySorted(s, less) && Asymmetric(less) && pos < |Filter(s, keep)|
    requires !keep'(Filter(s, keep)[pos])
    requires forall y :: y in s && y != Filter(s, keep)[pos] ==> keep(y) == keep'(y)
    ensures Filter(s, keep') == Without(Filter(s, keep), pos, 1)
  {
    var x := Filter(s, keep)[pos];
    FilterMember(s, keep, x);
    var k :| 0 <= k < |s| && s[k] == x;
    var a, b := s[..k], s[k + 1..];
    CutPieces(s, k, k + 1);
    SplitDistinct(s, k, less);
    FilterGap(a, x, b, keep');
    FilterAgree(a, keep, keep');
    FilterAgree(b, keep, keep');
    FilterSorted(s, keep, less);
    FilterCutAt(a, x, b, pos, pos + 1, keep, less);
  }

  lemma SplitDistinct<T(!new)>(s: seq<T>, k: nat, less: (T, T) -> bool)
    requires StrictlySorted(s, less) && Asymmetric(less) && k < |s|
    ensures s[k] !in s[..k] && s[k] !in s[k + 1..]
  {
    if i :| 0 <= i < |s| && i != k && s[i] == s[k] {
      IndexUnique(s, i, k, less);
    }
  }
}
