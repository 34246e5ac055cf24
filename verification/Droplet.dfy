/** The tiering verdict: do a constrained run and a reference run return the same rows? */
module Droplet {
  const DIFF_SAMPLE: nat := 8
  const U64_MAX: nat := 0xffff_ffff_ffff_ffff

  /** The named rows are capped; the counts are not. */
  datatype UserDiff = UserDiff(constrainedRows: nat, referenceRows: nat, missing: seq<string>, unexpected: seq<string>)

  predicate SameRows(d: UserDiff) {
    d.missing == [] && d.unexpected == [] && d.constrainedRows == d.referenceRows
  }

  function Min(a: nat, b: nat): nat {
    if a < b then a else b
  }

  /** `named` samples the rows of `all`, as many as the cap allows. */
  ghost predicate Samples(named: seq<string>, all: multiset<string>) {
    multiset(named) <= all && |named| == Min(DIFF_SAMPLE, |all|)
  }

  ghost predicate IsDiff(constrained: seq<string>, reference: seq<string>, d: UserDiff) {
    && d.constrainedRows == |constrained| && d.referenceRows == |reference|
    && Samples(d.missing, multiset(reference) - multiset(constrained))
    && Samples(d.unexpected, multiset(constrained) - multiset(reference))
  }

  function Count(counts: map<string, int>, row: string): int {
    if row in counts then counts[row] else 0
  }

  /** The count of every row is how much more often it occurs in `up` than in `down`. */
  ghost predicate Tallies(counts: map<string, int>, up: multiset<string>, down: multiset<string>) {
    forall r :: Count(counts, r) + down[r] == up[r]
  }

  lemma TallyUp(counts: map<string, int>, rows: seq<string>, i: nat, down: multiset<string>)
    requires i < |rows| && Tallies(counts, multiset(rows[..i]), down)
    ensures Tallies(counts[rows[i] := Count(counts, rows[i]) + 1], multiset(rows[..i + 1]), down)
  {
    assert rows[..i + 1] == rows[..i] + [rows[i]];
  }

  lemma TallyDown(counts: map<string, int>, rows: seq<string>, i: nat, up: multiset<string>)
    requires i < |rows| && Tallies(counts, up, multiset(rows[..i]))
    ensures Tallies(counts[rows[i] := Count(counts, rows[i]) - 1], up, multiset(rows[..i + 1]))
  {
    assert rows[..i + 1] == rows[..i] + [rows[i]];
  }

  /** Counts every row of the reference up and every constrained row down. */
  method CountRows(constrained: seq<string>, reference: seq<string>) returns (counts: map<string, int>)
    ensures Tallies(counts, multiset(reference), multiset(constrained))
  {
    counts := map[];
    for i := 0 to |reference|
      invariant Tallies(counts, multiset(reference[..i]), multiset{})
    {
      TallyUp(counts, reference, i, multiset{});
      counts := counts[reference[i] := Count(counts, reference[i]) + 1];
    }
    assert reference[..|reference|] == reference;
    for i := 0 to |constrained|
      invariant Tallies(counts, multiset(reference), multiset(constrained[..i]))
    {
      TallyDown(counts, constrained, i, multiset(reference));
      counts := counts[constrained[i] := Count(counts, constrained[i]) - 1];
    }
    assert constrained[..|constrained|] == constrained;
  }

  /** Names up to `copies` copies of a row, within the cap on the list. */
  method Name(named: seq<string>, row: string, copies: nat, ghost all: multiset<string>) returns (r: seq<string>)
    requires Samples(named, all) && row !in all
    ensures Samples(r, all[row := copies])
  {
    r := named;
    var n := Min(copies, DIFF_SAMPLE);
    for i := 0 to n
      invariant multiset(r) <= all[row := i] && |r| == Min(DIFF_SAMPLE, |all| + i)
    {
      if |r| < DIFF_SAMPLE {
        r := r + [row];
      }
    }
  }

  /** How far a count is above zero, or below it. */
  function Excess(count: int, above: bool): nat {
    if above && count > 0 then count else if !above && count < 0 then -count else 0
  }

  /** `m` holds the excess of every row that is not left to look at. */
  ghost predicate Gathered(m: multiset<string>, counts: map<string, int>, left: set<string>, above: bool) {
    forall r :: m[r] == if r in left then 0 else Excess(Count(counts, r), above)
  }

  lemma GatherRow(m: multiset<string>, counts: map<string, int>, left: set<string>, above: bool, row: string)
    requires row in left && Gathered(m, counts, left, above)
    ensures row !in m
    ensures Gathered(m[row := Excess(Count(counts, row), above)], counts, left - {row}, above)
  {
  }

  lemma GatheredAll(m: multiset<string>, counts: map<string, int>, up: multiset<string>, down: multiset<string>,
                    above: bool)
    requires Tallies(counts, up, down) && Gathered(m, counts, {}, above)
    ensures m == if above then up - down else down - up
  {
  }

  /** Compares two row lists as multisets. The rows may come out of the count in any order. */
  method DiffRows(constrained: seq<string>, reference: seq<string>) returns (d: UserDiff)
    ensures IsDiff(constrained, reference, d)
  {
    var counts := CountRows(constrained, reference);
    var missing, unexpected := [], [];
    ghost var lost, extra := multiset{}, multiset{};
    var left := counts.Keys;
    while left != {}
      invariant left <= counts.Keys
      invariant Samples(missing, lost) && Samples(unexpected, extra)
      invariant Gathered(lost, counts, left, true) && Gathered(extra, counts, left, false)
      decreases |left|
    {
      var row :| row in left;
      GatherRow(lost, counts, left, true, row);
      GatherRow(extra, counts, left, false, row);
      var delta := counts[row];
      missing := Name(missing, row, Excess(delta, true), lost);
      unexpected := Name(unexpected, row, Excess(delta, false), extra);
      lost, extra := lost[row := Excess(delta, true)], extra[row := Excess(delta, false)];
      left := left - {row};
    }
    GatheredAll(lost, counts, multiset(reference), multiset(constrained), true);
    GatheredAll(extra, counts, multiset(reference), multiset(constrained), false);
    d := UserDiff(|constrained|, |reference|, missing, unexpected);
  }

  /** The capped sample still decides equality exactly. */
  lemma SampleDecides(constrained: seq<string>, reference: seq<string>, d: UserDiff)
    requires IsDiff(constrained, reference, d)
    ensures SameRows(d) <==> multiset(constrained) == multiset(reference)
  {
    var c, r := multiset(constrained), multiset(reference);
    if SameRows(d) {
      assert r - c == multiset{} && c - r == multiset{};
      forall x ensures c[x] == r[x] {
        assert (r - c)[x] == 0 && (c - r)[x] == 0;
      }
    }
  }

  // ----- the verdict -----

  function TenX(dataset: nat, budget: nat): bool {
    budget > 0 && dataset >= Min(budget * 10, U64_MAX)
  }

  predicate Pass(diffs: seq<UserDiff>, tenX: bool) {
    tenX && diffs != [] && forall i :: 0 <= i < |diffs| ==> SameRows(diffs[i])
  }

  /** The verdict is a pass exactly when there were users, every one of them got the reference rows
      with the reference multiplicities, and the data really was ten times the budget. Only a full
      64-bit dataset size is taken for ten times a budget it is not. */
  lemma PassExact(constrained: seq<seq<string>>, reference: seq<seq<string>>, diffs: seq<UserDiff>,
                  dataset: nat, budget: nat)
    requires |diffs| == |constrained| == |reference| && dataset <= U64_MAX && budget <= U64_MAX
    requires forall i :: 0 <= i < |diffs| ==> IsDiff(constrained[i], reference[i], diffs[i])
    ensures Pass(diffs, TenX(dataset, budget)) <==>
            && 0 < budget && (budget * 10 <= dataset || dataset == U64_MAX)
            && 0 < |reference|
            && forall i :: 0 <= i < |reference| ==> multiset(constrained[i]) == multiset(reference[i])
  {
    forall i | 0 <= i < |diffs|
      ensures SameRows(diffs[i]) <==> multiset(constrained[i]) == multiset(reference[i])
    {
      SampleDecides(constrained[i], reference[i], diffs[i]);
    }
  }
}
