/** Document order: the newest-sibling-first depth-first walk, and what it never changes. */
module CrdtOrder {
  import opened Wrappers
  import opened Sorted
  import opened CrdtDocs

  // ----- the order on paths -----

  /** An ancestor comes before its descendants; at the first fork the newer branch comes first. */
  predicate PathLess(p: seq<OpId>, q: seq<OpId>) {
    if q == [] then false
    else if p == [] then true
    else if p[0] == q[0] then PathLess(p[1..], q[1..])
    else Newer(p[0], q[0])
  }

  lemma PathLessAsymmetric(p: seq<OpId>, q: seq<OpId>)
    ensures !(PathLess(p, q) && PathLess(q, p))
  {
  }

  /** Forking below a shared prefix decides the order. */
  lemma {:induction false} PathLessFork(w: seq<OpId>, p: seq<OpId>, q: seq<OpId>)
    ensures PathLess(w + p, w + q) <==> PathLess(p, q)
  {
    if w == [] {
      assert w + p == p && w + q == q;
    } else {
      assert (w + p)[1..] == w[1..] + p && (w + q)[1..] == w[1..] + q;
      PathLessFork(w[1..], p, q);
    }
  }

  /** Paths through `w` form an interval. */
  lemma {:induction false} PathInterval(w: seq<OpId>, p: seq<OpId>, q: seq<OpId>, r: seq<OpId>)
    requires w <= p && w <= r && PathLess(p, q) && PathLess(q, r)
    ensures w <= q
  {
    if w != [] {
      assert q != [] && p[0] == w[0] == r[0];
      assert q[0] == w[0];
      PathInterval(w[1..], p[1..], q[1..], r[1..]);
      assert q == [q[0]] + q[1..] && w == [w[0]] + w[1..];
    }
  }

  /** What lies outside the paths through `w` compares alike with all of them. */
  lemma {:induction false} PathLessOutside(w: seq<OpId>, p: seq<OpId>, q: seq<OpId>)
    requires w <= p && !(w <= q)
    ensures PathLess(p, q) <==> PathLess(w, q)
    ensures PathLess(q, p) <==> PathLess(q, w)
  {
    assert w != [];
    if q != [] && q[0] == w[0] {
      assert w == [w[0]] + w[1..] && q == [q[0]] + q[1..];
      PathLessOutside(w[1..], p[1..], q[1..]);
    }
  }

  // ----- the order on characters -----

  ghost predicate Before(d: Doc, a: OpId, b: OpId) {
    HasPath(d, a) && HasPath(d, b) && PathLess(Path(d, a), Path(d, b))
  }

  ghost function Order(d: Doc): (OpId, OpId) -> bool {
    (a, b) => Before(d, a, b)
  }

  lemma OrderAsymmetric(d: Doc)
    ensures Asymmetric(Order(d))
  {
    forall a, b | Before(d, a, b) ensures !Before(d, b, a) {
      PathLessAsymmetric(Path(d, a), Path(d, b));
    }
  }

  /** `x` is `k` or was typed, directly or not, after `k`. */
  ghost predicate Under(d: Doc, k: OpId, x: OpId) {
    HasPath(d, x) && k in Path(d, x)
  }

  ghost predicate UnderSome(d: Doc, ids: seq<OpId>, x: OpId) {
    exists k :: k in ids && Under(d, k, x)
  }

  lemma UnderPrefix(d: Doc, k: OpId, x: OpId)
    requires HasPath(d, x)
    ensures Under(d, k, x) <==> HasPath(d, k) && Path(d, k) <= Path(d, x)
  {
    if Under(d, k, x) {
      var i :| 0 <= i < |Path(d, x)| && Path(d, x)[i] == k;
      PathPrefix(d, x, i);
    }
    if HasPath(d, k) && Path(d, k) <= Path(d, x) {
      assert Path(d, x)[|Path(d, k)| - 1] == k;
    }
  }

  // ----- siblings -----

  lemma {:induction false} NewestExists(s: set<OpId>) returns (m: OpId)
    requires s != {}
    ensures m in s && forall x :: x in s && x != m ==> Newer(m, x)
  {
    m :| m in s;
    var rest := s - {m};
    if rest == {} {
      assert s == {m};
    } else {
      var n := NewestExists(rest);
      assert forall x :: x in s ==> x == m || x in rest;
      if Newer(n, m) { m := n; }
    }
  }

  ghost function NewestFirst(s: set<OpId>): (r: seq<OpId>)
    ensures StrictlySorted(r, Newer)
    ensures forall x :: x in r <==> x in s
  {
    if s == {} then []
    else
      assert exists m :: m in s && forall x :: x in s && x != m ==> Newer(m, x) by {
        var m := NewestExists(s);
      }
      var m :| m in s && forall x :: x in s && x != m ==> Newer(m, x);
      [m] + NewestFirst(s - {m})
  }

  /** The characters typed directly after `parent` (`None`: at the document start), newest first. */
  ghost function Kids(d: Doc, parent: Option<OpId>): (r: seq<OpId>)
    ensures StrictlySorted(r, Newer)
    ensures forall x :: x in r <==> x in d && d[x].parent == parent
  {
    NewestFirst(set x | x in d && d[x].parent == parent)
  }

  // ----- the walk -----

  ghost function Depth(d: Doc, parent: Option<OpId>): (n: nat)
    requires Forest(d) && (parent.Some? ==> parent.value in d)
    ensures n <= |d|
  {
    if parent.None? then 0 else PathBound(d, parent.value); |Path(d, parent.value)|
  }

  /** The siblings `ids` below `parent`, each followed by everything below it. */
  ghost function Preorder(d: Doc, parent: Option<OpId>, ids: seq<OpId>): seq<OpId>
    requires Forest(d) && (parent.Some? ==> parent.value in d)
    requires forall x :: x in ids ==> x in d && d[x].parent == parent
    decreases |d| - Depth(d, parent), |ids|
  {
    if ids == [] then []
    else
      var k := ids[0];
      PathOfChild(d, k);
      [k] + Preorder(d, Some(k), Kids(d, Some(k))) + Preorder(d, parent, ids[1..])
  }

  /** Every character, tombstones included, in document order. */
  ghost function Document(d: Doc): seq<OpId>
    requires Forest(d)
  {
    Preorder(d, None, Kids(d, None))
  }

  /** `x` is under `k` exactly when it is `k` or under one of `k`'s children. */
  lemma UnderChild(d: Doc, k: OpId, x: OpId)
    requires Forest(d) && k in d && x in d
    ensures Under(d, k, x) <==> x == k || UnderSome(d, Kids(d, Some(k)), x)
  {
    var p := Path(d, x);
    if Under(d, k, x) && x != k {
      var i :| 0 <= i < |p| && p[i] == k;
      PathPrefix(d, x, i + 1);
      assert p[i + 1] in Kids(d, Some(k)) && Under(d, p[i + 1], x);
    }
    if c :| c in Kids(d, Some(k)) && Under(d, c, x) {
      var i :| 0 <= i < |p| && p[i] == c;
      PathPrefix(d, x, i);
    }
  }

  /** A character precedes everything else under it. */
  lemma HeadFirst(d: Doc, k: OpId, x: OpId)
    requires HasPath(d, k) && Under(d, k, x) && x != k
    ensures Before(d, k, x)
  {
    UnderPrefix(d, k, x);
    var p, q := Path(d, k), Path(d, x);
    assert q == p + q[|p|..] && p == p + [];
    assert |p| == |q| ==> q == p;
    PathLessFork(p, [], q[|p|..]);
  }

  /** Everything under the newer of two siblings precedes everything under the older. */
  lemma SiblingsInOrder(d: Doc, k: OpId, r: OpId, x: OpId, y: OpId)
    requires Forest(d) && k in d && r in d && d[k].parent == d[r].parent && Newer(k, r)
    requires Under(d, k, x) && Under(d, r, y)
    ensures Before(d, x, y)
  {
    UnderPrefix(d, k, x);
    UnderPrefix(d, r, y);
    PathOfChild(d, k);
    PathOfChild(d, r);
    var w := if d[k].parent.None? then [] else Path(d, d[k].parent.value);
    assert w + [k] == Path(d, k) && w + [r] == Path(d, r);
    ForkDecides(w, k, r, Path(d, x), Path(d, y));
  }

  lemma ForkDecides(w: seq<OpId>, k: OpId, r: OpId, p: seq<OpId>, q: seq<OpId>)
    requires w + [k] <= p && w + [r] <= q && Newer(k, r)
    ensures PathLess(p, q)
  {
    assert p == w + p[|w|..] && q == w + q[|w|..];
    assert p[|w|..][0] == k && q[|w|..][0] == r;
    PathLessFork(w, p[|w|..], q[|w|..]);
  }

  /** The walk below some siblings visits exactly what is under them, in path order. */
  lemma {:induction false} PreorderSorted(d: Doc, parent: Option<OpId>, ids: seq<OpId>)
    requires Forest(d) && (parent.Some? ==> parent.value in d)
    requires forall x :: x in ids ==> x in d && d[x].parent == parent
    requires StrictlySorted(ids, Newer)
    ensures forall x :: x in Preorder(d, parent, ids) <==> x in d && UnderSome(d, ids, x)
    ensures StrictlySorted(Preorder(d, parent, ids), Order(d))
    decreases |d| - Depth(d, parent), |ids|
  {
    if ids != [] {
      var k, rest := ids[0], ids[1..];
      PathOfChild(d, k);
      PreorderSorted(d, Some(k), Kids(d, Some(k)));
      PreorderSorted(d, parent, rest);
      var below, after := Preorder(d, Some(k), Kids(d, Some(k))), Preorder(d, parent, rest);
      HeadVisits(d, k, below);
      SiblingsVisit(d, parent, ids, [k] + below, after);
    }
  }

  /** `s` is exactly what is under some of `ids`, in path order. */
  ghost predicate Visits(d: Doc, s: seq<OpId>, ids: seq<OpId>) {
    (forall x :: x in s <==> x in d && UnderSome(d, ids, x)) && StrictlySorted(s, Order(d))
  }

  lemma HeadVisits(d: Doc, k: OpId, below: seq<OpId>)
    requires Forest(d) && k in d && Visits(d, below, Kids(d, Some(k)))
    ensures StrictlySorted([k] + below, Order(d))
    ensures forall x :: x in [k] + below <==> x in d && Under(d, k, x)
  {
    forall x | x in d ensures x in [k] + below <==> Under(d, k, x) {
      UnderChild(d, k, x);
    }
    forall y | y in below ensures Order(d)(k, y) {
      UnderChild(d, k, y);
      ChildNotSelf(d, k, y);
      HeadFirst(d, k, y);
    }
    ConcatSorted([k], below, Order(d));
  }

  lemma SiblingsVisit(d: Doc, parent: Option<OpId>, ids: seq<OpId>, head: seq<OpId>, after: seq<OpId>)
    requires Forest(d) && ids != [] && StrictlySorted(ids, Newer)
    requires forall x :: x in ids ==> x in d && d[x].parent == parent
    requires StrictlySorted(head, Order(d)) && forall x :: x in head <==> x in d && Under(d, ids[0], x)
    requires Visits(d, after, ids[1..])
    ensures Visits(d, head + after, ids)
  {
    forall x ensures x in head + after <==> x in d && UnderSome(d, ids, x) {
      UnderHead(d, ids, x);
    }
    forall x, y | x in head && y in after ensures Order(d)(x, y) {
      var r :| r in ids[1..] && Under(d, r, y);
      SiblingsInOrder(d, ids[0], r, x, y);
    }
    ConcatSorted(head, after, Order(d));
  }

  lemma UnderHead(d: Doc, ids: seq<OpId>, x: OpId)
    requires ids != []
    ensures UnderSome(d, ids, x) <==> Under(d, ids[0], x) || UnderSome(d, ids[1..], x)
  {
    assert forall r :: r in ids <==> r == ids[0] || r in ids[1..];
  }

  lemma ChildNotSelf(d: Doc, k: OpId, y: OpId)
    requires Forest(d) && k in d && y in d
    requires UnderSome(d, Kids(d, Some(k)), y)
    ensures y != k
  {
    var c :| c in Kids(d, Some(k)) && Under(d, c, y);
    PathOfChild(d, c);
    UnderPrefix(d, c, y);
  }

  /** `s` names every character exactly once, in path order. */
  ghost predicate Ordered(d: Doc, s: seq<OpId>) {
    StrictlySorted(s, Order(d)) && forall x :: x in s <==> x in d
  }

  /** The walk visits every character exactly once, in path order. */
  lemma DocumentSorted(d: Doc)
    requires Forest(d)
    ensures Ordered(d, Document(d))
  {
    PreorderSorted(d, None, Kids(d, None));
    forall x | x in d ensures UnderSome(d, Kids(d, None), x) {
      UnderRoot(d, x);
    }
  }

  lemma UnderRoot(d: Doc, x: OpId)
    requires Forest(d) && x in d
    ensures UnderSome(d, Kids(d, None), x)
  {
    var k := Path(d, x)[0];
    PathPrefix(d, x, 0);
    assert k in Kids(d, None) && Under(d, k, x);
  }

  /** ... and is the only sequence that does. */
  lemma DocumentUnique(d: Doc, s: seq<OpId>)
    requires Forest(d)
    requires Ordered(d, s)
    ensures s == Document(d)
  {
    DocumentSorted(d);
    OrderAsymmetric(d);
    SortedUnique(s, Document(d), Order(d));
  }

  // ----- what never changes -----

  ghost function Present(d: Doc): OpId -> bool {
    id => id in d
  }

  /** Growth, by any ops in any order, never reorders what was there: dropping the newcomers
      from the new document leaves the old document, tombstones included. */
  lemma OrderStable(d: Doc, e: Doc)
    requires Forest(d) && Forest(e) && Grows(d, e)
    ensures Filter(Document(e), Present(d)) == Document(d)
  {
    var s := Filter(Document(e), Present(d));
    DocumentSorted(e);
    FilterSorted(Document(e), Present(d), Order(e));
    forall x ensures x in s <==> x in d {
      FilterMember(Document(e), Present(d), x);
    }
    forall i, j | 0 <= i < j < |s| ensures Order(d)(s[i], s[j]) {
      assert Order(e)(s[i], s[j]);
      assert s[i] in s && s[j] in s;
      PathKept(d, e, s[i]);
      PathKept(d, e, s[j]);
    }
    DocumentUnique(d, s);
  }

  lemma Interval(d: Doc, s: seq<OpId>, k: OpId) returns (lo: nat, hi: nat)
    requires StrictlySorted(s, Order(d)) && k in s && HasPath(d, k)
    ensures lo < hi <= |s| && s[lo] == k
    ensures forall j :: 0 <= j < |s| ==> (lo <= j < hi <==> Under(d, k, s[j]))
  {
    lo :| lo < |s| && s[lo] == k;
    hi := lo + 1;
    while hi < |s| && Under(d, k, s[hi])
      invariant lo < hi <= |s|
      invariant forall j :: lo <= j < hi ==> Under(d, k, s[j])
    {
      hi := hi + 1;
    }
    forall j | 0 <= j < |s| && Under(d, k, s[j]) ensures lo <= j < hi {
      NoneBefore(d, k, s, lo, j);
      if hi <= j { NoneBeyond(d, k, s, lo, hi, j); }
    }
  }

  /** A character and everything typed after it fill one interval of the document, headed by it. */
  lemma DescendantsContiguous(d: Doc, k: OpId) returns (lo: nat, hi: nat)
    requires Forest(d) && k in d
    ensures lo < hi <= |Document(d)| && Document(d)[lo] == k
    ensures forall j :: 0 <= j < |Document(d)| ==> (lo <= j < hi <==> Under(d, k, Document(d)[j]))
  {
    DocumentSorted(d);
    lo, hi := Interval(d, Document(d), k);
  }

  lemma NoneBefore(d: Doc, k: OpId, s: seq<OpId>, lo: nat, j: nat)
    requires StrictlySorted(s, Order(d)) && j < |s| && lo < |s| && s[lo] == k
    requires HasPath(d, k) && Under(d, k, s[j])
    ensures lo <= j
  {
    if j < lo {
      assert Order(d)(s[j], k);
      PathLessAsymmetric(Path(d, k), Path(d, s[j]));
      HeadFirst(d, k, s[j]);
    }
  }

  lemma NoneBeyond(d: Doc, k: OpId, s: seq<OpId>, lo: nat, hi: nat, j: nat)
    requires StrictlySorted(s, Order(d)) && lo < hi <= j < |s| && s[lo] == k
    requires HasPath(d, k) && Under(d, k, s[j])
    ensures Under(d, k, s[hi])
  {
    if hi < j {
      assert Order(d)(s[lo], s[hi]) && Order(d)(s[hi], s[j]);
      UnderPrefix(d, k, s[j]);
      PathInterval(Path(d, k), Path(d, k), Path(d, s[hi]), Path(d, s[j]));
      UnderPrefix(d, k, s[hi]);
    }
  }

  /** Characters typed one after another: each names its predecessor as parent. */
  ghost predicate TypedRun(d: Doc, run: seq<OpId>) {
    && run != []
    && (forall i :: 0 <= i < |run| ==> run[i] in d)
    && forall i, j :: 0 <= i && j == i + 1 < |run| ==> d[run[j]].parent == Some(run[i])
  }

  lemma {:induction false} RunUnderHead(d: Doc, run: seq<OpId>, i: nat)
    requires Forest(d) && TypedRun(d, run) && i < |run|
    ensures Under(d, run[0], run[i])
  {
    if i > 0 {
      RunUnderHead(d, run, i - 1);
      assert d[run[i]].parent == Some(run[i - 1]);
      PathOfChild(d, run[i]);
    }
  }

  /** Two runs typed from starting points neither of which follows the other never interleave:
      all of one precedes all of the other. */
  lemma RunsNeverInterleave(d: Doc, a: seq<OpId>, b: seq<OpId>)
    requires Forest(d) && TypedRun(d, a) && TypedRun(d, b)
    requires !Under(d, a[0], b[0]) && !Under(d, b[0], a[0])
    ensures (forall x, y :: x in a && y in b ==> Before(d, x, y))
         || (forall x, y :: x in a && y in b ==> Before(d, y, x))
  {
    var p, q := Path(d, a[0]), Path(d, b[0]);
    UnderPrefix(d, a[0], b[0]);
    UnderPrefix(d, b[0], a[0]);
    PathLessTotal(p, q);
    forall x, y | x in a && y in b
      ensures (PathLess(p, q) ==> Before(d, x, y)) && (PathLess(q, p) ==> Before(d, y, x))
    {
      var i :| 0 <= i < |a| && a[i] == x;
      var j :| 0 <= j < |b| && b[j] == y;
      RunUnderHead(d, a, i);
      RunUnderHead(d, b, j);
      UnderPrefix(d, a[0], x);
      UnderPrefix(d, b[0], y);
      Separated(p, q, Path(d, x), Path(d, y));
    }
  }

  lemma PathLessTotal(p: seq<OpId>, q: seq<OpId>)
    requires p != q
    ensures PathLess(p, q) || PathLess(q, p)
  {
    if p != [] && q != [] && p[0] == q[0] {
      assert p == [p[0]] + p[1..] && q == [q[0]] + q[1..];
      PathLessTotal(p[1..], q[1..]);
    }
  }

  lemma PrefixesNest(v: seq<OpId>, w: seq<OpId>, p: seq<OpId>)
    requires w <= p
    ensures v <= p ==> v <= w || w <= v
  {
  }

  lemma Separated(w: seq<OpId>, v: seq<OpId>, p: seq<OpId>, q: seq<OpId>)
    requires w <= p && v <= q && !(w <= v) && !(v <= w)
    ensures PathLess(p, q) <==> PathLess(w, v)
    ensures PathLess(q, p) <==> PathLess(v, w)
  {
    PathLessOutside(w, p, v);
    PrefixesNest(v, w, p);
    PathLessOutside(v, q, p);
  }
}
