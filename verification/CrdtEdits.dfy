/** What a local edit does to the visible text. */
module CrdtEdits {
  import opened Wrappers
  import opened Sorted
  import opened CrdtDocs
  import opened CrdtOrder

  ghost function Shown(d: Doc): OpId -> bool {
    id => id in d && d[id].deletedBy.None?
  }

  /** The characters that are not tombstones, in document order. */
  ghost function Visible(d: Doc): seq<OpId>
    requires Forest(d)
  {
    Filter(Document(d), Shown(d))
  }

  ghost function Chars(d: Doc, ids: seq<OpId>): string
    requires forall id :: id in ids ==> id in d
  {
    seq(|ids|, i requires 0 <= i < |ids| => assert ids[i] in ids; d[ids[i]].ch)
  }

  ghost function Text(d: Doc): string
    requires Forest(d)
  {
    VisiblePresent(d);
    Chars(d, Visible(d))
  }

  lemma VisiblePresent(d: Doc)
    requires Forest(d)
    ensures forall id :: id in Visible(d) <==> id in d && d[id].deletedBy.None?
  {
    DocumentSorted(d);
    forall id ensures id in Visible(d) <==> id in d && d[id].deletedBy.None? {
      FilterMember(Document(d), Shown(d), id);
    }
  }

  // ----- inserting -----

  /** The character that position `pos` lies behind: `None` at the document start. */
  function Cursor(v: seq<OpId>, pos: nat): Option<OpId>
    requires pos <= |v|
  {
    if pos == 0 then None else Some(v[pos - 1])
  }

  ghost predicate CursorAt(d: Doc, pos: nat, after: Option<OpId>) {
    Forest(d) && pos <= |Visible(d)| && after == Cursor(Visible(d), pos)
  }

  ghost predicate NewestId(d: Doc, id: OpId) {
    id !in d && forall x :: x in d ==> Newer(id, x)
  }

  lemma {:induction false} LessExtended(p: seq<OpId>, w: seq<OpId>, t: seq<OpId>)
    requires PathLess(p, w)
    ensures PathLess(p, w + t)
  {
    if p != [] && p[0] == w[0] {
      LessExtended(p[1..], w[1..], t);
      assert (w + t)[1..] == w[1..] + t;
    }
  }

  /** A newest child comes before everything that came after its parent. */
  lemma NewestChildFirst(w: seq<OpId>, id: OpId, q: seq<OpId>)
    requires PathLess(w, q)
    requires forall x :: x in q ==> Newer(id, x)
    ensures PathLess(w + [id], q)
  {
    if w <= q {
      var t := q[|w|..];
      assert q == w + t && w == w + [];
      assert |w| == |q| ==> q == w + [];
      PathLessFork(w, [], t);
      assert t[0] in q;
      PathLessFork(w, [id], t);
    } else {
      PathLessOutside(w, w + [id], q);
    }
  }

  lemma OrderKept(d: Doc, e: Doc, s: seq<OpId>)
    requires Grows(d, e) && StrictlySorted(s, Order(d))
    ensures StrictlySorted(s, Order(e))
  {
    forall i, j | 0 <= i < j < |s| ensures Order(e)(s[i], s[j]) {
      assert Order(d)(s[i], s[j]);
      PathKept(d, e, s[i]);
      PathKept(d, e, s[j]);
    }
  }

  ghost function With(d: Doc, id: OpId, after: Option<OpId>, ch: char): Doc {
    d[id := Entry(after, ch, None)]
  }

  /** `k` is the place in the full order `s` right behind `after`. */
  ghost predicate RightBehind(s: seq<OpId>, after: Option<OpId>, k: nat) {
    && k <= |s|
    && if after.None? then k == 0 else k > 0 && s[k - 1] == after.value
  }

  /** `id` as the newest child at the end of the path `w`. */
  ghost predicate Newcomer(d: Doc, e: Doc, id: OpId, w: seq<OpId>) {
    && Grows(d, e)
    && HasPath(e, id) && Path(e, id) == w + [id]
    && forall x :: x in d ==> Newer(id, x)
  }

  lemma NewcomerBehind(d: Doc, e: Doc, id: OpId, w: seq<OpId>, x: OpId)
    requires Newcomer(d, e, id, w) && HasPath(d, x)
    requires Path(d, x) == w || PathLess(Path(d, x), w)
    ensures Before(e, x, id)
  {
    PathKept(d, e, x);
    if Path(d, x) == w {
      assert w + [] == w;
      PathLessFork(w, [], [id]);
    } else {
      LessExtended(Path(d, x), w, [id]);
    }
  }

  lemma NewcomerAhead(d: Doc, e: Doc, id: OpId, w: seq<OpId>, x: OpId)
    requires Newcomer(d, e, id, w) && HasPath(d, x) && PathLess(w, Path(d, x))
    ensures Before(e, id, x)
  {
    PathKept(d, e, x);
    forall y | y in Path(d, x) ensures Newer(id, y) {
      var i :| 0 <= i < |Path(d, x)| && Path(d, x)[i] == y;
      PathPrefix(d, x, i);
    }
    NewestChildFirst(w, id, Path(d, x));
  }

  lemma SplicedOrder(d: Doc, e: Doc, s: seq<OpId>, id: OpId, w: seq<OpId>, k: nat)
    requires Ordered(d, s) && Newcomer(d, e, id, w) && k <= |s| && e.Keys == d.Keys + {id}
    requires forall x :: x in s[..k] ==> HasPath(d, x) && (Path(d, x) == w || PathLess(Path(d, x), w))
    requires forall x :: x in s[k..] ==> HasPath(d, x) && PathLess(w, Path(d, x))
    ensures Ordered(e, Splice(s, k, id))
  {
    OrderKept(d, e, s);
    forall x | x in s[..k] ensures Order(e)(x, id) {
      NewcomerBehind(d, e, id, w, x);
    }
    forall x | x in s[k..] ensures Order(e)(id, x) {
      NewcomerAhead(d, e, id, w, x);
    }
    SplicedSorted(s, k, id, Order(e));
    SpliceMembers(s, k, id);
  }

  lemma SpliceMembers(s: seq<OpId>, k: nat, id: OpId)
    requires k <= |s|
    ensures forall x :: x in Splice(s, k, id) <==> x in s || x == id
  {
    assert s == s[..k] + s[k..];
  }

  /** The place behind `after` splits the full order into what may precede a newest child of
      `after` and what must follow it. */
  lemma SplitAround(d: Doc, s: seq<OpId>, after: Option<OpId>, k: nat, w: seq<OpId>, x: OpId)
    requires Forest(d) && Ordered(d, s) && RightBehind(s, after, k)
    requires after.Some? ==> HasPath(d, after.value)
    requires w == if after.None? then [] else Path(d, after.value)
    ensures x in s[..k] ==> HasPath(d, x) && (Path(d, x) == w || PathLess(Path(d, x), w))
    ensures x in s[k..] ==> HasPath(d, x) && PathLess(w, Path(d, x))
  {
    if x in s[..k] {
      var j :| 0 <= j < k && s[j] == x;
      assert x in s;
      if j < k - 1 { assert Order(d)(s[j], s[k - 1]); }
    }
    if x in s[k..] {
      var j :| k <= j < |s| && s[j] == x;
      assert x in s;
      if k > 0 { assert Order(d)(s[k - 1], s[j]); }
    }
  }

  /** An insert newer than the whole document lands right behind the character it was typed after. */
  lemma NewestInsert(d: Doc, s: seq<OpId>, id: OpId, after: Option<OpId>, ch: char, k: nat)
    requires Forest(d) && Ordered(d, s) && RightBehind(s, after, k)
    requires NewestId(d, id)
    ensures Forest(With(d, id, after, ch))
    ensures Ordered(With(d, id, after, ch), Splice(s, k, id))
  {
    var e := With(d, id, after, ch);
    assert after.Some? ==> after.value in s;
    assert Applied(d, Insert(id, after, ch)) == Ok(e);
    AppliedForest(d, Insert(id, after, ch));
    PathOfChild(e, id);
    var w := if after.None? then [] else Path(d, after.value);
    if after.Some? { PathKept(d, e, after.value); }
    forall x ensures
      && (x in s[..k] ==> HasPath(d, x) && (Path(d, x) == w || PathLess(Path(d, x), w)))
      && (x in s[k..] ==> HasPath(d, x) && PathLess(w, Path(d, x)))
    {
      SplitAround(d, s, after, k, w, x);
    }
    SplicedOrder(d, e, s, id, w, k);
  }

  /** The visible characters after an insert right behind the one at `pos - 1`. */
  lemma VisibleSplice(d: Doc, s: seq<OpId>, pos: nat, id: OpId, after: Option<OpId>, ch: char, k: nat)
    requires Ordered(d, s) && id !in d && pos <= |Filter(s, Shown(d))|
    requires after == Cursor(Filter(s, Shown(d)), pos)
    requires RightBehind(s, after, k)
    ensures Filter(Splice(s, k, id), Shown(With(d, id, after, ch))) == Splice(Filter(s, Shown(d)), pos, id)
  {
    OrderAsymmetric(d);
    FilterCut(s, k, pos, Shown(d), Order(d));
    FilterSplice(s, k, id, Shown(d), Shown(With(d, id, after, ch)));
  }

  lemma PlaceBehind(d: Doc, s: seq<OpId>, pos: nat, after: Option<OpId>) returns (k: nat)
    requires pos <= |Filter(s, Shown(d))|
    requires after == Cursor(Filter(s, Shown(d)), pos)
    ensures RightBehind(s, after, k)
  {
    k := 0;
    if pos > 0 {
      FilterMember(s, Shown(d), after.value);
      var i :| 0 <= i < |s| && s[i] == after.value;
      k := i + 1;
    }
  }

  lemma InsertVisible(d: Doc, pos: nat, after: Option<OpId>, id: OpId, ch: char)
    requires CursorAt(d, pos, after) && NewestId(d, id)
    ensures Forest(With(d, id, after, ch))
    ensures Visible(With(d, id, after, ch)) == Splice(Visible(d), pos, id)
  {
    var s := Document(d);
    DocumentSorted(d);
    var k := PlaceBehind(d, s, pos, after);
    NewestInsert(d, s, id, after, ch, k);
    DocumentUnique(With(d, id, after, ch), Splice(s, k, id));
    VisibleSplice(d, s, pos, id, after, ch, k);
  }

  /** Typing `ch` at visible position `pos` puts it exactly there, whatever tombstones and
      concurrent siblings surround the position. */
  lemma InsertStep(d: Doc, pos: nat, after: Option<OpId>, id: OpId, ch: char)
    requires CursorAt(d, pos, after) && NewestId(d, id)
    ensures Applied(d, Insert(id, after, ch)) == Ok(With(d, id, after, ch))
    ensures Forest(With(d, id, after, ch))
    ensures Visible(With(d, id, after, ch)) == Splice(Visible(d), pos, id)
    ensures Text(With(d, id, after, ch)) == Splice(Text(d), pos, ch)
  {
    VisiblePresent(d);
    assert after.Some? ==> after.value in Visible(d);
    InsertVisible(d, pos, after, id, ch);
    TextSplice(d, With(d, id, after, ch), pos, id);
  }

  lemma TextSplice(d: Doc, e: Doc, pos: nat, id: OpId)
    requires Forest(d) && Forest(e) && Grows(d, e) && pos <= |Visible(d)| && id in e
    requires Visible(e) == Splice(Visible(d), pos, id)
    ensures Text(e) == Splice(Text(d), pos, e[id].ch)
  {
    VisiblePresent(d);
    VisiblePresent(e);
    CharsKept(d, e, Visible(d));
    CharsSplice(e, Visible(d), pos, id);
  }

  lemma CharsSnoc(d: Doc, v: seq<OpId>, id: OpId)
    requires id in d && forall x :: x in v ==> x in d
    ensures Chars(d, v + [id]) == Chars(d, v) + [d[id].ch]
  {
  }

  lemma CharsKept(d: Doc, e: Doc, v: seq<OpId>)
    requires Grows(d, e) && forall x :: x in v ==> x in d
    ensures Chars(d, v) == Chars(e, v)
  {
    assert forall i :: 0 <= i < |v| ==> v[i] in v && v[i] in d;
  }

  lemma CharsSplice(e: Doc, v: seq<OpId>, pos: nat, id: OpId)
    requires pos <= |v| && id in e && forall x :: x in v ==> x in e
    ensures Chars(e, Splice(v, pos, id)) == Splice(Chars(e, v), pos, e[id].ch)
  {
  }

  // ----- deleting -----

  /** Deletes never move anything. */
  lemma DeleteKeepsDocument(d: Doc, op: TextOp)
    requires Forest(d) && op.Delete? && Applied(d, op).Ok?
    ensures Forest(Applied(d, op).value) && Document(Applied(d, op).value) == Document(d)
  {
    var e := Applied(d, op).value;
    AppliedForest(d, op);
    DocumentSorted(d);
    OrderKept(d, e, Document(d));
    DocumentUnique(e, Document(d));
  }

  lemma DeleteVisible(d: Doc, pos: nat, id: OpId)
    requires Forest(d) && pos < |Visible(d)|
    ensures var op := Delete(id, Visible(d)[pos]);
            && Applied(d, op).Ok?
            && Forest(Applied(d, op).value)
            && Visible(Applied(d, op).value) == Without(Visible(d), pos, 1)
  {
    var s, t := Document(d), Visible(d)[pos];
    DocumentSorted(d);
    FilterMember(s, Shown(d), t);
    var e := Applied(d, Delete(id, t)).value;
    DeleteKeepsDocument(d, Delete(id, t));
    OrderAsymmetric(d);
    FilterWithout(s, pos, Shown(d), Shown(e), Order(d));
  }

  /** Deleting the `pos`-th visible character removes it and nothing else from the text. */
  lemma DeleteStep(d: Doc, pos: nat, id: OpId)
    requires Forest(d) && pos < |Visible(d)|
    ensures var op := Delete(id, Visible(d)[pos]);
            && Applied(d, op).Ok?
            && Forest(Applied(d, op).value)
            && Visible(Applied(d, op).value) == Without(Visible(d), pos, 1)
            && Text(Applied(d, op).value) == Without(Text(d), pos, 1)
  {
    DeleteVisible(d, pos, id);
    TextWithout(d, Applied(d, Delete(id, Visible(d)[pos])).value, pos);
  }

  lemma TextWithout(d: Doc, e: Doc, pos: nat)
    requires Forest(d) && Forest(e) && Grows(d, e) && pos < |Visible(d)|
    requires Visible(e) == Without(Visible(d), pos, 1)
    ensures Text(e) == Without(Text(d), pos, 1)
  {
    VisiblePresent(d);
    VisiblePresent(e);
    CharsKept(d, e, Visible(d));
    CharsWithout(e, Visible(d), pos);
  }

  lemma CharsWithout(e: Doc, v: seq<OpId>, pos: nat)
    requires pos < |v| && forall x :: x in v ==> x in e
    ensures Chars(e, Without(v, pos, 1)) == Without(Chars(e, v), pos, 1)
  {
  }
}
