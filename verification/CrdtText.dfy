/** The document object: the stack walk, local edits, op application and deltas, in place. */
module CrdtText {
  import opened Wrappers
  import opened Sorted
  import opened CrdtDocs
  import opened CrdtOrder
  import opened CrdtDelta
  import opened CrdtMarks
  import Edits = CrdtEdits

  // ----- child lists -----

  type ChildLists = map<Option<OpId>, seq<OpId>>

  lemma NewerAsymmetric()
    ensures Asymmetric(Newer)
  {
  }

  ghost predicate Distinct(s: seq<OpId>) {
    forall i, j :: 0 <= i < j < |s| ==> s[i] != s[j]
  }

  /** `lists` holds the children found among `seen`, in any order. */
  ghost predicate Collected(d: Doc, seen: set<OpId>, lists: ChildLists) {
    && (forall p :: p in lists ==> Distinct(lists[p]))
    && (forall p :: p in lists ==> forall x :: x in lists[p] <==> x in d && x in seen && d[x].parent == p)
    && forall x :: x in d && x in seen ==> d[x].parent in lists
  }

  /** `lists` holds every character's children, newest first. */
  ghost predicate ChildTable(d: Doc, lists: ChildLists) {
    forall p :: KidsIn(lists, p) == Kids(d, p)
  }

  /** One insertion into a newest-first list. */
  method InsertNewestFirst(ids: seq<OpId>, id: OpId) returns (r: seq<OpId>)
    requires StrictlySorted(ids, Newer) && id !in ids
    ensures StrictlySorted(r, Newer)
    ensures forall x :: x in r <==> x in ids || x == id
  {
    var k := 0;
    while k < |ids| && Newer(ids[k], id)
      invariant 0 <= k <= |ids|
      invariant forall j :: 0 <= j < k ==> Newer(ids[j], id)
    {
      k := k + 1;
    }
    r := Splice(ids, k, id);
    forall x | x in ids[k..] ensures Newer(id, x) {
      assert k < |ids| && ids[k] != id;
      var j :| k <= j < |ids| && ids[j] == x;
      assert j == k || Newer(ids[k], ids[j]);
    }
    SplicedSorted(ids, k, id, Newer);
    assert ids == ids[..k] + ids[k..];
  }

  method SortNewestFirst(ids: seq<OpId>) returns (r: seq<OpId>)
    requires Distinct(ids)
    ensures StrictlySorted(r, Newer)
    ensures forall x :: x in r <==> x in ids
  {
    r := [];
    for i := 0 to |ids|
      invariant StrictlySorted(r, Newer)
      invariant forall x :: x in r <==> x in ids[..i]
    {
      r := InsertNewestFirst(r, ids[i]);
      assert ids[..i + 1] == ids[..i] + [ids[i]];
    }
    assert ids[..|ids|] == ids;
  }

  /** Groups the characters by parent; the order in which they are met does not matter. */
  method CollectChildren(d: Doc) returns (lists: ChildLists)
    ensures Collected(d, d.Keys, lists)
  {
    lists := map[];
    var todo := d.Keys;
    while todo != {}
      invariant todo <= d.Keys
      invariant Collected(d, d.Keys - todo, lists)
    {
      var id :| id in todo;
      var p := d[id].parent;
      var kids := if p in lists then lists[p] else [];
      assert id !in kids;
      lists := lists[p := kids + [id]];
      todo := todo - {id};
    }
    assert d.Keys - todo == d.Keys;
  }

  method Children(d: Doc) returns (lists: ChildLists)
    ensures ChildTable(d, lists)
  {
    var found := CollectChildren(d);
    lists := map[];
    var todo := found.Keys;
    NewerAsymmetric();
    while todo != {}
      invariant todo <= found.Keys && lists.Keys == found.Keys - todo
      invariant forall p :: p in lists ==> lists[p] == Kids(d, p)
    {
      var p :| p in todo;
      var kids := SortNewestFirst(found[p]);
      SortedUnique(kids, Kids(d, p), Newer);
      lists := lists[p := kids];
      todo := todo - {p};
    }
    forall p | p !in lists ensures Kids(d, p) == [] {
      assert forall x :: x !in Kids(d, p);
    }
  }

  // ----- the stack walk -----

  /** A character followed by everything below it. */
  ghost function Subtree(d: Doc, id: OpId): seq<OpId> {
    if Forest(d) && id in d then [id] + Preorder(d, Some(id), Kids(d, Some(id))) else []
  }

  ghost function SubtreeIn(d: Doc): OpId -> seq<OpId> {
    id => Subtree(d, id)
  }

  ghost function Flat(ids: seq<OpId>, f: OpId -> seq<OpId>): seq<OpId> {
    if ids == [] then [] else f(ids[0]) + Flat(ids[1..], f)
  }

  /** The same from the far end: a stack's top is its last element. */
  ghost function FlatBack(ids: seq<OpId>, f: OpId -> seq<OpId>): seq<OpId> {
    if ids == [] then [] else f(ids[|ids| - 1]) + FlatBack(ids[..|ids| - 1], f)
  }

  ghost function Subtrees(d: Doc, ids: seq<OpId>): seq<OpId> {
    Flat(ids, SubtreeIn(d))
  }

  /** What a stack still has to visit. */
  ghost function Pending(d: Doc, stack: seq<OpId>): seq<OpId> {
    FlatBack(stack, SubtreeIn(d))
  }

  lemma {:induction false} PreorderSubtrees(d: Doc, parent: Option<OpId>, ids: seq<OpId>)
    requires Forest(d) && (parent.Some? ==> parent.value in d)
    requires forall x :: x in ids ==> x in d && d[x].parent == parent
    ensures Preorder(d, parent, ids) == Subtrees(d, ids)
  {
    if ids != [] {
      PreorderSubtrees(d, parent, ids[1..]);
    }
  }

  /** Pushing one more child. */
  lemma FlatPush(base: seq<OpId>, stack: seq<OpId>, kids: seq<OpId>, i: nat, f: OpId -> seq<OpId>)
    requires i < |kids| && FlatBack(stack, f) == Flat(kids[i + 1..], f) + FlatBack(base, f)
    ensures FlatBack(stack + [kids[i]], f) == Flat(kids[i..], f) + FlatBack(base, f)
  {
    assert (stack + [kids[i]])[..|stack|] == stack;
    assert kids[i..][1..] == kids[i + 1..];
    var top, rest, below := f(kids[i]), Flat(kids[i + 1..], f), FlatBack(base, f);
    assert top + (rest + below) == (top + rest) + below;
  }

  /** Pushing children oldest first leaves the newest on top. */
  method PushKids(ghost f: OpId -> seq<OpId>, base: seq<OpId>, kids: seq<OpId>) returns (stack: seq<OpId>)
    ensures forall x :: x in stack ==> x in base || x in kids
    ensures FlatBack(stack, f) == Flat(kids, f) + FlatBack(base, f)
  {
    stack := base;
    for i := |kids| downto 0
      invariant forall x :: x in stack ==> x in base || x in kids
      invariant FlatBack(stack, f) == Flat(kids[i..], f) + FlatBack(base, f)
    {
      FlatPush(base, stack, kids, i, f);
      stack := stack + [kids[i]];
    }
  }

  /** `visited` is done and `stack` is what remains of the document. */
  ghost predicate Walking(d: Doc, visited: seq<OpId>, stack: seq<OpId>) {
    && Forest(d)
    && (forall x :: x in stack ==> x in d)
    && Document(d) == visited + Pending(d, stack)
  }

  lemma ShiftOne(doc: seq<OpId>, visited: seq<OpId>, id: OpId, below: seq<OpId>, rest: seq<OpId>)
    requires doc == visited + ([id] + below + rest)
    ensures doc == (visited + [id]) + (below + rest)
  {
  }

  lemma WalkDone(d: Doc, visited: seq<OpId>)
    requires Walking(d, visited, [])
    ensures visited == Document(d)
  {
  }

  function KidsIn(lists: ChildLists, p: Option<OpId>): seq<OpId> {
    if p in lists then lists[p] else []
  }

  method WalkStart(d: Doc, lists: ChildLists) returns (stack: seq<OpId>)
    requires Forest(d) && ChildTable(d, lists)
    ensures Walking(d, [], stack)
  {
    stack := PushKids(SubtreeIn(d), [], KidsIn(lists, None));
    PreorderSubtrees(d, None, Kids(d, None));
  }

  /** Pops a character and pushes its children: the walk moves on by that character. */
  method WalkStep(d: Doc, lists: ChildLists, ghost visited: seq<OpId>, stack: seq<OpId>)
    returns (id: OpId, next: seq<OpId>)
    requires ChildTable(d, lists) && Walking(d, visited, stack) && stack != []
    ensures id in d && Walking(d, visited + [id], next)
    ensures |Pending(d, next)| < |Pending(d, stack)|
  {
    var n := |stack| - 1;
    id := stack[n];
    next := PushKids(SubtreeIn(d), stack[..n], KidsIn(lists, Some(id)));
    PreorderSubtrees(d, Some(id), Kids(d, Some(id)));
    ShiftOne(Document(d), visited, id, Subtrees(d, Kids(d, Some(id))), Pending(d, stack[..n]));
  }

  // ----- local ops and deltas -----

  /** An op of a local edit: by its actor, above every mark, and in Lamport order. */
  ghost predicate LocalOp(d: Doc, actor: nat, op: TextOp) {
    op.id.actor == actor && Unseen(d, op.id) && LamportOp(op)
  }

  ghost predicate StampsBelow(d: Doc, bound: nat) {
    forall x :: x in d ==> x.stamp < bound
  }

  lemma CursorMoves(now: Doc, k: nat, after: Option<OpId>, id: OpId, ch: char)
    requires Edits.CursorAt(now, k, after) && StampsBelow(now, id.stamp)
    ensures Applied(now, Insert(id, after, ch)).Ok?
    ensures after.Some? ==> after.value.stamp < id.stamp
    ensures Edits.CursorAt(Applied(now, Insert(id, after, ch)).value, k + 1, Some(id))
    ensures StampsBelow(Applied(now, Insert(id, after, ch)).value, id.stamp + 1)
  {
    Edits.InsertVisible(now, k, after, id, ch);
    TypedAfter(now, k, after);
    NextPlace(Edits.Visible(now), Edits.Visible(Edits.With(now, id, after, ch)), k, id);
  }

  /** The first `i` letters of `text` are in. */
  ghost predicate Typed(was: string, now: Doc, pos: nat, text: string, i: nat) {
    pos <= |was| && i <= |text| && Forest(now) && Edits.Text(now) == SpliceAll(was, pos, text[..i])
  }

  lemma TypeOne(was: string, now: Doc, pos: nat, text: string, i: nat, k: nat, after: Option<OpId>, id: OpId)
    requires i < |text| && k == pos + i && Typed(was, now, pos, text, i)
    requires Edits.CursorAt(now, k, after) && StampsBelow(now, id.stamp)
    ensures Applied(now, Insert(id, after, text[i])).Ok?
    ensures Typed(was, Applied(now, Insert(id, after, text[i])).value, pos, text, i + 1)
  {
    SpliceNext(was, pos, text, i, k);
    Edits.InsertStep(now, k, after, id, text[i]);
  }

  lemma NextPlace(v: seq<OpId>, w: seq<OpId>, k: nat, id: OpId)
    requires k <= |v| && w == Splice(v, k, id)
    ensures k + 1 <= |w| && w[k] == id
  {
  }

  lemma TypedAfter(d: Doc, pos: nat, after: Option<OpId>)
    requires Edits.CursorAt(d, pos, after)
    ensures after.Some? ==> after.value in d
  {
    Edits.VisiblePresent(d);
    assert after.Some? ==> after.value in Edits.Visible(d);
  }

  /** The first `i` letters from `pos` are gone. */
  ghost predicate Erasing(v: seq<OpId>, was: string, now: Doc, pos: nat, i: nat)
    requires pos + i <= |v| == |was|
  {
    && Forest(now)
    && Edits.Visible(now) == Without(v, pos, i)
    && Edits.Text(now) == Without(was, pos, i)
  }

  lemma EraseOne(v: seq<OpId>, was: string, now: Doc, pos: nat, i: nat, id: OpId)
    requires pos + i < |v| == |was| && Erasing(v, was, now, pos, i)
    ensures var op := Delete(id, v[pos + i]);
            && Applied(now, op).Ok?
            && Erasing(v, was, Applied(now, op).value, pos, i + 1)
  {
    WithoutNext(v, pos, i);
    WithoutNext(was, pos, i);
    Edits.DeleteStep(now, pos, id);
  }

  /** The ops so far are local to `start`, count up from `first` and lead from `start` to `now`. */
  ghost predicate Recorded(start: Doc, now: Doc, first: nat, actor: nat, ops: seq<TextOp>) {
    && Run(start, ops) == Ok(now) && Stamped(ops, first, actor)
    && forall op :: op in ops ==> LocalOp(start, actor, op)
  }

  lemma RecordOne(start: Doc, now: Doc, first: nat, actor: nat, ops: seq<TextOp>, op: TextOp)
    requires Recorded(start, now, first, actor, ops) && Applied(now, op).Ok?
    requires first > 0 && forall x :: Mentions(start, x) ==> x.stamp < first
    requires op.id.actor == actor && op.id.stamp == first + |ops|
    requires op.Insert? && op.after.Some? ==> op.after.value.stamp < op.id.stamp
    requires op.Delete? ==> op.target.stamp < op.id.stamp
    ensures Recorded(start, Applied(now, op).value, first, actor, ops + [op])
  {
    RunSnoc(start, ops, op);
    StampedSnoc(ops, first, actor, op);
    assert LocalOp(start, actor, op);
  }

  /** A local edit that has recorded `ops` and will stamp the next one `stamp`. */
  ghost predicate Editing(start: Doc, now: Doc, first: nat, actor: nat, ops: seq<TextOp>, stamp: nat) {
    && Recorded(start, now, first, actor, ops) && stamp == first + |ops|
    && first > 0 && forall x :: Mentions(start, x) ==> x.stamp < first
  }

  lemma EditOne(start: Doc, now: Doc, first: nat, actor: nat, ops: seq<TextOp>, stamp: nat, op: TextOp)
    requires Editing(start, now, first, actor, ops, stamp) && Applied(now, op).Ok?
    requires op.id.actor == actor && op.id.stamp == stamp
    requires op.Insert? && op.after.Some? ==> op.after.value.stamp < stamp
    requires op.Delete? ==> op.target.stamp < stamp
    ensures Editing(start, Applied(now, op).value, first, actor, ops + [op], stamp + 1)
  {
    RecordOne(start, now, first, actor, ops, op);
  }

  /** The first `i` letters are typed and the cursor stands behind them. */
  ghost predicate TypingAt(was: string, now: Doc, pos: nat, text: string, i: nat, k: nat, after: Option<OpId>,
                           stamp: nat)
  {
    k == pos + i && Typed(was, now, pos, text, i) && Edits.CursorAt(now, k, after) && StampsBelow(now, stamp)
  }

  lemma TypeNext(was: string, now: Doc, pos: nat, text: string, i: nat, k: nat, after: Option<OpId>, id: OpId)
    requires i < |text| && TypingAt(was, now, pos, text, i, k, after, id.stamp)
    ensures after.Some? ==> after.value.stamp < id.stamp
    ensures Applied(now, Insert(id, after, text[i])).Ok?
    ensures var next := Applied(now, Insert(id, after, text[i])).value;
            TypingAt(was, next, pos, text, i + 1, k + 1, Some(id), id.stamp + 1)
  {
    CursorMoves(now, k, after, id, text[i]);
    TypeOne(was, now, pos, text, i, k, after, id);
  }

  /** The first `i` targets are gone. */
  ghost predicate ErasingAt(visible: seq<OpId>, was: string, now: Doc, pos: nat, len: nat, i: nat, stamp: nat) {
    && i <= len && pos + len <= |visible| == |was| && Erasing(visible, was, now, pos, i)
    && forall x :: x in visible ==> x.stamp < stamp
  }

  lemma EraseNext(visible: seq<OpId>, was: string, now: Doc, pos: nat, len: nat, i: nat, id: OpId, target: OpId)
    requires i < len && ErasingAt(visible, was, now, pos, len, i, id.stamp) && target == visible[pos..pos + len][i]
    ensures target.stamp < id.stamp && Applied(now, Delete(id, target)).Ok?
    ensures ErasingAt(visible, was, Applied(now, Delete(id, target)).value, pos, len, i + 1, id.stamp + 1)
  {
    assert target == visible[pos + i];
    EraseOne(visible, was, now, pos, i, id);
  }

  lemma NothingGone<T>(s: seq<T>, k: nat)
    requires k <= |s|
    ensures Without(s, k, 0) == s
  {
  }

  lemma EraseStart(d: Doc, visible: seq<OpId>, was: string, pos: nat, len: nat, first: nat)
    requires Forest(d) && visible == Edits.Visible(d) && was == Edits.Text(d) && pos + len <= |visible|
    requires forall x :: Mentions(d, x) ==> x.stamp < first
    ensures ErasingAt(visible, was, d, pos, len, 0, first)
  {
    Edits.VisiblePresent(d);
    assert forall x :: x in visible ==> Mentions(d, x);
    NothingGone(visible, pos);
    NothingGone(was, pos);
  }

  lemma NothingSpliced(was: string, pos: nat, text: string)
    requires pos <= |was|
    ensures was == SpliceAll(was, pos, text[..0])
  {
  }

  lemma TypeStart(d: Doc, was: string, pos: nat, text: string, after: Option<OpId>, first: nat)
    requires Forest(d) && was == Edits.Text(d)
    requires pos <= |Edits.Visible(d)| && after == Edits.Cursor(Edits.Visible(d), pos)
    requires forall x :: Mentions(d, x) ==> x.stamp < first
    ensures TypingAt(was, d, pos, text, 0, pos, after, first)
  {
    NothingSpliced(was, pos, text);
    assert forall x :: x in d ==> Mentions(d, x);
  }

  lemma EditStart(d: Doc, first: nat, actor: nat)
    requires first == NextStamp(d)
    ensures Editing(d, d, first, actor, [], first)
  {
    assert forall x :: Mentions(d, x) ==> x in ShownIds(d);
  }

  lemma PlaceById(ops: seq<TextOp>, k: nat, op: TextOp)
    requires ById(ops) && k <= |ops| && (k == 0 || !NewerOp(ops[k - 1], op))
    requires forall j :: k <= j < |ops| ==> NewerOp(ops[j], op)
    ensures ById(Splice(ops, k, op))
  {
    forall j | 0 <= j < k ensures !NewerOp(ops[j], op) {
      assert j == k - 1 || !NewerOp(ops[j], ops[k - 1]);
    }
    NonDecreasingSplice(ops, k, op, NewerOp);
  }

  method InsertById(ops: seq<TextOp>, op: TextOp) returns (r: seq<TextOp>)
    requires ById(ops)
    ensures ById(r) && multiset(r) == multiset(ops) + multiset{op}
  {
    var k := |ops|;
    while k > 0 && NewerOp(ops[k - 1], op)
      invariant 0 <= k <= |ops|
      invariant forall j :: k <= j < |ops| ==> NewerOp(ops[j], op)
    {
      k := k - 1;
    }
    PlaceById(ops, k, op);
    SpliceMultiset(ops, k, op);
    r := Splice(ops, k, op);
  }

  method SortById(ops: seq<TextOp>) returns (r: seq<TextOp>)
    ensures ById(r) && multiset(r) == multiset(ops)
  {
    r := [];
    for i := 0 to |ops|
      invariant ById(r) && multiset(r) == multiset(ops[..i])
    {
      assert ops[..i + 1] == ops[..i] + [ops[i]];
      r := InsertById(r, ops[i]);
    }
    assert ops[..|ops|] == ops;
  }

  function Mark(vv: map<nat, nat>, actor: nat): nat {
    if actor in vv then vv[actor] else 0
  }

  function See(vv: map<nat, nat>, id: OpId): map<nat, nat> {
    if id.actor in vv && id.stamp <= vv[id.actor] then vv else vv[id.actor := id.stamp]
  }

  ghost predicate Covers(vv: map<nat, nat>, id: OpId) {
    id.actor in vv && id.stamp <= vv[id.actor]
  }

  ghost predicate MarksOf(d: Doc, vv: map<nat, nat>) {
    forall a :: a in vv ==> Mentions(d, OpId(vv[a], a))
  }

  lemma SeeCovers(d: Doc, vv: map<nat, nat>, id: OpId)
    requires MarksOf(d, vv) && Mentions(d, id)
    ensures MarksOf(d, See(vv, id)) && Covers(See(vv, id), id)
    ensures forall x :: Covers(vv, x) ==> Covers(See(vv, id), x)
  {
    assert OpId(id.stamp, id.actor) == id;
  }

  lemma AboveMarks(d: Doc, vv: map<nat, nat>, id: OpId)
    requires MarksOf(d, vv) && forall x :: Mentions(d, x) ==> Covers(vv, x)
    ensures Mark(vv, id.actor) < id.stamp <==> Unseen(d, id)
  {
  }

  lemma MarkIs(d: Doc, vv: map<nat, nat>, actor: nat)
    requires MarksOf(d, vv) && forall x :: Mentions(d, x) ==> Covers(vv, x)
    ensures Mark(vv, actor) == MarkOf(d, actor)
  {
    if actor in vv { assert Mentions(d, OpId(vv[actor], actor)); }
  }

  /** The character an op inserts or deletes. */
  ghost function About(op: TextOp): OpId {
    if op.Insert? then op.id else op.target
  }

  lemma {:induction false} RefusedRun(d: Doc, ops: seq<TextOp>, n: nat)
    requires n < |ops| && Run(d, ops[..n]).Ok? && Applied(Run(d, ops[..n]).value, ops[n]).Err?
    ensures Run(d, ops).Err?
  {
    var m := |ops| - 1;
    if n < m {
      assert ops[..m][..n] == ops[..n];
      RefusedRun(d, ops[..m], n);
    }
  }

  class CrdtText {
    var entries: Doc

    ghost predicate Valid()
      reads this
    {
      Forest(entries)
    }

    constructor ()
      ensures Valid() && entries == map[]
    {
      entries := map[];
    }

    /** The visible character ids, by the explicit-stack walk. */
    method VisibleIds() returns (out: seq<OpId>)
      requires Valid()
      ensures out == Edits.Visible(entries)
    {
      var lists := Children(entries);
      var stack := WalkStart(entries, lists);
      out := [];
      ghost var visited: seq<OpId> := [];
      while stack != []
        invariant Walking(entries, visited, stack)
        invariant out == Filter(visited, Edits.Shown(entries))
        decreases |Pending(entries, stack)|
      {
        var id;
        id, stack := WalkStep(entries, lists, visited, stack);
        if entries[id].deletedBy.None? {
          out := out + [id];
        }
        FilterPush(visited, id, Edits.Shown(entries));
        visited := visited + [id];
      }
      WalkDone(entries, visited);
    }

    /** The converged text, by the same walk. */
    method ReadText() returns (out: string)
      requires Valid()
      ensures out == Edits.Text(entries)
    {
      var lists := Children(entries);
      var stack := WalkStart(entries, lists);
      out := "";
      ghost var visited: seq<OpId> := [];
      ghost var shown: seq<OpId> := [];
      while stack != []
        invariant Walking(entries, visited, stack)
        invariant shown == Filter(visited, Edits.Shown(entries)) && forall x :: x in shown ==> x in entries
        invariant out == Edits.Chars(entries, shown)
        decreases |Pending(entries, stack)|
      {
        var id;
        id, stack := WalkStep(entries, lists, visited, stack);
        if entries[id].deletedBy.None? {
          Edits.CharsSnoc(entries, shown, id);
          out := out + [entries[id].ch];
          shown := shown + [id];
        }
        FilterPush(visited, id, Edits.Shown(entries));
        visited := visited + [id];
      }
      WalkDone(entries, visited);
    }

    /** Applies one op; an op naming an unknown character is refused and changes nothing. */
    method Apply(op: TextOp) returns (r: Result<()>)
      requires Valid()
      modifies this
      ensures Valid()
      ensures r.Ok? <==> Applied(old(entries), op).Ok?
      ensures if r.Ok? then Applied(old(entries), op) == Ok(entries) else entries == old(entries)
    {
      if Applied(entries, op).Ok? { AppliedForest(entries, op); }
      r := Ok(());
      match op {
      case Insert(id, after, ch) =>
        if id in entries {
          return Ok(());
        }
        if after.Some? && after.value !in entries {
          return Err;
        }
        entries := entries[id := Entry(after, ch, None)];
      case Delete(id, target) =>
        if target !in entries {
          return Err;
        }
        var entry := entries[target];
        if !(entry.deletedBy.Some? && !Newer(entry.deletedBy.value, id)) {
          entries := entries[target := entry.(deletedBy := Some(id))];
        } else {
          assert entries == entries[target := entry];
        }
      }
    }

    /** One past the highest stamp of any op the document shows. */
    method NextSeq() returns (n: nat)
      ensures n == NextStamp(entries)
    {
      n := 1;
      var todo := entries.Keys;
      while todo != {}
        invariant n > 0 && todo <= entries.Keys
        invariant forall x :: x in entries && x !in todo ==> x.stamp < n
        invariant forall x :: x in entries && x !in todo && entries[x].deletedBy.Some? ==>
                    entries[x].deletedBy.value.stamp < n
        invariant n == 1 || exists x :: Mentions(entries, x) && x.stamp == n - 1
      {
        var id :| id in todo;
        todo := todo - {id};
        assert Mentions(entries, id);
        if n <= id.stamp { n := id.stamp + 1; }
        var grave := entries[id].deletedBy;
        if grave.Some? {
          assert Mentions(entries, grave.value);
          if n <= grave.value.stamp { n := grave.value.stamp + 1; }
        }
      }
      StampIs(entries, n);
    }

    /** Inserts `text` at visible position `pos`; returns the ops a peer needs to do the same. */
    method LocalInsert(pos: nat, text: string, actor: nat) returns (r: Result<seq<TextOp>>)
      requires Valid()
      modifies this
      ensures Valid()
      ensures r.Ok? <==> pos <= |old(Edits.Visible(entries))|
      ensures r.Err? ==> entries == old(entries)
      ensures r.Ok? ==>
                var was := old(Edits.Text(entries));
                && Edits.Text(entries) == was[..pos] + text + was[pos..]
                && Run(old(entries), r.value) == Ok(entries)
                && Stamped(r.value, NextStamp(old(entries)), actor)
                && forall op :: op in r.value ==> LocalOp(old(entries), actor, op)
    {
      var visible := VisibleIds();
      if pos > |visible| {
        return Err;
      }
      var after := Edits.Cursor(visible, pos);
      var first := NextSeq();
      ghost var was := Edits.Text(entries);
      EditStart(entries, first, actor);
      TypeStart(entries, was, pos, text, after, first);
      var ops := Type(was, pos, text, first, actor, after);
      assert text[..|text|] == text;
      r := Ok(ops);
    }

    method Type(ghost was: string, ghost pos: nat, text: string, first: nat, actor: nat, at: Option<OpId>)
      returns (ops: seq<TextOp>)
      requires TypingAt(was, entries, pos, text, 0, pos, at, first)
      requires Editing(entries, entries, first, actor, [], first)
      modifies this
      ensures Typed(was, entries, pos, text, |text|)
      ensures Recorded(old(entries), entries, first, actor, ops)
    {
      ops := [];
      var after, stamp := at, first;
      ghost var start, k := entries, pos;
      for i := 0 to |text|
        invariant TypingAt(was, entries, pos, text, i, k, after, stamp)
        invariant Editing(start, entries, first, actor, ops, stamp)
      {
        var id := OpId(stamp, actor);
        var op := Insert(id, after, text[i]);
        TypeNext(was, entries, pos, text, i, k, after, id);
        EditOne(start, entries, first, actor, ops, stamp, op);
        var _ := Apply(op);
        ops := ops + [op];
        after, stamp, k := Some(id), stamp + 1, k + 1;
      }
    }

    /** Deletes `len` visible characters from visible position `pos`. */
    method LocalDelete(pos: nat, len: nat, actor: nat) returns (r: Result<seq<TextOp>>)
      requires Valid()
      modifies this
      ensures Valid()
      ensures r.Ok? <==> pos + len <= |old(Edits.Visible(entries))|
      ensures r.Err? ==> entries == old(entries)
      ensures r.Ok? ==>
                var was := old(Edits.Text(entries));
                && Edits.Text(entries) == was[..pos] + was[pos + len..]
                && Run(old(entries), r.value) == Ok(entries)
                && Stamped(r.value, NextStamp(old(entries)), actor)
                && forall op :: op in r.value ==> LocalOp(old(entries), actor, op)
    {
      var visible := VisibleIds();
      if pos + len > |visible| {
        return Err;
      }
      var first := NextSeq();
      ghost var was := Edits.Text(entries);
      EditStart(entries, first, actor);
      EraseStart(entries, visible, was, pos, len, first);
      var ops := Erase(visible, was, pos, len, first, actor);
      r := Ok(ops);
    }

    method Erase(visible: seq<OpId>, ghost was: string, pos: nat, len: nat, first: nat, actor: nat)
      returns (ops: seq<TextOp>)
      requires ErasingAt(visible, was, entries, pos, len, 0, first)
      requires Editing(entries, entries, first, actor, [], first)
      modifies this
      ensures Erasing(visible, was, entries, pos, len)
      ensures Recorded(old(entries), entries, first, actor, ops)
    {
      ops := [];
      var targets, stamp := visible[pos..pos + len], first;
      ghost var start := entries;
      for i := 0 to len
        invariant ErasingAt(visible, was, entries, pos, len, i, stamp)
        invariant Editing(start, entries, first, actor, ops, stamp)
      {
        var op := Delete(OpId(stamp, actor), targets[i]);
        EraseNext(visible, was, entries, pos, len, i, op.id, targets[i]);
        EditOne(start, entries, first, actor, ops, stamp, op);
        var _ := Apply(op);
        ops, stamp := ops + [op], stamp + 1;
      }
    }

    /** Applies ops in id order, stopping at the first that is refused; what was applied stays. */
    method ApplyOps(ops: seq<TextOp>) returns (r: Result<()>, ghost sorted: seq<TextOp>, ghost n: nat)
      requires Valid()
      modifies this
      ensures Valid()
      ensures ById(sorted) && multiset(sorted) == multiset(ops)
      ensures n <= |sorted| && Run(old(entries), sorted[..n]) == Ok(entries)
      ensures if r.Ok? then n == |sorted| else n < |sorted| && Applied(entries, sorted[n]).Err?
    {
      var queue := SortById(ops);
      sorted, n := queue, 0;
      for i := 0 to |queue|
        invariant Valid() && n == i
        invariant Run(old(entries), queue[..i]) == Ok(entries)
      {
        assert queue[..i + 1] == queue[..i] + [queue[i]];
        RunSnoc(old(entries), queue[..i], queue[i]);
        r := Apply(queue[i]);
        if r.Err? {
          return;
        }
        n := i + 1;
      }
      r := Ok(());
    }

    /** Per-actor high-water marks over every op the document shows. */
    method VersionVector() returns (vv: map<nat, nat>)
      ensures MarksOf(entries, vv) && forall x :: Mentions(entries, x) ==> Covers(vv, x)
      ensures forall a :: Mark(vv, a) == MarkOf(entries, a)
    {
      vv := map[];
      var todo := entries.Keys;
      while todo != {}
        invariant todo <= entries.Keys && MarksOf(entries, vv)
        invariant forall x :: x in entries && x !in todo ==>
                    Covers(vv, x) && (entries[x].deletedBy.Some? ==> Covers(vv, entries[x].deletedBy.value))
      {
        var id :| id in todo;
        todo := todo - {id};
        SeeCovers(entries, vv, id);
        vv := See(vv, id);
        if entries[id].deletedBy.Some? {
          SeeCovers(entries, vv, entries[id].deletedBy.value);
          vv := See(vv, entries[id].deletedBy.value);
        }
      }
      forall a ensures Mark(vv, a) == MarkOf(entries, a) {
        MarkIs(entries, vv, a);
      }
    }

    /** The ops this document has and `older`'s version vector does not cover, in id order. */
    method OpsSince(older: CrdtText) returns (ops: seq<TextOp>)
      ensures IsDelta(older.entries, entries, ops) && ById(ops)
    {
      var vv := older.VersionVector();
      ops := [];
      var todo := entries.Keys;
      while todo != {}
        invariant todo <= entries.Keys
        invariant forall op :: op in ops <==> InDelta(older.entries, entries, op) && About(op) !in todo
      {
        var id :| id in todo;
        todo := todo - {id};
        var entry := entries[id];
        AboveMarks(older.entries, vv, id);
        if Mark(vv, id.actor) < id.stamp {
          ops := ops + [Insert(id, entry.parent, entry.ch)];
        }
        if entry.deletedBy.Some? {
          AboveMarks(older.entries, vv, entry.deletedBy.value);
          if Mark(vv, entry.deletedBy.value.actor) < entry.deletedBy.value.stamp {
            ops := ops + [Delete(entry.deletedBy.value, id)];
          }
        }
      }
      ghost var found := ops;
      ops := SortById(ops);
      forall op ensures op in ops <==> op in found {
        assert op in multiset(ops) <==> op in multiset(found);
      }
    }
  }

  /** A held document catches up by applying the delta it is sent; it ends equal to the sender's
      exactly when every change since is above its high-water marks. */
  method CatchUp(held: CrdtText, newer: CrdtText) returns (r: Result<()>)
    requires held != newer && held.Valid() && Lamport(newer.entries)
    modifies held
    ensures held.Valid()
    ensures r.Ok? && held.entries == newer.entries <==> DeltaFits(old(held.entries), newer.entries)
  {
    ghost var was := held.entries;
    var ops := newer.OpsSince(held);
    ghost var sorted, n;
    r, sorted, n := held.ApplyOps(ops);
    forall op ensures op in sorted <==> op in ops {
      assert op in multiset(sorted) <==> op in multiset(ops);
    }
    DeltaExact(was, newer.entries, sorted);
    if r.Err? {
      RefusedRun(was, sorted, n);
    } else {
      assert sorted[..n] == sorted;
    }
  }
}
