/** Deltas: when the ops above a document's version vector are all it is missing. */
module CrdtDelta {
  import opened Wrappers
  import opened Sorted
  import opened CrdtDocs
  import opened CrdtConvergence

  /** `x` is the id of an op the document has applied and still shows. */
  ghost predicate Mentions(d: Doc, x: OpId) {
    x in d || exists k :: k in d && d[k].deletedBy == Some(x)
  }

  /** `id` is above the document's high-water mark for its actor (0 when it has none). */
  ghost predicate Unseen(d: Doc, id: OpId) {
    id.stamp > 0 && forall x :: Mentions(d, x) && x.actor == id.actor ==> x.stamp < id.stamp
  }

  /** Lamport discipline: real stamps, parents older than children, targets older than deletes. */
  ghost predicate Lamport(d: Doc) {
    forall id :: id in d ==>
      && id.stamp > 0
      && (d[id].parent.Some? ==> d[id].parent.value in d && Newer(id, d[id].parent.value))
      && (d[id].deletedBy.Some? ==> Newer(d[id].deletedBy.value, id))
  }

  ghost predicate LamportOp(op: TextOp) {
    && op.id.stamp > 0
    && (op.Insert? && op.after.Some? ==> Newer(op.id, op.after.value))
    && (op.Delete? ==> Newer(op.id, op.target))
  }

  lemma {:induction false} RunLamport(d: Doc, ops: seq<TextOp>)
    requires Lamport(d) && Run(d, ops).Ok? && forall op :: op in ops ==> LamportOp(op)
    ensures Lamport(Run(d, ops).value)
  {
    if ops != [] {
      RunLamport(d, ops[..|ops| - 1]);
      assert ops[|ops| - 1] in ops;
    }
  }

  // ----- the delta -----

  ghost predicate InDelta(older: Doc, newer: Doc, op: TextOp) {
    && Unseen(older, op.id)
    && match op
       case Insert(id, after, ch) => id in newer && newer[id].parent == after && newer[id].ch == ch
       case Delete(id, target) => target in newer && newer[target].deletedBy == Some(id)
  }

  ghost predicate IsDelta(older: Doc, newer: Doc, ops: seq<TextOp>) {
    forall op :: op in ops <==> InDelta(older, newer, op)
  }

  /** Ordered by op id, equal ids in any order. */
  ghost predicate ById(ops: seq<TextOp>) {
    NonDecreasing(ops, NewerOp)
  }

  predicate NewerOp(x: TextOp, y: TextOp) {
    Newer(x.id, y.id)
  }

  /** Every change since `older` is above its high-water marks. */
  ghost predicate DeltaFits(older: Doc, newer: Doc) {
    && Grows(older, newer)
    && (forall id :: id in newer && id !in older ==> Unseen(older, id))
    && forall id :: id in newer ==>
         TombstoneFits(older, if id in older then older[id].deletedBy else None, newer[id].deletedBy)
  }

  /** The tombstone is unchanged, or the newer one is above the marks and displaces the older. */
  ghost predicate TombstoneFits(older: Doc, was: Option<OpId>, now: Option<OpId>) {
    was == now || (now.Some? && Unseen(older, now.value) && (was.Some? ==> Newer(was.value, now.value)))
  }

  /** In id order every parent and every delete target is there before it is needed. */
  lemma {:induction false} DeltaApplies(older: Doc, newer: Doc, ops: seq<TextOp>, n: nat)
    requires Lamport(newer) && IsDelta(older, newer, ops) && ById(ops) && n <= |ops|
    requires forall id :: id in newer && id !in older ==> Unseen(older, id)
    ensures Run(older, ops[..n]).Ok?
    ensures older.Keys <= Run(older, ops[..n]).value.Keys
    ensures forall op :: op in ops[..n] && op.Insert? ==> op.id in Run(older, ops[..n]).value
  {
    if n > 0 {
      DeltaApplies(older, newer, ops, n - 1);
      var e, op := Run(older, ops[..n - 1]).value, ops[n - 1];
      assert ops[..n] == ops[..n - 1] + [op];
      RunSnoc(older, ops[..n - 1], op);
      assert op in ops && InDelta(older, newer, op);
      if op.Insert? && op.after.Some? {
        DependencyFirst(older, newer, ops, n - 1, op.after.value);
      } else if op.Delete? {
        DependencyFirst(older, newer, ops, n - 1, op.target);
      }
    }
  }

  lemma DependencyFirst(older: Doc, newer: Doc, ops: seq<TextOp>, n: nat, id: OpId)
    requires IsDelta(older, newer, ops) && ById(ops) && n < |ops|
    requires id in newer && (id !in older ==> Unseen(older, id)) && Newer(ops[n].id, id)
    ensures id in older || exists op :: op in ops[..n] && op.Insert? && op.id == id
  {
    if id !in older {
      var op := Insert(id, newer[id].parent, newer[id].ch);
      assert InDelta(older, newer, op);
      assert op in ops;
      var m :| 0 <= m < |ops| && ops[m] == op;
      assert m < n;
      assert ops[..n][m] == op;
    }
  }

  lemma FitsSuffices(older: Doc, newer: Doc, ops: seq<TextOp>)
    requires Lamport(newer) && IsDelta(older, newer, ops) && ById(ops) && DeltaFits(older, newer)
    ensures Run(older, ops) == Ok(newer)
  {
    DeltaApplies(older, newer, ops, |ops|);
    assert ops[..|ops|] == ops;
    var e := Run(older, ops).value;
    RunOutcome(older, ops);
    forall id ensures id in e <==> id in newer {
      DeltaInserts(older, newer, ops, id);
    }
    forall id | id in newer ensures e[id] == newer[id] {
      if id !in older {
        assert Insert(id, e[id].parent, e[id].ch) in ops;
        assert InDelta(older, newer, Insert(id, e[id].parent, e[id].ch));
      }
      assert OldestDelete(older, ops, id, e[id].deletedBy);
      TombstoneArrives(older, newer, ops, id, e[id].deletedBy);
    }
    assert e.Keys == newer.Keys;
    assert e == newer;
  }

  lemma DeltaInserts(older: Doc, newer: Doc, ops: seq<TextOp>, id: OpId)
    requires IsDelta(older, newer, ops)
    ensures Inserts(ops, id) <==> id in newer && Unseen(older, id)
  {
    if after, ch :| Insert(id, after, ch) in ops {
      assert InDelta(older, newer, Insert(id, after, ch));
    }
    if id in newer && Unseen(older, id) {
      assert InDelta(older, newer, Insert(id, newer[id].parent, newer[id].ch));
    }
  }

  lemma TombstoneArrives(older: Doc, newer: Doc, ops: seq<TextOp>, id: OpId, t: Option<OpId>)
    requires IsDelta(older, newer, ops) && id in newer && OldestDelete(older, ops, id, t)
    requires TombstoneFits(older, if id in older then older[id].deletedBy else None, newer[id].deletedBy)
    ensures t == newer[id].deletedBy
  {
    var now := newer[id].deletedBy;
    forall c ensures Delete(c, id) in ops <==> now == Some(c) && Unseen(older, c) {
      assert InDelta(older, newer, Delete(c, id)) <==> now == Some(c) && Unseen(older, c);
    }
    if now.Some? { assert Deleter(older, ops, id, now.value); }
  }

  lemma FitsNecessary(older: Doc, newer: Doc, ops: seq<TextOp>)
    requires IsDelta(older, newer, ops) && Run(older, ops) == Ok(newer)
    ensures DeltaFits(older, newer)
  {
    RunOutcome(older, ops);
    forall id | id in newer && id !in older ensures Unseen(older, id) {
      assert InDelta(older, newer, Insert(id, newer[id].parent, newer[id].ch));
    }
    forall id | id in newer
      ensures TombstoneFits(older, if id in older then older[id].deletedBy else None, newer[id].deletedBy)
    {
      var was, now := if id in older then older[id].deletedBy else None, newer[id].deletedBy;
      assert OldestDelete(older, ops, id, now);
      if was.Some? { assert Deleter(older, ops, id, was.value); }
      if now.Some? && was != now {
        assert Delete(now.value, id) in ops;
        assert InDelta(older, newer, Delete(now.value, id));
      }
    }
  }

  /** Delta correctness, exactly: the id-ordered ops above the older document's marks turn it into
      the newer one if and only if every change since is above those marks. */
  lemma DeltaExact(older: Doc, newer: Doc, ops: seq<TextOp>)
    requires Lamport(newer) && IsDelta(older, newer, ops) && ById(ops)
    ensures Run(older, ops) == Ok(newer) <==> DeltaFits(older, newer)
  {
    if DeltaFits(older, newer) { FitsSuffices(older, newer, ops); }
    if Run(older, ops) == Ok(newer) { FitsNecessary(older, newer, ops); }
  }

  /** The condition holds whenever every op since was itself above the marks, as each local edit is. */
  lemma EditsFit(older: Doc, ops: seq<TextOp>)
    requires Run(older, ops).Ok? && forall op :: op in ops ==> Unseen(older, op.id)
    ensures DeltaFits(older, Run(older, ops).value)
  {
    var newer := Run(older, ops).value;
    RunOutcome(older, ops);
    forall id | id in newer
      ensures TombstoneFits(older, if id in older then older[id].deletedBy else None, newer[id].deletedBy)
    {
      var was, now := if id in older then older[id].deletedBy else None, newer[id].deletedBy;
      assert OldestDelete(older, ops, id, now);
      if was.Some? { assert Deleter(older, ops, id, was.value); }
      if now.Some? && was != now { assert Delete(now.value, id) in ops; }
    }
  }

  /** It can fail: an op that arrives below its actor's mark is missing from the delta. */
  lemma LateOpIsLost()
    ensures var older: Doc := map[OpId(5, 1) := Entry(None, 'a', None)];
            var newer := older[OpId(3, 1) := Entry(None, 'b', None)];
            && Applied(older, Insert(OpId(3, 1), None, 'b')) == Ok(newer)
            && !InDelta(older, newer, Insert(OpId(3, 1), None, 'b'))
            && !DeltaFits(older, newer)
  {
    var older: Doc := map[OpId(5, 1) := Entry(None, 'a', None)];
    assert Mentions(older, OpId(5, 1));
  }
}
