/** Convergence: the document is a function of the set of ops, not of their order. */
module CrdtConvergence {
  import opened Wrappers
  import opened CrdtDocs

  // ----- what a run leaves behind -----

  /** `c` is a delete of `id` that the document had or the run brought. */
  ghost predicate Deleter(d: Doc, ops: seq<TextOp>, id: OpId, c: OpId) {
    (id in d && d[id].deletedBy == Some(c)) || Delete(c, id) in ops
  }

  /** `t` is the oldest delete of `id`, if there is any. */
  ghost predicate OldestDelete(d: Doc, ops: seq<TextOp>, id: OpId, t: Option<OpId>) {
    match t
    case None => forall c :: !Deleter(d, ops, id, c)
    case Some(m) => Deleter(d, ops, id, m) && forall c :: Deleter(d, ops, id, c) ==> c == m || Newer(c, m)
  }

  ghost predicate Inserts(ops: seq<TextOp>, id: OpId) {
    exists after, ch :: Insert(id, after, ch) in ops
  }

  /** `e` is what the ops add to `d`, told without their order. */
  ghost predicate Outcome(d: Doc, ops: seq<TextOp>, e: Doc) {
    && (forall id :: id in e <==> id in d || Inserts(ops, id))
    && Grows(d, e)
    && (forall id :: id in e && id !in d ==> Insert(id, e[id].parent, e[id].ch) in ops)
    && forall id :: id in e ==> OldestDelete(d, ops, id, e[id].deletedBy)
  }

  /** A successful run, in whatever order, leaves such an outcome. */
  lemma {:induction false} RunOutcome(d: Doc, ops: seq<TextOp>)
    requires Run(d, ops).Ok?
    ensures Outcome(d, ops, Run(d, ops).value)
    ensures forall op :: op in ops && op.Delete? ==> op.target in Run(d, ops).value
  {
    if ops != [] {
      var n := |ops| - 1;
      RunOutcome(d, ops[..n]);
      assert ops == ops[..n] + [ops[n]];
      OutcomeStep(d, ops[..n], Run(d, ops[..n]).value, ops[n]);
    }
  }

  lemma OutcomeStep(d: Doc, ops: seq<TextOp>, e: Doc, op: TextOp)
    requires Outcome(d, ops, e) && Applied(e, op).Ok?
    requires forall x :: x in ops && x.Delete? ==> x.target in e
    ensures Outcome(d, ops + [op], Applied(e, op).value)
  {
    var f, more := Applied(e, op).value, ops + [op];
    forall id ensures Inserts(more, id) <==> Inserts(ops, id) || (op.Insert? && op.id == id) {
      if op.Insert? && op.id == id { assert Insert(id, op.after, op.ch) in more; }
      if after, ch :| Insert(id, after, ch) in ops { assert Insert(id, after, ch) in more; }
    }
    forall id | id in f ensures OldestDelete(d, more, id, f[id].deletedBy) {
      assert forall c :: Deleter(d, more, id, c) <==> Deleter(d, ops, id, c) || op == Delete(c, id);
      if id in e {
        assert OldestDelete(d, ops, id, e[id].deletedBy);
        if op.Delete? && op.target == id { assert Deleter(d, more, id, op.id); }
      } else {
        assert forall c :: Delete(c, id) !in ops;
      }
    }
  }

  // ----- convergence -----

  /** Two inserts of one new character are the same insert. */
  ghost predicate Consistent(d: Doc, ops: seq<TextOp>) {
    forall x, y :: x in ops && y in ops && x.Insert? && y.Insert? && x.id == y.id && x.id !in d ==> x == y
  }

  lemma OldestUnique(d: Doc, a: seq<TextOp>, b: seq<TextOp>, id: OpId, s: Option<OpId>, t: Option<OpId>)
    requires forall op :: op in a <==> op in b
    requires OldestDelete(d, a, id, s) && OldestDelete(d, b, id, t)
    ensures s == t
  {
    assert forall c :: Deleter(d, a, id, c) <==> Deleter(d, b, id, c);
  }

  lemma OutcomeUnique(d: Doc, a: seq<TextOp>, b: seq<TextOp>, e: Doc, f: Doc)
    requires Outcome(d, a, e) && Outcome(d, b, f)
    requires Consistent(d, a) && forall op :: op in a <==> op in b
    ensures e == f
  {
    forall id ensures Inserts(a, id) <==> Inserts(b, id) {
    }
    forall id | id in e ensures e[id] == f[id] {
      assert id in f;
      OldestUnique(d, a, b, id, e[id].deletedBy, f[id].deletedBy);
      if id !in d {
        assert Insert(id, e[id].parent, e[id].ch) in a;
        assert Insert(id, f[id].parent, f[id].ch) in a;
      }
    }
    assert e.Keys == f.Keys;
  }

  /** Strong convergence: the same ops, in any order and with any repetition, from the same
      document, end in the same document. */
  lemma Converges(d: Doc, a: seq<TextOp>, b: seq<TextOp>)
    requires Run(d, a).Ok? && Run(d, b).Ok?
    requires Consistent(d, a) && forall op :: op in a <==> op in b
    ensures Run(d, a) == Run(d, b)
  {
    RunOutcome(d, a);
    RunOutcome(d, b);
    OutcomeUnique(d, a, b, Run(d, a).value, Run(d, b).value);
  }

  /** Re-applying any op already seen changes nothing. */
  lemma ReplayIsNoOp(d: Doc, ops: seq<TextOp>, op: TextOp)
    requires Run(d, ops).Ok? && op in ops
    ensures Applied(Run(d, ops).value, op) == Run(d, ops)
  {
    var e := Run(d, ops).value;
    RunOutcome(d, ops);
    match op
    case Insert(id, after, ch) =>
      assert Inserts(ops, id);
    case Delete(id, target) =>
      assert Deleter(d, ops, target, id);
      assert OldestDelete(d, ops, target, e[target].deletedBy);
      assert e == e[target := e[target]];
  }

  // ----- concurrent edits -----

  lemma {:induction false} RunConcat(d: Doc, a: seq<TextOp>, b: seq<TextOp>)
    requires Run(d, a).Ok?
    ensures Run(d, a + b) == Run(Run(d, a).value, b)
  {
    if b == [] {
      assert a + b == a;
    } else {
      var n := |b| - 1;
      RunConcat(d, a, b[..n]);
      assert a + b == (a + b[..n]) + [b[n]];
      RunSnoc(d, a + b[..n], b[n]);
    }
  }

  /** Ops that apply to a document apply to any later one. */
  lemma {:induction false} StillApplies(d: Doc, e: Doc, ops: seq<TextOp>)
    requires d.Keys <= e.Keys && Run(d, ops).Ok?
    ensures Run(e, ops).Ok? && Run(d, ops).value.Keys <= Run(e, ops).value.Keys
  {
    if ops != [] {
      StillApplies(d, e, ops[..|ops| - 1]);
    }
  }

  lemma BothOrdersApply(d: Doc, a: seq<TextOp>, b: seq<TextOp>)
    requires Run(d, a).Ok? && Run(d, b).Ok?
    ensures Run(d, a + b).Ok?
  {
    RunGrows(d, a);
    RunConcat(d, a, b);
    StillApplies(d, Run(d, a).value, b);
  }

  /** What the first of two concurrent edits inserted is kept as it inserted it. */
  lemma FirstInsertWins(d: Doc, a: seq<TextOp>, b: seq<TextOp>, op: TextOp)
    requires Run(d, a).Ok? && Run(d, b).Ok? && Consistent(d, a)
    requires op in a && op.Insert? && op.id !in d
    ensures Run(d, a + b).Ok? && op.id in Run(d, a + b).value
    ensures Run(d, a + b).value[op.id].parent == op.after && Run(d, a + b).value[op.id].ch == op.ch
  {
    var e := Run(d, a).value;
    BothOrdersApply(d, a, b);
    RunConcat(d, a, b);
    RunOutcome(d, a);
    RunGrows(e, b);
    assert Insert(op.id, op.after, op.ch) in a;
    assert Inserts(a, op.id);
    assert Insert(op.id, e[op.id].parent, e[op.id].ch) in a;
  }

  /** Two edits composed against the same snapshot can be applied back to back in either order,
      and the two orders agree exactly when no new character id was given two meanings. */
  lemma ConcurrentEditsMerge(d: Doc, a: seq<TextOp>, b: seq<TextOp>)
    requires Run(d, a).Ok? && Run(d, b).Ok?
    requires Consistent(d, a) && Consistent(d, b)
    ensures Run(d, a + b).Ok? && Run(d, b + a).Ok?
    ensures Run(d, a + b) == Run(d, b + a) <==> Consistent(d, a + b)
  {
    BothOrdersApply(d, a, b);
    BothOrdersApply(d, b, a);
    if Consistent(d, a + b) {
      Converges(d, a + b, b + a);
    }
    if Run(d, a + b) == Run(d, b + a) {
      forall x, y | x in a + b && y in a + b && x.Insert? && y.Insert? && x.id == y.id && x.id !in d
        ensures x == y
      {
        forall z | z in a && z.Insert? && z.id !in d { FirstInsertWins(d, a, b, z); }
        forall z | z in b && z.Insert? && z.id !in d { FirstInsertWins(d, b, a, z); }
      }
    }
  }

  /** Actors that collide do break convergence: two editors sharing an actor type different
      letters into the same empty snapshot, and the two orders of arrival differ. */
  lemma ActorCollisionDiverges()
    ensures var a, b := [Insert(OpId(1, 7), None, 'x')], [Insert(OpId(1, 7), None, 'y')];
            && Run(map[], a).Ok? && Run(map[], b).Ok?
            && Run(map[], a + b) != Run(map[], b + a)
  {
    var a, b := [Insert(OpId(1, 7), None, 'x')], [Insert(OpId(1, 7), None, 'y')];
    assert Run(map[], a) == Applied(map[], a[0]) by { assert a[..0] == []; }
    assert Run(map[], b) == Applied(map[], b[0]) by { assert b[..0] == []; }
    ConcurrentEditsMerge(map[], a, b);
    assert a[0] in a + b && b[0] in a + b;
  }
}
