/** Stamps and marks: what a document remembers of the ops it has applied. */
module CrdtMarks {
  import opened Wrappers
  import opened CrdtDocs
  import opened CrdtConvergence
  import opened CrdtDelta

  /** The ids of the ops a document still shows. */
  ghost function ShownIds(d: Doc): (s: set<OpId>)
    ensures forall x :: x in s <==> Mentions(d, x)
  {
    d.Keys + set k | k in d && d[k].deletedBy.Some? :: d[k].deletedBy.value
  }

  /** The highest stamp among some ids; 0 for none. */
  ghost function TopStamp(s: set<OpId>): (n: nat)
    ensures forall x :: x in s ==> x.stamp <= n
    ensures n == 0 || exists x :: x in s && x.stamp == n
  {
    if s == {} then 0
    else
      var x :| x in s;
      var rest := TopStamp(s - {x});
      if rest < x.stamp then x.stamp else rest
  }

  /** The sequence number of the next local op. */
  ghost function NextStamp(d: Doc): nat {
    TopStamp(ShownIds(d)) + 1
  }

  /** The high-water mark for an actor. */
  ghost function MarkOf(d: Doc, actor: nat): nat {
    TopStamp(set x | x in ShownIds(d) && x.actor == actor)
  }

  lemma StampIs(d: Doc, n: nat)
    requires n > 0 && (forall x :: Mentions(d, x) ==> x.stamp < n)
    requires n == 1 || exists x :: Mentions(d, x) && x.stamp == n - 1
    ensures n == NextStamp(d)
  {
  }

  /** Ids counted up from `first`: what the ops of one local edit carry. */
  ghost predicate Stamped(ops: seq<TextOp>, first: nat, actor: nat) {
    ops == [] || (ops[|ops| - 1].id == OpId(first + |ops| - 1, actor) && Stamped(ops[..|ops| - 1], first, actor))
  }

  lemma {:induction false} StampedAt(ops: seq<TextOp>, first: nat, actor: nat, i: nat)
    requires Stamped(ops, first, actor) && i < |ops|
    ensures ops[i].id == OpId(first + i, actor)
  {
    if i < |ops| - 1 { StampedAt(ops[..|ops| - 1], first, actor, i); }
  }

  lemma StampedSnoc(ops: seq<TextOp>, first: nat, actor: nat, op: TextOp)
    requires Stamped(ops, first, actor) && op.id == OpId(first + |ops|, actor)
    ensures Stamped(ops + [op], first, actor)
  {
    assert (ops + [op])[..|ops|] == ops;
  }

  /** The op displaces a tombstone that no other character carries and that is no character's id. */
  ghost predicate Displaces(d: Doc, op: TextOp, t: OpId) {
    && op.Delete? && op.target in d && d[op.target].deletedBy == Some(t)
    && Newer(t, op.id) && t !in d
    && forall k :: k in d && k != op.target ==> d[k].deletedBy != Some(t)
  }

  /** Exactly what an op makes a document forget: the id of a delete it displaces. */
  lemma ForgetsExactly(d: Doc, op: TextOp, x: OpId)
    requires Applied(d, op).Ok?
    ensures Mentions(d, x) && !Mentions(Applied(d, op).value, x) <==> Displaces(d, op, x)
  {
    var e := Applied(d, op).value;
    if Mentions(d, x) && x !in d {
      var k :| k in d && d[k].deletedBy == Some(x);
      assert k in e && (op.Insert? || k != op.target ==> e[k].deletedBy == Some(x));
      forall j | j in d && op.Delete? && j != op.target ensures e[j] == d[j] {
      }
    }
    if Displaces(d, op, x) {
      assert e[op.target].deletedBy == Some(op.id);
    }
  }

  /** Some op is forgotten if and only if a later delete is displaced by an earlier one. */
  lemma ForgetsIff(d: Doc, op: TextOp)
    requires Applied(d, op).Ok?
    ensures (exists x :: Mentions(d, x) && !Mentions(Applied(d, op).value, x)) <==> exists t :: Displaces(d, op, t)
  {
    forall x ensures Mentions(d, x) && !Mentions(Applied(d, op).value, x) <==> Displaces(d, op, x) {
      ForgetsExactly(d, op, x);
    }
  }

  /** The op is a delete that loses to an older tombstone and is not shown otherwise. */
  ghost predicate Ignored(d: Doc, op: TextOp) {
    && op.Delete? && op.target in d && d[op.target].deletedBy.Some?
    && Newer(op.id, d[op.target].deletedBy.value) && !Mentions(d, op.id)
  }

  /** Exactly which ops leave no trace of themselves, and then nothing else changes either. */
  lemma IgnoredExactly(d: Doc, op: TextOp)
    requires Applied(d, op).Ok?
    ensures !Mentions(Applied(d, op).value, op.id) <==> Ignored(d, op)
    ensures Ignored(d, op) ==> Applied(d, op).value == d
    ensures NextStamp(Applied(d, op).value) <= op.id.stamp <==> Ignored(d, op) && NextStamp(d) <= op.id.stamp
  {
    var e := Applied(d, op).value;
    if op.Delete? && d[op.target].deletedBy == None {
      assert e[op.target].deletedBy == Some(op.id);
    } else if op.Delete? {
      var t := d[op.target].deletedBy.value;
      if Newer(op.id, t) || op.id == t {
        assert e == d;
      } else {
        assert e[op.target].deletedBy == Some(op.id);
      }
    }
    assert Mentions(e, op.id) ==> op.id in ShownIds(e);
  }

  /** Every op of the run leaves its trace and displaces no other. */
  ghost predicate Keeps(d: Doc, ops: seq<TextOp>)
    requires Run(d, ops).Ok?
  {
    ops == [] ||
    (var n := |ops| - 1;
     var before := Run(d, ops[..n]).value;
     Keeps(d, ops[..n]) && !Ignored(before, ops[n]) && forall t :: !Displaces(before, ops[n], t))
  }

  /** Over such a run the promise holds: the next stamp and the marks are above every op applied. */
  lemma {:induction false} KeepsAll(d: Doc, ops: seq<TextOp>, x: OpId)
    requires Run(d, ops).Ok? && Keeps(d, ops)
    requires Mentions(d, x) || exists op :: op in ops && op.id == x
    ensures Mentions(Run(d, ops).value, x) && x.stamp < NextStamp(Run(d, ops).value)
    ensures x.stamp <= MarkOf(Run(d, ops).value, x.actor)
  {
    var e := Run(d, ops).value;
    if ops != [] {
      var n := |ops| - 1;
      var before := Run(d, ops[..n]).value;
      IgnoredExactly(before, ops[n]);
      if x != ops[n].id {
        if op :| op in ops && op.id == x { assert op in ops[..n]; }
        KeepsAll(d, ops[..n], x);
        ForgetsExactly(before, ops[n], x);
      }
    }
    assert x in ShownIds(e);
  }

  /** What an op leaves to be shown: the ids shown before, less a displaced one, and perhaps its own. */
  lemma ShownAfter(d: Doc, op: TextOp, x: OpId)
    requires Applied(d, op).Ok?
    ensures Mentions(Applied(d, op).value, x) ==> Mentions(d, x) || x == op.id
    ensures (exists t :: Displaces(d, op, t)) ==> Mentions(Applied(d, op).value, op.id)
  {
    var e := Applied(d, op).value;
    if Mentions(e, x) && x !in e {
      var k :| k in e && e[k].deletedBy == Some(x);
      assert x != op.id ==> k in d && d[k].deletedBy == Some(x);
    }
    if t :| Displaces(d, op, t) {
      assert e[op.target].deletedBy == Some(op.id);
    }
  }

  /** The next stamp goes down if and only if the op displaces the one shown op that carried the top
      stamp, by one with a smaller stamp. */
  lemma NextStampDrops(d: Doc, op: TextOp)
    requires Applied(d, op).Ok?
    ensures NextStamp(Applied(d, op).value) < NextStamp(d) <==>
            exists t :: Displaces(d, op, t) && op.id.stamp < t.stamp &&
                        forall x :: Mentions(d, x) && x != t ==> x.stamp < t.stamp
  {
    var e := Applied(d, op).value;
    forall x
      ensures Mentions(d, x) && !Mentions(e, x) <==> Displaces(d, op, x)
      ensures Mentions(e, x) ==> Mentions(d, x) || x == op.id
      ensures (exists t :: Displaces(d, op, t)) ==> Mentions(e, op.id)
    {
      ForgetsExactly(d, op, x);
      ShownAfter(d, op, x);
    }
  }

  /** An actor's mark goes down if and only if the op displaces the actor's highest shown op. */
  lemma MarkDrops(d: Doc, op: TextOp, actor: nat)
    requires Applied(d, op).Ok?
    ensures MarkOf(Applied(d, op).value, actor) < MarkOf(d, actor) <==>
            exists t :: Displaces(d, op, t) && t.actor == actor && 0 < t.stamp == MarkOf(d, actor)
  {
    var e := Applied(d, op).value;
    forall x
      ensures Mentions(d, x) && !Mentions(e, x) <==> Displaces(d, op, x)
      ensures Mentions(e, x) ==> Mentions(d, x) || x == op.id
    {
      ForgetsExactly(d, op, x);
      ShownAfter(d, op, x);
    }
  }

  /** Inserts are never forgotten: after any run, every character there was and every one the run
      inserted is below the next stamp, so no later local insert takes its id. */
  lemma InsertsRemembered(d: Doc, ops: seq<TextOp>, x: OpId)
    requires Run(d, ops).Ok? && (x in d || Inserts(ops, x))
    ensures x in Run(d, ops).value && x.stamp < NextStamp(Run(d, ops).value)
    ensures x.stamp <= MarkOf(Run(d, ops).value, x.actor)
  {
    RunOutcome(d, ops);
    assert Mentions(Run(d, ops).value, x);
  }

  // ----- what a whole run remembers -----

  /** Told without the order of the ops: `x` is a character's id or the oldest delete of one. */
  ghost predicate Remains(d: Doc, ops: seq<TextOp>, x: OpId) {
    || x in d || Inserts(ops, x)
    || exists k :: (k in d || Inserts(ops, k)) && OldestDelete(d, ops, k, Some(x))
  }

  /** Exactly the ops a document still shows after a run, in whatever order they came. */
  lemma ShownAfterRun(d: Doc, ops: seq<TextOp>, x: OpId)
    requires Run(d, ops).Ok?
    ensures Mentions(Run(d, ops).value, x) <==> Remains(d, ops, x)
  {
    var e := Run(d, ops).value;
    RunOutcome(d, ops);
    if k :| k in e && e[k].deletedBy == Some(x) {
      assert OldestDelete(d, ops, k, Some(x));
    }
    if k :| (k in d || Inserts(ops, k)) && OldestDelete(d, ops, k, Some(x)) {
      assert k in e && OldestDelete(d, ops, k, e[k].deletedBy);
      OldestUnique(d, ops, ops, k, e[k].deletedBy, Some(x));
    }
  }

  /** So the next stamp is above an op if and only if some op that remains is at least as high, and
      the op's mark covers it if and only if such an op of the same actor remains. */
  lemma PromiseExact(d: Doc, ops: seq<TextOp>, x: OpId)
    requires Run(d, ops).Ok?
    ensures x.stamp < NextStamp(Run(d, ops).value) <==>
            x.stamp == 0 || exists y :: Remains(d, ops, y) && x.stamp <= y.stamp
    ensures x.stamp <= MarkOf(Run(d, ops).value, x.actor) <==>
            x.stamp == 0 || exists y :: Remains(d, ops, y) && y.actor == x.actor && x.stamp <= y.stamp
  {
    var e := Run(d, ops).value;
    forall y ensures y in ShownIds(e) <==> Remains(d, ops, y) {
      ShownAfterRun(d, ops, y);
    }
  }

  // ----- the promise "greater than every op seen so far" fails -----

  const A: TextOp := Insert(OpId(1, 9), None, 'a')
  const B: TextOp := Insert(OpId(2, 9), Some(OpId(1, 9)), 'b')
  const C: TextOp := Insert(OpId(3, 9), Some(OpId(2, 9)), 'c')
  const GONE: TextOp := Delete(OpId(4, 9), OpId(1, 9))

  /** Actor 9 types three letters and deletes the first. */
  const PEER: Doc := map[OpId(1, 9) := Entry(None, 'a', Some(OpId(4, 9))),
                         OpId(2, 9) := Entry(Some(OpId(1, 9)), 'b', None),
                         OpId(3, 9) := Entry(Some(OpId(2, 9)), 'c', None)]

  /** Actor 1 deletes the same letter, having seen nothing else. */
  const CONCURRENT: TextOp := Delete(OpId(2, 1), OpId(1, 9))

  const HELD: Doc := PEER[OpId(1, 9) := Entry(None, 'a', Some(OpId(2, 1)))]

  const REUSED: TextOp := Insert(OpId(4, 9), Some(OpId(3, 9)), 'd')

  const NEWER: Doc := HELD[OpId(4, 9) := Entry(Some(OpId(3, 9)), 'd', None)]

  lemma Typing()
    ensures Run(map[], [A] + [B] + [C] + [GONE]) == Ok(PEER)
  {
    assert [A][..0] == [];
    assert Run(map[], [A]) == Ok(map[OpId(1, 9) := Entry(None, 'a', None)]);
    RunSnoc(map[], [A], B);
    RunSnoc(map[], [A] + [B], C);
    RunSnoc(map[], [A] + [B] + [C], GONE);
    assert Run(map[], [A] + [B] + [C]).Ok?;
    assert Run(map[], [A] + [B] + [C] + [GONE]).value == PEER;
  }

  lemma StampsOf(d: Doc, n: nat, top: OpId)
    requires Mentions(d, top) && top.stamp == n && forall x :: Mentions(d, x) ==> x.stamp <= n
    ensures NextStamp(d) == n + 1
  {
  }

  lemma PeerStamps()
    ensures Mentions(PEER, OpId(4, 9)) && NextStamp(PEER) == 5
  {
    assert PEER[OpId(1, 9)].deletedBy == Some(OpId(4, 9));
    StampsOf(PEER, 4, OpId(4, 9));
  }

  lemma HeldStamps()
    ensures NextStamp(HELD) == 4
  {
    assert Mentions(HELD, OpId(3, 9));
    StampsOf(HELD, 3, OpId(3, 9));
  }

  /** A delete that comes second to an older one is not remembered at all. */
  lemma LateDeleteIgnored()
    ensures var late := Delete(OpId(7, 2), OpId(1, 9));
            Applied(PEER, late) == Ok(PEER) && NextStamp(PEER) == 5 <= late.id.stamp
  {
    PeerStamps();
    var entry := PEER[OpId(1, 9)];
    assert entry.(deletedBy := Some(OpId(4, 9))) == entry;
    assert PEER[OpId(1, 9) := entry] == PEER;
  }

  lemma ReusedApplies()
    ensures Applied(PEER, CONCURRENT) == Ok(HELD) && Applied(HELD, REUSED) == Ok(NEWER)
  {
    assert PEER[OpId(1, 9)].(deletedBy := Some(OpId(2, 1))) == HELD[OpId(1, 9)];
  }

  lemma NeverSent()
    ensures !InDelta(PEER, NEWER, REUSED) && !DeltaFits(PEER, NEWER)
  {
    PeerStamps();
    assert !Unseen(PEER, OpId(4, 9));
    assert OpId(4, 9) in NEWER && OpId(4, 9) !in PEER;
  }

  /** A causal run with distinct actors: the concurrent delete displaces op (4,9), so the next insert
      of actor 9 takes that id again; a peer that still shows the delete never gets the insert. */
  lemma StampReused()
    ensures Run(map[], [A] + [B] + [C] + [GONE]) == Ok(PEER)
    ensures LamportOp(A) && LamportOp(B) && LamportOp(C) && LamportOp(GONE) && LamportOp(CONCURRENT)
    ensures Applied(PEER, CONCURRENT) == Ok(HELD) && NextStamp(PEER) == 5 && NextStamp(HELD) == 4
    ensures Applied(HELD, REUSED) == Ok(NEWER) && REUSED.id == OpId(NextStamp(HELD), 9)
    ensures !InDelta(PEER, NEWER, REUSED) && !DeltaFits(PEER, NEWER)
  {
    Typing();
    PeerStamps();
    HeldStamps();
    NeverSent();
    ReusedApplies();
  }
}
