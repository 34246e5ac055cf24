/** Editors with actors of their own, typing and receiving each other's ops in any order. */
module CrdtEditors {
  import opened Wrappers
  import opened CrdtDocs
  import opened CrdtConvergence
  import opened CrdtDelta
  import opened CrdtMarks

  /** What each editor has applied, in its own order, and every op anyone ever made. */
  datatype Network = Network(logs: seq<seq<TextOp>>, history: seq<TextOp>)

  datatype Event = Edit(i: nat, ops: seq<TextOp>) | Receive(i: nat, op: TextOp)

  ghost function Start(n: nat): Network {
    Network(seq(n, _ => []), [])
  }

  /** A local edit applies and stamps its ops from the editor's next stamp on; a received op was made
      by someone and applies. */
  ghost predicate Possible(actors: seq<nat>, net: Network, e: Event) {
    && e.i < |net.logs| == |actors| && Run(map[], net.logs[e.i]).Ok?
    && var d := Run(map[], net.logs[e.i]).value;
       match e
       case Edit(i, ops) => Run(d, ops).Ok? && Stamped(ops, NextStamp(d), actors[i])
       case Receive(_, op) => op in net.history && Applied(d, op).Ok?
  }

  ghost function After(net: Network, e: Event): Network
    requires e.i < |net.logs|
  {
    match e
    case Edit(i, ops) => Network(net.logs[i := net.logs[i] + ops], net.history + ops)
    case Receive(i, op) => net.(logs := net.logs[i := net.logs[i] + [op]])
  }

  ghost predicate PossibleRun(actors: seq<nat>, net: Network, events: seq<Event>)
    decreases |events|
  {
    |events| > 0 ==> Possible(actors, net, events[0]) && PossibleRun(actors, After(net, events[0]), events[1..])
  }

  ghost function End(actors: seq<nat>, net: Network, events: seq<Event>): Network
    requires PossibleRun(actors, net, events)
    decreases |events|
  {
    if |events| == 0 then net else End(actors, After(net, events[0]), events[1..])
  }

  ghost predicate DistinctActors(actors: seq<nat>) {
    forall i, j :: 0 <= i < j < |actors| ==> actors[i] != actors[j]
  }

  /** Every log is a run, of known ops. */
  ghost predicate LogsRun(net: Network) {
    forall i :: 0 <= i < |net.logs| ==>
      Run(map[], net.logs[i]).Ok? && forall op :: op in net.logs[i] ==> op in net.history
  }

  /** An insert is in the log of the one editor whose actor it carries. */
  ghost predicate InsertsOwned(actors: seq<nat>, net: Network) {
    forall op :: op in net.history && op.Insert? ==> Owned(actors, net, op)
  }

  ghost predicate Owned(actors: seq<nat>, net: Network, op: TextOp) {
    exists i :: 0 <= i < |actors| == |net.logs| && op.id.actor == actors[i] && op in net.logs[i]
  }

  ghost predicate Sound(actors: seq<nat>, net: Network) {
    && |net.logs| == |actors| && LogsRun(net) && InsertsOwned(actors, net)
    && Consistent(map[], net.history) && forall op :: op in net.history ==> LamportOp(op)
  }

  /** The document editor `i` holds. */
  ghost function Held(net: Network, i: nat): Doc
    requires LogsRun(net) && i < |net.logs|
  {
    Run(map[], net.logs[i]).value
  }

  /** Ops stamped from above a document on keep the Lamport discipline. */
  lemma {:induction false} EditLamport(d: Doc, ops: seq<TextOp>, first: nat, actor: nat)
    requires Run(d, ops).Ok? && Stamped(ops, first, actor)
    requires first > 0 && forall x :: x in d ==> x.stamp < first
    ensures forall x :: x in Run(d, ops).value ==> x.stamp < first + |ops|
    ensures forall op :: op in ops ==> LamportOp(op)
  {
    if ops != [] {
      var n := |ops| - 1;
      EditLamport(d, ops[..n], first, actor);
      assert ops == ops[..n] + [ops[n]];
    }
  }

  /** A new insert takes no id that any insert had before. */
  lemma FreshId(actors: seq<nat>, net: Network, i: nat, ops: seq<TextOp>, x: TextOp, y: TextOp)
    requires DistinctActors(actors) && Sound(actors, net) && Possible(actors, net, Edit(i, ops))
    requires x in net.history && x.Insert? && y in ops && y.Insert?
    ensures x.id != y.id
  {
    var d := Run(map[], net.logs[i]).value;
    var k :| 0 <= k < |ops| && ops[k] == y;
    StampedAt(ops, NextStamp(d), actors[i], k);
    var j :| 0 <= j < |actors| && x.id.actor == actors[j] && x in net.logs[j];
    if x.id == y.id {
      assert i == j;
      assert x == Insert(x.id, x.after, x.ch) && Inserts(net.logs[i], x.id);
      InsertsRemembered(map[], net.logs[i], x.id);
    }
  }

  lemma SameStampSameOp(ops: seq<TextOp>, first: nat, actor: nat, x: TextOp, y: TextOp)
    requires Stamped(ops, first, actor) && x in ops && y in ops && x.id == y.id
    ensures x == y
  {
    var k :| 0 <= k < |ops| && ops[k] == x;
    var m :| 0 <= m < |ops| && ops[m] == y;
    StampedAt(ops, first, actor, k);
    StampedAt(ops, first, actor, m);
  }

  lemma EditConsistent(actors: seq<nat>, net: Network, i: nat, ops: seq<TextOp>)
    requires DistinctActors(actors) && Sound(actors, net) && Possible(actors, net, Edit(i, ops))
    ensures Consistent(map[], net.history + ops)
  {
    forall x, y | x in net.history + ops && y in net.history + ops && x.Insert? && y.Insert? && x.id == y.id
      ensures x == y
    {
      if x in net.history && y in ops {
        FreshId(actors, net, i, ops, x, y);
      } else if x in ops && y in net.history {
        FreshId(actors, net, i, ops, y, x);
      } else if x in ops && y in ops {
        SameStampSameOp(ops, NextStamp(Run(map[], net.logs[i]).value), actors[i], x, y);
      }
    }
  }

  lemma EditOwned(actors: seq<nat>, net: Network, i: nat, ops: seq<TextOp>)
    requires Sound(actors, net) && Possible(actors, net, Edit(i, ops))
    ensures InsertsOwned(actors, After(net, Edit(i, ops)))
  {
    var next := After(net, Edit(i, ops));
    forall op | op in next.history && op.Insert? ensures Owned(actors, next, op) {
      if op in net.history {
        var j :| 0 <= j < |actors| && op.id.actor == actors[j] && op in net.logs[j];
        assert op in next.logs[j];
      } else {
        var k :| 0 <= k < |ops| && ops[k] == op;
        StampedAt(ops, NextStamp(Run(map[], net.logs[i]).value), actors[i], k);
        assert op in next.logs[i];
      }
    }
  }

  lemma StepSound(actors: seq<nat>, net: Network, e: Event)
    requires DistinctActors(actors) && Sound(actors, net) && Possible(actors, net, e)
    ensures Sound(actors, After(net, e))
  {
    var next := After(net, e);
    match e {
      case Edit(i, ops) =>
        RunConcat(map[], net.logs[i], ops);
        EditOwned(actors, net, i, ops);
        EditConsistent(actors, net, i, ops);
        var d := Held(net, i);
        assert forall x :: x in d ==> x in ShownIds(d);
        EditLamport(d, ops, NextStamp(d), actors[i]);
      case Receive(i, op) =>
        RunSnoc(map[], net.logs[i], op);
        forall x | x in next.history && x.Insert? ensures Owned(actors, next, x) {
          var j :| 0 <= j < |actors| && x.id.actor == actors[j] && x in net.logs[j];
          assert x in next.logs[j];
        }
    }
  }

  /** Over every run of editors with actors of their own, no insert id ever gets two meanings. */
  lemma {:induction false} EditorsSound(actors: seq<nat>, net: Network, events: seq<Event>)
    requires DistinctActors(actors) && Sound(actors, net) && PossibleRun(actors, net, events)
    ensures Sound(actors, End(actors, net, events))
    decreases |events|
  {
    if |events| > 0 {
      StepSound(actors, net, events[0]);
      EditorsSound(actors, After(net, events[0]), events[1..]);
    }
  }

  /** So two editors that have applied the same ops, however ordered and repeated, hold the same
      document, whatever the ops. */
  lemma EditorsConverge(actors: seq<nat>, events: seq<Event>, i: nat, j: nat)
    requires DistinctActors(actors) && PossibleRun(actors, Start(|actors|), events)
    requires i < |actors| && j < |actors|
    requires var net := End(actors, Start(|actors|), events);
             && i < |net.logs| && j < |net.logs| && forall op :: op in net.logs[i] <==> op in net.logs[j]
    ensures var net := End(actors, Start(|actors|), events);
            Run(map[], net.logs[i]).Ok? && Run(map[], net.logs[i]) == Run(map[], net.logs[j])
  {
    var net := End(actors, Start(|actors|), events);
    EditorsSound(actors, Start(|actors|), events);
    Converges(map[], net.logs[i], net.logs[j]);
  }

  /** A peer's delta needs no more than the marks: between any two editors the id-ordered ops above
      one's marks turn its document into the other's if and only if every change is above them. */
  lemma EditorsDelta(actors: seq<nat>, events: seq<Event>, i: nat, j: nat, ops: seq<TextOp>)
    requires DistinctActors(actors) && PossibleRun(actors, Start(|actors|), events)
    ensures Sound(actors, End(actors, Start(|actors|), events))
    ensures var net := End(actors, Start(|actors|), events);
            i < |actors| && j < |actors| ==>
              && Lamport(Held(net, j))
              && (IsDelta(Held(net, i), Held(net, j), ops) && ById(ops) ==>
                    (Run(Held(net, i), ops) == Ok(Held(net, j)) <==> DeltaFits(Held(net, i), Held(net, j))))
  {
    var net := End(actors, Start(|actors|), events);
    EditorsSound(actors, Start(|actors|), events);
    if i < |actors| && j < |actors| {
      RunLamport(map[], net.logs[j]);
      if IsDelta(Held(net, i), Held(net, j), ops) && ById(ops) {
        DeltaExact(Held(net, i), Held(net, j), ops);
      }
    }
  }
}
