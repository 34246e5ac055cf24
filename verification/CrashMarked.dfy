/** Runs with other contents: every run without the hole guard has one that fails. */
module CrashMarked {
  import opened Wrappers
  import opened Recovery
  import opened CrashSim
  import opened CrashRuns
  import opened CrashHoles

  /** The same step, except that a commit writes what `c` has for its transaction. */
  ghost function MarkStep(s: Sim, c: Contents, step: Step): Step {
    if step.Commit? then Commit(c.record(s.nextTx).deletes, c.record(s.nextTx).puts) else step
  }

  ghost function MarkRun(s: Sim, c: Contents, steps: seq<Step>): (r: seq<Step>)
    ensures |r| == |steps|
    ensures forall i :: 0 <= i < |r| ==> SameKind(r[i], steps[i])
    decreases |steps|
  {
    if steps == [] then [] else [MarkStep(s, c, steps[0])] + MarkRun(Next(s, steps[0]), c, steps[1..])
  }

  /** Equal up to what a commit writes. */
  ghost predicate SameKind(a: Step, b: Step) {
    a == b || (a.Commit? && b.Commit?)
  }

  // ----- marking commutes with the parts of a step -----

  lemma MarkedLogSnoc(log: seq<Record>, c: Contents, r: Record)
    ensures MarkedLog(log + [r], c) == MarkedLog(log, c) + [c.record(r.tx)]
  {
  }

  lemma MarkedSlices(log: seq<Record>, ckpts: seq<Checkpoint>, c: Contents, i: nat)
    ensures i <= |log| ==> MarkedLog(log[..i], c) == MarkedLog(log, c)[..i]
    ensures i <= |log| ==> MarkedLog(log[i..], c) == MarkedLog(log, c)[i..]
    ensures i <= |ckpts| ==> MarkedCkpts(ckpts[..i], c) == MarkedCkpts(ckpts, c)[..i]
    ensures i <= |ckpts| ==> MarkedCkpts(ckpts[i..], c) == MarkedCkpts(ckpts, c)[i..]
  {
  }

  lemma {:induction false} SoundMarked(ckpts: seq<Checkpoint>, c: Contents, corrupted: set<nat>)
    ensures SoundMax(MarkedCkpts(ckpts, c), corrupted) == SoundMax(ckpts, corrupted)
    decreases |ckpts|
  {
    if ckpts != [] {
      var n := |ckpts| - 1;
      MarkedSlices([], ckpts, c, n);
      SoundMarked(ckpts[..n], c, corrupted);
    }
  }

  lemma {:induction false} SoundMinMarked(ckpts: seq<Checkpoint>, c: Contents, corrupted: set<nat>)
    ensures SoundMin(MarkedCkpts(ckpts, c), corrupted) == SoundMin(ckpts, corrupted)
    decreases |ckpts|
  {
    if ckpts != [] {
      MarkedSlices([], ckpts, c, 1);
      SoundMinMarked(ckpts[1..], c, corrupted);
    }
  }

  lemma {:induction false} CompactedMarked(log: seq<Record>, c: Contents, covered: nat, cut: nat)
    requires Coherent(c)
    ensures Compacted(MarkedLog(log, c), covered, cut) == MarkedLog(Compacted(log, covered, cut), c)
    decreases |log|
  {
    if !(cut == 0 || log == [] || log[0].tx > covered) {
      MarkedSlices(log, [], c, 1);
      CompactedMarked(log[1..], c, covered, cut - 1);
    }
  }

  // ----- and with the steps -----

  lemma MarkedCommit(s: Sim, c: Contents, r: Record)
    requires Coherent(c) && Consistent(s) && r.tx == s.nextTx
    ensures CommitStep(Marked(s, c), c.record(s.nextTx)) == Marked(CommitStep(s, r), c)
  {
    MarkedLogSnoc(s.log, c, r);
    assert s.nextTx == s.last + 1;
    var a, b := CommitStep(Marked(s, c), c.record(s.nextTx)), Marked(CommitStep(s, r), c);
    assert a.history == b.history;
    assert a.log == b.log;
  }

  lemma MarkedCheckpoint(s: Sim, c: Contents, corrupt: bool)
    ensures CheckpointStep(Marked(s, c), corrupt) == Marked(CheckpointStep(s, corrupt), c)
  {
    SoundMarked(s.ckpts, c, s.corrupted);
    var a, b := CheckpointStep(Marked(s, c), corrupt), Marked(CheckpointStep(s, corrupt), c);
    assert a.ckpts == b.ckpts;
  }

  lemma MarkedPrune(s: Sim, c: Contents, prune: bool)
    ensures PruneStep(Marked(s, c), prune) == Marked(PruneStep(s, prune), c)
  {
    var n := if |s.ckpts| > 2 then |s.ckpts| - 2 else 0;
    MarkedSlices([], s.ckpts, c, n);
    assert Retained(Marked(s, c)) == MarkedCkpts(Retained(s), c);
    SoundMarked(Retained(s), c, s.corrupted);
    var a, b := PruneStep(Marked(s, c), prune), Marked(PruneStep(s, prune), c);
    forall t ensures HasCkpt(MarkedCkpts(Retained(s), c), t) <==> HasCkpt(Retained(s), t) {
      HasMarked(Retained(s), c, t);
    }
    assert a.corrupted == b.corrupted;
  }

  lemma HasMarked(ckpts: seq<Checkpoint>, c: Contents, t: nat)
    ensures HasCkpt(MarkedCkpts(ckpts, c), t) <==> HasCkpt(ckpts, t)
  {
    if HasCkpt(ckpts, t) {
      var i :| 0 <= i < |ckpts| && ckpts[i].tx == t;
      assert MarkedCkpts(ckpts, c)[i].tx == t;
    }
  }

  lemma MarkedMaintain(s: Sim, c: Contents, prune: bool, cut: nat)
    requires Coherent(c)
    ensures MaintainStep(Marked(s, c), prune, cut) == Marked(MaintainStep(s, prune, cut), c)
  {
    MarkedPrune(s, c, prune);
    var p := PruneStep(s, prune);
    SoundMinMarked(p.ckpts, c, p.corrupted);
    var oldest := SoundMin(p.ckpts, p.corrupted);
    if oldest.Some? { CompactedMarked(p.log, c, oldest.value, cut); }
  }

  lemma MarkedInv(s: Sim, c: Contents)
    requires Coherent(c) && Inv(s)
    ensures Inv(Marked(s, c)) && SameShape(s, Marked(s, c))
  {
    MarkedConsistent(s, c);
    CoveredShape(s, Marked(s, c));
  }

  lemma MarkedLegal(s: Sim, e: Sim, victim: Option<nat>, fault: Fault)
    requires SameShape(s, e)
    ensures Legal(s, Crash(victim, fault)) ==> Legal(e, Crash(victim, fault))
  {
  }

  lemma MarkedCrash(s: Sim, c: Contents, victim: Option<nat>, fault: Fault)
    requires Coherent(c) && Inv(s) && Legal(s, Crash(victim, fault))
    ensures Legal(Marked(s, c), Crash(victim, fault))
    ensures CrashStep(Marked(s, c), victim, fault) == Marked(CrashStep(s, victim, fault), c)
  {
    MarkedInv(s, c);
    MarkedLegal(s, Marked(s, c), victim, fault);
    CrashRecovers(s, victim, fault);
    CrashRecovers(Marked(s, c), victim, fault);
    var n, left := ExpectedN(s, victim), SurvivingLog(s, victim, fault);
    MarkedSurvivor(s, c, victim, fault);
    MarkedKept(s, c, victim);
    MarkedState(s, c, n);
    CrashStepIs(s, victim, fault, n, left, Recovered(s.ckpts, left));
    CrashStepIs(Marked(s, c), victim, fault, n, MarkedLog(left, c), Recovered(Marked(s, c).ckpts, MarkedLog(left, c)));
    MarkedAfterCrash(s, c, n, left, Recovered(s.ckpts, left).rows);
  }

  lemma MarkedKept(s: Sim, c: Contents, victim: Option<nat>)
    requires Coherent(c)
    ensures ExpectedN(Marked(s, c), victim) == ExpectedN(s, victim)
  {
    SoundMarked(s.ckpts, c, s.corrupted);
  }

  lemma MarkedAfterCrash(s: Sim, c: Contents, n: nat, left: seq<Record>, rows: Rows)
    requires Coherent(c) && n <= |s.history|
    ensures Marked(Sim(s.history[..n], rows, n + 1, left, LastTx(left), s.ckpts, s.corrupted, s.acked, n, n,
                       s.compactFloor), c) ==
            Sim(Marked(s, c).history[..n], c.rows(n), n + 1, MarkedLog(left, c), LastTx(MarkedLog(left, c)),
                Marked(s, c).ckpts, s.corrupted, s.acked, n, n, s.compactFloor)
  {
  }

  lemma MarkedSurvivor(s: Sim, c: Contents, victim: Option<nat>, fault: Fault)
    requires Legal(s, Crash(victim, fault))
    ensures SurvivingLog(Marked(s, c), victim, fault) == MarkedLog(SurvivingLog(s, victim, fault), c)
  {
    if victim.Some? {
      FaultLeavesPrefix(s.log, victim.value, fault);
      FaultLeavesPrefix(MarkedLog(s.log, c), victim.value, fault);
      MarkedSlices(s.log, [], c, victim.value);
    }
  }

  /** A step of the marked run leads where marking the original step leads. */
  lemma MarkedNext(s: Sim, c: Contents, step: Step)
    requires Coherent(c) && Inv(s) && Legal(s, step)
    ensures Legal(Marked(s, c), MarkStep(s, c, step))
    ensures Next(Marked(s, c), MarkStep(s, c, step)) == Marked(Next(s, step), c)
  {
    match step {
      case Commit(deletes, puts) => MarkedCommit(s, c, Record(s.nextTx, deletes, puts));
      case Abort =>
      case Ack =>
      case WriteCheckpoint(corrupt) => MarkedCheckpoint(s, c, corrupt);
      case Maintain(prune, cut) => MarkedMaintain(s, c, prune, cut);
      case Crash(victim, fault) => MarkedCrash(s, c, victim, fault);
    }
  }

  // ----- runs -----

  /** The version of a guarded run with other contents is a possible run and reaches the same shape with
      those contents. */
  lemma {:induction false} MarkedRunReaches(s: Sim, c: Contents, steps: seq<Step>)
    requires Coherent(c) && Inv(s) && Guarded(s, steps)
    ensures LegalRun(Marked(s, c), MarkRun(s, c, steps))
    ensures Run(Marked(s, c), MarkRun(s, c, steps)) == Marked(Run(s, steps), c)
    decreases |steps|
  {
    if steps != [] {
      MarkedNext(s, c, steps[0]);
      StepExact(s, steps[0]);
      MarkedRunReaches(Next(s, steps[0]), c, steps[1..]);
      var m := MarkRun(s, c, steps);
      assert m[0] == MarkStep(s, c, steps[0]) && m[1..] == MarkRun(Next(s, steps[0]), c, steps[1..]);
    }
  }

  lemma {:induction false} RunThen(s: Sim, steps: seq<Step>, step: Step)
    ensures Run(s, steps + [step]) == Next(Run(s, steps), step)
    ensures LegalRun(s, steps) && Legal(Run(s, steps), step) ==> LegalRun(s, steps + [step])
    decreases |steps|
  {
    var all := steps + [step];
    if steps == [] {
      assert all[1..] == [];
    } else {
      assert all[0] == steps[0] && all[1..] == steps[1..] + [step];
      RunThen(Next(s, steps[0]), steps[1..], step);
    }
  }

  /** The first step of a possible run that does not pass the hole guard. */
  lemma {:induction false} FirstUnguarded(s: Sim, steps: seq<Step>) returns (n: nat)
    requires LegalRun(s, steps) && !Guarded(s, steps)
    ensures n < |steps| && Guarded(s, steps[..n])
    ensures Legal(Run(s, steps[..n]), steps[n]) && !GuardsHoles(Run(s, steps[..n]), steps[n])
    decreases |steps|
  {
    n := 0;
    if GuardsHoles(s, steps[0]) {
      var m := FirstUnguarded(Next(s, steps[0]), steps[1..]);
      n := m + 1;
      assert steps[..n][0] == steps[0] && steps[..n][1..] == steps[1..][..m];
    }
  }

  lemma UnguardedConsistent(s: Sim, step: Step)
    requires Inv(s) && !GuardsHoles(s, step)
    ensures Consistent(Next(s, step)) && !step.Commit?
  {
    match step {
      case WriteCheckpoint(corrupt) =>
        CheckpointConsistent(s, corrupt);
      case Maintain(prune, cut) =>
        PruneConsistent(s, prune);
        var p := PruneStep(s, prune);
        var oldest := SoundMin(p.ckpts, p.corrupted);
        if oldest.Some? { CompactKeeps(p, oldest.value, cut, Max(p.compactFloor, oldest.value)); }
      case _ =>
    }
  }

  /** After an unguarded step some transaction is nowhere. */
  lemma UnguardedUncovers(s: Sim, step: Step) returns (t: nat)
    requires Inv(s) && Legal(s, step) && !GuardsHoles(s, step)
    ensures t > 0 && Uncovered(Next(s, step), t) && Consistent(Next(s, step)) && !step.Commit?
  {
    UnguardedConsistent(s, step);
    StepExact(s, step);
    var e := Next(s, step);
    t :| AdoptedTx(e.ckpts) < t <= e.last && !Holds(e.log, t);
  }

  /** A crash that loses nothing recovers wrongly. */
  ghost predicate Misled(s: Sim) {
    !CrashRight(s, None, Lost)
  }

  lemma UnguardedEnd(s: Sim, c: Contents, t: nat, k: Key, front: seq<Step>, step: Step)
    requires Coherent(c) && Tells(c, t, k) && Inv(s) && Guarded(s, front)
    requires Legal(Run(s, front), step) && !step.Commit?
    requires Consistent(Next(Run(s, front), step)) && Uncovered(Next(Run(s, front), step), t)
    ensures LegalRun(Marked(s, c), MarkRun(s, c, front) + [step])
    ensures Misled(Run(Marked(s, c), MarkRun(s, c, front) + [step]))
  {
    EveryCrashRecovers(s, front);
    MarkedRunReaches(s, c, front);
    var e := Run(s, front);
    MarkedNext(e, c, step);
    UncoveredFails(Next(e, step), c, t, k);
    RunThen(Marked(s, c), MarkRun(s, c, front), step);
  }

  lemma InitialMarked(c: Contents)
    requires Coherent(c)
    ensures Marked(INITIAL, c) == INITIAL
  {
  }
}
