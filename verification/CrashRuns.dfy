/** Whole runs of the crash simulator: when the recoverability invariant survives, exactly. */
module CrashRuns {
  import opened Wrappers
  import opened Recovery
  import opened CrashSim

  // ----- holes -----

  /** The last transaction up to `n` that the log does not hold; 0 when it holds them all. */
  function HoleTop(log: seq<Record>, n: nat): nat {
    if n == 0 then 0 else if Holds(log, n) then HoleTop(log, n - 1) else n
  }

  lemma {:induction false} HoleTopExact(log: seq<Record>, floor: nat, n: nat)
    ensures Complete(log, floor, n) <==> HoleTop(log, n) <= floor
  {
    if n > 0 {
      HoleTopExact(log, floor, n - 1);
      if Holds(log, n) && Complete(log, floor, n - 1) {
        forall t | floor < t <= n ensures Holds(log, t) {
        }
      }
    }
  }

  /** The guard a step must pass: the simulator's own survivability test, but against the top hole
      in the log instead of the compaction floor. */
  predicate GuardsHoles(s: Sim, step: Step) {
    match step
    case WriteCheckpoint(corrupt) =>
      Corrupts(s, corrupt) ==> Survivable(HoleTop(s.log, s.last), SoundMax(s.ckpts, s.corrupted))
    case Maintain(prune, _) =>
      Prunes(s, prune) ==> Survivable(HoleTop(s.log, s.last), SoundMax(Retained(s), s.corrupted))
    case _ => true
  }

  // ----- commits and acknowledgements -----

  lemma CommitKeeps(s: Sim, r: Record)
    requires Inv(s) && r.tx == s.nextTx
    ensures Inv(CommitStep(s, r))
  {
    var e := CommitStep(s, r);
    var n := |s.log|;
    assert e.log[n] == r && e.log[..n] == s.log;
    forall i | 0 <= i < |e.log| ensures Faithful(e.history, e.log[i]) && (i < n ==> e.log[i].tx < r.tx) {
      if i < n {
        assert Faithful(s.history, s.log[i]);
      }
    }
    forall i | 0 <= i < |e.ckpts| ensures CkptSound(e.history, e.ckpts[i]) {
      assert CkptSound(s.history, s.ckpts[i]);
    }
    CommitComplete(s.log, r, AdoptedTx(s.ckpts));
  }

  /** Acknowledging never waits for a transaction the live log will not flush. */
  lemma AckNeverBlocks(s: Sim)
    requires Inv(s)
    ensures s.durableFloor < s.last ==> s.last <= s.watermark
    ensures Inv(AckStep(s))
  {
  }

  // ----- checkpoints -----

  lemma AdoptedAppend(ckpts: seq<Checkpoint>, c: Checkpoint)
    ensures Adopted(ckpts + [c]) == if c.verifies then Some(c) else Adopted(ckpts)
  {
    assert (ckpts + [c])[..|ckpts|] == ckpts;
  }

  lemma HasCkptAppend(ckpts: seq<Checkpoint>, c: Checkpoint, t: nat)
    ensures HasCkpt(ckpts + [c], t) <==> HasCkpt(ckpts, t) || c.tx == t
  {
    assert (ckpts + [c])[|ckpts|] == c;
    if HasCkpt(ckpts, t) {
      var i :| 0 <= i < |ckpts| && ckpts[i].tx == t;
      assert (ckpts + [c])[i].tx == t;
    }
  }

  lemma CkptAppended(s: Sim, c: Checkpoint)
    requires CkptsSound(s) && CkptSound(s.history, c) && NewestCkpt(s) < c.tx
    ensures CkptsSound(s.(ckpts := s.ckpts + [c],
                          corrupted := if c.verifies then s.corrupted else s.corrupted + {c.tx}))
  {
    var e := s.(ckpts := s.ckpts + [c], corrupted := if c.verifies then s.corrupted else s.corrupted + {c.tx});
    assert !HasCkpt(s.ckpts, c.tx);
    forall i | 0 <= i < |e.ckpts| ensures CkptSound(e.history, e.ckpts[i]) {
      if i < |s.ckpts| { assert CkptSound(s.history, s.ckpts[i]); }
    }
    forall t | t in e.corrupted ensures HasCkpt(e.ckpts, t) {
      HasCkptAppend(s.ckpts, c, t);
    }
  }

  lemma CheckpointConsistent(s: Sim, corrupt: bool)
    requires Consistent(s)
    ensures Consistent(CheckpointStep(s, corrupt))
  {
    if NewestCkpt(s) < s.last {
      CkptAppended(s, Checkpoint(s.last, s.store, !Corrupts(s, corrupt)));
    }
  }

  lemma CheckpointExact(s: Sim, corrupt: bool)
    requires Inv(s)
    ensures Inv(CheckpointStep(s, corrupt)) <==> GuardsHoles(s, WriteCheckpoint(corrupt))
  {
    CheckpointConsistent(s, corrupt);
    if NewestCkpt(s) < s.last {
      CheckpointAdopted(s, corrupt);
      var floor := AdoptedTx(CheckpointStep(s, corrupt).ckpts);
      HoleTopExact(s.log, floor, s.last);
      HoleTopBound(s.log, s.last);
    }
  }

  lemma CheckpointAdopted(s: Sim, corrupt: bool)
    requires Consistent(s) && NewestCkpt(s) < s.last
    ensures AdoptedTx(CheckpointStep(s, corrupt).ckpts) == if Corrupts(s, corrupt) then AdoptedTx(s.ckpts) else s.last
    ensures forall h: nat :: Survivable(h, SoundMax(s.ckpts, s.corrupted)) <==> h <= AdoptedTx(s.ckpts)
  {
    AdoptedIsSound(s, s.ckpts);
    AdoptedAppend(s.ckpts, Checkpoint(s.last, s.store, !Corrupts(s, corrupt)));
  }

  lemma HoleTopBound(log: seq<Record>, n: nat)
    ensures HoleTop(log, n) <= n
  {
  }

  // ----- pruning and compaction -----

  lemma PruneConsistent(s: Sim, prune: bool)
    requires Consistent(s)
    ensures Consistent(PruneStep(s, prune))
  {
    var e := PruneStep(s, prune);
    if Prunes(s, prune) {
      var m := |s.ckpts| - 2;
      forall i | 0 <= i < |e.ckpts|
        ensures CkptSound(e.history, e.ckpts[i]) && (e.ckpts[i].verifies <==> e.ckpts[i].tx !in e.corrupted)
      {
        assert e.ckpts[i] == s.ckpts[m + i];
        assert CkptSound(s.history, s.ckpts[m + i]);
        assert HasCkpt(e.ckpts, e.ckpts[i].tx);
      }
      forall i, j | 0 <= i < j < |e.ckpts| ensures e.ckpts[i].tx < e.ckpts[j].tx {
        assert s.ckpts[m + i].tx < s.ckpts[m + j].tx;
      }
    }
  }

  lemma PruneExact(s: Sim, prune: bool)
    requires Inv(s)
    ensures Inv(PruneStep(s, prune)) <==>
            (Prunes(s, prune) ==> Survivable(HoleTop(s.log, s.last), SoundMax(Retained(s), s.corrupted)))
  {
    var e := PruneStep(s, prune);
    PruneConsistent(s, prune);
    if Prunes(s, prune) {
      var m := |s.ckpts| - 2;
      forall i | 0 <= i < |e.ckpts| ensures e.ckpts[i].verifies <==> e.ckpts[i].tx !in s.corrupted {
        assert e.ckpts[i] == s.ckpts[m + i];
      }
      AdoptedIsSound(s, Retained(s));
      HoleTopExact(e.log, AdoptedTx(e.ckpts), e.last);
    }
  }

  lemma {:induction false} SoundMinMember(ckpts: seq<Checkpoint>, corrupted: set<nat>)
    requires SoundMin(ckpts, corrupted).Some?
    ensures exists i :: 0 <= i < |ckpts| && ckpts[i].tx == SoundMin(ckpts, corrupted).value && ckpts[i].tx !in corrupted
  {
    if ckpts[0].tx in corrupted {
      SoundMinMember(ckpts[1..], corrupted);
      var i :| 0 <= i < |ckpts[1..]| && ckpts[1..][i].tx == SoundMin(ckpts[1..], corrupted).value
               && ckpts[1..][i].tx !in corrupted;
      assert ckpts[i + 1] == ckpts[1..][i];
    }
  }

  /** Compaction drops only covered entries, from the front. */
  lemma {:induction false} CompactedDrops(log: seq<Record>, covered: nat, cut: nat, t: nat)
    ensures |Compacted(log, covered, cut)| <= |log|
    ensures Compacted(log, covered, cut) == log[|log| - |Compacted(log, covered, cut)|..]
    ensures Holds(log, t) && t > covered ==> Holds(Compacted(log, covered, cut), t)
  {
    if !(cut == 0 || log == [] || log[0].tx > covered) {
      CompactedDrops(log[1..], covered, cut - 1, t);
      if Holds(log, t) && t > covered {
        var i :| 0 <= i < |log| && log[i].tx == t;
        assert log[1..][i - 1].tx == t;
      }
    }
  }

  /** ... and as many as it is allowed to and finds covered. */
  lemma {:induction false} CompactedExact(log: seq<Record>, covered: nat, cut: nat)
    ensures var k := |log| - |Compacted(log, covered, cut)|;
            && 0 <= k <= cut && (forall i :: 0 <= i < k ==> log[i].tx <= covered)
            && (k == cut || k == |log| || log[k].tx > covered)
  {
    if !(cut == 0 || log == [] || log[0].tx > covered) {
      CompactedExact(log[1..], covered, cut - 1);
      var k := |log| - |Compacted(log, covered, cut)|;
      forall i | 0 <= i < k ensures log[i].tx <= covered {
        assert i > 0 ==> log[i] == log[1..][i - 1];
      }
    }
  }

  lemma SuffixFaithful(h: History, log: seq<Record>, m: nat)
    requires LogFaithful(h, log) && m <= |log|
    ensures LogFaithful(h, log[m..])
  {
    forall i | 0 <= i < |log[m..]| ensures Faithful(h, log[m..][i]) {
      assert Faithful(h, log[m + i]);
    }
  }

  lemma CompactKeeps(s: Sim, covered: nat, cut: nat, floor: nat)
    requires Consistent(s)
    ensures Consistent(s.(log := Compacted(s.log, covered, cut), compactFloor := floor))
  {
    var e := s.(log := Compacted(s.log, covered, cut), compactFloor := floor);
    CompactedDrops(s.log, covered, cut, 0);
    SuffixFaithful(s.history, s.log, |s.log| - |e.log|);
    assert CkptsSound(e);
  }

  /** Above what it covers, compaction leaves the log complete exactly where it was. */
  lemma CompactComplete(log: seq<Record>, covered: nat, cut: nat, floor: nat, n: nat)
    requires covered <= floor
    ensures Complete(Compacted(log, covered, cut), floor, n) <==> Complete(log, floor, n)
  {
    var c := Compacted(log, covered, cut);
    forall t | floor < t <= n ensures Holds(c, t) <==> Holds(log, t) {
      CompactedDrops(log, covered, cut, t);
      if Holds(c, t) {
        var i :| 0 <= i < |c| && c[i].tx == t;
        assert log[|log| - |c| + i].tx == t;
      }
    }
  }

  lemma OldestBelowNewest(s: Sim)
    requires CkptsSound(s) && SoundMin(s.ckpts, s.corrupted).Some?
    ensures SoundMin(s.ckpts, s.corrupted).value <= AdoptedTx(s.ckpts)
  {
    SoundMinMember(s.ckpts, s.corrupted);
    var i :| 0 <= i < |s.ckpts| && s.ckpts[i].tx == SoundMin(s.ckpts, s.corrupted).value &&
             s.ckpts[i].tx !in s.corrupted;
    AdoptedNone(s.ckpts, i);
    AdoptedMember(s.ckpts);
  }

  /** Compacting up to a checkpoint that verifies makes no hole that checkpoint does not cover, so
      only the pruning can cost recoverability. */
  lemma MaintainExact(s: Sim, prune: bool, cut: nat)
    requires Inv(s)
    ensures Inv(MaintainStep(s, prune, cut)) <==> GuardsHoles(s, Maintain(prune, cut))
  {
    var p := PruneStep(s, prune);
    PruneConsistent(s, prune);
    PruneExact(s, prune);
    var oldest := SoundMin(p.ckpts, p.corrupted);
    if oldest.Some? {
      OldestBelowNewest(p);
      CompactKeeps(p, oldest.value, cut, Max(p.compactFloor, oldest.value));
      CompactComplete(p.log, oldest.value, cut, AdoptedTx(p.ckpts), p.last);
    }
  }

  // ----- one step, exactly -----

  /** From a recoverable state, a step leaves a recoverable state if and only if its risky branch,
      when taken, passes the survivability test against the top hole in the log. */
  lemma StepExact(s: Sim, step: Step)
    requires Inv(s) && Legal(s, step)
    ensures Inv(Next(s, step)) <==> GuardsHoles(s, step)
  {
    match step
    case Commit(deletes, puts) => CommitKeeps(s, Record(s.nextTx, deletes, puts));
    case Abort =>
    case Ack => AckNeverBlocks(s);
    case WriteCheckpoint(corrupt) => CheckpointExact(s, corrupt);
    case Maintain(prune, cut) => MaintainExact(s, prune, cut);
    case Crash(victim, fault) => CrashKeeps(s, victim, fault);
  }

  // ----- whole runs -----

  function Run(s: Sim, steps: seq<Step>): Sim
    decreases |steps|
  {
    if steps == [] then s else Run(Next(s, steps[0]), steps[1..])
  }

  /** Every step is possible and passes the hole guard. */
  predicate Guarded(s: Sim, steps: seq<Step>)
    decreases |steps|
  {
    steps == [] ||
    (Legal(s, steps[0]) && GuardsHoles(s, steps[0]) && Guarded(Next(s, steps[0]), steps[1..]))
  }

  /** Every crash of the run meets all of the simulator's assertions. */
  predicate CrashesRight(s: Sim, steps: seq<Step>)
    decreases |steps|
  {
    steps == [] ||
    (&& (steps[0].Crash? ==> CrashRight(s, steps[0].victim, steps[0].fault))
     && CrashesRight(Next(s, steps[0]), steps[1..]))
  }

  lemma InitialInv()
    ensures Inv(INITIAL)
  {
  }

  /** Safety over whole runs of commits, aborts, acknowledgements, checkpoints, corruptions,
      prunes, compactions and crashes. */
  lemma {:induction false} EveryCrashRecovers(s: Sim, steps: seq<Step>)
    requires Inv(s) && Guarded(s, steps)
    ensures Inv(Run(s, steps)) && CrashesRight(s, steps)
    decreases |steps|
  {
    if steps != [] {
      StepExact(s, steps[0]);
      if steps[0].Crash? { CrashRecovers(s, steps[0].victim, steps[0].fault); }
      EveryCrashRecovers(Next(s, steps[0]), steps[1..]);
    }
  }

  // ----- the simulator's own guard -----

  /** No crash of the run adopts a checkpoint past what it leaves of the log. */
  predicate NoAdoptionPastLog(s: Sim, steps: seq<Step>)
    decreases |steps|
  {
    steps == [] ||
    (&& Legal(s, steps[0])
     && (steps[0].Crash? ==> OrZero(SoundMax(s.ckpts, s.corrupted)) <= Kept(s, steps[0].victim))
     && NoAdoptionPastLog(Next(s, steps[0]), steps[1..]))
  }

  /** All holes were made by compaction. */
  predicate OnlyCompactionHoles(s: Sim) {
    Complete(s.log, s.compactFloor, s.last)
  }

  lemma FloorGuardSuffices(s: Sim, step: Step)
    requires Inv(s) && OnlyCompactionHoles(s)
    ensures GuardsHoles(s, step)
  {
    HoleTopExact(s.log, s.compactFloor, s.last);
  }

  lemma HolesStayCompaction(s: Sim, step: Step)
    requires Inv(s) && OnlyCompactionHoles(s) && Legal(s, step)
    requires step.Crash? ==> OrZero(SoundMax(s.ckpts, s.corrupted)) <= Kept(s, step.victim)
    ensures OnlyCompactionHoles(Next(s, step))
  {
    match step
    case Commit(deletes, puts) =>
      CommitComplete(s.log, Record(s.nextTx, deletes, puts), s.compactFloor);
    case Maintain(prune, cut) =>
      var p := PruneStep(s, prune);
      var oldest := SoundMin(p.ckpts, p.corrupted);
      if oldest.Some? {
        CompactComplete(s.log, oldest.value, cut, Max(s.compactFloor, oldest.value), s.last);
      }
    case Crash(victim, fault) =>
      SurvivorFaithful(s, victim, fault);
      if victim.Some? {
        CutFaithful(s, victim.value, fault);
        CutComplete(s.log, victim.value, s.compactFloor, s.last);
      }
    case _ =>
  }

  lemma CommitComplete(log: seq<Record>, r: Record, floor: nat)
    requires r.tx > 0 && Complete(log, floor, r.tx - 1)
    ensures Complete(log + [r], floor, r.tx)
  {
    forall t | floor < t <= r.tx ensures Holds(log + [r], t) {
      if t == r.tx {
        assert (log + [r])[|log|].tx == t;
      } else {
        assert Holds(log, t);
        var i :| 0 <= i < |log| && log[i].tx == t;
        assert (log + [r])[i].tx == t;
      }
    }
  }

  /** The simulator's guard against the compaction floor is enough in every run in which no crash
      adopts a checkpoint past the log it cut. */
  lemma {:induction false} FloorGuardEnough(s: Sim, steps: seq<Step>)
    requires Inv(s) && OnlyCompactionHoles(s) && NoAdoptionPastLog(s, steps)
    ensures Guarded(s, steps) && Inv(Run(s, steps)) && CrashesRight(s, steps)
    decreases |steps|
  {
    if steps != [] {
      FloorGuardSuffices(s, steps[0]);
      StepExact(s, steps[0]);
      HolesStayCompaction(s, steps[0]);
      FloorGuardEnough(Next(s, steps[0]), steps[1..]);
      if steps[0].Crash? { CrashRecovers(s, steps[0].victim, steps[0].fault); }
    }
  }

  /** From an empty database: every crash of every guarded run recovers. */
  lemma EveryRunRecovers(steps: seq<Step>)
    requires Guarded(INITIAL, steps)
    ensures Inv(Run(INITIAL, steps)) && CrashesRight(INITIAL, steps)
  {
    InitialInv();
    EveryCrashRecovers(INITIAL, steps);
  }

  /** ... and after it an acknowledgement never waits for a transaction the reopened log will not flush:
      what is not yet durable is at or below the log's own watermark. */
  lemma NoAckHangs(steps: seq<Step>)
    requires Guarded(INITIAL, steps)
    ensures var s := Run(INITIAL, steps); s.durableFloor < s.last ==> s.last <= s.watermark
  {
    EveryRunRecovers(steps);
    AckNeverBlocks(Run(INITIAL, steps));
  }

  /** From an empty database: so does every run in which no crash adopts a checkpoint past the log it
      cut, on the simulator's own guard. */
  lemma FloorGuardedRunRecovers(steps: seq<Step>)
    requires NoAdoptionPastLog(INITIAL, steps)
    ensures Guarded(INITIAL, steps) && CrashesRight(INITIAL, steps)
  {
    InitialInv();
    FloorGuardEnough(INITIAL, steps);
  }

  /** Every step is possible. */
  predicate LegalRun(s: Sim, steps: seq<Step>)
    decreases |steps|
  {
    steps == [] || (Legal(s, steps[0]) && LegalRun(Next(s, steps[0]), steps[1..]))
  }
}
