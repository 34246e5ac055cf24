/** Why the guard must watch every hole: a run that slips past the compaction floor, and the
    proof that coverage of all holes is exactly what recovery needs. */
module CrashHoles {
  import opened Wrappers
  import opened Recovery
  import opened CrashSim
  import opened CrashRuns
  import opened SinkFile

  // ----- a run that the compaction-floor guard lets through -----

  const ROWS_1: Rows := map[User(1) := UserName(1, 0)]
  const ROWS_2: Rows := map[User(1) := UserName(1, 0), User(2) := UserName(2, 0)]
  const ROWS_3: Rows := map[User(1) := UserName(1, 0), User(2) := UserName(2, 0), User(3) := UserName(3, 0)]

  /** Inserts of three users, one per transaction. */
  const FIRST := Commit({}, map[User(1) := UserName(1, 0)])
  const SECOND := Commit({}, map[User(2) := UserName(2, 0)])
  const THIRD := Commit({}, map[User(3) := UserName(3, 0)])

  /** Transaction 1 survives a crash only in its checkpoint; two later checkpoints are corrupted
      and pruning keeps those two. */
  const HOLE_RUN: seq<Step> := [
    FIRST, WriteCheckpoint(false), Crash(Some(0), Lost),
    SECOND, WriteCheckpoint(true),
    THIRD, WriteCheckpoint(true),
    Maintain(true, 0)]

  lemma RunTwo(s: Sim, x: Step, y: Step, rest: seq<Step>)
    ensures Run(s, [x, y] + rest) == Run(Next(Next(s, x), y), rest)
  {
    var steps := [x, y] + rest;
    assert steps[1..][1..] == rest;
  }

  lemma {:induction false} NoneSound(ckpts: seq<Checkpoint>, corrupted: set<nat>)
    requires forall i :: 0 <= i < |ckpts| ==> ckpts[i].tx in corrupted && !ckpts[i].verifies
    ensures SoundMax(ckpts, corrupted) == None && Adopted(ckpts) == None
  {
    if ckpts != [] { NoneSound(ckpts[..|ckpts| - 1], corrupted); }
  }

  lemma {:induction false} NoneSoundMin(ckpts: seq<Checkpoint>, corrupted: set<nat>)
    requires forall i :: 0 <= i < |ckpts| ==> ckpts[i].tx in corrupted
    ensures SoundMin(ckpts, corrupted) == None
  {
    if ckpts != [] { NoneSoundMin(ckpts[1..], corrupted); }
  }

  /** Replay invents no row. */
  lemma {:induction false} ReplayWithout(rows: Rows, log: seq<Record>, covered: nat, k: Key)
    requires k !in rows && forall i :: 0 <= i < |log| ==> k !in log[i].puts
    ensures k !in Replay(rows, log, covered)
  {
    if log != [] { ReplayWithout(rows, log[..|log| - 1], covered, k); }
  }

  /** After the first crash: transaction 1 is in its checkpoint and in no log entry. */
  const HOLED := Sim([ROWS_1], ROWS_1, 2, [], 0, [Checkpoint(1, ROWS_1, true)], {}, 0, 1, 1, 0)

  /** Two commits later, with both new checkpoints damaged. */
  const DAMAGED := Sim([ROWS_1, ROWS_2, ROWS_3], ROWS_3, 4, [Record(2, {}, SECOND.puts), Record(3, {}, THIRD.puts)], 3,
    [Checkpoint(1, ROWS_1, true), Checkpoint(2, ROWS_2, false), Checkpoint(3, ROWS_3, false)], {2, 3}, 0, 3, 1, 0)

  lemma FirstCrash()
    ensures Next(Next(Next(INITIAL, FIRST), WriteCheckpoint(false)), Crash(Some(0), Lost)) == HOLED
  {
    var s := CheckpointStep(Next(INITIAL, FIRST), false);
    assert ApplyRecord(map[], Record(1, {}, FIRST.puts)) == ROWS_1;
    assert s.log == [Record(1, {}, FIRST.puts)] && s.ckpts == [Checkpoint(1, ROWS_1, true)];
    FaultLeavesPrefix(s.log, 0, Lost);
    assert s.log[..0] == [];
    assert SoundMax(s.ckpts, {}) == Some(1);
    assert s.history[..1] == s.history == [ROWS_1];
  }

  const DAMAGED_ONCE := Sim([ROWS_1, ROWS_2], ROWS_2, 3, [Record(2, {}, SECOND.puts)], 2,
    [Checkpoint(1, ROWS_1, true), Checkpoint(2, ROWS_2, false)], {2}, 0, 2, 1, 0)

  lemma CorruptedOnce()
    ensures Next(Next(HOLED, SECOND), WriteCheckpoint(true)) == DAMAGED_ONCE
  {
    assert ApplyRecord(ROWS_1, Record(2, {}, SECOND.puts)) == ROWS_2;
    var a := CheckpointStep(Next(HOLED, SECOND), true);
    assert a.ckpts == [Checkpoint(1, ROWS_1, true), Checkpoint(2, ROWS_2, false)] && a.corrupted == {2};
  }

  lemma CorruptedTwice()
    ensures Next(Next(DAMAGED_ONCE, THIRD), WriteCheckpoint(true)) == DAMAGED
  {
    assert ApplyRecord(ROWS_2, Record(3, {}, THIRD.puts)) == ROWS_3;
    var b := CheckpointStep(Next(DAMAGED_ONCE, THIRD), true);
    assert b.history == [ROWS_1, ROWS_2, ROWS_3] && b.ckpts == DAMAGED.ckpts && b.log == DAMAGED.log;
  }

  lemma LastCrashWrong()
    ensures !CrashRight(Next(DAMAGED, Maintain(true, 0)), None, Lost)
  {
    var s := DAMAGED;
    var kept := s.ckpts[1..];
    assert Retained(s) == kept == [Checkpoint(2, ROWS_2, false), Checkpoint(3, ROWS_3, false)];
    assert kept[0].tx == 2 && kept[1].tx == 3;
    var p := PruneStep(s, true);
    assert p.corrupted == {2, 3};
    NoneSound(kept, p.corrupted);
    NoneSoundMin(kept, p.corrupted);
    ReplayWithout(map[], s.log, 0, User(1));
  }

  lemma HoleRunLegal()
    ensures LegalRun(INITIAL, HOLE_RUN)
  {
    var s := Next(Next(INITIAL, FIRST), WriteCheckpoint(false));
    assert s.log == [Record(1, {}, FIRST.puts)] && s.acked == 0;
    var crash, rest := Crash(Some(0), Lost), HOLE_RUN[3..];
    assert Legal(s, crash);
    NoCrashLegal(Next(s, crash), rest);
    LegalThree(INITIAL, FIRST, WriteCheckpoint(false), crash, rest);
    assert HOLE_RUN == [FIRST, WriteCheckpoint(false), crash] + rest;
  }

  lemma LegalThree(s: Sim, a: Step, b: Step, c: Step, rest: seq<Step>)
    requires Legal(s, a) && Legal(Next(s, a), b) && Legal(Next(Next(s, a), b), c)
    requires LegalRun(Next(Next(Next(s, a), b), c), rest)
    ensures LegalRun(s, [a, b, c] + rest)
  {
    var steps := [a, b, c] + rest;
    assert steps[1..][1..][1..] == rest && steps[1..][0] == b && steps[1..][1..][0] == c;
  }

  lemma {:induction false} NoCrashLegal(s: Sim, steps: seq<Step>)
    requires forall i :: 0 <= i < |steps| ==> !steps[i].Crash?
    ensures LegalRun(s, steps)
    decreases |steps|
  {
    if steps != [] { NoCrashLegal(Next(s, steps[0]), steps[1..]); }
  }

  /** The guard against the compaction floor alone lets a run of eight possible steps reach a state
      whose next crash, itself possible and losing nothing, recovers rows that differ from the oracle's. */
  lemma FloorGuardMissesCrashHoles()
    ensures LegalRun(INITIAL, HOLE_RUN) && Legal(Run(INITIAL, HOLE_RUN), Crash(None, Lost))
    ensures !CrashRight(Run(INITIAL, HOLE_RUN), None, Lost)
  {
    HoleRunLegal();
    FirstCrash();
    CorruptedOnce();
    CorruptedTwice();
    LastCrashWrong();
    RunEight(INITIAL, FIRST, WriteCheckpoint(false), Crash(Some(0), Lost), SECOND,
             WriteCheckpoint(true), THIRD, WriteCheckpoint(true), Maintain(true, 0));
  }

  lemma RunEight(s: Sim, a: Step, b: Step, c: Step, d: Step, e: Step, f: Step, g: Step, h: Step)
    ensures Run(s, [a, b, c, d, e, f, g, h]) ==
            Next(Next(Next(Next(Next(Next(Next(Next(s, a), b), c), d), e), f), g), h)
  {
    assert [a, b, c, d, e, f, g, h] == [a, b] + ([c, d] + ([e, f] + ([g, h] + [])));
    RunTwo(s, a, b, [c, d] + ([e, f] + ([g, h] + [])));
    var s2 := Next(Next(s, a), b);
    RunTwo(s2, c, d, [e, f] + ([g, h] + []));
    var s4 := Next(Next(s2, c), d);
    RunTwo(s4, e, f, [g, h] + []);
    RunTwo(Next(Next(s4, e), f), g, h, []);
  }

  // ----- coverage is exactly what recovery needs -----

  /** Equal up to what the rows contain: the same transactions logged and checkpointed, the same
      checkpoints damaged, the same marks. */
  ghost predicate SameShape(s: Sim, e: Sim) {
    && |s.history| == |e.history| && |s.log| == |e.log| && |s.ckpts| == |e.ckpts|
    && (forall i :: 0 <= i < |s.log| ==> s.log[i].tx == e.log[i].tx)
    && (forall i :: 0 <= i < |s.ckpts| ==> s.ckpts[i].tx == e.ckpts[i].tx && s.ckpts[i].verifies == e.ckpts[i].verifies)
    && s.nextTx == e.nextTx && s.watermark == e.watermark && s.corrupted == e.corrupted
    && s.acked == e.acked && s.last == e.last && s.durableFloor == e.durableFloor && s.compactFloor == e.compactFloor
  }

  /** What the transactions write: the rows after each of them, and its record. */
  datatype Contents = Contents(rows: nat -> Rows, record: nat -> Record)

  ghost predicate Coherent(c: Contents) {
    && c.rows(0) == map[]
    && (forall t: nat :: c.record(t).tx == t)
    && forall t: nat, p: nat :: t == p + 1 ==> ApplyRecord(c.rows(p), c.record(t)) == c.rows(t)
  }

  ghost function MarkedLog(log: seq<Record>, c: Contents): seq<Record> {
    seq(|log|, i requires 0 <= i < |log| => c.record(log[i].tx))
  }

  ghost function MarkedCkpts(ckpts: seq<Checkpoint>, c: Contents): seq<Checkpoint> {
    seq(|ckpts|, i requires 0 <= i < |ckpts| => ckpts[i].(rows := c.rows(ckpts[i].tx)))
  }

  /** The same shape with other contents. */
  ghost function Marked(s: Sim, c: Contents): Sim {
    s.(history := seq(|s.history|, i requires 0 <= i < |s.history| => c.rows(i + 1)),
       store := c.rows(s.last), log := MarkedLog(s.log, c), ckpts := MarkedCkpts(s.ckpts, c))
  }

  lemma MarkedState(s: Sim, c: Contents, n: nat)
    requires Coherent(c) && n <= |s.history|
    ensures StateAt(Marked(s, c).history, n) == c.rows(n)
  {
  }

  lemma MarkedRecord(s: Sim, c: Contents, i: nat)
    requires Coherent(c) && i < |s.log| && Faithful(s.history, s.log[i])
    ensures Faithful(Marked(s, c).history, Marked(s, c).log[i]) && Marked(s, c).log[i].tx == s.log[i].tx
  {
    var t := s.log[i].tx;
    var p := t - 1;
    MarkedState(s, c, t);
    MarkedState(s, c, p);
    assert t == p + 1 && c.record(t).tx == t;
  }

  lemma MarkedConsistent(s: Sim, c: Contents)
    requires Coherent(c) && Consistent(s)
    ensures Consistent(Marked(s, c)) && SameShape(s, Marked(s, c))
  {
    var e := Marked(s, c);
    MarkedState(s, c, s.last);
    forall i | 0 <= i < |e.log| ensures Faithful(e.history, e.log[i]) && e.log[i].tx == s.log[i].tx {
      MarkedRecord(s, c, i);
    }
    assert Ascending(e.log);
    MarkedCkptsSound(s, c);
  }

  lemma MarkedCkptsSound(s: Sim, c: Contents)
    requires Coherent(c) && CkptsSound(s)
    ensures CkptsSound(Marked(s, c))
  {
    var e := Marked(s, c);
    forall i | 0 <= i < |e.ckpts| ensures CkptSound(e.history, e.ckpts[i]) {
      assert CkptSound(s.history, s.ckpts[i]);
      if e.ckpts[i].verifies { MarkedState(s, c, e.ckpts[i].tx); }
    }
    forall t | t in e.corrupted ensures HasCkpt(e.ckpts, t) {
      assert HasCkpt(s.ckpts, t);
      var i :| 0 <= i < |s.ckpts| && s.ckpts[i].tx == t;
      assert e.ckpts[i].tx == t;
    }
  }

  lemma {:induction false} AdoptedShape(a: seq<Checkpoint>, b: seq<Checkpoint>)
    requires |a| == |b|
    requires forall i :: 0 <= i < |a| ==> a[i].tx == b[i].tx && a[i].verifies == b[i].verifies
    ensures AdoptedTx(a) == AdoptedTx(b)
  {
    if a != [] {
      AdoptedShape(a[..|a| - 1], b[..|b| - 1]);
    }
  }

  /** Key `k` is written by transaction `t` and by no other, and stays. */
  ghost predicate Tells(c: Contents, t: nat, k: Key) {
    && (forall n: nat :: n < t ==> k !in c.rows(n))
    && (forall n: nat :: t <= n ==> k in c.rows(n))
    && forall n: nat :: n != t ==> k !in c.record(n).puts
  }

  lemma MissingMarker(s: Sim, c: Contents, t: nat, k: Key)
    requires Coherent(c) && Tells(c, t, k) && Consistent(s) && AdoptedTx(s.ckpts) < t && !Holds(s.log, t)
    ensures k !in Recovered(Marked(s, c).ckpts, Marked(s, c).log).rows
  {
    var e := Marked(s, c);
    MarkedCkptsSound(s, c);
    AdoptedShape(s.ckpts, e.ckpts);
    AdoptedState(e);
    MarkedState(s, c, AdoptedTx(e.ckpts));
    ReplayWithout(AdoptedRows(e.ckpts), e.log, AdoptedTx(e.ckpts), k);
  }

  /** `t` is a transaction that neither the log nor the checkpoint to be adopted holds. */
  ghost predicate Uncovered(s: Sim, t: nat) {
    AdoptedTx(s.ckpts) < t <= s.last && !Holds(s.log, t)
  }

  /** Without coverage, contents that tell the missing transaction apart recover wrongly. */
  lemma UncoveredFails(s: Sim, c: Contents, t: nat, k: Key)
    requires Coherent(c) && Tells(c, t, k) && Consistent(s) && Uncovered(s, t)
    ensures !CrashRight(Marked(s, c), None, Lost)
  {
    MissingMarker(s, c, t, k);
    ExpectedIsLast(s, c);
    MarkedState(s, c, s.last);
  }

  lemma ExpectedIsLast(s: Sim, c: Contents)
    requires Coherent(c) && Consistent(s)
    ensures ExpectedN(Marked(s, c), None) == s.last
  {
    var e := Marked(s, c);
    MarkedCkptsSound(s, c);
    AdoptedShape(s.ckpts, e.ckpts);
    AdoptedIsSound(e, e.ckpts);
    AdoptedState(s);
  }

  // ----- contents the simulator can draw -----

  /** A name as the simulator makes them up. */
  function UserName(id: nat, n: nat): Row {
    Name("u" + Decimal(id) + "-" + Decimal(n))
  }

  /** Transaction `t` inserts user 1; every other one rewrites user 0. */
  ghost function TellRows(t: nat, n: nat): Rows {
    if n == 0 then map[]
    else if n == t then TellRows(t, n - 1)[User(1) := UserName(1, 0)]
    else TellRows(t, n - 1)[User(0) := UserName(0, n % 3)]
  }

  ghost function TellRecord(t: nat, n: nat): Record {
    if n == 0 then Record(0, {}, map[])
    else if n == t then Record(n, {}, map[User(1) := UserName(1, 0)])
    else Record(n, if User(0) in TellRows(t, n - 1) then {User(0)} else {}, map[User(0) := UserName(0, n % 3)])
  }

  ghost function Telling(t: nat): Contents {
    Contents((n: nat) => TellRows(t, n), (n: nat) => TellRecord(t, n))
  }

  lemma {:induction false} TellKeys(t: nat, n: nat)
    requires t > 0
    ensures User(1) in TellRows(t, n) <==> t <= n
  {
    if n > 0 { TellKeys(t, n - 1); }
  }

  lemma TellStep(t: nat, p: nat, n: nat)
    requires n == p + 1
    ensures ApplyRecord(TellRows(t, p), TellRecord(t, n)) == TellRows(t, n)
  {
  }

  lemma TellingApart(t: nat)
    requires t > 0
    ensures Coherent(Telling(t)) && Tells(Telling(t), t, User(1))
  {
    var c := Telling(t);
    forall n: nat, p: nat | n == p + 1 ensures ApplyRecord(c.rows(p), c.record(n)) == c.rows(n) {
      TellStep(t, p, n);
    }
    forall n: nat ensures User(1) in c.rows(n) <==> t <= n {
      TellKeys(t, n);
    }
  }

  lemma CoveredShape(s: Sim, e: Sim)
    requires SameShape(s, e) && Covered(s)
    ensures Covered(e)
  {
    AdoptedShape(s.ckpts, e.ckpts);
    forall t | AdoptedTx(e.ckpts) < t <= e.last ensures Holds(e.log, t) {
      assert Holds(s.log, t);
      var i :| 0 <= i < |s.log| && s.log[i].tx == t;
      assert e.log[i].tx == t;
    }
  }

  /** Recovery is right whatever the rows contain if and only if the newest checkpoint that
      verifies covers every hole in the log. */
  lemma CoverageExact(s: Sim)
    requires Consistent(s)
    ensures Covered(s) <==> forall e :: Consistent(e) && SameShape(s, e) ==> CrashRight(e, None, Lost)
  {
    if Covered(s) {
      forall e | Consistent(e) && SameShape(s, e) ensures CrashRight(e, None, Lost) {
        CoveredShape(s, e);
        CrashRecovers(e, None, Lost);
      }
    } else {
      var t: nat :| AdoptedTx(s.ckpts) < t <= s.last && !Holds(s.log, t);
      TellingApart(t);
      MarkedConsistent(s, Telling(t));
      UncoveredFails(s, Telling(t), t, User(1));
    }
  }
}
