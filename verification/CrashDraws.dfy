/** Runs the simulator can draw: mutations with its ids and names, at most four to a transaction. */
module CrashDraws {
  import opened Wrappers
  import opened Recovery
  import opened TxBuffer
  import opened CrashSim
  import opened CrashRuns
  import opened CrashHoles
  import opened CrashMarked
  import opened SinkFile

  ghost predicate DrawnMutation(m: Mutation) {
    match m
    case UserInsert(id, name) => id < 32 && exists n :: 0 <= n < 1000 && Name(name) == UserName(id, n)
    case UserDelete(id) => id < 32
    case SensorUpsert(x, y, _) => 0 <= x < 8 && 0 <= y < 8
    case SensorDelete(x, y) => 0 <= x < 8 && 0 <= y < 8
  }

  /** One to four drawn mutations leave this record in the engine's buffer. */
  ghost predicate Leaves(store: Rows, ms: seq<Mutation>, deletes: set<Key>, puts: Rows) {
    && 1 <= |ms| <= 4 && (forall m :: m in ms ==> DrawnMutation(m))
    && RecordOf(0, BufferedAll(store, ms)) == Record(0, deletes, puts)
  }

  ghost predicate Drawable(store: Rows, deletes: set<Key>, puts: Rows) {
    exists ms :: Leaves(store, ms, deletes, puts)
  }

  ghost predicate DrawnStep(s: Sim, step: Step) {
    Legal(s, step) && (step.Commit? ==> Drawable(s.store, step.deletes, step.puts))
  }

  ghost predicate DrawnRun(s: Sim, steps: seq<Step>)
    decreases |steps|
  {
    steps == [] || (DrawnStep(s, steps[0]) && DrawnRun(Next(s, steps[0]), steps[1..]))
  }

  // ----- two transactions -----

  /** Inserting a user that is not there. */
  lemma InsertLeaves(store: Rows, id: nat, n: nat)
    requires id < 32 && n < 1000 && User(id) !in store
    ensures Leaves(store, [UserInsert(id, UserName(id, n).name)], {}, map[User(id) := UserName(id, n)])
  {
    var m := UserInsert(id, UserName(id, n).name);
    assert [m][..0] == [];
    assert BufferedAll(store, [m]) == map[User(id) := Insert(UserName(id, n))];
  }

  /** Rewriting a user that is there with another name. */
  lemma RewriteLeaves(store: Rows, id: nat, n: nat)
    requires id < 32 && n < 1000 && User(id) in store && store[User(id)] != UserName(id, n)
    ensures Leaves(store, [UserDelete(id), UserInsert(id, UserName(id, n).name)],
                   {User(id)}, map[User(id) := UserName(id, n)])
  {
    var d, m := UserDelete(id), UserInsert(id, UserName(id, n).name);
    assert [d, m][..1] == [d] && [d][..0] == [];
    assert BufferedAll(store, [d]) == map[User(id) := Delete];
    assert BufferedAll(store, [d, m]) == map[User(id) := Update(UserName(id, n))];
  }

  lemma NamesDiffer(a: nat, b: nat)
    requires a < 10 && b < 10 && a != b
    ensures UserName(0, a) != UserName(0, b)
  {
    var x, y := UserName(0, a).name, UserName(0, b).name;
    assert x[|x| - 1] == Digit(a) && y[|y| - 1] == Digit(b);
  }

  // ----- contents that tell one transaction apart -----

  /** User 0 has the name of the last transaction that rewrote it. */
  lemma {:induction false} TellName(t: nat, n: nat)
    ensures User(0) in TellRows(t, n) ==>
              && n > 0 && (n == t ==> n > 1)
              && TellRows(t, n)[User(0)] == UserName(0, (if n == t then n - 1 else n) % 3)
  {
    if n > 0 { TellName(t, n - 1); }
  }

  lemma TellDrawn(t: nat, p: nat, n: nat)
    requires t > 0 && n == p + 1
    ensures Drawable(TellRows(t, p), TellRecord(t, n).deletes, TellRecord(t, n).puts)
  {
    var store := TellRows(t, p);
    TellKeys(t, p);
    if n == t {
      InsertLeaves(store, 1, 0);
    } else if User(0) !in store {
      InsertLeaves(store, 0, n % 3);
    } else {
      TellName(t, p);
      var m := if p == t then p - 1 else p;
      assert m % 3 != n % 3;
      NamesDiffer(m % 3, n % 3);
      RewriteLeaves(store, 0, n % 3);
    }
  }

  /** Such contents can be drawn along any guarded run. */
  lemma {:induction false} MarkedRunDrawn(s: Sim, t: nat, steps: seq<Step>)
    requires t > 0 && Inv(s) && Guarded(s, steps)
    ensures DrawnRun(Marked(s, Telling(t)), MarkRun(s, Telling(t), steps))
    decreases |steps|
  {
    if steps != [] {
      var c := Telling(t);
      TellingApart(t);
      MarkedNext(s, c, steps[0]);
      StepExact(s, steps[0]);
      MarkedRunDrawn(Next(s, steps[0]), t, steps[1..]);
      var m := MarkRun(s, c, steps);
      assert m[0] == MarkStep(s, c, steps[0]) && m[1..] == MarkRun(Next(s, steps[0]), c, steps[1..]);
      if steps[0].Commit? { TellDrawn(t, s.last, s.nextTx); }
    }
  }

  lemma {:induction false} DrawnThen(s: Sim, steps: seq<Step>, step: Step)
    requires DrawnRun(s, steps) && Legal(Run(s, steps), step) && !step.Commit?
    ensures DrawnRun(s, steps + [step])
    decreases |steps|
  {
    var all := steps + [step];
    if steps == [] {
      assert all[1..] == [];
    } else {
      assert all[0] == steps[0] && all[1..] == steps[1..] + [step];
      DrawnThen(Next(s, steps[0]), steps[1..], step);
    }
  }

  /** After a guarded run `front`, the step `step` leaves transaction `t` nowhere. */
  ghost predicate Loses(s: Sim, front: seq<Step>, step: Step, t: nat) {
    && t > 0 && Guarded(s, front) && Legal(Run(s, front), step) && !step.Commit?
    && Consistent(Next(Run(s, front), step)) && Uncovered(Next(Run(s, front), step), t)
  }

  lemma FirstLoss(s: Sim, steps: seq<Step>) returns (n: nat, t: nat)
    requires Inv(s) && LegalRun(s, steps) && !Guarded(s, steps)
    ensures n < |steps| && Loses(s, steps[..n], steps[n], t)
  {
    n := FirstUnguarded(s, steps);
    EveryCrashRecovers(s, steps[..n]);
    t := UnguardedUncovers(Run(s, steps[..n]), steps[n]);
  }

  lemma UnguardedDrawn(s: Sim, t: nat, front: seq<Step>, step: Step)
    requires Inv(s) && Loses(s, front, step, t) && Marked(s, Telling(t)) == s
    ensures DrawnRun(s, MarkRun(s, Telling(t), front) + [step])
    ensures Misled(Run(s, MarkRun(s, Telling(t), front) + [step]))
  {
    var c := Telling(t);
    TellingApart(t);
    UnguardedEnd(s, c, t, User(1), front, step);
    MarkedRunDrawn(s, t, front);
    EveryCrashRecovers(s, front);
    MarkedRunReaches(s, c, front);
    MarkedNext(Run(s, front), c, step);
    DrawnThen(s, MarkRun(s, c, front), step);
  }

  lemma LossDrawn(s: Sim, t: nat, steps: seq<Step>, n: nat) returns (bad: seq<Step>)
    requires n < |steps| && Inv(s) && Loses(s, steps[..n], steps[n], t) && Marked(s, Telling(t)) == s
    ensures |bad| <= |steps| && forall i :: 0 <= i < |bad| ==> SameKind(bad[i], steps[i])
    ensures DrawnRun(s, bad) && Misled(Run(s, bad))
  {
    UnguardedDrawn(s, t, steps[..n], steps[n]);
    bad := MarkRun(s, Telling(t), steps[..n]) + [steps[n]];
  }

  lemma InitialTelling(t: nat)
    requires t > 0
    ensures Marked(INITIAL, Telling(t)) == INITIAL
  {
    TellingApart(t);
    InitialMarked(Telling(t));
  }

  /** The guard is needed: cut any possible run that does not pass it after its first unguarded step, and
      let its commits write other rows. The result is a run the simulator can draw, after which a crash
      that loses nothing recovers the wrong rows. */
  lemma UnguardedRunFails(steps: seq<Step>) returns (bad: seq<Step>)
    requires LegalRun(INITIAL, steps) && !Guarded(INITIAL, steps)
    ensures |bad| <= |steps| && forall i :: 0 <= i < |bad| ==> SameKind(bad[i], steps[i])
    ensures DrawnRun(INITIAL, bad) && Misled(Run(INITIAL, bad))
  {
    InitialInv();
    var n, t := FirstLoss(INITIAL, steps);
    InitialTelling(t);
    bad := LossDrawn(INITIAL, t, steps, n);
  }

  // ----- the run that slips past the compaction floor -----

  lemma {:induction false} NoCommitDrawn(s: Sim, steps: seq<Step>)
    requires LegalRun(s, steps) && forall i :: 0 <= i < |steps| ==> !steps[i].Commit?
    ensures DrawnRun(s, steps)
    decreases |steps|
  {
    if steps != [] { NoCommitDrawn(Next(s, steps[0]), steps[1..]); }
  }

  const TAIL: seq<Step> := [Maintain(true, 0)]

  lemma LastThree()
    ensures DrawnRun(DAMAGED_ONCE, [THIRD, WriteCheckpoint(true)] + TAIL)
  {
    InsertLeaves(DAMAGED_ONCE.store, 3, 0);
    CorruptedTwice();
    NoCommitDrawn(DAMAGED, TAIL);
    DrawnTwo(DAMAGED_ONCE, THIRD, WriteCheckpoint(true), TAIL);
  }

  lemma LastFive()
    ensures DrawnRun(HOLED, [SECOND, WriteCheckpoint(true)] + ([THIRD, WriteCheckpoint(true)] + TAIL))
  {
    InsertLeaves(HOLED.store, 2, 0);
    CorruptedOnce();
    LastThree();
    DrawnTwo(HOLED, SECOND, WriteCheckpoint(true), [THIRD, WriteCheckpoint(true)] + TAIL);
  }

  /** It can be drawn as well: three inserts of users. */
  lemma HoleRunDrawn()
    ensures DrawnRun(INITIAL, HOLE_RUN) && Misled(Run(INITIAL, HOLE_RUN))
  {
    FloorGuardMissesCrashHoles();
    LastFive();
    var after := [SECOND, WriteCheckpoint(true)] + ([THIRD, WriteCheckpoint(true)] + TAIL);
    FirstThree(after);
    assert HOLE_RUN == [FIRST, WriteCheckpoint(false), Crash(Some(0), Lost)] + after;
  }

  lemma DrawnTwo(s: Sim, a: Step, b: Step, rest: seq<Step>)
    requires DrawnStep(s, a) && DrawnStep(Next(s, a), b) && DrawnRun(Next(Next(s, a), b), rest)
    ensures DrawnRun(s, [a, b] + rest)
  {
    var steps := [a, b] + rest;
    assert steps[1..][1..] == rest && steps[1..][0] == b;
  }

  lemma FirstThree(after: seq<Step>)
    requires DrawnRun(HOLED, after)
    ensures DrawnRun(INITIAL, [FIRST, WriteCheckpoint(false), Crash(Some(0), Lost)] + after)
  {
    FirstCrash();
    InsertLeaves(INITIAL.store, 1, 0);
    var crash := Crash(Some(0), Lost);
    var s := Next(Next(INITIAL, FIRST), WriteCheckpoint(false));
    assert s.log == [Record(1, {}, FIRST.puts)] && s.acked == 0;
    var steps := [crash] + after;
    assert steps[1..] == after;
    assert DrawnRun(s, steps);
    DrawnTwo(INITIAL, FIRST, WriteCheckpoint(false), steps);
    assert [FIRST, WriteCheckpoint(false)] + steps == [FIRST, WriteCheckpoint(false), crash] + after;
  }
}
