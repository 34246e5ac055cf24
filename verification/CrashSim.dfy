/** The crash simulator as a step machine: the engine, its disk, and the oracle beside it. */
module CrashSim {
  import opened Wrappers
  import opened Recovery

  /** `history` is the oracle; `store`, `log` and `ckpts` are the engine; the rest is bookkeeping. */
  datatype Sim = Sim(
    history: History,
    store: Rows,
    nextTx: nat,
    log: seq<Record>,
    watermark: nat,
    ckpts: seq<Checkpoint>,
    corrupted: set<nat>,
    acked: nat,
    last: nat,
    durableFloor: nat,
    compactFloor: nat)

  const INITIAL := Sim([], map[], 1, [], 0, [], {}, 0, 0, 0, 0)

  datatype Step =
    | Commit(deletes: set<Key>, puts: Rows)
    | Abort
    | Ack
    | WriteCheckpoint(corrupt: bool)
    | Maintain(prune: bool, cut: nat)
    | Crash(victim: Option<nat>, fault: Fault)

  // ----- the steps -----

  /** The engine's record of a commit is appended as it is; the oracle notes the rows it leads to. */
  function CommitStep(s: Sim, r: Record): Sim {
    var pending := ApplyRecord(s.store, r);
    s.(history := s.history + [pending], store := pending, nextTx := s.nextTx + 1,
       log := s.log + [r], watermark := s.nextTx, last := s.nextTx)
  }

  function AckStep(s: Sim): Sim {
    if s.last == 0 then s else s.(acked := s.last)
  }

  /** The newest and the oldest checkpoint not known to be corrupted. */
  function SoundMax(ckpts: seq<Checkpoint>, corrupted: set<nat>): Option<nat> {
    if ckpts == [] then None
    else
      var n := |ckpts| - 1;
      if ckpts[n].tx !in corrupted then Some(ckpts[n].tx) else SoundMax(ckpts[..n], corrupted)
  }

  function SoundMin(ckpts: seq<Checkpoint>, corrupted: set<nat>): Option<nat> {
    if ckpts == [] then None
    else if ckpts[0].tx !in corrupted then Some(ckpts[0].tx)
    else SoundMin(ckpts[1..], corrupted)
  }

  /** The simulator's survivability test against a floor. */
  predicate Survivable(floor: nat, sound: Option<nat>) {
    floor == 0 || (sound.Some? && sound.value >= floor)
  }

  function NewestCkpt(s: Sim): nat {
    if s.ckpts == [] then 0 else s.ckpts[|s.ckpts| - 1].tx
  }

  /** Whether a checkpoint step with this choice damages the checkpoint it writes. */
  predicate Corrupts(s: Sim, corrupt: bool) {
    NewestCkpt(s) < s.last && corrupt && Survivable(s.compactFloor, SoundMax(s.ckpts, s.corrupted))
  }

  function CheckpointStep(s: Sim, corrupt: bool): Sim {
    if s.last <= NewestCkpt(s) then s
    else
      var bad := Corrupts(s, corrupt);
      s.(ckpts := s.ckpts + [Checkpoint(s.last, s.store, !bad)],
         corrupted := if bad then s.corrupted + {s.last} else s.corrupted)
  }

  function Retained(s: Sim): seq<Checkpoint> {
    if |s.ckpts| > 2 then s.ckpts[|s.ckpts| - 2..] else s.ckpts
  }

  /** Whether a maintenance step with this choice prunes. */
  predicate Prunes(s: Sim, prune: bool) {
    |s.ckpts| > 2 && prune && Survivable(s.compactFloor, SoundMax(Retained(s), s.corrupted))
  }

  predicate HasCkpt(ckpts: seq<Checkpoint>, t: nat) {
    exists i :: 0 <= i < |ckpts| && ckpts[i].tx == t
  }

  function PruneStep(s: Sim, prune: bool): Sim {
    if !Prunes(s, prune) then s
    else s.(ckpts := Retained(s), corrupted := set t | t in s.corrupted && HasCkpt(Retained(s), t))
  }

  /** Compaction drops whole covered segments: up to `cut` leading entries, none above `covered`. */
  function Compacted(log: seq<Record>, covered: nat, cut: nat): seq<Record> {
    if cut == 0 || log == [] || log[0].tx > covered then log
    else Compacted(log[1..], covered, cut - 1)
  }

  function MaintainStep(s: Sim, prune: bool, cut: nat): Sim {
    var p := PruneStep(s, prune);
    var oldest := SoundMin(p.ckpts, p.corrupted);
    if oldest.None? then p
    else p.(log := Compacted(p.log, oldest.value, cut), compactFloor := Max(p.compactFloor, oldest.value))
  }

  /** The last transaction the crash leaves in the log, as the simulator reckons it. */
  function Kept(s: Sim, victim: Option<nat>): nat {
    if victim.Some? && victim.value < |s.log| && s.log[victim.value].tx > 0
    then s.log[victim.value].tx - 1 else s.last
  }

  function SurvivingLog(s: Sim, victim: Option<nat>, fault: Fault): seq<Record> {
    if victim.Some? && victim.value < |s.log|
    then Quarantined(CrashImage(s.log, victim.value, fault)) else s.log
  }

  function OrZero(x: Option<nat>): nat {
    if x.None? then 0 else x.value
  }

  /** Where the simulator expects recovery to land. */
  function ExpectedN(s: Sim, victim: Option<nat>): nat {
    Max(Kept(s, victim), OrZero(SoundMax(s.ckpts, s.corrupted)))
  }

  function CrashStep(s: Sim, victim: Option<nat>, fault: Fault): Sim {
    var log := SurvivingLog(s, victim, fault);
    var outcome := Recovered(s.ckpts, log);
    var n := ExpectedN(s, victim);
    s.(history := s.history[..if n <= |s.history| then n else |s.history|],
       store := outcome.rows, nextTx := outcome.last + 1, log := log, watermark := LastTx(log),
       last := n, durableFloor := n)
  }

  lemma CrashStepIs(s: Sim, victim: Option<nat>, fault: Fault, n: nat, log: seq<Record>, outcome: Outcome)
    requires n == ExpectedN(s, victim) && n <= |s.history|
    requires log == SurvivingLog(s, victim, fault) && outcome == Recovered(s.ckpts, log)
    ensures CrashStep(s, victim, fault) ==
            Sim(s.history[..n], outcome.rows, outcome.last + 1, log, LastTx(log), s.ckpts, s.corrupted,
                s.acked, n, n, s.compactFloor)
  {
  }

  function Next(s: Sim, step: Step): Sim {
    match step
    case Commit(deletes, puts) => CommitStep(s, Record(s.nextTx, deletes, puts))
    case Abort => s
    case Ack => AckStep(s)
    case WriteCheckpoint(corrupt) => CheckpointStep(s, corrupt)
    case Maintain(prune, cut) => MaintainStep(s, prune, cut)
    case Crash(victim, fault) => CrashStep(s, victim, fault)
  }

  /** A crash never cuts an acknowledged entry. */
  predicate Legal(s: Sim, step: Step) {
    step.Crash? && step.victim.Some? ==>
      step.victim.value < |s.log| && s.log[step.victim.value].tx > s.acked
  }

  // ----- what every step keeps -----

  predicate OracleAgrees(s: Sim) {
    |s.history| == s.last && s.store == StateAt(s.history, s.last) && s.nextTx == s.last + 1
  }

  predicate CkptsAscend(ckpts: seq<Checkpoint>) {
    forall i, j :: 0 <= i < j < |ckpts| ==> ckpts[i].tx < ckpts[j].tx
  }

  /** A checkpoint that verifies holds the oracle's rows at a transaction of the live timeline. */
  predicate CkptSound(h: History, c: Checkpoint) {
    c.verifies ==> 1 <= c.tx <= |h| && c.rows == StateAt(h, c.tx)
  }

  predicate CkptsSound(s: Sim) {
    && CkptsAscend(s.ckpts)
    && (forall i :: 0 <= i < |s.ckpts| ==> CkptSound(s.history, s.ckpts[i]))
    && (forall i :: 0 <= i < |s.ckpts| ==> (s.ckpts[i].verifies <==> s.ckpts[i].tx !in s.corrupted))
    && forall t :: t in s.corrupted ==> HasCkpt(s.ckpts, t)
  }

  predicate MarksSound(s: Sim) {
    && s.acked <= s.last && s.durableFloor <= s.last
    && (s.durableFloor < s.last ==> s.last <= s.watermark)
  }

  /** The newest checkpoint that verifies covers every hole in the log, whatever made it. */
  predicate Covered(s: Sim) {
    Complete(s.log, AdoptedTx(s.ckpts), s.last)
  }

  predicate Consistent(s: Sim) {
    OracleAgrees(s) && LogFaithful(s.history, s.log) && CkptsSound(s) && MarksSound(s)
  }

  predicate Inv(s: Sim) {
    Consistent(s) && Covered(s)
  }

  lemma {:induction false} AdoptedIsSound(s: Sim, ckpts: seq<Checkpoint>)
    requires forall i :: 0 <= i < |ckpts| ==> (ckpts[i].verifies <==> ckpts[i].tx !in s.corrupted)
    ensures SoundMax(ckpts, s.corrupted) == if Adopted(ckpts).None? then None else Some(Adopted(ckpts).value.tx)
  {
    if ckpts != [] {
      AdoptedIsSound(s, ckpts[..|ckpts| - 1]);
    }
  }

  lemma {:induction false} AdoptedMember(ckpts: seq<Checkpoint>)
    requires Adopted(ckpts).Some?
    ensures exists i :: 0 <= i < |ckpts| && ckpts[i] == Adopted(ckpts).value && ckpts[i].verifies
    ensures CkptsAscend(ckpts) ==>
              forall i :: 0 <= i < |ckpts| && ckpts[i].verifies ==> ckpts[i].tx <= Adopted(ckpts).value.tx
  {
    var n := |ckpts| - 1;
    if ckpts[n].verifies {
      assert ckpts[n] == Adopted(ckpts).value;
    } else {
      AdoptedMember(ckpts[..n]);
      var i :| 0 <= i < n && ckpts[..n][i] == Adopted(ckpts).value && ckpts[..n][i].verifies;
      assert ckpts[i] == Adopted(ckpts).value;
    }
  }

  /** The adopted checkpoint is the oracle's state at its transaction, or the empty start. */
  lemma AdoptedState(s: Sim)
    requires CkptsSound(s)
    ensures AdoptedTx(s.ckpts) <= |s.history|
    ensures AdoptedRows(s.ckpts) == StateAt(s.history, AdoptedTx(s.ckpts))
  {
    if Adopted(s.ckpts).Some? { AdoptedMember(s.ckpts); }
  }

  // ----- the crash step -----

  lemma LogPrefix(h: History, log: seq<Record>, v: nat)
    requires LogFaithful(h, log) && v < |log|
    ensures LogFaithful(h[..log[v].tx - 1], log[..v])
    ensures LastTx(log[..v]) < log[v].tx
  {
    var k := log[v].tx - 1;
    assert Faithful(h, log[v]);
    forall i | 0 <= i < v ensures Faithful(h[..k], log[..v][i]) {
      assert Faithful(h, log[i]);
      assert log[i].tx < log[v].tx;
    }
  }

  lemma CutFaithful(s: Sim, v: nat, fault: Fault)
    requires Inv(s) && v < |s.log| && s.log[v].tx > s.acked
    ensures s.acked <= Kept(s, Some(v)) <= s.last && Kept(s, Some(v)) == s.log[v].tx - 1
    ensures SurvivingLog(s, Some(v), fault) == s.log[..v]
    ensures LogFaithful(s.history[..Kept(s, Some(v))], s.log[..v]) && LastTx(s.log[..v]) <= Kept(s, Some(v))
  {
    assert Faithful(s.history, s.log[v]);
    FaultLeavesPrefix(s.log, v, fault);
    LogPrefix(s.history, s.log, v);
  }

  lemma CutComplete(log: seq<Record>, v: nat, floor: nat, n: nat)
    requires Ascending(log) && v < |log| && log[v].tx > 0 && log[v].tx - 1 <= n && Complete(log, floor, n)
    ensures Complete(log[..v], floor, log[v].tx - 1)
  {
    forall t | floor < t <= log[v].tx - 1 ensures Holds(log[..v], t) {
      HoldsFront(log, v, t);
    }
  }

  /** The surviving log is a faithful log of the first `Kept` transactions, complete as before. */
  lemma SurvivorFaithful(s: Sim, victim: Option<nat>, fault: Fault)
    requires Inv(s) && Legal(s, Crash(victim, fault))
    ensures s.acked <= Kept(s, victim) <= s.last
    ensures LogFaithful(s.history[..Kept(s, victim)], SurvivingLog(s, victim, fault))
    ensures LastTx(SurvivingLog(s, victim, fault)) <= Kept(s, victim)
    ensures Complete(SurvivingLog(s, victim, fault), AdoptedTx(s.ckpts), Kept(s, victim))
  {
    if victim.Some? {
      CutFaithful(s, victim.value, fault);
      CutComplete(s.log, victim.value, AdoptedTx(s.ckpts), s.last);
    } else {
      assert s.history[..s.last] == s.history;
      assert s.log != [] ==> Faithful(s.history, s.log[|s.log| - 1]);
    }
  }

  lemma StatePrefix(h: History, n: nat, k: nat)
    requires k <= n <= |h|
    ensures StateAt(h[..n], k) == StateAt(h, k)
  {
  }

  lemma LogWidened(h: History, k: nat, n: nat, log: seq<Record>)
    requires k <= n <= |h| && LogFaithful(h[..k], log)
    ensures LogFaithful(h[..n], log)
  {
    forall i | 0 <= i < |log| ensures Faithful(h[..n], log[i]) {
      assert Faithful(h[..k], log[i]);
      StatePrefix(h, k, log[i].tx);
      StatePrefix(h, k, log[i].tx - 1);
      StatePrefix(h, n, log[i].tx);
      StatePrefix(h, n, log[i].tx - 1);
    }
  }

  /** What the simulator asserts after a crash. */
  predicate CrashRight(s: Sim, victim: Option<nat>, fault: Fault) {
    var n, outcome := ExpectedN(s, victim), Recovered(s.ckpts, SurvivingLog(s, victim, fault));
    && outcome.adopted == SoundMax(s.ckpts, s.corrupted)
    && outcome.last == n
    && s.acked <= n <= |s.history|
    && outcome.rows == StateAt(s.history, n)
  }

  /** Flagship: from a recoverable state, whatever suffix a crash loses, tears or flips, recovery
      adopts the expected checkpoint, lands on the whole-transaction prefix
      max(kept log, newest valid checkpoint), loses nothing acknowledged, and has its exact rows. */
  lemma CrashRecovers(s: Sim, victim: Option<nat>, fault: Fault)
    requires Inv(s) && Legal(s, Crash(victim, fault))
    ensures CrashRight(s, victim, fault)
  {
    var n, log, a := ExpectedN(s, victim), SurvivingLog(s, victim, fault), AdoptedTx(s.ckpts);
    AdoptedIsSound(s, s.ckpts);
    AdoptedState(s);
    SurvivorFaithful(s, victim, fault);
    LogWidened(s.history, Kept(s, victim), n, log);
    StatePrefix(s.history, n, a);
    StatePrefix(s.history, n, n);
    if a < n {
      assert Holds(log, n);
      LastIsTop(log, n);
    }
    ReplayReaches(s.history[..n], log, a, n);
  }

  lemma LastIsTop(log: seq<Record>, n: nat)
    requires Ascending(log) && Holds(log, n) && LastTx(log) <= n
    ensures LastTx(log) == n
  {
    var i :| 0 <= i < |log| && log[i].tx == n;
  }

  lemma CrashKeeps(s: Sim, victim: Option<nat>, fault: Fault)
    requires Inv(s) && Legal(s, Crash(victim, fault))
    ensures Inv(CrashStep(s, victim, fault))
  {
    var n, log, a := ExpectedN(s, victim), SurvivingLog(s, victim, fault), AdoptedTx(s.ckpts);
    var e := CrashStep(s, victim, fault);
    CrashRecovers(s, victim, fault);
    AdoptedIsSound(s, s.ckpts);
    SurvivorFaithful(s, victim, fault);
    LogWidened(s.history, Kept(s, victim), n, log);
    StatePrefix(s.history, n, n);
    forall i | 0 <= i < |e.ckpts| ensures CkptSound(e.history, e.ckpts[i]) {
      assert CkptSound(s.history, s.ckpts[i]);
      if e.ckpts[i].verifies {
        AdoptedNone(s.ckpts, i);
        AdoptedMember(s.ckpts);
        StatePrefix(s.history, n, e.ckpts[i].tx);
      }
    }
    assert CkptsSound(e);
    forall t | a < t <= n ensures Holds(log, t) {
    }
  }

  lemma {:induction false} AdoptedNone(ckpts: seq<Checkpoint>, i: nat)
    requires i < |ckpts| && ckpts[i].verifies
    ensures Adopted(ckpts).Some?
  {
    var n := |ckpts| - 1;
    if i < n { AdoptedNone(ckpts[..n], i); }
  }
}
