/** The simulator's world and its oracle as the objects they are. */
module CrashWorld {
  import opened Wrappers
  import opened Recovery
  import opened CrashSim
  import opened CrashRuns
  import opened TxBuffer

  /** The oracle: every committed transaction with the rows after it. */
  class Model {
    var history: seq<(nat, Rows)>
    var current: Rows

    ghost predicate Valid()
      reads this
    {
      && (forall i, j :: 0 <= i < j < |history| ==> history[i].0 < history[j].0)
      && (forall i :: 0 <= i < |history| ==> 0 < history[i].0)
      && current == if history == [] then map[] else history[|history| - 1].1
    }

    constructor ()
      ensures Valid() && history == [] && current == map[]
    {
      history, current := [], map[];
    }

    function LastTx(): nat
      reads this
    {
      if history == [] then 0 else history[|history| - 1].0
    }

    method Commit(tx: nat, rows: Rows)
      requires Valid() && tx > LastTx()
      modifies this
      ensures Valid() && history == old(history) + [(tx, rows)] && current == rows
    {
      history := history + [(tx, rows)];
      current := rows;
    }

    /** Forgets everything after `n`, which is 0 or a committed transaction. */
    method RetainPrefix(n: nat)
      requires Valid() && (n == 0 || exists i :: 0 <= i < |history| && history[i].0 == n)
      modifies this
      ensures Valid() && LastTx() == n
      ensures |history| <= |old(history)| && history == old(history)[..|history|]
      ensures forall i :: |history| <= i < |old(history)| ==> old(history)[i].0 > n
    {
      while history != [] && history[|history| - 1].0 > n
        invariant |history| <= |old(history)| && history == old(history)[..|history|]
        invariant forall i :: |history| <= i < |old(history)| ==> old(history)[i].0 > n
        decreases |history|
      {
        history := history[..|history| - 1];
      }
      current := if history == [] then map[] else history[|history| - 1].1;
    }
  }

  /** The oracle's rows without the transaction ids. */
  ghost function RowsOf(h: seq<(nat, Rows)>): History {
    seq(|h|, i requires 0 <= i < |h| => h[i].1)
  }

  class World {
    const model: Model
    var store: Rows
    var nextTx: nat
    var log: seq<Record>
    var watermark: nat
    var ckpts: seq<Checkpoint>
    var corrupted: set<nat>
    var acked: nat
    var last: nat
    var durableFloor: nat
    var compactFloor: nat

    ghost function View(): Sim
      reads this, model
    {
      Sim(RowsOf(model.history), store, nextTx, log, watermark, ckpts, corrupted,
          acked, last, durableFloor, compactFloor)
    }

    /** The oracle numbers transactions from 1 without gaps, in step with the engine. */
    ghost predicate Linked()
      reads this, model
    {
      && model.Valid() && |model.history| == last && nextTx == last + 1
      && forall i :: 0 <= i < |model.history| ==> model.history[i].0 == i + 1
    }

    constructor ()
      ensures Linked() && View() == INITIAL && Inv(View()) && fresh(model)
    {
      model := new Model();
      store, nextTx, log, watermark, ckpts, corrupted := map[], 1, [], 0, [], {};
      acked, last, durableFloor, compactFloor := 0, 0, 0, 0;
    }

    /** One transaction with this net effect, committed and appended, or rolled back. */
    method OpTransaction(deletes: set<Key>, puts: Rows, commit: bool)
      requires Linked()
      modifies model, `log, `store, `nextTx, `watermark, `last
      ensures Linked() && View() == Next(old(View()), if commit then Commit(deletes, puts) else Abort)
    {
      if commit {
        var tx := nextTx;
        var record := Record(tx, deletes, puts);
        var pending := ApplyRecord(store, record);
        log := log + [record];
        store, nextTx, watermark, last := pending, tx + 1, tx, tx;
        RecordCommit(tx, pending);
      }
    }

    /** A transaction given by its mutations, played on the write buffer and on the oracle: the two agree
        on every acceptance, refusal and presence and on the rows committed, and the engine's own record
        is what the log gets. */
    method OpMutations(ms: seq<Mutation>, commit: bool)
      requires Linked()
      modifies model, `log, `store, `nextTx, `watermark, `last
      ensures Linked()
      ensures var r := RecordOf(old(nextTx), BufferedAll(old(store), ms));
              View() == Next(old(View()), if commit then Commit(r.deletes, r.puts) else Abort)
      ensures commit ==> store == MutateAll(old(store), ms)
      ensures commit ==> log == old(log) + [RecordOf(old(nextTx), BufferedAll(old(store), ms))]
    {
      var pending, rows, record := Transact(store, ms, nextTx);
      OpTransaction(record.deletes, record.puts, commit);
    }

    /** The oracle records the commit. */
    method RecordCommit(tx: nat, pending: Rows)
      requires model.Valid() && tx == |model.history| + 1
      requires forall i :: 0 <= i < |model.history| ==> model.history[i].0 == i + 1
      modifies model
      ensures model.Valid() && |model.history| == tx
      ensures RowsOf(model.history) == old(RowsOf(model.history)) + [pending]
      ensures forall i :: 0 <= i < |model.history| ==> model.history[i].0 == i + 1
    {
      model.Commit(tx, pending);
    }

    method OpAck()
      requires Linked() && Inv(View())
      modifies `acked
      ensures Linked() && View() == Next(old(View()), Ack)
    {
      if last == 0 {
        return;
      }
      if last > durableFloor {
        assert last <= watermark;
      }
      acked := last;
    }

    method OpCheckpoint(corrupt: bool)
      requires Linked()
      modifies `ckpts, `corrupted
      ensures Linked() && View() == Next(old(View()), WriteCheckpoint(corrupt))
    {
      var newest := if ckpts == [] then 0 else ckpts[|ckpts| - 1].tx;
      if last <= newest {
        return;
      }
      var older := SoundMax(ckpts, corrupted);
      ckpts := ckpts + [Checkpoint(last, store, true)];
      if Survivable(compactFloor, older) && corrupt {
        var n := |ckpts| - 1;
        ckpts := ckpts[n := ckpts[n].(verifies := false)];
        corrupted := corrupted + {last};
      }
    }

    method OpPruneAndCompact(prune: bool, cut: nat)
      requires Linked()
      modifies `ckpts, `corrupted, `log, `compactFloor
      ensures Linked() && View() == Next(old(View()), Maintain(prune, cut))
    {
      ghost var s := View();
      Prune(prune);
      assert View() == PruneStep(s, prune);
      var oldest := SoundMin(ckpts, corrupted);
      if oldest.Some? {
        log, compactFloor := Compacted(log, oldest.value, cut), Max(compactFloor, oldest.value);
      }
    }

    method Prune(prune: bool)
      requires Linked()
      modifies `ckpts, `corrupted
      ensures Linked() && View() == PruneStep(old(View()), prune)
    {
      if |ckpts| > 2 && prune {
        var retained := ckpts[|ckpts| - 2..];
        if Survivable(compactFloor, SoundMax(retained, corrupted)) {
          ckpts, corrupted := retained, set t | t in corrupted && HasCkpt(retained, t);
        }
      }
    }

    /** Crash and recovery; every assertion of the simulator holds, and the world stays valid. */
    method OpCrash(victim: Option<nat>, fault: Fault)
      requires Linked() && Inv(View()) && Legal(View(), Crash(victim, fault))
      modifies model, `log, `store, `nextTx, `watermark, `last, `durableFloor
      ensures Linked() && View() == Next(old(View()), Crash(victim, fault))
      ensures acked <= last
    {
      var n, left, outcome := Reopen(victim, fault);
      CrashStepIs(View(), victim, fault, n, left, outcome);
      Install(n, left, outcome);
    }

    /** The crash takes its victim entry and what follows; recovery runs on what is left and is
        checked against the simulator's expectations. */
    method Reopen(victim: Option<nat>, fault: Fault) returns (n: nat, left: seq<Record>, outcome: Outcome)
      requires Inv(View()) && Legal(View(), Crash(victim, fault))
      ensures n == ExpectedN(View(), victim) && left == SurvivingLog(View(), victim, fault)
      ensures outcome == Recovered(ckpts, left) && outcome.last == n && acked <= n <= |model.history|
    {
      CrashRecovers(View(), victim, fault);
      var kept := last;
      left := log;
      if victim.Some? {
        kept := log[victim.value].tx - 1;
        left := Quarantined(CrashImage(log, victim.value, fault));
      }
      outcome := Recover(ckpts, left);
      var expected := SoundMax(ckpts, corrupted);
      n := Max(kept, OrZero(expected));
      assert outcome.adopted == expected && outcome.last == n && acked <= n;
    }

    /** The recovered rows become the live store and the oracle rewinds to match. */
    method Install(n: nat, left: seq<Record>, outcome: Outcome)
      requires Linked() && n <= last && outcome.last == n
      modifies model, `log, `store, `nextTx, `watermark, `last, `durableFloor
      ensures Linked()
      ensures View() == Sim(RowsOf(old(model.history))[..n], outcome.rows, n + 1, left, Recovery.LastTx(left),
                            ckpts, corrupted, acked, n, n, compactFloor)
    {
      Resume(n, left, outcome);
      ghost var rows := RowsOf(model.history);
      Rewind(n);
      assert RowsOf(model.history) == rows[..n];
    }

    /** The engine as recovery leaves it. */
    method Resume(n: nat, left: seq<Record>, outcome: Outcome)
      modifies `log, `store, `nextTx, `watermark, `last, `durableFloor
      ensures log == left && store == outcome.rows && nextTx == outcome.last + 1
      ensures watermark == Recovery.LastTx(left) && last == n && durableFloor == n
    {
      store, nextTx, log, watermark := outcome.rows, outcome.last + 1, left, Recovery.LastTx(left);
      last, durableFloor := n, n;
    }

    /** The oracle forgets what the crash lost. */
    method Rewind(n: nat)
      requires model.Valid() && n <= |model.history|
      requires forall i :: 0 <= i < |model.history| ==> model.history[i].0 == i + 1
      modifies model
      ensures model.Valid() && |model.history| == n
      ensures RowsOf(model.history) == RowsOf(old(model.history))[..n]
      ensures forall i :: 0 <= i < |model.history| ==> model.history[i].0 == i + 1
    {
      if n > 0 {
        assert model.history[n - 1].0 == n;
      }
      model.RetainPrefix(n);
    }
  }

  /** One random step of the simulation. */
  method Perform(w: World, step: Step)
    requires w.Linked() && Inv(w.View()) && Legal(w.View(), step)
    modifies w, w.model
    ensures w.Linked() && w.View() == Next(old(w.View()), step)
  {
    match step {
      case Commit(deletes, puts) => w.OpTransaction(deletes, puts, true);
      case Abort => w.OpTransaction({}, map[], false);
      case Ack => w.OpAck();
      case WriteCheckpoint(corrupt) => w.OpCheckpoint(corrupt);
      case Maintain(prune, cut) => w.OpPruneAndCompact(prune, cut);
      case Crash(victim, fault) => w.OpCrash(victim, fault);
    }
  }

  /** A whole simulation from an empty database: guarded steps keep the world recoverable throughout,
      and it ends where the step machine does. */
  method Simulate(steps: seq<Step>) returns (w: World)
    requires Guarded(INITIAL, steps)
    ensures w.Linked() && w.View() == Run(INITIAL, steps) && Inv(w.View())
  {
    w := new World();
    var i := 0;
    while i < |steps|
      invariant i <= |steps| && fresh(w) && fresh(w.model) && w.Linked() && Inv(w.View())
      invariant Guarded(w.View(), steps[i..]) && Run(w.View(), steps[i..]) == Run(INITIAL, steps)
    {
      assert steps[i..][0] == steps[i] && steps[i..][1..] == steps[i + 1..];
      StepExact(w.View(), steps[i]);
      Perform(w, steps[i]);
      i := i + 1;
    }
  }
}
