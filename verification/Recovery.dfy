/** Recovery: newest valid checkpoint plus log replay, and what it needs to be right. */
module Recovery {
  import opened Wrappers

  /** A primary key of either table. */
  datatype Key = User(id: nat) | Sensor(x: int, y: int)

  /** A `User` name or the raw bits of a `Sensor` reading. */
  datatype Row = Name(name: string) | Reading(bits: nat)

  /** The committed rows of both tables. */
  type Rows = map<Key, Row>

  /** One transaction's net effect as the log stores it: deleted keys and full inserted rows. */
  datatype Record = Record(tx: nat, deletes: set<Key>, puts: map<Key, Row>)

  datatype Checkpoint = Checkpoint(tx: nat, rows: Rows, verifies: bool)

  /** Deletes apply before inserts; inserts overwrite. */
  function ApplyRecord(rows: Rows, r: Record): Rows {
    (rows - r.deletes) + r.puts
  }

  /** What a record says of a key afterwards: an inserted row stands even if the key is also deleted. */
  lemma RecordDecides(rows: Rows, r: Record, k: Key)
    ensures k in r.puts ==> k in ApplyRecord(rows, r) && ApplyRecord(rows, r)[k] == r.puts[k]
    ensures k !in r.puts ==> (k in ApplyRecord(rows, r) <==> k in rows && k !in r.deletes)
    ensures k !in r.puts && k in rows && k !in r.deletes ==> ApplyRecord(rows, r)[k] == rows[k]
  {
  }

  /** The row of a key, if there is one. */
  function At(rows: Rows, k: Key): Option<Row> {
    if k in rows then Some(rows[k]) else None
  }

  lemma SameRows(a: Rows, b: Rows)
    requires forall k :: At(a, k) == At(b, k)
    ensures a == b
  {
    forall k ensures k in a <==> k in b {
      assert At(a, k) == At(b, k);
    }
    forall k | k in a ensures a[k] == b[k] {
      assert At(a, k) == At(b, k);
    }
  }

  // ----- what is on disk after a crash -----

  /** A log entry as recovery finds it: whole, or failing verification. */
  datatype Frame = Whole(record: Record) | Damaged

  datatype Fault =
    | Lost
    | Torn
    | Flipped(tail: nat)

  function Frames(log: seq<Record>): seq<Frame> {
    if log == [] then [] else [Whole(log[0])] + Frames(log[1..])
  }

  /** The disk after entry `v` was lost, torn or flipped; a flip leaves later entries behind it. */
  function CrashImage(log: seq<Record>, v: nat, fault: Fault): seq<Frame>
    requires v < |log|
  {
    Frames(log[..v]) +
    match fault
    case Lost => []
    case Torn => [Damaged]
    case Flipped(tail) => [Damaged] + Frames(log[v + 1..][..if tail <= |log| - v - 1 then tail else |log| - v - 1])
  }

  /** Opening the log keeps the entries before the first invalid one. */
  function Quarantined(image: seq<Frame>): seq<Record> {
    if image == [] || image[0].Damaged? then [] else [image[0].record] + Quarantined(image[1..])
  }

  /** Whatever the fault, exactly the entries before the victim survive. */
  lemma {:induction false} FaultLeavesPrefix(log: seq<Record>, v: nat, fault: Fault)
    requires v < |log|
    ensures Quarantined(CrashImage(log, v, fault)) == log[..v]
    decreases v
  {
    var image := CrashImage(log, v, fault);
    if v > 0 {
      FaultLeavesPrefix(log[1..], v - 1, fault);
      assert log[1..][..v - 1] == log[..v][1..];
      assert log[1..][v..] == log[v + 1..];
      assert image == [Whole(log[0])] + CrashImage(log[1..], v - 1, fault);
      assert log[..v] == [log[0]] + log[1..][..v - 1];
    }
  }

  // ----- recovery -----

  /** The newest checkpoint that verifies. */
  function Adopted(ckpts: seq<Checkpoint>): Option<Checkpoint> {
    if ckpts == [] then None
    else
      var n := |ckpts| - 1;
      if ckpts[n].verifies then Some(ckpts[n]) else Adopted(ckpts[..n])
  }

  function AdoptedTx(ckpts: seq<Checkpoint>): nat {
    if Adopted(ckpts).None? then 0 else Adopted(ckpts).value.tx
  }

  function AdoptedRows(ckpts: seq<Checkpoint>): Rows {
    if Adopted(ckpts).None? then map[] else Adopted(ckpts).value.rows
  }

  /** The records above `covered`, applied in log order. */
  function Replay(rows: Rows, log: seq<Record>, covered: nat): Rows {
    if log == [] then rows
    else
      var n := |log| - 1;
      var before := Replay(rows, log[..n], covered);
      if log[n].tx <= covered then before else ApplyRecord(before, log[n])
  }

  function LastTx(log: seq<Record>): nat {
    if log == [] then 0 else log[|log| - 1].tx
  }

  function Max(a: nat, b: nat): nat {
    if a < b then b else a
  }

  /** What recovery reports and installs. */
  datatype Outcome = Outcome(adopted: Option<nat>, last: nat, rows: Rows)

  function Recovered(ckpts: seq<Checkpoint>, log: seq<Record>): Outcome {
    Outcome(if Adopted(ckpts).None? then None else Some(Adopted(ckpts).value.tx),
            Max(AdoptedTx(ckpts), LastTx(log)),
            Replay(AdoptedRows(ckpts), log, AdoptedTx(ckpts)))
  }

  /** Recovery as it runs: fall back from the newest checkpoint to the first that verifies, then
      replay every surviving record above it. */
  method Recover(ckpts: seq<Checkpoint>, log: seq<Record>) returns (outcome: Outcome)
    ensures outcome == Recovered(ckpts, log)
  {
    var rows: Rows := map[];
    var adopted: Option<nat> := None;
    var i := |ckpts|;
    assert ckpts[..i] == ckpts;
    while i > 0 && adopted.None?
      invariant 0 <= i <= |ckpts|
      invariant adopted.None? ==> rows == map[] && Adopted(ckpts) == Adopted(ckpts[..i])
      invariant adopted.Some? ==>
                  && Adopted(ckpts).Some?
                  && adopted.value == Adopted(ckpts).value.tx && rows == Adopted(ckpts).value.rows
    {
      i := i - 1;
      assert ckpts[..i + 1][..i] == ckpts[..i];
      if ckpts[i].verifies {
        rows, adopted := ckpts[i].rows, Some(ckpts[i].tx);
      }
    }
    var covered := if adopted.None? then 0 else adopted.value;
    ghost var base := rows;
    var last := 0;
    for j := 0 to |log|
      invariant rows == Replay(base, log[..j], covered)
      invariant last == LastTx(log[..j])
    {
      assert log[..j + 1][..j] == log[..j];
      if log[j].tx > covered {
        rows := ApplyRecord(rows, log[j]);
      }
      last := log[j].tx;
    }
    assert log[..|log|] == log;
    outcome := Outcome(adopted, Max(covered, last), rows);
  }

  // ----- when recovery is right -----

  /** The oracle's rows after each transaction, first to last. */
  type History = seq<Rows>

  function StateAt(h: History, n: nat): Rows
    requires n <= |h|
  {
    if n == 0 then map[] else h[n - 1]
  }

  predicate Ascending(log: seq<Record>) {
    forall i, j :: 0 <= i < j < |log| ==> log[i].tx < log[j].tx
  }

  /** Each record is the step from one oracle state to the next. */
  predicate Faithful(h: History, r: Record) {
    1 <= r.tx <= |h| && ApplyRecord(StateAt(h, r.tx - 1), r) == StateAt(h, r.tx)
  }

  predicate LogFaithful(h: History, log: seq<Record>) {
    Ascending(log) && forall i :: 0 <= i < |log| ==> Faithful(h, log[i])
  }

  predicate Holds(log: seq<Record>, t: nat) {
    exists i :: 0 <= i < |log| && log[i].tx == t
  }

  /** Every transaction above `floor` up to `n` is in the log. */
  predicate Complete(log: seq<Record>, floor: nat, n: nat) {
    forall t :: floor < t <= n ==> Holds(log, t)
  }

  lemma HoldsFront(log: seq<Record>, m: nat, t: nat)
    requires Ascending(log) && m < |log| && t < log[m].tx && Holds(log, t)
    ensures Holds(log[..m], t)
  {
    var i :| 0 <= i < |log| && log[i].tx == t;
    assert i < m;
    assert log[..m][i].tx == t;
  }

  /** Replay over a log with no hole above the checkpoint reaches the oracle's state. */
  lemma {:induction false} ReplayReaches(h: History, log: seq<Record>, floor: nat, n: nat)
    requires LogFaithful(h, log) && floor <= n <= |h|
    requires Complete(log, floor, n) && (LastTx(log) == n || LastTx(log) <= floor == n)
    ensures Replay(StateAt(h, floor), log, floor) == StateAt(h, n)
  {
    if log != [] {
      var m := |log| - 1;
      var front, top := log[..m], log[m].tx;
      assert Faithful(h, log[m]);
      if top <= floor {
        assert LastTx(front) <= floor by { if m > 0 { assert log[m - 1].tx < log[m].tx; } }
        ReplayReaches(h, front, floor, n);
      } else {
        forall t | floor < t <= top - 1 ensures Holds(front, t) {
          HoldsFront(log, m, t);
        }
        FrontReaches(log, floor, top - 1);
        ReplayReaches(h, front, floor, top - 1);
      }
    }
  }

  lemma FrontReaches(log: seq<Record>, floor: nat, n: nat)
    requires log != [] && Ascending(log) && log[|log| - 1].tx == n + 1 && floor <= n
    requires Complete(log[..|log| - 1], floor, n)
    ensures LastTx(log[..|log| - 1]) == n || LastTx(log[..|log| - 1]) <= floor == n
  {
    var front := log[..|log| - 1];
    if floor < n {
      assert Holds(front, n);
      var i :| 0 <= i < |front| && front[i].tx == n;
    }
    assert front != [] ==> log[|front| - 1].tx < log[|front|].tx;
  }
}
