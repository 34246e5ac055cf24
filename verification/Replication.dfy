/** A replica fed from the primary's log over a network that drops and duplicates batches. */
module Replication {
  import opened Wrappers
  import opened CommitLog
  import Recovery

  type Rows = Recovery.Rows
  type Frame = Entry<Recovery.Record>

  datatype Replica = Replica(rows: Rows, nextTx: nat, log: seq<Frame>)

  datatype Fate = Dropped | Once | Twice

  /** A primary transaction that touched nothing is rolled back; any other is committed, and the
      network decides what becomes of its batch. */
  datatype Event = Rollback | Committed(deletes: set<Recovery.Key>, puts: Rows, bytes: FrameSize, fate: Fate)

  predicate Commits(e: Event) { e.Committed? }

  predicate Drops(e: Event) { e.Committed? && e.fate.Dropped? }

  predicate Duplicates(e: Event) { e.Committed? && e.fate.Twice? }

  /** The rows a log leads to. */
  ghost function RowsAfter(log: seq<Frame>): Rows {
    if log == [] then map[]
    else Recovery.ApplyRecord(RowsAfter(log[..|log| - 1]), log[|log| - 1].body)
  }

  /** Transactions are numbered from 1 without a gap. */
  ghost predicate Numbered(log: seq<Frame>) {
    forall i :: 0 <= i < |log| ==> log[i].tx == i + 1
  }

  /** The replica is exactly the primary at transaction `applied`: same log, same rows. */
  ghost predicate InSync(plog: seq<Frame>, replica: Replica, applied: nat) {
    && Numbered(plog) && applied <= |plog|
    && replica.log == plog[..applied]
    && replica.rows == RowsAfter(plog[..applied])
    && replica.nextTx == applied + 1
  }

  /** The replica refuses any record that does not continue its own log. */
  function ApplyReplicaRecord(replica: Replica, f: Frame): Result<Replica> {
    if f.tx != replica.nextTx then Err
    else Ok(Replica(Recovery.ApplyRecord(replica.rows, f.body), f.tx + 1, replica.log + [f]))
  }

  lemma AppliesNext(plog: seq<Frame>, replica: Replica, applied: nat)
    requires InSync(plog, replica, applied) && applied < |plog|
    ensures ApplyReplicaRecord(replica, plog[applied]).Ok?
    ensures InSync(plog, ApplyReplicaRecord(replica, plog[applied]).value, applied + 1)
  {
    assert plog[..applied + 1] == plog[..applied] + [plog[applied]];
    assert plog[..applied + 1][..applied] == plog[..applied];
  }

  /** One pass over the frames: those at or below `from` are duplicates and skipped; no record that
      gets through is ever refused. */
  method ApplyPass(plog: seq<Frame>, frames: seq<Frame>, ghost after: nat, replica: Replica, from: nat)
    returns (r: Replica, offset: nat)
    requires InSync(plog, replica, from) && after <= from <= after + |frames|
    requires Follows(plog, after, frames)
    ensures InSync(plog, r, offset) && offset == after + |frames|
    ensures from == after + |frames| ==> r == replica
  {
    r, offset := replica, from;
    for i := 0 to |frames|
      invariant InSync(plog, r, offset)
      invariant offset == if from <= after + i then after + i else from
      invariant from == after + |frames| ==> r == replica
    {
      var f := frames[i];
      if f.tx > offset {
        assert plog[offset] == f by { assert f in plog; }
        AppliesNext(plog, r, offset);
        r := ApplyReplicaRecord(r, f).value;
        offset := f.tx;
      }
    }
  }

  /** Streams every frame after the replica's offset, once or twice. */
  method Deliver(plog: seq<Frame>, replica: Replica, applied: nat, duplicate: bool)
    returns (r: Replica, a: nat)
    requires InSync(plog, replica, applied)
    ensures InSync(plog, r, a) && a == |plog|
  {
    NumberedAscends(plog);
    var frames, last := ReadFramesAfter(plog, applied, Bytes(plog));
    WholeTail(plog, applied, frames);
    r, a := ApplyPass(plog, frames, applied, replica, applied);
    if duplicate {
      var again, _ := ApplyPass(plog, frames, applied, r, a);
      assert again == r;
      r := again;
    }
  }

  lemma NumberedAscends(plog: seq<Frame>)
    requires Numbered(plog)
    ensures Ascending(plog)
  {
  }

  lemma HoldsAt(plog: seq<Frame>, n: nat)
    requires Numbered(plog) && n < |plog|
    ensures Holds(plog, n + 1)
  {
    assert plog[n].tx == n + 1;
  }

  lemma WholeTail(plog: seq<Frame>, applied: nat, frames: seq<Frame>)
    requires Numbered(plog) && applied <= |plog| && Follows(plog, applied, frames)
    requires !Holds(plog, applied + |frames| + 1)
    ensures applied + |frames| == |plog|
  {
    var n := applied + |frames|;
    assert n <= |plog| by {
      if frames != [] { assert frames[|frames| - 1] in plog; }
    }
    if n < |plog| { HoldsAt(plog, n); }
  }

  /** Under every schedule of commits, drops and duplicates the replica is the primary at its own
      offset: any schedule is a prefix of a longer one, so this holds throughout. */
  method Stream(events: seq<Event>)
    returns (primary: Rows, plog: seq<Frame>, replica: Replica, applied: nat, resyncs: nat, duplicates: nat)
    ensures InSync(plog, replica, applied) && primary == RowsAfter(plog)
    ensures |plog| == Count(events, Commits)
    ensures resyncs == Count(events, Drops) && duplicates == Count(events, Duplicates)
  {
    primary, plog, replica, applied := map[], [], Replica(map[], 1, []), 0;
    resyncs, duplicates := 0, 0;
    for i := 0 to |events|
      invariant InSync(plog, replica, applied) && primary == RowsAfter(plog)
      invariant |plog| == Count(events[..i], Commits)
      invariant resyncs == Count(events[..i], Drops) && duplicates == Count(events[..i], Duplicates)
    {
      assert events[..i + 1][..i] == events[..i];
      if events[i].Committed? {
        var effect := Recovery.Record(|plog| + 1, events[i].deletes, events[i].puts);
        primary, plog := Append(primary, plog, effect, events[i].bytes, replica, applied);
        if events[i].fate.Dropped? {
          resyncs := resyncs + 1;
        } else {
          replica, applied := Deliver(plog, replica, applied, events[i].fate.Twice?);
          if events[i].fate.Twice? {
            duplicates := duplicates + 1;
          }
        }
      }
    }
    assert events[..|events|] == events;
  }

  /** A whole simulated run: the final catch-up makes the two nodes equal. */
  method RunSchedule(events: seq<Event>) returns (primary: Rows, plog: seq<Frame>, replica: Replica)
    ensures primary == RowsAfter(plog) && |plog| == Count(events, Commits)
    ensures replica.rows == primary && replica.log == plog
  {
    var applied, resyncs, duplicates;
    primary, plog, replica, applied, resyncs, duplicates := Stream(events);
    replica, applied := Deliver(plog, replica, applied, false);
    assert plog[..|plog|] == plog;
  }

  /** The primary commits and appends; the replica has not seen it yet. */
  method Append(primary: Rows, plog: seq<Frame>, record: Recovery.Record, bytes: FrameSize,
                ghost replica: Replica, ghost applied: nat)
    returns (rows: Rows, log: seq<Frame>)
    requires InSync(plog, replica, applied) && primary == RowsAfter(plog)
    ensures InSync(log, replica, applied) && rows == RowsAfter(log) && |log| == |plog| + 1
    ensures rows == Recovery.ApplyRecord(primary, record) && log[|plog|].body == record
  {
    var tx := |plog| + 1;
    log := plog + [Entry(tx, bytes, record)];
    rows := Recovery.ApplyRecord(primary, record);
    assert log[..|plog|] == plog;
    assert log[..applied] == plog[..applied];
  }

  function Count(events: seq<Event>, p: Event -> bool): nat {
    if events == [] then 0
    else Count(events[..|events| - 1], p) + if p(events[|events| - 1]) then 1 else 0
  }
}
