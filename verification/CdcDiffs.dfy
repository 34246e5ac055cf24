/** The delta view a change-data sink receives. */
module CdcDiffs {
  import opened Wrappers
  import opened CommitLog

  type Row = string
  type Pk = string

  /** One table's changes in a log record; `decodes` is whether its stored rows decode. */
  datatype Mutation = Mutation(table: nat, inserts: seq<Row>, deletes: seq<Pk>, decodes: bool)

  datatype TxRecord = TxRecord(mutations: seq<Mutation>, autoInc: seq<(nat, nat)>)

  /** A deleted row carries its key and an empty old row: the log keeps no pre-image. */
  datatype TableDiff = TableDiff(table: nat, inserts: seq<Row>, deletes: seq<(Pk, seq<Row>)>)

  datatype TxDiff = TxDiff(tx: nat, tables: seq<TableDiff>, autoInc: seq<(nat, nat)>)

  predicate IsEmpty(d: TxDiff) {
    d.tables == [] && d.autoInc == []
  }

  /** No listed table means every table. */
  predicate InScope(tables: seq<nat>, t: nat) {
    tables == [] || t in tables
  }

  function KeysOnly(pks: seq<Pk>): seq<(Pk, seq<Row>)> {
    seq(|pks|, i requires 0 <= i < |pks| => (pks[i], []))
  }

  /** The in-scope mutations, in order; `Err` if one of them does not decode. */
  function TableDiffs(ms: seq<Mutation>, tables: seq<nat>): Result<seq<TableDiff>> {
    if ms == [] then Ok([])
    else
      var n := |ms| - 1;
      var front := TableDiffs(ms[..n], tables);
      if front.Err? || !InScope(tables, ms[n].table) then front
      else if !ms[n].decodes then Err
      else Ok(front.value + [TableDiff(ms[n].table, ms[n].inserts, KeysOnly(ms[n].deletes))])
  }

  function Counters(auto: seq<(nat, nat)>, tables: seq<nat>): seq<(nat, nat)> {
    if auto == [] then []
    else
      var n := |auto| - 1;
      Counters(auto[..n], tables) + if InScope(tables, auto[n].0) then [auto[n]] else []
  }

  function ToDiff(tx: nat, r: TxRecord, tables: seq<nat>): Result<TxDiff> {
    var t := TableDiffs(r.mutations, tables);
    if t.Err? then Err else Ok(TxDiff(tx, t.value, Counters(r.autoInc, tables)))
  }

  /** The conversion as it runs. */
  method RecordToDiff(tx: nat, r: TxRecord, tables: seq<nat>) returns (d: Result<TxDiff>)
    ensures d == ToDiff(tx, r, tables)
  {
    var out: seq<TableDiff> := [];
    for i := 0 to |r.mutations|
      invariant TableDiffs(r.mutations[..i], tables) == Ok(out)
    {
      var m := r.mutations[i];
      assert r.mutations[..i + 1][..i] == r.mutations[..i];
      if !InScope(tables, m.table) {
        continue;
      }
      if !m.decodes {
        FailsThroughout(r.mutations, tables, i + 1);
        return Err;
      }
      out := out + [TableDiff(m.table, m.inserts, KeysOnly(m.deletes))];
    }
    assert r.mutations[..|r.mutations|] == r.mutations;
    d := Ok(TxDiff(tx, out, Counters(r.autoInc, tables)));
  }

  lemma {:induction false} FailsThroughout(ms: seq<Mutation>, tables: seq<nat>, i: nat)
    requires i <= |ms| && TableDiffs(ms[..i], tables).Err?
    ensures TableDiffs(ms, tables).Err?
  {
    if i < |ms| {
      var n := |ms| - 1;
      assert ms[..n][..i] == ms[..i];
      FailsThroughout(ms[..n], tables, i);
    } else {
      assert ms[..i] == ms;
    }
  }

  /** What a sink sees of a record: a table is in the diff exactly when the record touches it in
      scope, and then with its full inserted rows and its deleted keys. */
  lemma {:induction false} DiffShows(ms: seq<Mutation>, tables: seq<nat>, t: TableDiff)
    requires TableDiffs(ms, tables).Ok?
    ensures t in TableDiffs(ms, tables).value <==>
            exists m :: m in ms && InScope(tables, m.table) && t == TableDiff(m.table, m.inserts, KeysOnly(m.deletes))
  {
    if ms != [] {
      var n := |ms| - 1;
      DiffShows(ms[..n], tables, t);
      assert ms == ms[..n] + [ms[n]];
      assert forall m :: m in ms <==> m in ms[..n] || m == ms[n];
    }
  }

  /** A counter update is in the diff exactly when its table is in scope. */
  lemma {:induction false} CountersShow(auto: seq<(nat, nat)>, tables: seq<nat>, c: (nat, nat))
    ensures c in Counters(auto, tables) <==> c in auto && InScope(tables, c.0)
  {
    if auto != [] {
      var n := |auto| - 1;
      CountersShow(auto[..n], tables, c);
      assert auto == auto[..n] + [auto[n]];
    }
  }

  // ----- batches -----

  /** `diffs` are the non-empty diffs of the frames up to `last`, in order. */
  ghost predicate IsBatch(frames: seq<Entry<TxRecord>>, tables: seq<nat>, last: nat, diffs: seq<TxDiff>) {
    && (forall i, j :: 0 <= i < j < |diffs| ==> diffs[i].tx < diffs[j].tx)
    && (forall d :: d in diffs <==> InBatch(frames, tables, last, d))
  }

  ghost predicate InBatch(frames: seq<Entry<TxRecord>>, tables: seq<nat>, last: nat, d: TxDiff) {
    exists f :: f in frames && f.tx <= last && Shown(f, tables, d)
  }

  ghost predicate Shown(f: Entry<TxRecord>, tables: seq<nat>, d: TxDiff) {
    ToDiff(f.tx, f.body, tables) == Ok(d) && !IsEmpty(d)
  }

  /** Every frame up to `last` decodes. */
  ghost predicate AllDecode(frames: seq<Entry<TxRecord>>, tables: seq<nat>, last: nat) {
    forall f :: f in frames && f.tx <= last ==> ToDiff(f.tx, f.body, tables).Ok?
  }

  /** The first `i` frames are turned into `diffs`. */
  ghost predicate Building(frames: seq<Entry<TxRecord>>, tables: seq<nat>, last: nat, i: nat, diffs: seq<TxDiff>) {
    && i <= |frames| && IsBatch(frames[..i], tables, last, diffs) && AllDecode(frames[..i], tables, last)
    && forall d :: d in diffs ==> exists j :: 0 <= j < i && d.tx == frames[j].tx
  }

  lemma InBatchPush(front: seq<Entry<TxRecord>>, e: Entry<TxRecord>, tables: seq<nat>, last: nat, d: TxDiff)
    ensures InBatch(front + [e], tables, last, d) <==>
            InBatch(front, tables, last, d) || (e.tx <= last && Shown(e, tables, d))
  {
    if InBatch(front, tables, last, d) {
      var f :| f in front && f.tx <= last && Shown(f, tables, d);
      assert f in front + [e];
    }
    assert e in front + [e];
  }

  lemma BatchPush(front: seq<Entry<TxRecord>>, e: Entry<TxRecord>, tables: seq<nat>, last: nat, diffs: seq<TxDiff>,
                  d: TxDiff)
    requires IsBatch(front, tables, last, diffs) && e.tx <= last && ToDiff(e.tx, e.body, tables) == Ok(d)
    requires forall x :: x in diffs ==> x.tx < e.tx
    ensures IsBatch(front + [e], tables, last, if IsEmpty(d) then diffs else diffs + [d])
  {
    var more := if IsEmpty(d) then diffs else diffs + [d];
    forall x ensures x in more <==> InBatch(front + [e], tables, last, x) {
      InBatchPush(front, e, tables, last, x);
    }
  }

  lemma BuildOne(frames: seq<Entry<TxRecord>>, tables: seq<nat>, last: nat, i: nat, diffs: seq<TxDiff>, d: TxDiff)
    requires Building(frames, tables, last, i, diffs) && i < |frames| && frames[i].tx <= last
    requires forall j :: 0 <= j < i ==> frames[j].tx < frames[i].tx
    requires ToDiff(frames[i].tx, frames[i].body, tables) == Ok(d)
    ensures Building(frames, tables, last, i + 1, if IsEmpty(d) then diffs else diffs + [d])
  {
    assert frames[..i + 1] == frames[..i] + [frames[i]];
    BatchPush(frames[..i], frames[i], tables, last, diffs, d);
    assert d.tx == frames[i].tx;
  }

  /** What lies behind `last` does not matter. */
  lemma BuildStops(frames: seq<Entry<TxRecord>>, tables: seq<nat>, last: nat, i: nat, diffs: seq<TxDiff>)
    requires Building(frames, tables, last, i, diffs) && forall j :: i <= j < |frames| ==> frames[j].tx > last
    ensures IsBatch(frames, tables, last, diffs) && AllDecode(frames, tables, last)
  {
    forall f | f in frames && f.tx <= last ensures f in frames[..i] {
      var j :| 0 <= j < |frames| && frames[j] == f;
      assert frames[..i][j] == f;
    }
    assert forall f :: f in frames[..i] ==> f in frames;
  }

  /** Decodes the frames up to `last`, keeping the diffs that are not empty. */
  method BuildBatch(frames: seq<Entry<TxRecord>>, tables: seq<nat>, last: nat, ghost after: nat)
    returns (r: Result<seq<TxDiff>>)
    requires forall i :: 0 <= i < |frames| ==> frames[i].tx == after + 1 + i
    ensures r.Ok? ==> IsBatch(frames, tables, last, r.value)
    ensures r.Ok? <==> AllDecode(frames, tables, last)
  {
    var diffs: seq<TxDiff> := [];
    for i := 0 to |frames|
      invariant Building(frames, tables, last, i, diffs)
    {
      if frames[i].tx > last {
        BuildStops(frames, tables, last, i, diffs);
        return Ok(diffs);
      }
      var d := RecordToDiff(frames[i].tx, frames[i].body, tables);
      if d.Err? {
        assert frames[i] in frames;
        return Err;
      }
      BuildOne(frames, tables, last, i, diffs, d.value);
      if !IsEmpty(d.value) {
        diffs := diffs + [d.value];
      }
    }
    BuildStops(frames, tables, last, |frames|, diffs);
    r := Ok(diffs);
  }
}
