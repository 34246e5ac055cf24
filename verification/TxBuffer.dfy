/** The write buffer of the one transaction in flight, and the mutations the simulator feeds it. */
module TxBuffer {
  import opened Wrappers
  import opened Recovery

  /** What the transaction will do to one key. */
  datatype PendingOp = Insert(row: Row) | Delete | Update(row: Row)

  type Ops = map<Key, PendingOp>

  /** An insert is of a key that was not committed; deletes and updates are of ones that were. */
  predicate Sound(base: Rows, ops: Ops) {
    forall k :: k in ops ==> (ops[k].Insert? <==> k !in base)
  }

  /** No update writes back the committed row. */
  predicate Minimal(base: Rows, ops: Ops) {
    forall k :: k in ops && ops[k].Update? && k in base ==> ops[k].row != base[k]
  }

  /** The rows the transaction sees: the buffer over the committed rows. */
  function Visible(base: Rows, ops: Ops, k: Key): Option<Row> {
    if k in ops then (if ops[k].Delete? then None else Some(ops[k].row))
    else if k in base then Some(base[k])
    else None
  }

  /** `rows` is what the transaction sees. */
  ghost predicate Shows(base: Rows, ops: Ops, rows: Rows) {
    forall k :: Visible(base, ops, k) == At(rows, k)
  }

  /** The buffer after a write: an insert of a visible key is refused; putting the committed row back
      over a pending delete cancels. */
  function Written(base: Rows, ops: Ops, k: Key, row: Row, replace: bool): Result<Ops> {
    if !replace && Visible(base, ops, k).Some? then Err
    else if k in ops then
      if ops[k].Insert? then Ok(ops[k := Insert(row)])
      else if ops[k].Update? then Ok(ops[k := Update(row)])
      else if At(base, k) == Some(row) then Ok(ops - {k})
      else Ok(ops[k := Update(row)])
    else if k !in base then Ok(ops[k := Insert(row)])
    else if base[k] == row then Ok(ops)
    else Ok(ops[k := Update(row)])
  }

  /** The buffer after a delete: deleting a pending insert cancels. */
  function Deleted(base: Rows, ops: Ops, k: Key): Ops {
    if k in ops then (if ops[k].Insert? then ops - {k} else ops[k := Delete])
    else if k in base then ops[k := Delete]
    else ops
  }

  /** What a commit logs: old rows as deletes, new rows as inserts; an update is both. */
  function RecordOf(tx: nat, ops: Ops): Record {
    Record(tx, set k | k in ops && !ops[k].Insert?, map k | k in ops && !ops[k].Delete? :: ops[k].row)
  }

  class Tx {
    const base: Rows
    var ops: Ops

    ghost predicate Valid()
      reads this
    {
      Sound(base, ops)
    }

    constructor (base: Rows)
      ensures Valid() && this.base == base && ops == map[] && Shows(base, ops, base)
    {
      this.base, ops := base, map[];
    }

    /** Writes a row: an insert is refused when the key is visible, an upsert (`replace`) never is. The
        buffer stays minimal exactly unless an upsert puts the committed row back over a pending update. */
    method Write(k: Key, row: Row, replace: bool) returns (ok: bool)
      requires Valid()
      modifies this
      ensures Valid()
      ensures ok <==> replace || Visible(base, old(ops), k).None?
      ensures Written(base, old(ops), k, row, replace) == if ok then Ok(ops) else Err
      ensures !ok ==> ops == old(ops)
      ensures ok ==> Visible(base, ops, k) == Some(row)
      ensures forall j :: j != k ==> Visible(base, ops, j) == Visible(base, old(ops), j)
      ensures old(Minimal(base, ops)) && ok ==>
                (Minimal(base, ops) <==> !(k in old(ops) && old(ops)[k].Update? && base[k] == row))
    {
      var occupied := if k in ops then !ops[k].Delete? else k in base;
      if occupied && !replace {
        return false;
      }
      ok := true;
      if k in ops {
        match ops[k] {
          case Delete =>
            if base[k] == row {
              ops := ops - {k};
            } else {
              ops := ops[k := Update(row)];
            }
          case Insert(_) =>
            ops := ops[k := Insert(row)];
          case Update(_) =>
            ops := ops[k := Update(row)];
        }
      } else if k in base {
        if base[k] != row {
          ops := ops[k := Update(row)];
        }
      } else {
        ops := ops[k := Insert(row)];
      }
    }

    /** Deletes the visible row of a key, if there is one. */
    method DeleteOne(k: Key) returns (gone: Option<Row>)
      requires Valid()
      modifies this
      ensures Valid() && gone == Visible(base, old(ops), k) && ops == Deleted(base, old(ops), k)
      ensures Visible(base, ops, k).None?
      ensures forall j :: j != k ==> Visible(base, ops, j) == Visible(base, old(ops), j)
      ensures old(Minimal(base, ops)) ==> Minimal(base, ops)
    {
      if k in ops {
        match ops[k] {
          case Insert(row) =>
            gone, ops := Some(row), ops - {k};
          case Update(row) =>
            gone, ops := Some(row), ops[k := Delete];
          case Delete =>
            gone := None;
        }
      } else if k in base {
        gone, ops := Some(base[k]), ops[k := Delete];
      } else {
        gone := None;
      }
    }

    /** Merges the buffer into the committed rows, one key at a time in any order, and returns what was
        deleted and written. */
    method Commit(tx: nat) returns (rows: Rows, record: Record)
      requires Valid()
      ensures Shows(base, ops, rows)
      ensures record == RecordOf(tx, ops) && ApplyRecord(base, record) == rows
      ensures Minimal(base, ops) ==> (rows == base <==> record.deletes == {} && record.puts == map[])
    {
      rows, record := base, Record(tx, {}, map[]);
      var left := ops.Keys;
      while left != {}
        invariant left <= ops.Keys && record.tx == tx
        invariant forall k :: At(rows, k) == if k in left then At(base, k) else Visible(base, ops, k)
        invariant forall k :: k in record.deletes <==> k in ops && k !in left && !ops[k].Insert?
        invariant forall k :: k in record.puts <==> k in ops && k !in left && !ops[k].Delete?
        invariant forall k :: k in record.puts ==> record.puts[k] == ops[k].row
      {
        var k :| k in left;
        match ops[k] {
          case Insert(row) =>
            rows, record := rows[k := row], record.(puts := record.puts[k := row]);
          case Delete =>
            rows, record := rows - {k}, record.(deletes := record.deletes + {k});
          case Update(row) =>
            rows := rows[k := row];
            record := record.(deletes := record.deletes + {k}, puts := record.puts[k := row]);
        }
        left := left - {k};
      }
      assert record.deletes == RecordOf(tx, ops).deletes && record.puts == RecordOf(tx, ops).puts;
      Merged(base, ops, rows, record);
    }
  }

  lemma Merged(base: Rows, ops: Ops, rows: Rows, record: Record)
    requires Sound(base, ops) && Shows(base, ops, rows)
    requires forall k :: k in record.deletes <==> k in ops && !ops[k].Insert?
    requires forall k :: k in record.puts <==> k in ops && !ops[k].Delete?
    requires forall k :: k in record.puts ==> record.puts[k] == ops[k].row
    ensures ApplyRecord(base, record) == rows
    ensures Minimal(base, ops) ==> (rows == base <==> record.deletes == {} && record.puts == map[])
  {
    var applied := ApplyRecord(base, record);
    forall k ensures At(applied, k) == At(rows, k) {
      RecordDecides(base, record, k);
      assert Visible(base, ops, k) == At(rows, k);
    }
    SameRows(applied, rows);
    if Minimal(base, ops) && rows == base {
      forall k ensures k !in ops {
        assert Visible(base, ops, k) == At(base, k);
      }
    }
  }

  // ----- the simulator's mutations -----

  datatype Mutation =
    | UserInsert(id: nat, name: string)
    | UserDelete(id: nat)
    | SensorUpsert(x: int, y: int, bits: nat)
    | SensorDelete(x: int, y: int)

  /** What a mutation does to the oracle's rows: a colliding user insert does nothing. */
  function Mutate(rows: Rows, m: Mutation): Rows {
    match m
    case UserInsert(id, name) => if User(id) in rows then rows else rows[User(id) := Name(name)]
    case UserDelete(id) => rows - {User(id)}
    case SensorUpsert(x, y, bits) => rows[Sensor(x, y) := Reading(bits)]
    case SensorDelete(x, y) => rows - {Sensor(x, y)}
  }

  function MutateAll(rows: Rows, ms: seq<Mutation>): Rows {
    if ms == [] then rows else Mutate(MutateAll(rows, ms[..|ms| - 1]), ms[|ms| - 1])
  }

  /** What a mutation does to the engine's buffer; a sensor upsert deletes first when the sensor is there. */
  function Buffered(base: Rows, ops: Ops, m: Mutation): Ops {
    match m
    case UserInsert(id, name) =>
      var r := Written(base, ops, User(id), Name(name), false);
      if r.Ok? then r.value else ops
    case UserDelete(id) => Deleted(base, ops, User(id))
    case SensorUpsert(x, y, bits) =>
      var k := Sensor(x, y);
      var before := if Visible(base, ops, k).Some? then Deleted(base, ops, k) else ops;
      var r := Written(base, before, k, Reading(bits), false);
      if r.Ok? then r.value else ops
    case SensorDelete(x, y) => Deleted(base, ops, Sensor(x, y))
  }

  function BufferedAll(base: Rows, ms: seq<Mutation>): Ops {
    if ms == [] then map[] else Buffered(base, BufferedAll(base, ms[..|ms| - 1]), ms[|ms| - 1])
  }

  /** One mutation on both sides: the engine accepts, refuses and finds exactly what the oracle predicts. */
  method MutateBoth(tx: Tx, pending: Rows, m: Mutation) returns (rows: Rows)
    requires tx.Valid() && Shows(tx.base, tx.ops, pending) && Minimal(tx.base, tx.ops)
    modifies tx
    ensures tx.Valid() && Shows(tx.base, tx.ops, rows) && Minimal(tx.base, tx.ops)
    ensures rows == Mutate(pending, m) && tx.ops == Buffered(tx.base, old(tx.ops), m)
  {
    match m {
      case UserInsert(id, name) =>
        var predicted := User(id) !in pending;
        assert Visible(tx.base, tx.ops, User(id)) == At(pending, User(id));
        var got := tx.Write(User(id), Name(name), false);
        assert got == predicted;
        rows := if got then pending[User(id) := Name(name)] else pending;
      case UserDelete(id) =>
        assert Visible(tx.base, tx.ops, User(id)) == At(pending, User(id));
        var got := tx.DeleteOne(User(id));
        assert got.Some? == (User(id) in pending);
        rows := pending - {User(id)};
      case SensorUpsert(x, y, bits) =>
        var k := Sensor(x, y);
        assert Visible(tx.base, tx.ops, k) == At(pending, k);
        if k in pending {
          var got := tx.DeleteOne(k);
          assert got.Some?;
        }
        var ok := tx.Write(k, Reading(bits), false);
        assert ok;
        rows := pending[k := Reading(bits)];
      case SensorDelete(x, y) =>
        var k := Sensor(x, y);
        assert Visible(tx.base, tx.ops, k) == At(pending, k);
        var got := tx.DeleteOne(k);
        assert got.Some? == (k in pending);
        rows := pending - {k};
    }
  }

  /** A whole transaction on both sides, committed: the engine's rows are the oracle's, and the record
      leads there; it is empty exactly when nothing changed. */
  method Transact(base: Rows, ms: seq<Mutation>, tx: nat) returns (pending: Rows, rows: Rows, record: Record)
    ensures pending == MutateAll(base, ms) && rows == pending
    ensures record == RecordOf(tx, BufferedAll(base, ms)) && ApplyRecord(base, record) == pending
    ensures pending == base <==> record.deletes == {} && record.puts == map[]
  {
    var buffer := new Tx(base);
    pending := base;
    for i := 0 to |ms|
      invariant fresh(buffer) && buffer.Valid() && buffer.base == base
      invariant Shows(base, buffer.ops, pending) && Minimal(base, buffer.ops)
      invariant pending == MutateAll(base, ms[..i]) && buffer.ops == BufferedAll(base, ms[..i])
    {
      assert ms[..i + 1][..i] == ms[..i];
      pending := MutateBoth(buffer, pending, ms[i]);
    }
    assert ms[..|ms|] == ms;
    rows, record := buffer.Commit(tx);
    forall k ensures At(rows, k) == At(pending, k) {
      assert Visible(base, buffer.ops, k) == At(rows, k);
    }
    SameRows(rows, pending);
  }

  /** An upsert that puts the committed row back over a pending update leaves a record that deletes and
      rewrites it: the buffer cancels only a delete followed by an insert. */
  method UpsertBackIsLogged() returns (rows: Rows, record: Record)
    ensures rows == map[User(1) := Name("a")] && record.deletes == {User(1)} && record.puts == rows
  {
    var base: Rows := map[User(1) := Name("a")];
    var buffer := new Tx(base);
    var first := buffer.Write(User(1), Name("b"), true);
    assert Visible(base, buffer.ops, User(1)) == Some(Name("b"));
    var second := buffer.Write(User(1), Name("a"), true);
    forall k ensures k in buffer.ops <==> k == User(1) {
      assert k != User(1) ==> Visible(base, buffer.ops, k) == Visible(base, map[], k) == None;
    }
    rows, record := buffer.Commit(1);
    forall k ensures At(rows, k) == At(base, k) {
      assert Visible(base, buffer.ops, k) == At(rows, k);
    }
    SameRows(rows, base);
    assert record.deletes == {User(1)};
    RecordDecides(base, record, User(1));
  }
}
