/** Checkpoints stamped below the transaction their snapshot really holds. */
module LateStamps {
  import opened Recovery

  predicate Touches(r: Record, k: Key) {
    k in r.puts || k in r.deletes
  }

  /** Some replayed record writes the key. */
  ghost predicate Touched(log: seq<Record>, covered: nat, k: Key) {
    exists i :: 0 <= i < |log| && log[i].tx > covered && Touches(log[i], k)
  }

  /** What a record leaves of a key depends on the key's old row only if the record does not touch it. */
  lemma KeyAfter(a: Rows, b: Rows, r: Record, k: Key)
    ensures Touches(r, k) ==> At(ApplyRecord(a, r), k) == At(ApplyRecord(b, r), k)
    ensures !Touches(r, k) ==> At(ApplyRecord(a, r), k) == At(a, k)
  {
    RecordDecides(a, r, k);
    RecordDecides(b, r, k);
  }

  lemma TouchedSnoc(log: seq<Record>, covered: nat, k: Key)
    requires log != []
    ensures var n := |log| - 1;
            Touched(log, covered, k) <==>
            Touched(log[..n], covered, k) || (log[n].tx > covered && Touches(log[n], k))
  {
    var n := |log| - 1;
    if Touched(log[..n], covered, k) {
      var i :| 0 <= i < n && log[..n][i].tx > covered && Touches(log[..n][i], k);
      assert log[i].tx > covered && Touches(log[i], k);
    }
    if i :| 0 <= i < |log| && log[i].tx > covered && Touches(log[i], k) {
      assert i < n ==> log[..n][i] == log[i];
    }
  }

  lemma {:induction false} NothingReplayed(rows: Rows, log: seq<Record>, covered: nat)
    requires Ascending(log) && LastTx(log) <= covered
    ensures Replay(rows, log, covered) == rows
  {
    if log != [] { NothingReplayed(rows, log[..|log| - 1], covered); }
  }

  /** Replay from a snapshot of transaction `s` that claims `c`, key by key: a key already rewritten has
      the row it had at `n`, any other the row of the snapshot. */
  lemma {:induction false} KeyReplayed(h: History, log: seq<Record>, c: nat, s: nat, n: nat, k: Key)
    requires LogFaithful(h, log) && c <= s <= |h| && c <= n <= |h|
    requires Complete(log, c, n) && (LastTx(log) == n || LastTx(log) <= c == n)
    ensures At(Replay(StateAt(h, s), log, c), k) ==
            if s <= n || Touched(log, c, k) then At(StateAt(h, n), k) else At(StateAt(h, s), k)
    decreases |log|
  {
    if LastTx(log) <= c {
      NothingReplayed(StateAt(h, s), log, c);
      NoneTouched(log, c, k);
    } else {
      var m := |log| - 1;
      var r, front := log[m], log[..m];
      assert Faithful(h, r);
      FrontComplete(log, c, n);
      FrontReaches(log, c, n - 1);
      assert LogFaithful(h, front);
      KeyReplayed(h, front, c, s, n - 1, k);
      TouchedSnoc(log, c, k);
      KeyAfter(Replay(StateAt(h, s), front, c), StateAt(h, n - 1), r, k);
      KeyAfter(StateAt(h, n - 1), StateAt(h, n - 1), r, k);
    }
  }

  lemma NoneTouched(log: seq<Record>, c: nat, k: Key)
    requires Ascending(log) && LastTx(log) <= c
    ensures !Touched(log, c, k)
  {
    forall i | 0 <= i < |log| ensures log[i].tx <= c {
      assert i < |log| - 1 ==> log[i].tx < log[|log| - 1].tx;
    }
  }

  lemma FrontComplete(log: seq<Record>, c: nat, n: nat)
    requires Ascending(log) && log != [] && log[|log| - 1].tx == n && Complete(log, c, n)
    ensures n > 0 ==> Complete(log[..|log| - 1], c, n - 1)
  {
    var m := |log| - 1;
    var front := log[..m];
    forall t | c < t < n ensures Holds(front, t) {
      HoldsFront(log, m, t);
    }
  }

  /** A checkpoint stamped with a lower bound of its snapshot recovers exactly, provided the log
      reaches the snapshot. */
  lemma LowStampRecovers(h: History, log: seq<Record>, c: nat, s: nat, n: nat)
    requires LogFaithful(h, log) && c <= s <= n <= |h|
    requires Complete(log, c, n) && (LastTx(log) == n || LastTx(log) <= c == n)
    ensures Replay(StateAt(h, s), log, c) == StateAt(h, n)
  {
    var rows := Replay(StateAt(h, s), log, c);
    forall k ensures At(rows, k) == At(StateAt(h, n), k) {
      KeyReplayed(h, log, c, s, n, k);
    }
    SameRows(rows, StateAt(h, n));
  }

  // ----- a log that ends below the snapshot -----

  lemma ShortLogKeys(h: History, log: seq<Record>, c: nat, s: nat, n: nat, k: Key)
    requires LogFaithful(h, log) && c <= n < s <= |h|
    requires Complete(log, c, n) && (LastTx(log) == n || LastTx(log) <= c == n)
    ensures At(Replay(StateAt(h, s), log, c), k) ==
            if Touched(log, c, k) then At(StateAt(h, n), k) else At(StateAt(h, s), k)
  {
    KeyReplayed(h, log, c, s, n, k);
  }

  /** When the surviving log ends below the snapshot, recovery still gives the full-replay state if and
      only if every key the replayed records leave alone had the same row at the end of the log as in
      the snapshot. */
  lemma ShortLogExact(h: History, log: seq<Record>, c: nat, s: nat, n: nat)
    requires LogFaithful(h, log) && c <= n < s <= |h|
    requires Complete(log, c, n) && (LastTx(log) == n || LastTx(log) <= c == n)
    ensures Replay(StateAt(h, s), log, c) == StateAt(h, n) <==>
            forall k :: !Touched(log, c, k) ==> At(StateAt(h, n), k) == At(StateAt(h, s), k)
  {
    var rows := Replay(StateAt(h, s), log, c);
    forall k ensures At(rows, k) == if Touched(log, c, k) then At(StateAt(h, n), k) else At(StateAt(h, s), k) {
      ShortLogKeys(h, log, c, s, n, k);
    }
    if forall k :: !Touched(log, c, k) ==> At(StateAt(h, n), k) == At(StateAt(h, s), k) {
      SameRows(rows, StateAt(h, n));
    }
  }

  /** It leaves the snapshot itself intact if and only if every key they rewrite had its snapshot row
      already at the end of the log. */
  lemma SnapshotIntact(h: History, log: seq<Record>, c: nat, s: nat, n: nat)
    requires LogFaithful(h, log) && c <= n < s <= |h|
    requires Complete(log, c, n) && (LastTx(log) == n || LastTx(log) <= c == n)
    ensures Replay(StateAt(h, s), log, c) == StateAt(h, s) <==>
            forall k :: Touched(log, c, k) ==> At(StateAt(h, n), k) == At(StateAt(h, s), k)
  {
    var rows := Replay(StateAt(h, s), log, c);
    forall k ensures At(rows, k) == if Touched(log, c, k) then At(StateAt(h, n), k) else At(StateAt(h, s), k) {
      ShortLogKeys(h, log, c, s, n, k);
    }
    if forall k :: Touched(log, c, k) ==> At(StateAt(h, n), k) == At(StateAt(h, s), k) {
      SameRows(rows, StateAt(h, s));
    }
  }

  const ONE: Rows := map[User(9) := Name("u9-0")]
  const TWO: Rows := map[User(9) := Name("u9-0"), User(1) := Name("u1-0")]
  const THREE: Rows := map[User(9) := Name("u9-0"), User(1) := Name("u1-1"), User(2) := Name("u2-0")]
  const SECOND := Record(2, {}, map[User(1) := Name("u1-0")])

  /** Neither condition need hold: a checkpoint stamped 1 whose snapshot is of transaction 3, over a log
      that keeps transaction 2 only, recovers rows that no prefix of the history ever had. */
  lemma ShortLogMixes()
    ensures LogFaithful([ONE, TWO, THREE], [SECOND]) && Complete([SECOND], 1, 2)
    ensures forall n :: 0 <= n <= 3 ==>
              Replay(StateAt([ONE, TWO, THREE], 3), [SECOND], 1) != StateAt([ONE, TWO, THREE], n)
  {
    var rows := Replay(THREE, [SECOND], 1);
    assert [SECOND][..0] == [];
    assert Replay(THREE, [], 1) == THREE;
    assert rows == ApplyRecord(THREE, SECOND);
    assert rows[User(1)] == Name("u1-0") && rows[User(2)] == Name("u2-0");
    assert User(2) !in ONE && User(2) !in TWO;
    assert ApplyRecord(ONE, SECOND) == TWO;
    assert [SECOND][0].tx == 2;
  }
}
