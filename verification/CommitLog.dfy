/** Reading the durable log: the stream source of replicas and change-data sinks. */
module CommitLog {

  type FrameSize = n: nat | 0 < n witness 1

  /** One log entry: its transaction, the bytes its frame takes, and what it records. */
  datatype Entry<R> = Entry(tx: nat, size: FrameSize, body: R)

  ghost predicate Ascending<R>(log: seq<Entry<R>>) {
    forall i, j :: 0 <= i < j < |log| ==> log[i].tx < log[j].tx
  }

  ghost predicate Holds<R>(log: seq<Entry<R>>, t: nat) {
    exists i :: 0 <= i < |log| && log[i].tx == t
  }

  /** The frames of `log` for the transactions right after `after`, without a gap. */
  ghost predicate Follows<R>(log: seq<Entry<R>>, after: nat, frames: seq<Entry<R>>) {
    forall i :: 0 <= i < |frames| ==> frames[i].tx == after + 1 + i && frames[i] in log
  }

  function Bytes<R>(log: seq<Entry<R>>): nat {
    if log == [] then 0 else Bytes(log[..|log| - 1]) + log[|log| - 1].size
  }

  lemma {:induction false} BytesPrefix<R>(log: seq<Entry<R>>, i: nat)
    requires i <= |log|
    ensures Bytes(log[..i]) <= Bytes(log)
  {
    if i < |log| {
      var n := |log| - 1;
      BytesPrefix(log[..n], i);
      assert log[..n][..i] == log[..i];
    } else {
      assert log[..i] == log;
    }
  }

  lemma BytesPush<R>(log: seq<Entry<R>>, e: Entry<R>)
    ensures Bytes(log + [e]) == Bytes(log) + e.size
  {
    assert (log + [e])[..|log|] == log;
  }

  /** What is left of the budget, and that only a first frame may exceed it. */
  ghost predicate Budgeted<R>(frames: seq<Entry<R>>, maxBytes: nat, budget: nat) {
    && budget == (if Bytes(frames) <= maxBytes then maxBytes - Bytes(frames) else 0)
    && (|frames| > 1 ==> Bytes(frames) <= maxBytes)
  }

  lemma TakeFrame<R>(frames: seq<Entry<R>>, e: Entry<R>, maxBytes: nat, budget: nat)
    requires Budgeted(frames, maxBytes, budget) && (frames == [] || e.size <= budget)
    ensures Budgeted(frames + [e], maxBytes, if e.size <= budget then budget - e.size else 0)
  {
    BytesPush(frames, e);
  }

  lemma NoFit<R>(log: seq<Entry<R>>, frames: seq<Entry<R>>, e: Entry<R>, maxBytes: nat, budget: nat)
    requires Budgeted(frames, maxBytes, budget) && e.size > budget && e in log
    ensures Stopped(log, frames, e.tx, maxBytes)
  {
  }

  /** The frame of `t` is there but does not fit behind `frames`. */
  ghost predicate Stopped<R>(log: seq<Entry<R>>, frames: seq<Entry<R>>, t: nat, maxBytes: nat) {
    exists f :: f in log && f.tx == t && Bytes(frames) + f.size > maxBytes
  }

  /** The first `i` entries have yielded `frames`, and the next one wanted is not among them. */
  ghost predicate ReadTo<R>(log: seq<Entry<R>>, i: nat, after: nat, frames: seq<Entry<R>>, last: nat) {
    && i <= |log| && Follows(log, after, frames) && last == after + |frames|
    && forall j :: 0 <= j < i ==> log[j].tx != last + 1
  }

  lemma ReadNext<R>(log: seq<Entry<R>>, i: nat, after: nat, frames: seq<Entry<R>>, last: nat)
    requires Ascending(log) && i < |log| && ReadTo(log, i, after, frames, last)
    ensures log[i].tx == last + 1 ==> ReadTo(log, i + 1, after, frames + [log[i]], log[i].tx)
    ensures log[i].tx != last + 1 ==> ReadTo(log, i + 1, after, frames, last)
  {
  }

  lemma BytesNext<R>(log: seq<Entry<R>>, i: nat)
    requires i < |log|
    ensures Bytes(log[..i + 1]) == Bytes(log[..i]) + log[i].size
  {
    assert log[..i + 1] == log[..i] + [log[i]];
    BytesPush(log[..i], log[i]);
  }

  /** Reads the contiguous frames after `after`, at least one if there is one, until the next
      would exceed `maxBytes`. */
  method ReadFramesAfter<R>(log: seq<Entry<R>>, after: nat, maxBytes: nat)
    returns (frames: seq<Entry<R>>, last: nat)
    requires Ascending(log)
    ensures Follows(log, after, frames) && last == after + |frames|
    ensures frames == [] <==> !Holds(log, after + 1)
    ensures |frames| > 1 ==> Bytes(frames) <= maxBytes
    ensures Holds(log, last + 1) ==> frames != [] && Stopped(log, frames, last + 1, maxBytes)
    ensures Bytes(log) <= maxBytes ==> !Holds(log, last + 1)
  {
    frames, last := [], after;
    var budget: nat := maxBytes;
    for i := 0 to |log|
      invariant ReadTo(log, i, after, frames, last)
      invariant Budgeted(frames, maxBytes, budget)
      invariant budget + Bytes(log[..i]) >= maxBytes
    {
      BytesNext(log, i);
      ReadNext(log, i, after, frames, last);
      if log[i].tx > after && log[i].tx == last + 1 {
        if frames != [] && log[i].size > budget {
          BytesPrefix(log, i + 1);
          NoFit(log, frames, log[i], maxBytes, budget);
          FirstHeld(log, after, frames);
          return;
        }
        TakeFrame(frames, log[i], maxBytes, budget);
        budget := if log[i].size <= budget then budget - log[i].size else 0;
        frames := frames + [log[i]];
        last := log[i].tx;
      }
    }
    FirstHeld(log, after, frames);
  }

  lemma FirstHeld<R>(log: seq<Entry<R>>, after: nat, frames: seq<Entry<R>>)
    requires Follows(log, after, frames)
    ensures frames != [] ==> Holds(log, after + 1)
  {
    assert frames != [] ==> frames[0] in log;
  }
}
