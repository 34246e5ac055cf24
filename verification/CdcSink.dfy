/** The change-data pump: a follower of the durable log with a persisted offset. */
module CdcSink {
  import opened Wrappers
  import opened CommitLog
  import opened CdcDiffs
  import opened SinkFile

  type Log = seq<Entry<TxRecord>>

  // ----- what the durable log promises -----

  /** The log agrees with the durable records `truth` (transaction t is `truth[t - 1]`) and holds
      nothing below its first segment; beyond the durable records it may hold anything. */
  ghost predicate LogSound(log: Log, first: Option<nat>, truth: seq<TxRecord>) {
    && Ascending(log)
    && (forall i :: 0 <= i < |log| ==> 1 <= log[i].tx && (first.Some? ==> first.value <= log[i].tx))
    && forall i :: 0 <= i < |log| && log[i].tx <= |truth| ==> log[i].body == truth[log[i].tx - 1]
  }

  /** Transaction t can be read, or is known to have been truncated away. */
  ghost predicate Passable(log: Log, first: Option<nat>, t: nat) {
    Holds(log, t) || (first.Some? && t < first.value)
  }

  ghost predicate NoHole(log: Log, first: Option<nat>, after: nat, upto: nat) {
    forall t :: after < t <= upto ==> Passable(log, first, t)
  }

  // ----- what the sink was sent -----

  /** A truncated gap: the transactions above `from` up to `to`. */
  datatype Gap = Gap(from: nat, to: nat)

  ghost predicate InSomeGap(gaps: seq<Gap>, t: nat) {
    exists i :: 0 <= i < |gaps| && gaps[i].from < t <= gaps[i].to
  }

  /** Transaction t reached the sink, or there was nothing in scope to send, or it fell into a
      truncated gap, or the sink itself reported being past it. */
  ghost predicate Accounted(truth: seq<TxRecord>, tables: seq<nat>, floor: nat, gaps: seq<Gap>,
                            sent: seq<TxDiff>, t: nat)
    requires 1 <= t <= |truth|
  {
    || t <= floor || InSomeGap(gaps, t)
    || (var d := ToDiff(t, truth[t - 1], tables); d.Ok? && (IsEmpty(d.value) || d.value in sent))
  }

  ghost predicate AllAccounted(truth: seq<TxRecord>, tables: seq<nat>, floor: nat, gaps: seq<Gap>,
                               sent: seq<TxDiff>, n: nat)
  {
    forall t :: 1 <= t <= n && t <= |truth| ==> Accounted(truth, tables, floor, gaps, sent, t)
  }

  /** Everything sent is the diff of a durable record. */
  ghost predicate Genuine(truth: seq<TxRecord>, tables: seq<nat>, sent: seq<TxDiff>) {
    forall i :: 0 <= i < |sent| ==>
      && 1 <= sent[i].tx <= |truth|
      && ToDiff(sent[i].tx, truth[sent[i].tx - 1], tables) == Ok(sent[i])
  }

  /** Since the last start, in strictly increasing order and none past the offset. */
  ghost predicate InOrder(sent: seq<TxDiff>, session: nat, offset: nat) {
    && session <= |sent|
    && (forall i, j :: session <= i < j < |sent| ==> sent[i].tx < sent[j].tx)
    && forall i :: session <= i < |sent| ==> sent[i].tx <= offset
  }

  lemma AccountedGrows(truth: seq<TxRecord>, tables: seq<nat>, floor: nat, gaps: seq<Gap>, sent: seq<TxDiff>,
                       floor': nat, gaps': seq<Gap>, sent': seq<TxDiff>, n: nat)
    requires AllAccounted(truth, tables, floor, gaps, sent, n)
    requires floor <= floor' && gaps <= gaps' && sent <= sent'
    ensures AllAccounted(truth, tables, floor', gaps', sent', n)
  {
    forall t | 1 <= t <= n && t <= |truth| ensures Accounted(truth, tables, floor', gaps', sent', t) {
      assert Accounted(truth, tables, floor, gaps, sent, t);
    }
  }

  /** Records that become durable later are above everything accounted for so far. */
  lemma TruthGrows(truth: seq<TxRecord>, more: seq<TxRecord>, tables: seq<nat>, floor: nat, gaps: seq<Gap>,
                   sent: seq<TxDiff>, n: nat)
    requires AllAccounted(truth, tables, floor, gaps, sent, n) && n <= Max(|truth|, floor)
    requires Genuine(truth, tables, sent)
    ensures AllAccounted(truth + more, tables, floor, gaps, sent, n) && Genuine(truth + more, tables, sent)
  {
    forall t | 1 <= t <= n && t <= |truth + more| ensures Accounted(truth + more, tables, floor, gaps, sent, t) {
      if t <= |truth| {
        assert Accounted(truth, tables, floor, gaps, sent, t);
        assert (truth + more)[t - 1] == truth[t - 1];
      }
    }
  }

  /** A delivered batch accounts for every transaction it covers. */
  lemma BatchAccounts(log: Log, first: Option<nat>, truth: seq<TxRecord>, tables: seq<nat>, floor: nat,
                      gaps: seq<Gap>, sent: seq<TxDiff>, frames: Log, after: nat, last: nat,
                      diffs: seq<TxDiff>, n: nat)
    requires LogSound(log, first, truth) && Follows(log, after, frames)
    requires after <= last <= after + |frames| && last <= |truth|
    requires IsBatch(frames, tables, last, diffs)
    requires AllDecode(frames, tables, last)
    requires AllAccounted(truth, tables, floor, gaps, sent, n) && after <= n
    ensures AllAccounted(truth, tables, floor, gaps, sent + diffs, if n < last then last else n)
  {
    AccountedGrows(truth, tables, floor, gaps, sent, floor, gaps, sent + diffs, n);
    forall t | n < t <= last ensures Accounted(truth, tables, floor, gaps, sent + diffs, t) {
      var f := frames[t - after - 1];
      assert f in frames && f in log && f.tx == t;
      var d := ToDiff(t, f.body, tables).value;
      if !IsEmpty(d) {
        assert Shown(f, tables, d) && InBatch(frames, tables, last, d);
      }
    }
  }

  /** What is in a batch is the diff of a durable record between its two offsets. */
  lemma BatchElement(log: Log, first: Option<nat>, truth: seq<TxRecord>, tables: seq<nat>, frames: Log, after: nat,
                     last: nat, diffs: seq<TxDiff>, d: TxDiff)
    requires LogSound(log, first, truth) && Follows(log, after, frames) && last <= |truth|
    requires IsBatch(frames, tables, last, diffs) && d in diffs
    ensures after < d.tx <= last && ToDiff(d.tx, truth[d.tx - 1], tables) == Ok(d)
  {
    assert InBatch(frames, tables, last, d);
    var f :| f in frames && f.tx <= last && Shown(f, tables, d);
    var j :| 0 <= j < |frames| && frames[j] == f;
    assert f in log;
  }

  lemma SentGrows(truth: seq<TxRecord>, tables: seq<nat>, sent: seq<TxDiff>, session: nat, after: nat, last: nat,
                  diffs: seq<TxDiff>)
    requires Genuine(truth, tables, sent) && Genuine(truth, tables, diffs)
    requires InOrder(sent, session, after) && InOrder(diffs, 0, last) && after <= last
    requires forall i :: 0 <= i < |diffs| ==> after < diffs[i].tx
    ensures Genuine(truth, tables, sent + diffs) && InOrder(sent + diffs, session, last)
  {
  }

  lemma BatchGenuine(log: Log, first: Option<nat>, truth: seq<TxRecord>, tables: seq<nat>, sent: seq<TxDiff>,
                     frames: Log, after: nat, last: nat, diffs: seq<TxDiff>, session: nat)
    requires LogSound(log, first, truth) && Follows(log, after, frames) && last <= |truth|
    requires IsBatch(frames, tables, last, diffs)
    requires Genuine(truth, tables, sent) && InOrder(sent, session, after) && after <= last
    ensures Genuine(truth, tables, sent + diffs) && InOrder(sent + diffs, session, last)
    ensures forall i :: 0 <= i < |diffs| ==> after < diffs[i].tx <= last
  {
    forall i | 0 <= i < |diffs|
      ensures after < diffs[i].tx <= last && ToDiff(diffs[i].tx, truth[diffs[i].tx - 1], tables) == Ok(diffs[i])
    {
      BatchElement(log, first, truth, tables, frames, after, last, diffs, diffs[i]);
    }
    SentGrows(truth, tables, sent, session, after, last, diffs);
  }

  // ----- the pump -----

  datatype Reply = Accepted | Refused | Panicked

  /** What the outside does in each round of a drain: hot-disables, sink replies, store attempts. */
  datatype Env = Env(disables: nat -> bool, reply: nat -> Reply, fate: nat -> StoreFate)

  ghost predicate Healthy(env: Env) {
    forall k :: !env.disables(k) && env.reply(k).Accepted? && env.fate(k).Stored?
  }

  datatype DrainOutcome = DrainOutcome(advanced: nat, offset: nat, dropped: bool)

  function Max(a: nat, b: nat): nat {
    if a < b then b else a
  }

  function Min(a: nat, b: nat): nat {
    if a < b then a else b
  }

  /** `t` can be decoded if it is read. */
  ghost predicate Decodable(truth: seq<TxRecord>, tables: seq<nat>, t: nat) {
    1 <= t <= |truth| ==> ToDiff(t, truth[t - 1], tables).Ok?
  }

  /** How a round of a drain ends: another round, a clean stop, or an operational fault. */
  datatype Verdict = Go | Stopped(dropped: bool) | Failed

  datatype Plan = Caught | Stuck | Skip(to: nat) | Send(last: nat, diffs: seq<TxDiff>) | Corrupt

  /** `diffs` are all there is to send of the transactions above `after` up to `last`. */
  ghost predicate Sendable(log: Log, truth: seq<TxRecord>, tables: seq<nat>, after: nat, tip: nat, last: nat,
                           diffs: seq<TxDiff>, frames: Log)
  {
    && after < last <= after + |frames| && last <= tip <= |truth|
    && Follows(log, after, frames) && IsBatch(frames, tables, last, diffs)
    && AllDecode(frames, tables, last)
  }

  /** What a drain changes. */
  datatype Snap = Snap(offset: nat, sent: seq<TxDiff>, gaps: seq<Gap>, file: File, disabled: bool, metered: nat,
                       gapTotal: nat, lagDrops: nat)

  /** From `a` to `b` the offset only moved forward, at most to the tip and over no hole; what was
      sent on the way lies between the two offsets. */
  ghost predicate Progressed(log: Log, first: Option<nat>, tip: nat, a: Snap, b: Snap) {
    && a.offset <= b.offset <= Max(a.offset, tip)
    && a.sent <= b.sent && a.gaps <= b.gaps
    && (forall i :: |a.sent| <= i < |b.sent| ==> a.offset < b.sent[i].tx <= b.offset)
    && NoHole(log, first, a.offset, b.offset)
  }

  /** Rounds that ended with `v` metered what they moved, persisted where they got to, and dropped the
      sink for its lag at most once, at the end. */
  ghost predicate Metered(v: Verdict, a: Snap, b: Snap) {
    && (v.Stopped? ==> v.dropped == b.disabled)
    && (!v.Failed? ==> b.metered + b.gapTotal == a.metered + a.gapTotal + (b.offset - a.offset))
    && (!v.Failed? ==> if b.offset == a.offset then b.file == a.file else Load(b.file) == b.offset)
    && (b.lagDrops == a.lagDrops || (b.lagDrops == a.lagDrops + 1 && v == Stopped(true)))
  }

  lemma MeteredChains(v: Verdict, a: Snap, b: Snap, c: Snap)
    requires Metered(Go, a, b) && Metered(v, b, c) && a.offset <= b.offset <= c.offset
    ensures Metered(v, a, c)
  {
  }

  lemma ProgressChains(log: Log, first: Option<nat>, tip: nat, a: Snap, b: Snap, c: Snap)
    requires Progressed(log, first, tip, a, b) && Progressed(log, first, tip, b, c)
    ensures Progressed(log, first, tip, a, c)
  {
    forall i | |a.sent| <= i < |c.sent| ensures a.offset < c.sent[i].tx <= c.offset {
      if i < |b.sent| { assert c.sent[i] == b.sent[i]; }
    }
  }

  /** Persisting and metering are no part of it. */
  lemma StillProgressed(log: Log, first: Option<nat>, tip: nat, a: Snap, b: Snap, c: Snap)
    requires Progressed(log, first, tip, a, b) && c.offset == b.offset && c.sent == b.sent && c.gaps == b.gaps
    ensures Progressed(log, first, tip, a, c)
  {
  }

  /** The pump's invariant: neither the offset nor the file is past `high`, and everything up to
      `high` is accounted for. */
  ghost predicate Sound(log: Log, first: Option<nat>, truth: seq<TxRecord>, tables: seq<nat>, file: File, offset: nat,
                        sent: seq<TxDiff>, session: nat, gaps: seq<Gap>, floor: nat, high: nat)
  {
    && LogSound(log, first, truth) && |truth| < U64_LIMIT && floor < U64_LIMIT
    && high <= Max(|truth|, floor) && offset <= high && Load(file) <= high
    && AllAccounted(truth, tables, floor, gaps, sent, high)
    && Genuine(truth, tables, sent) && InOrder(sent, session, offset)
  }

  lemma SkipSound(log: Log, first: Option<nat>, truth: seq<TxRecord>, tables: seq<nat>, file: File, offset: nat,
                  sent: seq<TxDiff>, session: nat, gaps: seq<Gap>, floor: nat, high: nat, to: nat)
    requires Sound(log, first, truth, tables, file, offset, sent, session, gaps, floor, high)
    requires offset < to <= |truth|
    ensures Sound(log, first, truth, tables, file, to, sent, session, gaps + [Gap(offset, to)], floor, Max(high, to))
  {
    var more := gaps + [Gap(offset, to)];
    AccountedGrows(truth, tables, floor, gaps, sent, floor, more, sent, high);
    assert more[|gaps|] == Gap(offset, to);
  }

  lemma SkipProgresses(log: Log, first: Option<nat>, tip: nat, a: Snap, b: Snap)
    requires a.offset < b.offset <= tip && first.Some? && b.offset < first.value
    requires b.sent == a.sent && b.gaps == a.gaps + [Gap(a.offset, b.offset)]
    ensures Progressed(log, first, tip, a, b)
  {
  }

  lemma SkipTruncated(first: Option<nat>, gaps: seq<Gap>, cutoff: nat, offset: nat, to: nat)
    requires GapsTruncated(first, gaps, cutoff) && first.Some? && to < first.value
    ensures GapsTruncated(first, gaps + [Gap(offset, to)], cutoff)
  {
  }

  function OrZero(n: Option<nat>): nat {
    if n.None? then 0 else n.value
  }

  /** Only transactions the log was at some time truncated past were skipped: `cutoff` is the highest
      first transaction the log ever had. */
  ghost predicate GapsTruncated(first: Option<nat>, gaps: seq<Gap>, cutoff: nat) {
    OrZero(first) <= cutoff && forall i :: 0 <= i < |gaps| ==> gaps[i].to < cutoff
  }

  /** The transactions in the first `n` gaps, counted. */
  ghost function GapLength(gaps: seq<Gap>, n: nat): int
    requires n <= |gaps|
  {
    if n == 0 then 0 else GapLength(gaps, n - 1) + (gaps[n - 1].to - gaps[n - 1].from)
  }

  lemma {:induction false} GapLengthKept(gaps: seq<Gap>, g: Gap, n: nat)
    requires n <= |gaps|
    ensures GapLength(gaps + [g], n) == GapLength(gaps, n)
  {
    if n > 0 { GapLengthKept(gaps, g, n - 1); }
  }

  /** Every gap and every lag drop was metered as one drop. */
  ghost predicate Counted(gapTotal: nat, gaps: seq<Gap>, drops: nat, lagDrops: nat) {
    gapTotal == GapLength(gaps, |gaps|) && drops == |gaps| + lagDrops
  }

  lemma CountGap(gapTotal: nat, gaps: seq<Gap>, drops: nat, lagDrops: nat, g: Gap)
    requires Counted(gapTotal, gaps, drops, lagDrops) && g.from <= g.to
    ensures Counted(gapTotal + (g.to - g.from), gaps + [g], drops + 1, lagDrops)
  {
    GapLengthKept(gaps, g, |gaps|);
  }

  class CdcSink {
    const tables: seq<nat>
    const batchBudget: nat
    const lagDropThreshold: nat
    var log: Log
    var first: Option<nat>
    var file: File
    var offset: nat
    var disabled: bool
    /** Transactions metered as delivered, and sink drops metered. */
    var metered: nat
    var drops: nat
    ghost var truth: seq<TxRecord>
    ghost var sent: seq<TxDiff>
    ghost var session: nat
    ghost var gapTotal: nat
    ghost var gaps: seq<Gap>
    ghost var lagDrops: nat
    ghost var floor: nat
    ghost var high: nat
    ghost var cutoff: nat

    ghost predicate Valid()
      reads this
    {
      && Sound(log, first, truth, tables, file, offset, sent, session, gaps, floor, high)
      && GapsTruncated(first, gaps, cutoff)
      && Counted(gapTotal, gaps, drops, lagDrops)
    }

    ghost function Now(): Snap
      reads this
    {
      Snap(offset, sent, gaps, file, disabled, metered, gapTotal, lagDrops)
    }

    /** A sink that has never run, before its first start. */
    constructor (tables: seq<nat>, batchBudget: nat, lagDropThreshold: nat, log: Log, first: Option<nat>,
                 ghost truth: seq<TxRecord>)
      requires LogSound(log, first, truth) && |truth| < U64_LIMIT
      ensures Valid() && this.truth == truth && sent == [] && gaps == [] && floor == 0 && file == Missing
      ensures cutoff == OrZero(first) && offset == 0 && !disabled && drops == 0
      ensures this.tables == tables && this.log == log && this.first == first
    {
      this.tables, this.batchBudget, this.lagDropThreshold := tables, batchBudget, lagDropThreshold;
      this.log, this.first, this.truth := log, first, truth;
      file, offset, disabled, metered, drops := Missing, 0, false, 0, 0;
      sent, session, floor, high, cutoff := [], 0, 0, 0, OrZero(first);
      gapTotal, gaps, lagDrops := 0, [], 0;
    }

    /** Persists the offset; a failed attempt may leave the file as it was or cut short. */
    method Store(fate: StoreFate) returns (ok: bool)
      requires Valid()
      modifies `file
      ensures Valid() && file == AfterStore(old(file), offset, fate)
      ensures ok <==> fate.Stored?
      ensures ok ==> Load(file) == offset
    {
      TornLoadsNoLater(file, offset, fate);
      file := AfterStore(file, offset, fate);
      ok := fate.Stored?;
    }

    /** A process start: resume from the later of the persisted offset and the one the sink reports,
        persisting it when the sink was ahead. */
    method Start(reported: nat, fate: StoreFate) returns (ok: bool)
      requires Valid() && reported < U64_LIMIT
      modifies `offset, `session, `floor, `high, `file
      ensures Valid() && floor == Max(old(floor), reported)
      ensures offset == Max(Load(old(file)), reported)
      ensures ok <==> reported <= Load(old(file)) || fate.Stored?
      ensures file == if reported <= Load(old(file)) then old(file) else AfterStore(old(file), offset, fate)
      ensures ok ==> Load(file) == offset
    {
      var host := Load(file);
      AccountedGrows(truth, tables, floor, gaps, sent, Max(floor, reported), gaps, sent, high);
      floor, high, session := Max(floor, reported), Max(high, reported), |sent|;
      offset := Max(host, reported);
      ok := true;
      if offset != host {
        ok := Store(fate);
      }
    }

    /** Records become durable, and segments are flushed or truncated away. */
    method LogMoves(ghost more: seq<TxRecord>, log: Log, first: Option<nat>)
      requires Valid() && LogSound(log, first, truth + more) && |truth + more| < U64_LIMIT
      modifies `log, `first, `truth, `cutoff
      ensures Valid() && this.log == log && this.first == first && truth == old(truth) + more
      ensures cutoff == Max(old(cutoff), OrZero(first))
    {
      TruthGrows(truth, more, tables, floor, gaps, sent, high);
      cutoff := Max(cutoff, OrZero(first));
      this.log, this.first, truth := log, first, truth + more;
    }

    /** The checkpoint file is lost between runs. */
    method LoseFile(found: File)
      requires Valid() && !found.Holding?
      modifies `file
      ensures Valid() && Load(file) == 0
    {
      file := found;
    }

    /** Skips a gap the log was truncated past, as far as the tip. */
    method SkipGap(to: nat, ghost tip: nat)
      requires Valid() && offset < to <= tip <= |truth| && first.Some? && to < first.value
      modifies `offset, `drops, `gapTotal, `gaps, `high
      ensures Valid() && Progressed(log, first, tip, old(Now()), Now())
      ensures offset == to && drops == old(drops) + 1 && gaps == old(gaps) + [Gap(old(offset), to)]
      ensures gapTotal == old(gapTotal) + (to - old(offset))
    {
      CountGap(gapTotal, gaps, drops, lagDrops, Gap(offset, to));
      SkipSound(log, first, truth, tables, file, offset, sent, session, gaps, floor, high, to);
      SkipTruncated(first, gaps, cutoff, offset, to);
      ghost var was := Now();
      gapTotal, high := gapTotal + (to - offset), Max(high, to);
      drops, gaps, offset := drops + 1, gaps + [Gap(offset, to)], to;
      SkipProgresses(log, first, tip, was, Now());
    }

    /** Moves past a batch the sink accepted, or one with nothing in scope. */
    method Advance(last: nat, ghost diffs: seq<TxDiff>, ghost frames: Log, ghost tip: nat)
      requires Valid() && Sendable(log, truth, tables, offset, tip, last, diffs, frames)
      modifies `offset, `sent, `high
      ensures Valid() && Progressed(log, first, tip, old(Now()), Now())
      ensures offset == last && sent == old(sent) + diffs
    {
      BatchAccounts(log, first, truth, tables, floor, gaps, sent, frames, offset, last, diffs, high);
      BatchGenuine(log, first, truth, tables, sent, frames, offset, last, diffs, session);
      ReadPassable(log, first, offset, frames, last);
      sent, high := sent + diffs, Max(high, last);
      offset := last;
    }

    /** The sink refused or panicked: nothing moves; a sink too far behind is dropped. */
    method Decline(lag: nat, panicked: bool) returns (dropped: bool)
      requires !disabled
      modifies `disabled, `drops, `lagDrops
      ensures dropped == disabled == (panicked || lag > lagDropThreshold)
      ensures drops == old(drops) + if dropped && !panicked then 1 else 0
      ensures lagDrops == old(lagDrops) + if dropped && !panicked then 1 else 0
    {
      if panicked {
        disabled := true;
      }
      dropped := disabled || lag > lagDropThreshold;
      if dropped && !disabled {
        disabled, drops, lagDrops := true, drops + 1, lagDrops + 1;
      }
    }

    /** What the log offers next, clamped to the durable tip. */
    method Plan(tip: nat) returns (p: Plan, ghost frames: Log)
      requires Valid() && tip <= |truth|
      ensures p.Caught? <==> tip <= offset
      ensures p.Stuck? <==> offset < tip && !Passable(log, first, offset + 1)
      ensures p.Skip? ==> !Holds(log, offset + 1)
      ensures p.Skip? ==> first.Some? && offset + 1 < first.value && offset < p.to == Min(first.value - 1, tip)
      ensures p.Send? ==> Sendable(log, truth, tables, offset, tip, p.last, p.diffs, frames)
      ensures p.Send? ==> p.last == Min(offset + |frames|, tip)
      ensures p.Corrupt? ==> exists t :: offset < t <= tip && !Decodable(truth, tables, t)
    {
      frames := [];
      if offset >= tip {
        return Caught, [];
      }
      var read, readLast := ReadFramesAfter(log, offset, batchBudget);
      frames := read;
      if read == [] {
        p := if first.Some? && first.value > offset + 1 then Skip(Min(first.value - 1, tip)) else Stuck;
        return;
      }
      var last := Min(readLast, tip);
      var batch := BuildBatch(read, tables, last, offset);
      if batch.Err? {
        Undecodable(log, first, truth, tables, offset, read, last);
        return Corrupt, read;
      }
      p := Send(last, batch.value);
    }

    /** The batch went through: advance and persist, then meter. */
    method HandOn(last: nat, ghost diffs: seq<TxDiff>, ghost frames: Log, ghost tip: nat, fate: StoreFate)
      returns (ok: bool)
      requires Valid() && Sendable(log, truth, tables, offset, tip, last, diffs, frames)
      modifies `offset, `sent, `high, `file, `metered
      ensures Valid() && Progressed(log, first, tip, old(Now()), Now())
      ensures offset == last && (ok <==> fate.Stored?)
      ensures ok ==> Load(file) == offset && metered == old(metered) + (offset - old(offset))
    {
      var advanced := last - offset;
      ghost var was := Now();
      Advance(last, diffs, frames, tip);
      ghost var moved := Now();
      ok := Store(fate);
      if ok {
        metered := metered + advanced;
      }
      StillProgressed(log, first, tip, was, moved, Now());
    }

    /** The gap is passed and the new offset persisted. */
    method PassGap(to: nat, ghost tip: nat, fate: StoreFate) returns (ok: bool)
      requires Valid() && offset < to <= tip <= |truth| && first.Some? && to < first.value
      modifies `offset, `drops, `gapTotal, `gaps, `high, `file
      ensures Valid() && Progressed(log, first, tip, old(Now()), Now())
      ensures offset == to && (ok <==> fate.Stored?)
      ensures ok ==> Load(file) == offset && gapTotal == old(gapTotal) + (offset - old(offset))
    {
      SkipGap(to, tip);
      ok := Store(fate);
    }

    /** Offers a batch to the sink; one with nothing in scope passes without it. */
    method Offer(last: nat, diffs: seq<TxDiff>, ghost frames: Log, tip: nat, reply: Reply, fate: StoreFate)
      returns (v: Verdict)
      requires Valid() && !disabled && Sendable(log, truth, tables, offset, tip, last, diffs, frames)
      modifies `offset, `disabled, `file, `metered, `drops, `lagDrops, `sent, `high
      ensures Valid() && Progressed(log, first, tip, old(Now()), Now())
      ensures Metered(v, old(Now()), Now())
      ensures v.Go? ==> !disabled && old(offset) < offset <= tip
      ensures v.Stopped? ==> offset == old(offset) && !reply.Accepted?
      ensures v.Failed? ==> !fate.Stored?
    {
      if diffs != [] && !reply.Accepted? {
        var dropped := Decline(tip - offset, reply.Panicked?);
        v := Stopped(dropped);
      } else {
        var ok := HandOn(last, diffs, frames, tip, fate);
        v := if ok then Go else Failed;
      }
    }

    /** One round with the sink enabled: a batch, a skipped gap, or a reason to stop. */
    method Attempt(tip: nat, reply: Reply, fate: StoreFate) returns (v: Verdict)
      requires Valid() && tip <= |truth| && !disabled
      modifies `offset, `disabled, `file, `metered, `drops, `lagDrops, `sent, `gapTotal, `gaps, `high
      ensures Valid() && Progressed(log, first, tip, old(Now()), Now())
      ensures Metered(v, old(Now()), Now())
      ensures v.Go? ==> !disabled && old(offset) < offset <= tip
      ensures v.Stopped? && reply.Accepted? ==> !disabled && (tip <= offset || !Passable(log, first, offset + 1))
      ensures v.Failed? && fate.Stored? ==> exists t :: old(offset) < t <= tip && !Decodable(truth, tables, t)
    {
      var p;
      ghost var frames;
      p, frames := Plan(tip);
      match p {
        case Caught => v := Stopped(false);
        case Stuck => v := Stopped(false);
        case Corrupt => v := Failed;
        case Skip(to) =>
          var ok := PassGap(to, tip, fate);
          v := if ok then Go else Failed;
        case Send(last, diffs) =>
          v := Offer(last, diffs, frames, tip, reply, fate);
      }
    }

    /** One round: an administrator may disable the sink just before it. */
    method Round(tip: nat, disables: bool, reply: Reply, fate: StoreFate) returns (v: Verdict)
      requires Valid() && tip <= |truth|
      modifies `offset, `disabled, `file, `metered, `drops, `lagDrops, `sent, `gapTotal, `gaps, `high
      ensures Valid() && Progressed(log, first, tip, old(Now()), Now())
      ensures Metered(v, old(Now()), Now())
      ensures v.Go? ==> !disabled && old(offset) < offset <= tip
      ensures v.Stopped? && !old(disabled) && !disables && reply.Accepted? ==>
                !disabled && (tip <= offset || !Passable(log, first, offset + 1))
      ensures v.Failed? && fate.Stored? ==> exists t :: old(offset) < t <= tip && !Decodable(truth, tables, t)
    {
      if disables {
        disabled := true;
      }
      if disabled {
        v := Stopped(true);
      } else {
        v := Attempt(tip, reply, fate);
      }
    }

    /** Rounds until one does not go on. */
    method Rounds(tip: nat, env: Env) returns (v: Verdict)
      requires Valid() && tip <= |truth|
      modifies `offset, `disabled, `file, `metered, `drops, `lagDrops, `sent, `gapTotal, `gaps, `high
      ensures Valid() && Progressed(log, first, tip, old(Now()), Now()) && !v.Go?
      ensures Metered(v, old(Now()), Now())
      ensures Healthy(env) && !old(disabled) && v.Stopped? ==>
                !disabled && (tip <= offset || !Passable(log, first, offset + 1))
      ensures Healthy(env) && v.Failed? ==> exists t :: old(offset) < t <= tip && !Decodable(truth, tables, t)
    {
      ghost var was := Now();
      var round := 0;
      while true
        invariant Valid() && Progressed(log, first, tip, was, Now())
        invariant Metered(Go, was, Now())
        invariant Healthy(env) && !old(disabled) ==> !disabled
        decreases tip - offset
      {
        ghost var before := Now();
        v := Round(tip, env.disables(round), env.reply(round), env.fate(round));
        ProgressChains(log, first, tip, was, before, Now());
        MeteredChains(v, was, before, Now());
        if !v.Go? {
          return;
        }
        round := round + 1;
      }
    }

    /** Delivers everything after the offset up to `tip`, in order, one persisted batch at a time.
        Stops early when the sink refuses or panics, is disabled, or the next entry is missing. */
    method DrainTo(tip: nat, env: Env) returns (r: Result<DrainOutcome>)
      requires Valid() && tip <= |truth|
      modifies `offset, `disabled, `file, `metered, `drops, `lagDrops, `sent, `gapTotal, `gaps, `high
      ensures Valid() && Progressed(log, first, tip, old(Now()), Now())
      ensures r.Ok? ==> r.value == DrainOutcome(offset - old(offset), offset, disabled)
      ensures r.Ok? ==> metered + gapTotal == old(metered + gapTotal) + (offset - old(offset))
      ensures r.Ok? && offset != old(offset) ==> Load(file) == offset
      ensures Healthy(env) && !old(disabled) && (forall t :: old(offset) < t <= tip ==> Decodable(truth, tables, t)) ==>
                r.Ok? && !disabled && (tip <= offset || !Passable(log, first, offset + 1)) &&
                (tip <= offset <==> NoHole(log, first, old(offset), tip))
      ensures lagDrops == old(lagDrops) || (lagDrops == old(lagDrops) + 1 && r.Ok? && r.value.dropped)
    {
      var start := offset;
      var v := Rounds(tip, env);
      StoppedAtHole(log, first, start, offset, tip);
      r := if v.Failed? then Err else Ok(DrainOutcome(offset - start, offset, v.dropped));
    }
  }

  /** A drain that came as far as it could passed the tip exactly when there was no hole before it. */
  lemma StoppedAtHole(log: Log, first: Option<nat>, start: nat, offset: nat, tip: nat)
    requires NoHole(log, first, start, offset) && start <= offset
    ensures tip <= offset ==> NoHole(log, first, start, tip)
    ensures offset < tip && !Passable(log, first, offset + 1) ==> !NoHole(log, first, start, tip)
  {
  }

  lemma ReadPassable(log: Log, first: Option<nat>, after: nat, frames: Log, last: nat)
    requires Follows(log, after, frames) && last <= after + |frames|
    ensures NoHole(log, first, after, last)
  {
    forall t | after < t <= last ensures Holds(log, t) {
      var f := frames[t - after - 1];
      assert f in log && f.tx == t;
    }
  }

  lemma Undecodable(log: Log, first: Option<nat>, truth: seq<TxRecord>, tables: seq<nat>, after: nat,
                    frames: Log, last: nat)
    requires LogSound(log, first, truth) && Follows(log, after, frames) && last <= |truth|
    requires !AllDecode(frames, tables, last)
    ensures exists t :: after < t <= last && !Decodable(truth, tables, t)
  {
    var f :| f in frames && f.tx <= last && ToDiff(f.tx, f.body, tables).Err?;
    var j :| 0 <= j < |frames| && frames[j] == f;
    assert f in log;
    assert !Decodable(truth, tables, f.tx);
  }
}
