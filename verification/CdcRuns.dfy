/** Whole lives of a sink: starts, drains, failures and a log that moves underneath. */
module CdcRuns {
  import opened Wrappers
  import opened CdcDiffs
  import opened CommitLog
  import opened CdcSink
  import opened SinkFile

  datatype Event =
    | Restart(reported: nat, fate: StoreFate)
    | Drain(tip: nat, env: Env)
    | LogChange(more: seq<TxRecord>, log: Log, first: Option<nat>)
    | Toggle(disabled: bool)
    | FileLost(found: File)

  /** What the surroundings promise: the tip handed to a drain is durable, the log agrees with the
      durable records, and offsets are 64-bit. Sinks, stores and crashes may do anything. */
  ghost predicate Possible(truth: seq<TxRecord>, e: Event) {
    match e
    case Restart(reported, _) => reported < U64_LIMIT
    case Drain(tip, _) => tip <= |truth|
    case LogChange(more, log, first) => LogSound(log, first, truth + more) && |truth + more| < U64_LIMIT
    case Toggle(_) => true
    case FileLost(found) => !found.Holding?
  }

  ghost function TruthAfter(truth: seq<TxRecord>, e: Event): seq<TxRecord> {
    if e.LogChange? then truth + e.more else truth
  }

  ghost predicate PossibleRun(truth: seq<TxRecord>, events: seq<Event>)
    decreases |events|
  {
    |events| > 0 ==> Possible(truth, events[0]) && PossibleRun(TruthAfter(truth, events[0]), events[1..])
  }

  /** The furthest offset the sink itself ever reported at a start. */
  function Reported(events: seq<Event>): nat {
    if |events| == 0 then 0
    else
      var n := |events| - 1;
      Max(Reported(events[..n]), if events[n].Restart? then events[n].reported else 0)
  }

  /** The furthest the log was ever truncated. */
  function Truncated(events: seq<Event>): nat {
    if |events| == 0 then 0
    else
      var n := |events| - 1;
      Max(Truncated(events[..n]), if events[n].LogChange? then OrZero(events[n].first) else 0)
  }

  /** One event in the life of a sink. */
  method Live(sink: CdcSink, e: Event)
    requires sink.Valid() && Possible(sink.truth, e)
    modifies sink
    ensures sink.Valid() && sink.truth == TruthAfter(old(sink.truth), e)
    ensures sink.floor == Max(old(sink.floor), if e.Restart? then e.reported else 0)
    ensures sink.cutoff == Max(old(sink.cutoff), if e.LogChange? then OrZero(e.first) else 0)
    ensures !e.Restart? ==> old(sink.offset) <= sink.offset
  {
    match e {
      case Restart(reported, fate) =>
        var _ := sink.Start(reported, fate);
      case Drain(tip, env) =>
        var _ := sink.DrainTo(tip, env);
      case LogChange(more, log, first) =>
        sink.LogMoves(more, log, first);
      case Toggle(disabled) =>
        sink.disabled := disabled;
      case FileLost(found) =>
        sink.LoseFile(found);
    }
  }

  lemma EventNext(events: seq<Event>, i: nat)
    requires i < |events|
    ensures events[i..][0] == events[i] && events[i..][1..] == events[i + 1..]
    ensures Reported(events[..i + 1]) ==
            Max(Reported(events[..i]), if events[i].Restart? then events[i].reported else 0)
    ensures Truncated(events[..i + 1]) ==
            Max(Truncated(events[..i]), if events[i].LogChange? then OrZero(events[i].first) else 0)
  {
    assert events[..i + 1][..i] == events[..i];
  }

  /** Every event of a run in turn. */
  method LiveRun(sink: CdcSink, events: seq<Event>)
    requires sink.Valid() && PossibleRun(sink.truth, events)
    modifies sink
    ensures sink.Valid()
    ensures sink.floor == Max(old(sink.floor), Reported(events))
    ensures sink.cutoff == Max(old(sink.cutoff), Truncated(events))
  {
    var i := 0;
    while i < |events|
      invariant i <= |events| && sink.Valid() && PossibleRun(sink.truth, events[i..])
      invariant sink.floor == Max(old(sink.floor), Reported(events[..i]))
      invariant sink.cutoff == Max(old(sink.cutoff), Truncated(events[..i]))
    {
      EventNext(events, i);
      Live(sink, events[i]);
      i := i + 1;
    }
    assert events[..i] == events;
  }

  /** At least once: after any run, every durable transaction at or below the persisted offset was
      in a batch the sink accepted, had nothing in scope, lay in a gap the log was truncated past, or is below an
      offset the sink itself reported; the drops metered are the gaps and the lag drops. */
  method LiveAll(sink: CdcSink, events: seq<Event>)
    requires sink.Valid() && sink.floor == 0 && sink.cutoff == OrZero(sink.first) && PossibleRun(sink.truth, events)
    modifies sink
    ensures sink.Valid()
    ensures sink.drops == |sink.gaps| + sink.lagDrops
    ensures forall t: nat :: InSomeGap(sink.gaps, t) ==> t < Max(OrZero(old(sink.first)), Truncated(events))
    ensures forall t :: 1 <= t <= Load(sink.file) && t <= |sink.truth| ==>
              Accounted(sink.truth, sink.tables, Reported(events), sink.gaps, sink.sent, t)
  {
    LiveRun(sink, events);
  }

  // ----- a drain that stops at a hole -----

  /** Everything up to the tip decodes. */
  ghost predicate AllDecodable(truth: seq<TxRecord>, tables: seq<nat>) {
    forall t :: Decodable(truth, tables, t)
  }

  /** `hole` is the first transaction after `after` that is neither readable nor truncated. */
  ghost predicate FirstHole(log: Log, first: Option<nat>, after: nat, hole: nat) {
    after < hole && NoHole(log, first, after, hole - 1) && !Passable(log, first, hole)
  }

  /** With sink and store healthy a drain stops right before the first hole, on every wake. */
  method StopsBefore(sink: CdcSink, tip: nat, env: Env, ghost hole: nat) returns (r: Result<DrainOutcome>)
    requires sink.Valid() && !sink.disabled && Healthy(env) && AllDecodable(sink.truth, sink.tables)
    requires FirstHole(sink.log, sink.first, sink.offset, hole) && hole <= tip <= |sink.truth|
    modifies sink
    ensures sink.Valid() && !sink.disabled && sink.offset == hole - 1
    ensures sink.truth == old(sink.truth) && sink.log == old(sink.log) && sink.first == old(sink.first)
    ensures r == Ok(DrainOutcome(hole - 1 - old(sink.offset), hole - 1, false))
  {
    r := sink.DrainTo(tip, env);
  }

  const NOTHING := TxRecord([], [])

  const THREE: seq<TxRecord> := [NOTHING, NOTHING, NOTHING]

  /** Transactions 1 and 3 are on disk, 2 is missing inside the retained log. */
  const HOLED: Log := [Entry(1, 16, NOTHING), Entry(3, 16, NOTHING)]

  lemma HoledLog()
    ensures LogSound(HOLED, Some(1), THREE) && AllDecodable(THREE, [])
    ensures FirstHole(HOLED, Some(1), 0, 2) && FirstHole(HOLED, Some(1), 1, 2)
  {
    assert HOLED[0].tx == 1;
  }

  /** Three durable transactions, all but the second readable: the first drain delivers one and the
      next one nothing. */
  method StopsAtHole(env: Env) returns (first: Result<DrainOutcome>, again: Result<DrainOutcome>)
    requires Healthy(env)
    ensures first == Ok(DrainOutcome(1, 1, false)) && again == Ok(DrainOutcome(0, 1, false))
  {
    HoledLog();
    var sink := new CdcSink([], 1000, 1000, HOLED, Some(1), THREE);
    first := StopsBefore(sink, 3, env, 2);
    again := StopsBefore(sink, 3, env, 2);
  }
}
