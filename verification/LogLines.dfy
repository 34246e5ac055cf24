/** The log stream client: bytes in, complete log lines out. */
module LogLines {
  import opened Wrappers
  import opened Chunks

  /** How a line of bytes is shown: decoded as text, trailing blanks trimmed. */
  type Show = string -> string

  /** The complete lines of a payload, the blank ones dropped. */
  function Lines(p: string, show: Show): seq<string>
    decreases |p|
  {
    var end := Find(p, "\n");
    if end.None? then []
    else Shown(show(p[..end.value + 1])) + Lines(p[end.value + 1..], show)
  }

  function Shown(text: string): seq<string> {
    if text == [] then [] else [text]
  }

  predicate EndsLine(p: string) {
    p == [] || p[|p| - 1] == '\n'
  }

  /** The first line does not change when more payload arrives. */
  lemma FirstLine(c: string, x: string)
    requires c != [] && EndsLine(c)
    ensures var end := Find(c, "\n");
            && end.Some? && Find(c + x, "\n") == end && end.value < |c| && EndsLine(c[end.value + 1..])
            && (c + x)[..end.value + 1] == c[..end.value + 1]
            && (c + x)[end.value + 1..] == c[end.value + 1..] + x
  {
    assert c[|c| - 1..|c|] == "\n";
    assert At(c, |c| - 1, "\n");
    FindStays(c, x, "\n");
  }

  /** Lines are independent of what follows them. */
  lemma {:induction false} LinesConcat(c: string, x: string, show: Show)
    requires EndsLine(c)
    ensures Lines(c + x, show) == Lines(c, show) + Lines(x, show)
    decreases |c|
  {
    if c == [] {
      assert c + x == x && [] + Lines(x, show) == Lines(x, show);
    } else {
      var line, rest := LinesHead(c, x, show);
      LinesConcat(rest, x, show);
      LinesAssociate(Shown(show(line)), Lines(rest, show), Lines(x, show));
    }
  }

  lemma LinesHead(c: string, x: string, show: Show) returns (line: string, rest: string)
    requires c != [] && EndsLine(c)
    ensures |rest| < |c| && EndsLine(rest)
    ensures Lines(c, show) == Shown(show(line)) + Lines(rest, show)
    ensures Lines(c + x, show) == Shown(show(line)) + Lines(rest + x, show)
  {
    FirstLine(c, x);
    var n := Find(c, "\n").value + 1;
    line, rest := c[..n], c[n..];
    LinesStep(c, n, line, rest, show);
    LinesStep(c + x, n, line, rest + x, show);
  }

  lemma LinesStep(p: string, n: nat, line: string, rest: string, show: Show)
    requires 0 < n <= |p| && Find(p, "\n") == Some(n - 1) && p[..n] == line && p[n..] == rest
    ensures Lines(p, show) == Shown(show(line)) + Lines(rest, show)
  {
  }

  lemma LinesAssociate(a: seq<string>, b: seq<string>, c: seq<string>)
    ensures a + b + c == a + (b + c)
  {
  }

  /** A payload that was given out whole lines at a time. */
  lemma OneMoreLine(consumed: string, line: string, show: Show)
    requires EndsLine(consumed) && Find(line, "\n") == Some(|line| - 1)
    ensures EndsLine(consumed + line)
    ensures Lines(consumed + line, show) == Lines(consumed, show) + Shown(show(line))
  {
    assert line[|line| - 1..|line|] == "\n";
    LinesConcat(consumed, line, show);
    assert line[..|line|] == line;
    assert Lines(line[|line|..], show) == [];
  }

  class ChunkDecoder {
    const beyond: Size
    const show: Show
    var raw: string
    var payload: string
    var status: Status
    /** Everything fed so far, the payload already given out, and the lines it was. */
    ghost var fed: string
    ghost var consumed: string
    ghost var taken: seq<string>

    ghost predicate Valid()
      reads this
    {
      && Decode(fed, beyond) == Decoded(raw, consumed + payload, status)
      && EndsLine(consumed) && Lines(consumed, show) == taken
    }

    constructor (beyond: Size, show: Show)
      ensures Valid() && fed == [] && taken == [] && this.beyond == beyond && this.show == show
    {
      this.beyond, this.show := beyond, show;
      raw, payload, status := [], [], Reading;
      fed, consumed, taken := [], [], [];
    }

    predicate IsDone()
      reads this
    {
      status.Done?
    }

    /** Moves every complete chunk into the payload. */
    method DecodeRaw()
      modifies `raw, `payload, `status
      ensures var d := Decode(old(raw), beyond);
              && raw == d.raw && payload == old(payload) + d.payload
              && status == if d.status.Reading? then old(status) else d.status
    {
      ghost var all, got := Decode(raw, beyond), "";
      while true
        invariant status == old(status) && payload == old(payload) + got
        invariant var d := Decode(raw, beyond); all == d.(payload := got + d.payload)
        decreases |raw|
      {
        assert got + "" == got;
        match FrontOf(raw, beyond) {
          case Partial =>
            return;
          case Last =>
            status := Done;
            return;
          case Unaddressable =>
            status := Aborted;
            return;
          case Whole(data, used) =>
            DecodeStep(raw, data, used, raw[used..], beyond);
            Reassociate(got, data, Decode(raw[used..], beyond).payload);
            Reassociate(old(payload), got, data);
            payload, raw := payload + data, raw[used..];
            got := got + data;
        }
      }
    }

    /** However the bytes are cut up, the decoder ends up where it would with all of them at once. */
    method Feed(bytes: string)
      requires Valid()
      modifies `raw, `payload, `status, `fed
      ensures Valid() && fed == old(fed) + bytes
    {
      FeedDecodes(fed, bytes, raw, consumed, payload, status, beyond);
      raw, fed := raw + bytes, fed + bytes;
      DecodeRaw();
    }

    /** The next line, or none when no complete line is left. */
    method NextLine() returns (r: Option<string>)
      requires Valid()
      modifies `payload, `consumed, `taken
      ensures Valid() && fed == old(fed)
      ensures r.Some? ==> taken == old(taken) + [r.value]
      ensures r.None? ==> taken == old(taken) && Lines(payload, show) == []
    {
      while true
        invariant Valid() && taken == old(taken)
        decreases |payload|
      {
        var end := Find(payload, "\n");
        if end.None? {
          return None;
        }
        var line, rest := payload[..end.value + 1], payload[end.value + 1..];
        TakeLine(consumed, payload, end.value, line, rest, show);
        var text := show(line);
        consumed, taken, payload := consumed + line, taken + Shown(text), rest;
        if text != "" {
          return Some(text);
        }
      }
    }
  }

  /** Decoding the left-over bytes with the new ones completes decoding all of them. */
  lemma FeedDecodes(fed: string, bytes: string, raw: string, consumed: string, payload: string, status: Status,
                    beyond: Size)
    requires Decode(fed, beyond) == Decoded(raw, consumed + payload, status)
    ensures var d := Decode(raw + bytes, beyond);
            Decode(fed + bytes, beyond) ==
            Decoded(d.raw, consumed + (payload + d.payload), if d.status.Reading? then status else d.status)
  {
    var d := Decode(raw + bytes, beyond);
    SplitAnywhere(fed, bytes, beyond);
    Reassociate(consumed, payload, d.payload);
    LeftOver(fed, beyond);
    if !status.Reading? { StaysEnded(raw, bytes, beyond, status); }
  }

  /** Handing out the first line of the payload. */
  lemma TakeLine(consumed: string, payload: string, end: nat, line: string, rest: string, show: Show)
    requires EndsLine(consumed) && Find(payload, "\n") == Some(end)
    requires line == payload[..end + 1] && rest == payload[end + 1..]
    ensures consumed + payload == consumed + line + rest && EndsLine(consumed + line)
    ensures Lines(consumed + line, show) == Lines(consumed, show) + Shown(show(line))
  {
    LineOf(payload, end);
    OneMoreLine(consumed, line, show);
    assert line + rest == payload;
    Reassociate(consumed, line, rest);
  }

  lemma LineOf(p: string, end: nat)
    requires Find(p, "\n") == Some(end)
    ensures Find(p[..end + 1], "\n") == Some(end)
  {
    var line := p[..end + 1];
    assert line[end..end + 1] == p[end..end + 1];
    assert At(line, end, "\n");
    var k := Find(line, "\n").value;
    assert line[k..k + 1] == p[k..k + 1];
    assert At(p, k, "\n");
  }

  datatype Call = FeedCall(bytes: string) | NextCall

  function Fed(calls: seq<Call>): string {
    if calls == [] then []
    else
      var n := |calls| - 1;
      Fed(calls[..n]) + if calls[n].FeedCall? then calls[n].bytes else []
  }

  /** Any interleaving of feeding and taking lines: the lines taken, and the ones still there, are
      the lines of the whole payload. */
  method Drive(beyond: Size, show: Show, calls: seq<Call>) returns (lines: seq<string>, left: string, done: bool)
    ensures var d := Decode(Fed(calls), beyond);
            lines + Lines(left, show) == Lines(d.payload, show) && done == d.status.Done?
  {
    var decoder := new ChunkDecoder(beyond, show);
    lines := [];
    for i := 0 to |calls|
      invariant fresh(decoder) && decoder.Valid() && decoder.fed == Fed(calls[..i]) && lines == decoder.taken
      invariant decoder.beyond == beyond && decoder.show == show
    {
      assert calls[..i + 1][..i] == calls[..i];
      match calls[i] {
        case FeedCall(bytes) =>
          decoder.Feed(bytes);
        case NextCall =>
          var line := decoder.NextLine();
          assert Fed(calls[..i]) + [] == Fed(calls[..i]);
          if line.Some? {
            lines := lines + [line.value];
          }
      }
    }
    assert calls[..|calls|] == calls;
    LinesConcat(decoder.consumed, decoder.payload, show);
    left, done := decoder.payload, decoder.IsDone();
  }
}
