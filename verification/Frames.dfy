/** The bytes of a log segment: length-prefixed, checksummed entries, and the two scans over them. */
module Frames {
  import opened Wrappers

  const SEGMENT_HEADER_LEN: nat := 24
  const ENTRY_OVERHEAD: nat := 16
  const MAX_BODY_LEN: nat := 0x4000_0000

  type Byte = b: nat | b < 256
  type Bytes = seq<Byte>

  /** The checksum, whatever it computes. */
  type Crc = Bytes -> nat

  datatype Entry = Entry(epoch: nat, body: Bytes)

  // ----- little-endian numbers -----

  function Pow256(k: nat): (p: nat)
    ensures p > 0
  {
    if k == 0 then 1 else 256 * Pow256(k - 1)
  }

  function ToLe(n: nat, k: nat): (s: Bytes)
    ensures |s| == k
  {
    if k == 0 then [] else [n % 256] + ToLe(n / 256, k - 1)
  }

  function FromLe(s: Bytes): nat {
    if s == [] then 0 else s[0] + 256 * FromLe(s[1..])
  }

  lemma {:induction false} LeRoundTrip(n: nat, k: nat)
    requires n < Pow256(k)
    ensures FromLe(ToLe(n, k)) == n
  {
    if k > 0 {
      LeRoundTrip(n / 256, k - 1);
      assert ToLe(n, k)[1..] == ToLe(n / 256, k - 1);
    }
  }

  // ----- one entry -----

  function Envelope(e: Entry): Bytes {
    ToLe(|e.body|, 4) + ToLe(e.epoch, 8) + e.body
  }

  function Checksum(s: Bytes, crc: Crc): Bytes {
    ToLe(crc(s) % Pow256(4), 4)
  }

  /** The bytes an entry is written as. */
  function Frame(e: Entry, crc: Crc): (s: Bytes)
    ensures |s| == ENTRY_OVERHEAD + |e.body|
  {
    Envelope(e) + Checksum(Envelope(e), crc)
  }

  function EncodeEntry(e: Entry, crc: Crc): Result<Bytes> {
    if |e.body| > MAX_BODY_LEN then Err else Ok(Frame(e, crc))
  }

  predicate Encodable(e: Entry) {
    |e.body| <= MAX_BODY_LEN && e.epoch < Pow256(8)
  }

  datatype Scanned = Found(entry: Entry, end: nat) | CleanEof | Torn | Corrupt

  /** One step of the recovery scan. */
  function ScanEntry(buf: Bytes, offset: nat, crc: Crc): (r: Scanned)
    requires offset <= |buf|
    ensures r.Found? ==> offset < r.end <= |buf|
  {
    var remaining := |buf| - offset;
    if remaining == 0 then CleanEof
    else if remaining < ENTRY_OVERHEAD then Torn
    else
      var len := FromLe(buf[offset..offset + 4]);
      if len > MAX_BODY_LEN then Corrupt
      else if remaining < ENTRY_OVERHEAD + len then Torn
      else
        var end := offset + ENTRY_OVERHEAD + len;
        if buf[end - 4..end] != Checksum(buf[offset..end - 4], crc) then Corrupt
        else Found(Entry(FromLe(buf[offset + 4..offset + 12]), buf[offset + 12..end - 4]), end)
  }

  ghost predicate Stands(buf: Bytes, offset: nat, s: Bytes) {
    offset + |s| <= |buf| && buf[offset..offset + |s|] == s
  }

  lemma StandsSplit(buf: Bytes, offset: nat, a: Bytes, b: Bytes)
    requires Stands(buf, offset, a + b)
    ensures Stands(buf, offset, a) && Stands(buf, offset + |a|, b)
  {
    var s := buf[offset..offset + |a + b|];
    assert s[..|a|] == a && s[|a|..] == b;
  }

  /** An entry is found where it stands, whatever is around it. */
  lemma ScanFindsFrame(buf: Bytes, o: nat, e: Entry, crc: Crc)
    requires Encodable(e) && Stands(buf, o, Frame(e, crc))
    ensures ScanEntry(buf, o, crc) == Found(e, o + |Frame(e, crc)|)
    ensures FromLe(buf[o..o + 4]) == |e.body|
  {
    StandsSplit(buf, o, Envelope(e), Checksum(Envelope(e), crc));
    StandsSplit(buf, o, ToLe(|e.body|, 4) + ToLe(e.epoch, 8), e.body);
    StandsSplit(buf, o, ToLe(|e.body|, 4), ToLe(e.epoch, 8));
    LeRoundTrip(|e.body|, 4);
    LeRoundTrip(e.epoch, 8);
  }

  /** Round trip: an entry that can be encoded is scanned back whole; only an oversized body cannot. */
  lemma EntryRoundTrip(e: Entry, crc: Crc)
    requires e.epoch < Pow256(8)
    ensures EncodeEntry(e, crc).Ok? <==> |e.body| <= MAX_BODY_LEN
    ensures EncodeEntry(e, crc).Ok? ==>
              ScanEntry(EncodeEntry(e, crc).value, 0, crc) == Found(e, |EncodeEntry(e, crc).value|)
  {
    if |e.body| <= MAX_BODY_LEN {
      assert Stands(Frame(e, crc), 0, Frame(e, crc));
      ScanFindsFrame(Frame(e, crc), 0, e, crc);
    }
  }

  /** A frame cut short is recognised as torn at any byte. */
  lemma ScanSeesTear(buf: Bytes, o: nat, e: Entry, crc: Crc)
    requires Encodable(e) && o <= |buf| && buf[o..] < Frame(e, crc)
    ensures ScanEntry(buf, o, crc) == if o == |buf| then CleanEof else Torn
    ensures Boundaries(buf, o) == []
  {
    if |buf| - o >= ENTRY_OVERHEAD {
      LeRoundTrip(|e.body|, 4);
      assert buf[o..][..4] == Frame(e, crc)[..4] == ToLe(|e.body|, 4);
      assert buf[o..o + 4] == buf[o..][..4];
    }
  }

  // ----- a whole segment -----

  function FramesOf(entries: seq<Entry>, crc: Crc): Bytes {
    if entries == [] then [] else Frame(entries[0], crc) + FramesOf(entries[1..], crc)
  }

  ghost predicate AllEncodable(entries: seq<Entry>) {
    forall i :: 0 <= i < |entries| ==> Encodable(entries[i])
  }

  datatype Recovered = Recovered(entries: seq<Entry>, stop: Scanned)

  /** The recovery scan from `offset` on: the entries, and why it stopped. */
  function ReadAll(buf: Bytes, offset: nat, crc: Crc): Recovered
    requires offset <= |buf|
    decreases |buf| - offset
  {
    var s := ScanEntry(buf, offset, crc);
    if s.Found? then
      var r := ReadAll(buf, s.end, crc);
      r.(entries := [s.entry] + r.entries)
    else Recovered([], s)
  }

  /** The simulator's scan: frame boundaries by length prefix alone. */
  function Boundaries(buf: Bytes, offset: nat): seq<(nat, nat)>
    decreases |buf| - offset
  {
    if offset + ENTRY_OVERHEAD > |buf| then []
    else
      var end := offset + ENTRY_OVERHEAD + FromLe(buf[offset..offset + 4]);
      if end > |buf| then [] else [(offset, end)] + Boundaries(buf, end)
  }

  method ScanBoundaries(buf: Bytes) returns (r: seq<(nat, nat)>)
    ensures r == Boundaries(buf, SEGMENT_HEADER_LEN)
  {
    r := [];
    var offset := SEGMENT_HEADER_LEN;
    assert r + Boundaries(buf, offset) == Boundaries(buf, offset);
    while offset + ENTRY_OVERHEAD <= |buf|
      invariant r + Boundaries(buf, offset) == Boundaries(buf, SEGMENT_HEADER_LEN)
      decreases |buf| - offset
    {
      var len := FromLe(buf[offset..offset + 4]);
      var end := offset + ENTRY_OVERHEAD + len;
      if end > |buf| {
        break;
      }
      BoundaryStep(buf, offset, end);
      Associate(r, [(offset, end)], Boundaries(buf, end));
      r := r + [(offset, end)];
      offset := end;
    }
    assert r + [] == r;
  }

  /** Where entries written one after the other from `offset` begin and end. */
  function BoundsOf(entries: seq<Entry>, offset: nat): seq<(nat, nat)> {
    if entries == [] then []
    else
      var end := offset + ENTRY_OVERHEAD + |entries[0].body|;
      [(offset, end)] + BoundsOf(entries[1..], end)
  }

  lemma ConsConcat<T>(s: seq<T>, rest: seq<T>)
    requires s != []
    ensures [s[0]] + (s[1..] + rest) == s + rest
  {
  }

  lemma Associate<T>(a: seq<T>, b: seq<T>, c: seq<T>)
    ensures a + b + c == a + (b + c)
  {
  }

  lemma ReadStep(buf: Bytes, o: nat, e: Entry, end: nat, crc: Crc)
    requires o <= |buf| && ScanEntry(buf, o, crc) == Found(e, end)
    ensures var r := ReadAll(buf, end, crc); ReadAll(buf, o, crc) == r.(entries := [e] + r.entries)
  {
  }

  /** The recovery scan reads whole entries off the front, whatever bytes follow them. */
  lemma {:induction false} ReadsEntries(buf: Bytes, o: nat, end: nat, entries: seq<Entry>, crc: Crc)
    requires AllEncodable(entries) && Stands(buf, o, FramesOf(entries, crc)) && end == o + |FramesOf(entries, crc)|
    ensures var rest := ReadAll(buf, end, crc); ReadAll(buf, o, crc) == rest.(entries := entries + rest.entries)
    decreases |entries|
  {
    var rest := ReadAll(buf, end, crc);
    if entries == [] {
      assert entries + rest.entries == rest.entries;
    } else {
      var e := entries[0];
      var next := o + |Frame(e, crc)|;
      StandsSplit(buf, o, Frame(e, crc), FramesOf(entries[1..], crc));
      ScanFindsFrame(buf, o, e, crc);
      ReadStep(buf, o, e, next, crc);
      ReadsEntries(buf, next, end, entries[1..], crc);
      ConsConcat(entries, rest.entries);
    }
  }

  lemma BoundaryStep(buf: Bytes, o: nat, end: nat)
    requires o + ENTRY_OVERHEAD <= |buf| && end == o + ENTRY_OVERHEAD + FromLe(buf[o..o + 4]) && end <= |buf|
    ensures Boundaries(buf, o) == [(o, end)] + Boundaries(buf, end)
  {
  }

  lemma FirstBoundary(buf: Bytes, o: nat, e: Entry, next: nat, crc: Crc)
    requires Encodable(e) && Stands(buf, o, Frame(e, crc)) && next == o + |Frame(e, crc)|
    ensures Boundaries(buf, o) == [(o, next)] + Boundaries(buf, next)
  {
    ScanFindsFrame(buf, o, e, crc);
    BoundaryStep(buf, o, next);
  }

  /** So does the simulator's. */
  lemma {:induction false} FindsBoundaries(buf: Bytes, o: nat, end: nat, entries: seq<Entry>, crc: Crc)
    requires AllEncodable(entries) && Stands(buf, o, FramesOf(entries, crc)) && end == o + |FramesOf(entries, crc)|
    ensures Boundaries(buf, o) == BoundsOf(entries, o) + Boundaries(buf, end)
    decreases |entries|
  {
    var rest := Boundaries(buf, end);
    if entries == [] {
      assert [] + rest == rest;
    } else {
      var e := entries[0];
      var next := o + |Frame(e, crc)|;
      StandsSplit(buf, o, Frame(e, crc), FramesOf(entries[1..], crc));
      FirstBoundary(buf, o, e, next, crc);
      FindsBoundaries(buf, next, end, entries[1..], crc);
      Associate([(o, next)], BoundsOf(entries[1..], next), rest);
    }
  }

  /** How many entries lie wholly within the first `n` bytes. */
  function Whole(entries: seq<Entry>, n: nat): (k: nat)
    ensures k <= |entries|
  {
    if entries == [] || ENTRY_OVERHEAD + |entries[0].body| > n then 0
    else 1 + Whole(entries[1..], n - (ENTRY_OVERHEAD + |entries[0].body|))
  }

  /** `Whole` counts the longest prefix that fits. */
  lemma {:induction false} WholeIsLongest(entries: seq<Entry>, n: nat, crc: Crc)
    ensures var k := Whole(entries, n);
            && |FramesOf(entries[..k], crc)| <= n
            && (k < |entries| ==> n < |FramesOf(entries[..k], crc)| + |Frame(entries[k], crc)|)
  {
    var k := Whole(entries, n);
    if k > 0 {
      var f := Frame(entries[0], crc);
      WholeIsLongest(entries[1..], n - |f|, crc);
      assert entries[..k][1..] == entries[1..][..k - 1];
    }
  }

  lemma {:induction false} FramesConcat(a: seq<Entry>, b: seq<Entry>, crc: Crc)
    ensures FramesOf(a + b, crc) == FramesOf(a, crc) + FramesOf(b, crc)
  {
    if a == [] {
      assert a + b == b;
    } else {
      assert (a + b)[1..] == a[1..] + b;
      FramesConcat(a[1..], b, crc);
    }
  }

  /** A segment of entries cut off at any byte past its header: what stays behind the header are the
      whole entries, followed by a proper part of the next one. */
  lemma CutFrames(entries: seq<Entry>, n: nat, crc: Crc)
    requires n <= |FramesOf(entries, crc)|
    ensures var k := Whole(entries, n);
            var kept := FramesOf(entries[..k], crc);
            && |kept| <= n && kept == FramesOf(entries, crc)[..|kept|]
            && (k == |entries| ==> n == |kept|)
            && (k < |entries| ==> FramesOf(entries, crc)[|kept|..n] < Frame(entries[k], crc))
  {
    var k := Whole(entries, n);
    WholeIsLongest(entries, n, crc);
    FramesConcat(entries[..k], entries[k..], crc);
    assert entries[..k] + entries[k..] == entries;
    if k == |entries| { assert entries[..k] == entries; }
  }

  /** What recovery makes of a segment file; a header cut short is corrupt. */
  datatype Segment = HeaderCorrupt | Read(found: Recovered)

  function ReadSegment(buf: Bytes, crc: Crc): Segment {
    if |buf| < SEGMENT_HEADER_LEN then HeaderCorrupt else Read(ReadAll(buf, SEGMENT_HEADER_LEN, crc))
  }

  lemma CutPastHeader(header: Bytes, entries: seq<Entry>, n: nat, crc: Crc)
    requires |header| == SEGMENT_HEADER_LEN && AllEncodable(entries) && n <= |FramesOf(entries, crc)|
    ensures var buf, k := header + FramesOf(entries, crc)[..n], Whole(entries, n);
            && Boundaries(buf, SEGMENT_HEADER_LEN) == BoundsOf(entries[..k], SEGMENT_HEADER_LEN)
            && ReadAll(buf, SEGMENT_HEADER_LEN, crc) ==
               Recovered(entries[..k], if |FramesOf(entries[..k], crc)| == n then CleanEof else Torn)
  {
    var k := Whole(entries, n);
    var kept, all := FramesOf(entries[..k], crc), FramesOf(entries, crc);
    var buf, o := header + all[..n], |header|;
    var end := o + |kept|;
    CutFrames(entries, n, crc);
    AfterHeader(header, all, n, |kept|);
    ReadsEntries(buf, o, end, entries[..k], crc);
    FindsBoundaries(buf, o, end, entries[..k], crc);
    if k < |entries| {
      ScanSeesTear(buf, end, entries[k], crc);
    }
    assert entries[..k] + [] == entries[..k];
  }

  lemma AfterHeader(header: Bytes, all: Bytes, n: nat, k: nat)
    requires k <= n <= |all|
    ensures var buf := header + all[..n];
            Stands(buf, |header|, all[..k]) && buf[|header| + k..] == all[k..n]
  {
  }

  /** How many entries a segment cut to `c` bytes still holds whole. */
  function WholeInside(entries: seq<Entry>, c: nat): (k: nat)
    ensures k <= |entries|
  {
    if c < SEGMENT_HEADER_LEN then 0 else Whole(entries, c - SEGMENT_HEADER_LEN)
  }

  /** Torn tail: cut the segment at any byte, header included. Both scans give exactly the entries
      wholly inside, in order; recovery reports a corrupt header when the cut is inside it, a clean
      end when the cut fell between entries, and a torn one otherwise. */
  lemma TornTail(header: Bytes, entries: seq<Entry>, c: nat, crc: Crc)
    requires |header| == SEGMENT_HEADER_LEN && AllEncodable(entries) && c <= |header + FramesOf(entries, crc)|
    ensures var buf, k := (header + FramesOf(entries, crc))[..c], WholeInside(entries, c);
            && Boundaries(buf, SEGMENT_HEADER_LEN) == BoundsOf(entries[..k], SEGMENT_HEADER_LEN)
            && ReadSegment(buf, crc) ==
               if c < SEGMENT_HEADER_LEN then HeaderCorrupt
               else Read(Recovered(entries[..k],
                                   if |header + FramesOf(entries[..k], crc)| == c then CleanEof else Torn))
  {
    var all := FramesOf(entries, crc);
    if c >= SEGMENT_HEADER_LEN {
      var n := c - SEGMENT_HEADER_LEN;
      assert (header + all)[..c] == header + all[..n];
      CutPastHeader(header, entries, n, crc);
    }
  }
}
