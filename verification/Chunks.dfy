/** Chunked transfer coding (section 7.1 of RFC 9112) as bytes arrive, one character per byte. */
module Chunks {
  import opened Wrappers
  import opened SinkFile

  const USIZE_MAX: nat := 0xffff_ffff_ffff_ffff

  type Size = string -> Option<nat>

  predicate At(s: string, i: nat, needle: string) {
    i + |needle| <= |s| && s[i..i + |needle|] == needle
  }

  function FindFrom(s: string, needle: string, i: nat): (r: Option<nat>)
    requires i <= |s|
    ensures r.Some? ==> i <= r.value && At(s, r.value, needle) && forall j :: i <= j < r.value ==> !At(s, j, needle)
    ensures r.None? ==> forall j :: i <= j ==> !At(s, j, needle)
    decreases |s| - i
  {
    if At(s, i, needle) then Some(i)
    else if i == |s| then None
    else FindFrom(s, needle, i + 1)
  }

  /** First index of `needle`. */
  function Find(s: string, needle: string): (r: Option<nat>)
    ensures r.Some? ==> At(s, r.value, needle) && forall j :: 0 <= j < r.value ==> !At(s, j, needle)
    ensures r.None? ==> forall j: nat :: !At(s, j, needle)
  {
    FindFrom(s, needle, 0)
  }

  /** Bytes behind what was found do not move it. */
  lemma FindStays(a: string, b: string, needle: string)
    requires Find(a, needle).Some? && needle != []
    ensures Find(a + b, needle) == Find(a, needle)
  {
    var i := Find(a, needle).value;
    assert (a + b)[i..i + |needle|] == a[i..i + |needle|];
    assert At(a + b, i, needle);
    var k := Find(a + b, needle).value;
    assert k <= i;
    assert (a + b)[k..k + |needle|] == a[k..k + |needle|];
    assert At(a, k, needle);
  }

  // ----- the size line -----

  function HexValue(c: char): Option<nat> {
    if '0' <= c <= '9' then Some(c as int - '0' as int)
    else if 'a' <= c <= 'f' then Some(c as int - 'a' as int + 10)
    else if 'A' <= c <= 'F' then Some(c as int - 'A' as int + 10)
    else None
  }

  function HexNumber(s: string): Option<nat> {
    if s == [] then None
    else
      var n := |s| - 1;
      var low := HexValue(s[n]);
      if low.None? then None
      else if n == 0 then low
      else
        var high := HexNumber(s[..n]);
        if high.None? then None else Some(16 * high.value + low.value)
  }

  /** An unsigned hexadecimal number: an optional plus sign, then digits, within range. */
  function ParseHex(s: string): Option<nat> {
    var v := HexNumber(if s != [] && s[0] == '+' then s[1..] else s);
    if v.Some? && v.value <= USIZE_MAX then v else None
  }

  function Before(s: string, c: char): string {
    if s == [] || s[0] == c then [] else [s[0]] + Before(s[1..], c)
  }

  predicate Ascii(s: string) {
    forall i :: 0 <= i < |s| ==> s[i] as int < 0x80
  }

  predicate Within(s: string, i: nat, low: int, high: int) {
    i < |s| && low <= s[i] as int <= high
  }

  /** How many bytes the UTF-8 character at the front takes, or 0 if there is none (section 4 of RFC 3629). */
  function CharBytes(s: string): (n: nat)
    ensures n <= |s|
  {
    if Within(s, 0, 0x00, 0x7f) then 1
    else if Within(s, 0, 0xc2, 0xdf) && Within(s, 1, 0x80, 0xbf) then 2
    else if !Within(s, 2, 0x80, 0xbf) then 0
    else if Within(s, 0, 0xe0, 0xe0) && Within(s, 1, 0xa0, 0xbf) then 3
    else if Within(s, 0, 0xe1, 0xec) && Within(s, 1, 0x80, 0xbf) then 3
    else if Within(s, 0, 0xed, 0xed) && Within(s, 1, 0x80, 0x9f) then 3
    else if Within(s, 0, 0xee, 0xef) && Within(s, 1, 0x80, 0xbf) then 3
    else if !Within(s, 3, 0x80, 0xbf) then 0
    else if Within(s, 0, 0xf0, 0xf0) && Within(s, 1, 0x90, 0xbf) then 4
    else if Within(s, 0, 0xf1, 0xf3) && Within(s, 1, 0x80, 0xbf) then 4
    else if Within(s, 0, 0xf4, 0xf4) && Within(s, 1, 0x80, 0x8f) then 4
    else 0
  }

  predicate Utf8(s: string)
    decreases |s|
  {
    s == [] || (CharBytes(s) > 0 && Utf8(s[CharBytes(s)..]))
  }

  lemma {:induction false} AsciiIsUtf8(s: string)
    requires Ascii(s)
    ensures Utf8(s)
  {
    if s != [] { AsciiIsUtf8(s[1..]); }
  }

  /** The size a line announces, if it is UTF-8. Blanks beyond ASCII may be trimmed off the size; what is
      left of a size with bytes beyond ASCII is up to `beyond`. */
  function SizeOf(line: string, beyond: Size): Option<nat> {
    var text := Before(line, ';');
    if !Utf8(line) then None
    else if Ascii(text) then ParseHex(TrimEnd(TrimStart(text)))
    else beyond(text)
  }

  // ----- decoding -----

  datatype Status = Reading | Done | Aborted
  datatype Decoded = Decoded(raw: string, payload: string, status: Status)

  /** What stands at the front of the bytes: `Whole` is a complete chunk and the bytes it takes up. */
  datatype Front = Partial | Last | Unaddressable | Whole(data: string, used: nat)

  function FrontOf(raw: string, beyond: Size): (f: Front)
    ensures f.Whole? ==> 0 < f.used <= |raw|
  {
    var end := Find(raw, "\r\n");
    if end.None? then Partial
    else
      var size := SizeOf(raw[..end.value], beyond);
      if size.None? || size.value == 0 then Last
      else
        var need := end.value + 2 + size.value + 2;
        if need > USIZE_MAX then Unaddressable
        else if |raw| < need then Partial
        else Whole(raw[end.value + 2..end.value + 2 + size.value], need)
  }

  /** What the bytes of a stream amount to: the bytes left over, the payload, and whether the stream
      ended. A size whose chunk cannot be addressed stops the process. */
  function Decode(raw: string, beyond: Size): Decoded
    decreases |raw|
  {
    match FrontOf(raw, beyond)
    case Partial => Decoded(raw, [], Reading)
    case Last => Decoded(raw, [], Done)
    case Unaddressable => Decoded(raw, [], Aborted)
    case Whole(data, used) =>
      var r := Decode(raw[used..], beyond);
      r.(payload := data + r.payload)
  }

  lemma FrontStays(a: string, b: string, beyond: Size)
    requires !FrontOf(a, beyond).Partial?
    ensures FrontOf(a + b, beyond) == FrontOf(a, beyond)
  {
    FindStays(a, b, "\r\n");
    var h := Find(a, "\r\n").value;
    assert (a + b)[..h] == a[..h];
    var f := FrontOf(a, beyond);
    if f.Whole? {
      var n := h + 2 + SizeOf(a[..h], beyond).value;
      assert (a + b)[h + 2..n] == a[h + 2..n];
    }
  }

  lemma DecodeStep(s: string, data: string, used: nat, tail: string, beyond: Size)
    requires FrontOf(s, beyond) == Whole(data, used) && s[used..] == tail
    ensures Decode(s, beyond) == Decode(tail, beyond).(payload := data + Decode(tail, beyond).payload)
  {
  }

  lemma Reassociate(a: string, b: string, c: string)
    ensures a + b + c == a + (b + c)
  {
  }

  /** Decoding does not depend on where the stream was split: decoding `a`, and then its left-over
      bytes followed by `b`, is decoding `a + b`. */
  lemma {:induction false} SplitAnywhere(a: string, b: string, beyond: Size)
    ensures var first := Decode(a, beyond);
            var rest := Decode(first.raw + b, beyond);
            Decode(a + b, beyond) == rest.(payload := first.payload + rest.payload)
    decreases |a|
  {
    var f := FrontOf(a, beyond);
    if f.Whole? {
      var tail := a[f.used..];
      FrontStays(a, b, beyond);
      SplitAnywhere(tail, b, beyond);
      DropAppends(a, b, f.used);
      DecodeStep(a, f.data, f.used, tail, beyond);
      DecodeStep(a + b, f.data, f.used, tail + b, beyond);
      var first := Decode(tail, beyond);
      Reassociate(f.data, first.payload, Decode(first.raw + b, beyond).payload);
    } else {
      var rest := Decode(a + b, beyond);
      assert [] + rest.payload == rest.payload;
    }
  }

  lemma DropAppends(a: string, b: string, k: nat)
    requires k <= |a|
    ensures (a + b)[k..] == a[k..] + b
  {
  }

  /** The left-over bytes start where decoding stopped, and say why. */
  lemma {:induction false} LeftOver(a: string, beyond: Size)
    ensures var d := Decode(a, beyond);
            FrontOf(d.raw, beyond) ==
            match d.status case Reading => Partial case Done => Last case Aborted => Unaddressable
    decreases |a|
  {
    var f := FrontOf(a, beyond);
    if f.Whole? { LeftOver(a[f.used..], beyond); }
  }

  lemma StaysEnded(raw: string, b: string, beyond: Size, status: Status)
    requires FrontOf(raw, beyond) == if status.Done? then Last else Unaddressable
    requires !status.Reading?
    ensures Decode(raw + b, beyond) == Decoded(raw + b, [], status)
  {
    FrontStays(raw, b, beyond);
  }

  /** Once the stream has ended, bytes that still arrive are kept and never decoded. */
  lemma EndIsFinal(a: string, b: string, beyond: Size)
    requires !Decode(a, beyond).status.Reading?
    ensures Decode(a + b, beyond) == Decode(a, beyond).(raw := Decode(a, beyond).raw + b)
  {
    var d, all := Decode(a, beyond), Decode(a + b, beyond);
    SplitAnywhere(a, b, beyond);
    LeftOver(a, beyond);
    StaysEnded(d.raw, b, beyond, d.status);
    assert all.payload == d.payload + [] == d.payload;
  }

  // ----- what the encoding says -----

  /** One chunk as sent: the size in hexadecimal, an extension, the data. */
  datatype Chunk = Chunk(size: string, extension: string, data: string)

  /** Blanks, a semicolon and then anything but a carriage return: section 7.1.1 allows any byte from
      0x80 up in a quoted value. */
  predicate IsExtension(s: string) {
    && '\r' !in s
    && (s == [] || (Blanks(Before(s, ';')) && ';' in s))
  }

  predicate Blanks(s: string) {
    forall i :: 0 <= i < |s| ==> s[i] == ' ' || s[i] == '\t'
  }

  predicate IsChunk(c: Chunk) {
    && c.data != [] && HexNumber(c.size) == Some(|c.data|) && |c.data| <= USIZE_MAX && IsExtension(c.extension)
  }

  function ChunkText(c: Chunk): string {
    c.size + c.extension + "\r\n" + c.data + "\r\n"
  }

  function BodyText(chunks: seq<Chunk>): string {
    if chunks == [] then [] else ChunkText(chunks[0]) + BodyText(chunks[1..])
  }

  function Data(chunks: seq<Chunk>): string {
    if chunks == [] then [] else chunks[0].data + Data(chunks[1..])
  }

  lemma {:induction false} HexDigits(s: string)
    requires HexNumber(s).Some?
    ensures s != [] && forall i :: 0 <= i < |s| ==> HexValue(s[i]).Some?
  {
    if |s| > 1 { HexDigits(s[..|s| - 1]); }
  }

  lemma {:induction false} BeforeConcat(a: string, b: string, c: char)
    requires c !in a
    ensures Before(a + b, c) == a + Before(b, c)
  {
    if a == [] {
      assert a + b == b;
    } else {
      assert (a + b)[1..] == a[1..] + b;
      BeforeConcat(a[1..], b, c);
    }
  }

  lemma {:induction false} TrimBlanks(s: string, blanks: string)
    requires s != [] && !IsSpace(s[|s| - 1]) && Blanks(blanks)
    ensures TrimEnd(s + blanks) == s
  {
    var t := s + blanks;
    if blanks == [] {
      assert t == s;
    } else {
      assert t[..|t| - 1] == s + blanks[..|blanks| - 1];
      TrimBlanks(s, blanks[..|blanks| - 1]);
    }
  }

  /** A size line announces its hexadecimal number, whatever extension follows, if and only if the line
      is UTF-8. */
  lemma SizeLine(size: string, extension: string, n: nat, beyond: Size)
    requires HexNumber(size) == Some(n) && n <= USIZE_MAX && IsExtension(extension)
    ensures SizeOf(size + extension, beyond) == (if Utf8(size + extension) then Some(n) else None)
    ensures '\r' !in size + extension
  {
    HexDigits(size);
    SizeText(size, extension);
  }

  lemma SizeText(size: string, extension: string)
    requires size != [] && (forall i :: 0 <= i < |size| ==> HexValue(size[i]).Some?) && IsExtension(extension)
    ensures var text := Before(size + extension, ';');
            Ascii(text) && TrimEnd(TrimStart(text)) == size
  {
    BeforeConcat(size, extension, ';');
    var blanks := Before(extension, ';');
    assert Blanks(blanks) by { assert extension == [] ==> blanks == []; }
    assert TrimStart(size + blanks) == size + blanks;
    TrimBlanks(size, blanks);
  }

  lemma LineEnds(line: string, rest: string)
    requires '\r' !in line
    ensures Find(line + "\r\n" + rest, "\r\n") == Some(|line|)
  {
    var s := line + "\r\n" + rest;
    assert s[|line|..|line| + 2] == "\r\n";
    assert At(s, |line|, "\r\n");
    var k := Find(s, "\r\n").value;
    assert s[k] == s[k..k + 2][0];
  }

  /** The size line of the chunk is UTF-8. */
  predicate Readable(c: Chunk) {
    Utf8(c.size + c.extension)
  }

  lemma ChunkFront(c: Chunk, rest: string, beyond: Size)
    requires IsChunk(c) && |ChunkText(c)| <= USIZE_MAX
    ensures FrontOf(ChunkText(c) + rest, beyond) == if Readable(c) then Whole(c.data, |ChunkText(c)|) else Last
    ensures (ChunkText(c) + rest)[|ChunkText(c)|..] == rest
  {
    var line, s := c.size + c.extension, ChunkText(c) + rest;
    SizeLine(c.size, c.extension, |c.data|, beyond);
    assert s == line + "\r\n" + (c.data + "\r\n" + rest);
    LineEnds(line, c.data + "\r\n" + rest);
    assert s[..|line|] == line;
    assert s[|line| + 2..|line| + 2 + |c.data|] == c.data;
  }

  lemma LastFront(zeros: string, extension: string, trailer: string, beyond: Size)
    requires HexNumber(zeros) == Some(0) && IsExtension(extension)
    ensures FrontOf(zeros + extension + "\r\n" + trailer, beyond) == Last
  {
    var line := zeros + extension;
    SizeLine(zeros, extension, 0, beyond);
    LineEnds(line, trailer);
    assert (line + "\r\n" + trailer)[..|line|] == line;
  }

  ghost predicate AreChunks(chunks: seq<Chunk>) {
    forall i :: 0 <= i < |chunks| ==> IsChunk(chunks[i]) && |ChunkText(chunks[i])| <= USIZE_MAX
  }

  ghost predicate AllReadable(chunks: seq<Chunk>) {
    forall i :: 0 <= i < |chunks| ==> Readable(chunks[i])
  }

  lemma FirstChunkDecodes(c: Chunk, tail: string, beyond: Size)
    requires IsChunk(c) && |ChunkText(c)| <= USIZE_MAX
    ensures Readable(c) ==>
              Decode(ChunkText(c) + tail, beyond) ==
              Decode(tail, beyond).(payload := c.data + Decode(tail, beyond).payload)
    ensures !Readable(c) ==> Decode(ChunkText(c) + tail, beyond) == Decoded(ChunkText(c) + tail, [], Done)
  {
    ChunkFront(c, tail, beyond);
    if Readable(c) { DecodeStep(ChunkText(c) + tail, c.data, |ChunkText(c)|, tail, beyond); }
  }

  lemma {:induction false} BodyDecodes(chunks: seq<Chunk>, rest: string, beyond: Size)
    requires AreChunks(chunks) && AllReadable(chunks)
    ensures var d := Decode(rest, beyond);
            Decode(BodyText(chunks) + rest, beyond) == d.(payload := Data(chunks) + d.payload)
  {
    var d := Decode(rest, beyond);
    if chunks == [] {
      assert [] + rest == rest && [] + d.payload == d.payload;
    } else {
      Reassociate(ChunkText(chunks[0]), BodyText(chunks[1..]), rest);
      Reassociate(chunks[0].data, Data(chunks[1..]), d.payload);
      FirstChunkDecodes(chunks[0], BodyText(chunks[1..]) + rest, beyond);
      BodyDecodes(chunks[1..], rest, beyond);
    }
  }

  /** How many chunks come before the first whose size line is not UTF-8. */
  function ReadableFront(chunks: seq<Chunk>): (n: nat)
    ensures n <= |chunks| && AllReadable(chunks[..n]) && (n < |chunks| ==> !Readable(chunks[n]))
  {
    if chunks == [] || !Readable(chunks[0]) then 0
    else
      var n := ReadableFront(chunks[1..]);
      assert chunks[..n + 1] == [chunks[0]] + chunks[1..][..n];
      n + 1
  }

  lemma {:induction false} Concats(a: seq<Chunk>, b: seq<Chunk>)
    ensures BodyText(a + b) == BodyText(a) + BodyText(b) && Data(a + b) == Data(a) + Data(b)
  {
    if a == [] {
      assert a + b == b;
    } else {
      assert (a + b)[1..] == a[1..] + b;
      Concats(a[1..], b);
      Reassociate(ChunkText(a[0]), BodyText(a[1..]), BodyText(b));
      Reassociate(a[0].data, Data(a[1..]), Data(b));
    }
  }

  /** What is decoded of any encoding: the data of the chunks before the first whose size line is not
      UTF-8. There, or at the last chunk, the stream ends. */
  lemma DecodesFront(chunks: seq<Chunk>, last: string, beyond: Size)
    requires AreChunks(chunks) && FrontOf(last, beyond) == Last
    ensures var d := Decode(BodyText(chunks) + last, beyond);
            d.payload == Data(chunks[..ReadableFront(chunks)]) && d.status == Done
  {
    var n := ReadableFront(chunks);
    BodySplit(chunks, n, last);
    EndsAtOnce(chunks[n..], last, beyond);
    FrontThenEnd(chunks[..n], BodyText(chunks[n..]) + last, beyond);
  }

  lemma BodySplit(chunks: seq<Chunk>, n: nat, last: string)
    requires n <= |chunks|
    ensures BodyText(chunks) + last == BodyText(chunks[..n]) + (BodyText(chunks[n..]) + last)
  {
    TakeDrop(chunks, n);
    BodyParts(chunks[..n], chunks[n..], chunks, last);
  }

  lemma TakeDrop(chunks: seq<Chunk>, n: nat)
    requires n <= |chunks|
    ensures chunks[..n] + chunks[n..] == chunks
  {
  }

  lemma BodyParts(a: seq<Chunk>, b: seq<Chunk>, chunks: seq<Chunk>, last: string)
    requires a + b == chunks
    ensures BodyText(chunks) + last == BodyText(a) + (BodyText(b) + last)
  {
    Concats(a, b);
    Reassociate(BodyText(a), BodyText(b), last);
  }

  lemma FrontThenEnd(front: seq<Chunk>, rest: string, beyond: Size)
    requires AreChunks(front) && AllReadable(front) && Decode(rest, beyond) == Decoded(rest, [], Done)
    ensures Decode(BodyText(front) + rest, beyond) == Decoded(rest, Data(front), Done)
  {
    BodyDecodes(front, rest, beyond);
    assert Data(front) + [] == Data(front);
  }

  lemma EndsAtOnce(chunks: seq<Chunk>, last: string, beyond: Size)
    requires AreChunks(chunks) && FrontOf(last, beyond) == Last && (chunks == [] || !Readable(chunks[0]))
    ensures Decode(BodyText(chunks) + last, beyond) == Decoded(BodyText(chunks) + last, [], Done)
  {
    if chunks == [] {
      assert [] + last == last;
    } else {
      Reassociate(ChunkText(chunks[0]), BodyText(chunks[1..]), last);
      FirstChunkDecodes(chunks[0], BodyText(chunks[1..]) + last, beyond);
    }
  }

  lemma LessData(chunks: seq<Chunk>, n: nat)
    requires AreChunks(chunks) && n < |chunks|
    ensures |Data(chunks[..n])| < |Data(chunks)|
  {
    Concats(chunks[..n], chunks[n..]);
    assert chunks[..n] + chunks[n..] == chunks;
  }

  /** Decoding undoes an encoding of section 7.1, with any spelling of its sizes and any extensions, if
      and only if every size line is UTF-8; the stream ends at the last chunk, whatever trailer follows. */
  lemma DecodesEncoding(chunks: seq<Chunk>, zeros: string, extension: string, trailer: string, beyond: Size)
    requires AreChunks(chunks) && HexNumber(zeros) == Some(0) && IsExtension(extension)
    ensures var d := Decode(BodyText(chunks) + (zeros + extension + "\r\n" + trailer), beyond);
            && d.status == Done
            && (d.payload == Data(chunks) <==> AllReadable(chunks))
  {
    LastFront(zeros, extension, trailer, beyond);
    DecodesFront(chunks, zeros + extension + "\r\n" + trailer, beyond);
    var n := ReadableFront(chunks);
    if n < |chunks| {
      LessData(chunks, n);
    } else {
      assert chunks[..n] == chunks;
    }
  }

  /** Before the last chunk has arrived nothing is left over and the stream is not over. */
  lemma StillReading(chunks: seq<Chunk>, beyond: Size)
    requires AreChunks(chunks) && AllReadable(chunks)
    ensures Decode(BodyText(chunks), beyond) == Decoded([], Data(chunks), Reading)
  {
    BodyDecodes(chunks, [], beyond);
    assert BodyText(chunks) + [] == BodyText(chunks) && Data(chunks) + [] == Data(chunks);
  }

  /** Chunks with extensions in ASCII are always readable. */
  lemma AsciiReadable(c: Chunk)
    requires IsChunk(c) && Ascii(c.extension)
    ensures Readable(c)
  {
    HexDigits(c.size);
    AsciiIsUtf8(c.size + c.extension);
  }

  const OBS_TEXT := Chunk("5", ";a=\"" + [0xff as char] + "\"", "hello")

  /** One that is not: a quoted value holding the byte 0xff is allowed and loses the chunk. */
  lemma ObsTextEndsStream(rest: string, beyond: Size)
    ensures IsChunk(OBS_TEXT) && !Readable(OBS_TEXT)
    ensures Decode(ChunkText(OBS_TEXT) + rest, beyond) == Decoded(ChunkText(OBS_TEXT) + rest, [], Done)
  {
    var e, line := OBS_TEXT.extension, OBS_TEXT.size + OBS_TEXT.extension;
    assert Before(e, ';') == [] && ';' in e;
    assert line[..5] == "5;a=\"" && line[5] as int == 0xff;
    BytePastAscii(line, 5);
    FirstChunkDecodes(OBS_TEXT, rest, beyond);
  }

  /** ASCII bytes followed by 0xff are not UTF-8. */
  lemma {:induction false} BytePastAscii(s: string, n: nat)
    requires n < |s| && Ascii(s[..n]) && s[n] as int == 0xff
    ensures !Utf8(s)
  {
    if n > 0 {
      assert s[..n][0] == s[0] && s[1..][..n - 1] == s[..n][1..];
      BytePastAscii(s[1..], n - 1);
    }
  }
}
