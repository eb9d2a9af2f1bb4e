/**
 The chunked request body decoder of tools/crash_server.py (uncompressed path), against the chunked
 coding of section 7.1 of RFC 9112. The request stream is complete: what remains of it is a
 sequence of bytes, and reading at its end returns nothing.
 */
module CrashServer {
  import opened Options
  import opened Sequences

  type Byte = x: int | 0 <= x < 256

  const CR: Byte := 13
  const LF: Byte := 10

  // ----- int(text, 16) -----

  predicate IsSpace(b: Byte) {
    b == 32 || 9 <= b <= 13
  }

  predicate IsHexDigit(b: Byte) {
    48 <= b <= 57 || 65 <= b <= 70 || 97 <= b <= 102
  }

  function HexDigit(b: Byte): nat {
    if 48 <= b <= 57 then b - 48 else if 65 <= b <= 70 then b - 55 else if 97 <= b <= 102 then b - 87 else 0
  }

  function StripLeft(s: seq<Byte>): seq<Byte> {
    if s != [] && IsSpace(s[0]) then StripLeft(s[1..]) else s
  }

  function StripRight(s: seq<Byte>): seq<Byte> {
    if s != [] && IsSpace(s[|s| - 1]) then StripRight(s[..|s| - 1]) else s
  }

  /** A digit, or an underscore before a digit. */
  predicate DigitAt(s: seq<Byte>, i: nat)
    requires i < |s|
  {
    IsHexDigit(s[i]) || (s[i] == 95 && i + 1 < |s| && IsHexDigit(s[i + 1]))
  }

  /** Hexadecimal digits, with single underscores allowed between them. */
  predicate Grouped(s: seq<Byte>) {
    && s != [] && IsHexDigit(s[0]) && IsHexDigit(s[|s| - 1])
    && forall i :: 0 <= i < |s| ==> DigitAt(s, i)
  }

  function DigitsValue(s: seq<Byte>): nat {
    if s == [] then 0
    else if IsHexDigit(s[|s| - 1]) then DigitsValue(s[..|s| - 1]) * 16 + HexDigit(s[|s| - 1])
    else DigitsValue(s[..|s| - 1])
  }

  /** The digits after an optional `0x`, which one underscore may follow. */
  function Unprefixed(s: seq<Byte>): seq<Byte> {
    if |s| >= 2 && s[0] == 48 && (s[1] == 120 || s[1] == 88) then
      if |s| >= 3 && s[2] == 95 then s[3..] else s[2..]
    else s
  }

  /** Python's `int(s, 16)`; None where it raises ValueError. */
  function IntBase16(s: seq<Byte>): Option<int> {
    var t := StripRight(StripLeft(s));
    var negative := t != [] && t[0] == 45;
    var signed := t != [] && (t[0] == 45 || t[0] == 43);
    var digits := Unprefixed(if signed then t[1..] else t);
    if !Grouped(digits) then None
    else
      var value: int := DigitsValue(digits);
      Some(if negative then -value else value)
  }

  // ----- Lines -----

  predicate EndsWithCrLf(s: seq<Byte>) {
    |s| >= 2 && s[|s| - 2] == CR && s[|s| - 1] == LF
  }

  predicate CrLfAt(s: seq<Byte>, i: int) {
    0 <= i < |s| - 1 && s[i] == CR && s[i + 1] == LF
  }

  predicate NoCrLf(s: seq<Byte>) {
    forall i :: 0 <= i < |s| ==> !CrLfAt(s, i)
  }

  /** The length of the text before the first CR LF, if there is one. */
  function LineLength(s: seq<Byte>): (r: Option<nat>)
    ensures r.Some? ==> r.value + 2 <= |s|
  {
    if |s| < 2 then None
    else if s[0] == CR && s[1] == LF then Some(0)
    else
      var rest := LineLength(s[1..]);
      if rest.None? then None else Some(rest.value + 1)
  }

  lemma {:induction false} NoCrLfPart(s: seq<Byte>, t: seq<Byte>, from: nat)
    requires NoCrLf(s) && from + |t| <= |s| && t == s[from..from + |t|]
    ensures NoCrLf(t)
  {
    forall i | 0 <= i < |t|
      ensures !CrLfAt(t, i)
    {
      assert !CrLfAt(s, from + i);
    }
  }

  lemma {:induction false} NoCrLfCons(s: seq<Byte>)
    requires s != [] && NoCrLf(s[1..]) && !CrLfAt(s, 0)
    ensures NoCrLf(s)
  {
    forall i | 0 <= i < |s|
      ensures !CrLfAt(s, i)
    {
      assert i > 0 ==> !CrLfAt(s[1..], i - 1);
    }
  }

  /** The line that is found ends at the first CR LF. */
  lemma {:induction false} LineLengthFirst(s: seq<Byte>)
    ensures LineLength(s).Some? ==>
              CrLfAt(s, LineLength(s).value) && NoCrLf(s[..LineLength(s).value + 1])
    ensures LineLength(s).None? ==> NoCrLf(s)
  {
    if |s| >= 2 && !CrLfAt(s, 0) {
      LineLengthFirst(s[1..]);
      if LineLength(s).Some? {
        var n := LineLength(s).value;
        assert s[..n + 1][1..] == s[1..][..n];
        NoCrLfCons(s[..n + 1]);
      } else {
        NoCrLfCons(s);
      }
    }
  }

  /** Any text without CR LF, followed by CR LF, is the first line. */
  lemma {:induction false} LineLengthOf(line: seq<Byte>, rest: seq<Byte>)
    requires NoCrLf(line)
    ensures LineLength(line + [CR, LF] + rest) == Some(|line|)
  {
    var s := line + [CR, LF] + rest;
    if line == [] {
      assert s[0] == CR && s[1] == LF;
    } else {
      assert s[1..] == line[1..] + [CR, LF] + rest;
      NoCrLfPart(line, line[1..], 1);
      LineLengthOf(line[1..], rest);
      assert !CrLfAt(line, 0);
      assert s[0] == line[0] && s[1] == (if |line| > 1 then line[1] else CR);
    }
  }

  /** A CR LF with none before it ends the first line. */
  lemma {:induction false} LineFound(s: seq<Byte>, n: nat)
    requires CrLfAt(s, n) && NoCrLf(s[..n + 1])
    ensures LineLength(s) == Some(n)
  {
    NoCrLfPart(s[..n + 1], s[..n], 0);
    LineLengthOf(s[..n], s[n + 2..]);
    assert s == s[..n] + [CR, LF] + s[n + 2..];
  }

  lemma {:induction false} NoLine(s: seq<Byte>)
    requires NoCrLf(s)
    ensures LineLength(s) == None
  {
    if |s| >= 2 {
      assert !CrLfAt(s, 0);
      NoCrLfPart(s, s[1..], 1);
      NoLine(s[1..]);
    }
  }

  /** All but the last byte. */
  function Init(s: seq<Byte>): seq<Byte> {
    if s == [] then [] else s[..|s| - 1]
  }

  lemma {:induction false} InitOfMore(s: seq<Byte>, more: seq<Byte>)
    requires |more| == 1
    ensures Init(s + more) == s
  {
  }

  lemma {:induction false} ShortLine(s: seq<Byte>)
    requires |s| <= 2
    ensures NoCrLf(Init(s))
  {
  }

  lemma {:induction false} NotEnding(s: seq<Byte>)
    requires !EndsWithCrLf(s) && NoCrLf(Init(s))
    ensures NoCrLf(s)
  {
    forall i | 0 <= i < |s|
      ensures !CrLfAt(s, i)
    {
      assert i < |s| - 1 ==> !CrLfAt(Init(s), i);
    }
  }

  /** What was read up to the first CR LF, and what is left. */
  lemma {:induction false} LineRead(line: seq<Byte>, rest: seq<Byte>)
    requires EndsWithCrLf(line) && NoCrLf(Init(line))
    ensures |line| >= 2 && LineLength(line + rest) == Some(|line| - 2)
    ensures (line + rest)[..|line| - 2] == line[..|line| - 2] && (line + rest)[|line|..] == rest
  {
    var s, n := line + rest, |line| - 2;
    assert s[..n + 1] == Init(line);
    LineFound(s, n);
  }

  // ----- Decoding -----

  /** How decoding ends, and what is left of the stream. */
  datatype Outcome =
    | Done(body: seq<Byte>, rest: seq<Byte>)
    | BadSize(rest: seq<Byte>)      // int() raises ValueError
    | BadRead(rest: seq<Byte>)      // read() raises ValueError for a size below -1
    | ShortData                     // the length assertion fails; the stream is used up
    | Starved                       // the size reader waits forever at the end of the stream

  function Remaining(o: Outcome): seq<Byte> {
    match o
    case Done(_, rest) => rest
    case BadSize(rest) => rest
    case BadRead(rest) => rest
    case ShortData => []
    case Starved => []
  }

  function AfterData(data: seq<Byte>, o: Outcome): Outcome {
    if o.Done? then Done(data + o.body, o.rest) else o
  }

  /** How decoding ends on this stream before it has read any data; None if it reads a chunk. */
  function Stop(s: seq<Byte>): Option<Outcome> {
    var n := LineLength(s);
    if n.None? then Some(Starved) else
      var rest := s[n.value + 2..];
      match IntBase16(s[..n.value])
      case None => Some(BadSize(rest))
      case Some(size) =>
        if size == 0 then Some(Done([], rest))
        else if size < -1 then Some(BadRead(rest))
        else if size == -1 || size > |rest| then Some(ShortData)
        else None
  }

  /** A chunk on the wire: its size line, its data, and the two bytes that are skipped unread. */
  datatype Chunk = Chunk(size: seq<Byte>, data: seq<Byte>, skipped: seq<Byte>)

  /** The chunk a stream begins with, and the stream after it; at the end there is less to skip. */
  function FirstChunk(s: seq<Byte>): (r: (Chunk, seq<Byte>))
    requires Stop(s).None?
    ensures |r.1| < |s|
  {
    var n := LineLength(s).value;
    var line, rest := s[..n], s[n + 2..];
    var size := IntBase16(line).value;
    var k := if size + 2 <= |rest| then size + 2 else |rest|;
    (Chunk(line, rest[..size], rest[size..k]), rest[k..])
  }

  /** What `_unchunk_request` makes of a stream. */
  function Decode(s: seq<Byte>): Outcome
    decreases |s|
  {
    if Stop(s).Some? then Stop(s).value
    else
      var (c, next) := FirstChunk(s);
      AfterData(c.data, Decode(next))
  }

  datatype ChunkData = Data(bytes: seq<Byte>) | TooShort | Refused

  class CrashHTTPRequestHandler {
    /** What is still to be read of the request. */
    var rfile: seq<Byte>

    constructor (stream: seq<Byte>)
      ensures rfile == stream
    {
      rfile := stream;
    }

    /** `rfile.read(n)`: at most `n` bytes, everything for -1; None where it raises, reading nothing. */
    method Read(n: int) returns (data: Option<seq<Byte>>)
      modifies this
      ensures if n < -1 then data == None && rfile == old(rfile)
              else
                var k := if 0 <= n <= |old(rfile)| then n else |old(rfile)|;
                data == Some(old(rfile)[..k]) && rfile == old(rfile)[k..]
    {
      if n < -1 {
        return None;
      }
      var k := if 0 <= n <= |rfile| then n else |rfile|;
      data := Some(rfile[..k]);
      rfile := rfile[k..];
    }

    /** `_get_chunk_size`: the outer None is waiting forever, the inner one a ValueError. */
    method GetChunkSize() returns (r: Option<Option<int>>)
      modifies this
      ensures var n := LineLength(old(rfile));
              if n.None? then r == None && rfile == []
              else r == Some(IntBase16(old(rfile)[..n.value])) && rfile == old(rfile)[n.value + 2..]
    {
      hide *;
      ghost var stream := rfile;
      var start := Read(2);
      var sizeStr := start.value;
      ShortLine(sizeStr);
      while !EndsWithCrLf(sizeStr)
        invariant sizeStr + rfile == stream
        invariant |sizeStr| >= 2 || rfile == []
        invariant NoCrLf(Init(sizeStr))
        decreases |rfile|
      {
        NotEnding(sizeStr);
        if rfile == [] {
          assert sizeStr == stream;
          NoLine(stream);
          return None;
        }
        var more := Read(1);
        InitOfMore(sizeStr, more.value);
        sizeStr := sizeStr + more.value;
      }
      LineRead(sizeStr, rfile);
      sizeStr := sizeStr[..|sizeStr| - 2];
      r := Some(IntBase16(sizeStr));
    }

    /** `_get_chunk_data`: too short where the length assertion fails, refused where `read` raises. */
    method GetChunkData(chunkSize: int) returns (r: ChunkData)
      modifies this
      ensures if chunkSize < -1 then r == Refused && rfile == old(rfile)
              else if chunkSize < 0 || chunkSize > |old(rfile)| then r == TooShort && rfile == []
              else
                && r == Data(old(rfile)[..chunkSize])
                && rfile == old(rfile)[if chunkSize + 2 <= |old(rfile)| then chunkSize + 2 else |old(rfile)|..]
    {
      var data := Read(chunkSize);
      if data.None? {
        return Refused;
      }
      if |data.value| != chunkSize {
        return TooShort;
      }
      var _ := Read(2);
      r := Data(data.value);
    }

    /** `_unchunk_request` without compression. */
    method UnchunkRequest() returns (o: Outcome)
      modifies this
      ensures o == Decode(old(rfile))
      ensures rfile == Remaining(o)
    {
      hide Decode, LineLength, IntBase16;
      var unchunked: seq<Byte> := [];
      ghost var all := Decode(rfile);
      assert AfterData([], all) == all by {
        assert all.Done? ==> [] + all.body == all.body;
      }
      while true
        invariant AfterData(unchunked, Decode(rfile)) == all
        decreases |rfile|
      {
        DecodeCases(rfile);
        var size := GetChunkSize();
        if size.None? {
          return Starved;
        }
        if size.value.None? {
          return BadSize(rfile);
        }
        var chunkSize := size.value.value;
        if chunkSize == 0 {
          assert unchunked + [] == unchunked;
          return Done(unchunked, rfile);
        }
        var chunkData := GetChunkData(chunkSize);
        match chunkData {
          case Refused =>
            return BadRead(rfile);
          case TooShort =>
            return ShortData;
          case Data(bytes) =>
            AfterDataTwice(unchunked, bytes, Decode(rfile));
            unchunked := unchunked + bytes;
        }
      }
    }
  }

  /** One round of decoding, by the size of the first line. */
  lemma {:induction false} DecodeCases(s: seq<Byte>)
    ensures var n := LineLength(s);
            if n.None? then Decode(s) == Starved
            else
              var size, rest := IntBase16(s[..n.value]), s[n.value + 2..];
              if size.None? then Decode(s) == BadSize(rest)
              else if size.value == 0 then Decode(s) == Done([], rest)
              else if size.value < -1 then Decode(s) == BadRead(rest)
              else if size.value < 0 || size.value > |rest| then Decode(s) == ShortData
              else
                var next := if size.value + 2 <= |rest| then size.value + 2 else |rest|;
                Decode(s) == AfterData(rest[..size.value], Decode(rest[next..]))
  {
    hide LineLength, IntBase16;
  }

  lemma {:induction false} AfterDataTwice(a: seq<Byte>, b: seq<Byte>, o: Outcome)
    ensures AfterData(a, AfterData(b, o)) == AfterData(a + b, o)
  {
    if o.Done? {
      assert a + (b + o.body) == a + b + o.body;
    }
  }

  // ----- Exactly which streams end how -----

  /** The chunk announces its data, and is followed by two more bytes or by the end of the stream. */
  predicate Linked(c: Chunk, tail: seq<Byte>) {
    && NoCrLf(c.size) && IntBase16(c.size) == Some(|c.data|) && c.data != []
    && (|c.skipped| == 2 || (|c.skipped| < 2 && tail == []))
  }

  function Wire(chunks: seq<Chunk>, tail: seq<Byte>): seq<Byte> {
    if chunks == [] then tail
    else chunks[0].size + [CR, LF] + (chunks[0].data + chunks[0].skipped + Wire(chunks[1..], tail))
  }

  predicate Framed(chunks: seq<Chunk>, tail: seq<Byte>) {
    chunks != [] ==> Linked(chunks[0], Wire(chunks[1..], tail)) && Framed(chunks[1..], tail)
  }

  function Body(chunks: seq<Chunk>): seq<Byte> {
    if chunks == [] then [] else chunks[0].data + Body(chunks[1..])
  }

  lemma {:induction false} ChunkSlices(c: Chunk, tail: seq<Byte>)
    ensures var rest := c.data + c.skipped + tail;
            var s := c.size + [CR, LF] + rest;
            && s[..|c.size|] == c.size && s[|c.size| + 2..] == rest
            && rest[..|c.data|] == c.data && rest[|c.data|..|c.data| + |c.skipped|] == c.skipped
            && rest[|c.data| + |c.skipped|..] == tail
  {
  }

  lemma {:induction false} LinkedIsFirst(c: Chunk, tail: seq<Byte>)
    requires Linked(c, tail)
    ensures var s := c.size + [CR, LF] + (c.data + c.skipped + tail);
            Stop(s).None? && FirstChunk(s) == (c, tail)
  {
    var rest := c.data + c.skipped + tail;
    LineLengthOf(c.size, rest);
    ChunkSlices(c, tail);
    hide LineLength, IntBase16, NoCrLf;
    assert |rest| == |c.data| + |c.skipped| + |tail|;
  }

  lemma {:induction false} DecodeChunk(c: Chunk, tail: seq<Byte>)
    requires Linked(c, tail)
    ensures Decode(c.size + [CR, LF] + (c.data + c.skipped + tail)) == AfterData(c.data, Decode(tail))
  {
    LinkedIsFirst(c, tail);
    hide Stop, FirstChunk;
  }

  lemma {:induction false} DecodeWire(chunks: seq<Chunk>, tail: seq<Byte>)
    requires Framed(chunks, tail)
    ensures Decode(Wire(chunks, tail)) == AfterData(Body(chunks), Decode(tail))
  {
    hide Decode, Linked;
    if chunks == [] {
      assert Decode(tail).Done? ==> [] + Decode(tail).body == Decode(tail).body;
    } else {
      DecodeWire(chunks[1..], tail);
      DecodeChunk(chunks[0], Wire(chunks[1..], tail));
      AfterDataTwice(chunks[0].data, Body(chunks[1..]), Decode(tail));
    }
  }

  /** The first line of a stream. */
  lemma {:induction false} FirstLine(s: seq<Byte>)
    requires LineLength(s).Some?
    ensures var n := LineLength(s).value;
            NoCrLf(s[..n]) && s == s[..n] + [CR, LF] + s[n + 2..]
  {
    LineLengthFirst(s);
    var n := LineLength(s).value;
    NoCrLfPart(s[..n + 1], s[..n], 0);
  }

  lemma {:induction false} SplitData(rest: seq<Byte>, size: nat, k: nat)
    requires size <= k <= |rest|
    ensures rest == rest[..size] + rest[size..k] + rest[k..]
  {
  }

  lemma {:induction false} FirstIsLinked(s: seq<Byte>)
    requires Stop(s).None?
    ensures var (c, next) := FirstChunk(s);
            Linked(c, next) && s == c.size + [CR, LF] + (c.data + c.skipped + next)
  {
    FirstLine(s);
    var rest := s[LineLength(s).value + 2..];
    var size := IntBase16(s[..LineLength(s).value]).value;
    SplitData(rest, size, if size + 2 <= |rest| then size + 2 else |rest|);
    hide LineLength, IntBase16, NoCrLf;
  }

  lemma {:induction false} WireCons(c: Chunk, chunks: seq<Chunk>, tail: seq<Byte>)
    requires Linked(c, Wire(chunks, tail)) && Framed(chunks, tail)
    ensures Framed([c] + chunks, tail)
    ensures Wire([c] + chunks, tail) == c.size + [CR, LF] + (c.data + c.skipped + Wire(chunks, tail))
  {
    assert ([c] + chunks)[1..] == chunks;
  }

  /** Every stream is a number of chunks, and then something that ends the decoding. */
  lemma {:induction false} EveryStreamIsFramed(s: seq<Byte>) returns (chunks: seq<Chunk>, tail: seq<Byte>)
    ensures s == Wire(chunks, tail) && Framed(chunks, tail) && Stop(tail).Some?
    decreases |s|
  {
    if Stop(s).Some? {
      return [], s;
    }
    FirstIsLinked(s);
    var (c, next) := FirstChunk(s);
    hide *;
    chunks, tail := EveryStreamIsFramed(next);
    WireCons(c, chunks, tail);
    chunks := [c] + chunks;
  }

  lemma {:induction false} DecodeStops(tail: seq<Byte>)
    requires Stop(tail).Some?
    ensures Decode(tail) == Stop(tail).value
  {
  }

  /** Exactly which streams have an outcome: chunks, and a tail with that outcome after them. */
  lemma {:induction false} OutcomeIff(s: seq<Byte>, o: Outcome)
    ensures Decode(s) == o <==>
            exists chunks, tail :: s == Wire(chunks, tail) && Framed(chunks, tail)
                                   && Stop(tail).Some? && o == AfterData(Body(chunks), Stop(tail).value)
  {
    hide *;
    if Decode(s) == o {
      var chunks, tail := EveryStreamIsFramed(s);
      DecodeWire(chunks, tail);
      DecodeStops(tail);
    }
    forall chunks, tail | s == Wire(chunks, tail) && Framed(chunks, tail)
                          && Stop(tail).Some? && o == AfterData(Body(chunks), Stop(tail).value)
      ensures Decode(s) == o
    {
      DecodeWire(chunks, tail);
      DecodeStops(tail);
    }
  }

  predicate LastSize(size: seq<Byte>) {
    NoCrLf(size) && IntBase16(size) == Some(0)
  }

  ghost predicate IsWireOf(s: seq<Byte>, chunks: seq<Chunk>, last: seq<Byte>, rest: seq<Byte>) {
    var tail := last + [CR, LF] + rest;
    s == Wire(chunks, tail) && Framed(chunks, tail) && LastSize(last)
  }

  lemma {:induction false} LastStops(last: seq<Byte>, rest: seq<Byte>)
    requires LastSize(last)
    ensures Stop(last + [CR, LF] + rest) == Some(Done([], rest))
  {
    LineLengthOf(last, rest);
    var s := last + [CR, LF] + rest;
    assert s[..|last|] == last && s[|last| + 2..] == rest;
  }

  lemma {:induction false} DoneIsLast(tail: seq<Byte>) returns (last: seq<Byte>)
    requires Stop(tail).Some? && Stop(tail).value.Done?
    ensures LastSize(last) && tail == last + [CR, LF] + Stop(tail).value.rest && Stop(tail).value.body == []
  {
    FirstLine(tail);
    last := tail[..LineLength(tail).value];
  }

  lemma {:induction false} DecodeFramed(chunks: seq<Chunk>, last: seq<Byte>, rest: seq<Byte>)
    requires Framed(chunks, last + [CR, LF] + rest) && LastSize(last)
    ensures Decode(Wire(chunks, last + [CR, LF] + rest)) == Done(Body(chunks), rest)
  {
    var tail := last + [CR, LF] + rest;
    LastStops(last, rest);
    DecodeWire(chunks, tail);
    DecodeStops(tail);
    assert Body(chunks) + [] == Body(chunks);
  }

  /** Decoding succeeds exactly on framed streams, and stops just after the last-chunk line. */
  lemma {:induction false} DecodesIff(s: seq<Byte>, body: seq<Byte>, rest: seq<Byte>)
    ensures Decode(s) == Done(body, rest)
            <==> exists chunks, last :: IsWireOf(s, chunks, last, rest) && Body(chunks) == body
  {
    if Decode(s) == Done(body, rest) {
      var chunks, tail := EveryStreamIsFramed(s);
      DecodeWire(chunks, tail);
      DecodeStops(tail);
      var last := DoneIsLast(tail);
      hide Stop, Decode, Framed, LastSize;
      assert Body(chunks) + [] == Body(chunks);
      assert IsWireOf(s, chunks, last, rest);
    }
    forall chunks, last | IsWireOf(s, chunks, last, rest) && Body(chunks) == body
      ensures Decode(s) == Done(body, rest)
    {
      DecodeFramed(chunks, last, rest);
    }
  }

  lemma {:induction false} StarvedTail(tail: seq<Byte>)
    ensures Stop(tail) == Some(Starved) <==> NoCrLf(tail)
  {
    LineLengthFirst(tail);
    if NoCrLf(tail) {
      NoLine(tail);
    }
  }

  /** The size reader waits forever exactly on chunks followed by text without CR LF. */
  lemma {:induction false} StarvesIff(s: seq<Byte>)
    ensures Decode(s) == Starved
            <==> exists chunks, tail :: s == Wire(chunks, tail) && Framed(chunks, tail) && NoCrLf(tail)
  {
    hide Stop, Decode, Framed, NoCrLf, Wire;
    if Decode(s) == Starved {
      var chunks, tail := EveryStreamIsFramed(s);
      DecodeWire(chunks, tail);
      DecodeStops(tail);
      StarvedTail(tail);
    }
    forall chunks, tail | s == Wire(chunks, tail) && Framed(chunks, tail) && NoCrLf(tail)
      ensures Decode(s) == Starved
    {
      StarvedTail(tail);
      DecodeWire(chunks, tail);
      DecodeStops(tail);
    }
  }

  // ----- The chunked coding of RFC 9112 -----

  /** chunk-size = 1*HEXDIG, in either case and with any leading zeros. */
  predicate IsHex(s: seq<Byte>) {
    s != [] && forall i :: 0 <= i < |s| ==> IsHexDigit(s[i])
  }

  lemma {:induction false} HexIsRead(s: seq<Byte>)
    requires IsHex(s)
    ensures NoCrLf(s) && IntBase16(s) == Some(DigitsValue(s))
  {
    assert IsHexDigit(s[0]) && IsHexDigit(s[|s| - 1]);
    assert StripLeft(s) == s && StripRight(s) == s;
    assert |s| >= 2 ==> IsHexDigit(s[1]);
    assert Unprefixed(s) == s;
  }

  function HexChar(d: nat): Byte
    requires d < 16
  {
    if d < 10 then 48 + d else 87 + d
  }

  /** The shortest lower case numeral. */
  function Hex(n: nat): (r: seq<Byte>)
    ensures IsHex(r)
  {
    (if n < 16 then [] else Hex(n / 16)) + [HexChar(n % 16)]
  }

  lemma {:induction false} HexValue(n: nat)
    ensures DigitsValue(Hex(n)) == n
  {
    var h := Hex(n);
    assert IsHexDigit(h[|h| - 1]) && HexDigit(HexChar(n % 16)) == n % 16;
    if n >= 16 {
      HexValue(n / 16);
      assert h[..|h| - 1] == Hex(n / 16);
    } else {
      assert h[..|h| - 1] == [];
    }
  }

  /** chunk = chunk-size CRLF chunk-data CRLF */
  predicate RfcChunk(c: Chunk) {
    c.data != [] && IsHex(c.size) && DigitsValue(c.size) == |c.data| && c.skipped == [CR, LF]
  }

  /** *chunk last-chunk */
  function Encode(chunks: seq<Chunk>, last: seq<Byte>): seq<Byte> {
    Wire(chunks, last + [CR, LF])
  }

  lemma {:induction false} WireAppend(chunks: seq<Chunk>, tail: seq<Byte>, rest: seq<Byte>)
    ensures Wire(chunks, tail) + rest == Wire(chunks, tail + rest)
  {
    if chunks == [] {
    } else {
      WireAppend(chunks[1..], tail, rest);
      var c, inner := chunks[0], Wire(chunks[1..], tail);
      Regroup(c.size + [CR, LF], c.data + c.skipped + inner, rest);
      Regroup(c.data + c.skipped, inner, rest);
    }
  }

  lemma {:induction false} RfcChunksFramed(chunks: seq<Chunk>, tail: seq<Byte>)
    requires forall i :: 0 <= i < |chunks| ==> RfcChunk(chunks[i])
    ensures Framed(chunks, tail)
  {
    if chunks == [] {
    } else {
      HexIsRead(chunks[0].size);
      RfcChunksFramed(chunks[1..], tail);
    }
  }

  /** Decoding undoes encoding and leaves the stream just after the last-chunk line. */
  lemma {:induction false} DecodeEncode(chunks: seq<Chunk>, last: seq<Byte>, rest: seq<Byte>)
    requires forall i :: 0 <= i < |chunks| ==> RfcChunk(chunks[i])
    requires IsHex(last) && DigitsValue(last) == 0
    ensures Decode(Encode(chunks, last) + rest) == Done(Body(chunks), rest)
  {
    HexIsRead(last);
    RfcChunksFramed(chunks, last + [CR, LF] + rest);
    WireAppend(chunks, last + [CR, LF], rest);
    DecodeFramed(chunks, last, rest);
  }

  /** Cut a body into the given non-empty pieces, with shortest sizes. */
  function Chunked(pieces: seq<seq<Byte>>): seq<Chunk> {
    if pieces == [] then [] else [Chunk(Hex(|pieces[0]|), pieces[0], [CR, LF])] + Chunked(pieces[1..])
  }

  predicate NoneEmpty(pieces: seq<seq<Byte>>) {
    forall i :: 0 <= i < |pieces| ==> pieces[i] != []
  }

  lemma {:induction false} PieceIsValid(piece: seq<Byte>)
    requires piece != []
    ensures RfcChunk(Chunk(Hex(|piece|), piece, [CR, LF]))
  {
    HexValue(|piece|);
  }

  lemma {:induction false} ChunkedIsValid(pieces: seq<seq<Byte>>)
    requires NoneEmpty(pieces)
    ensures forall i :: 0 <= i < |Chunked(pieces)| ==> RfcChunk(Chunked(pieces)[i])
    ensures Body(Chunked(pieces)) == Flatten(pieces)
  {
    hide Hex, RfcChunk;
    if pieces == [] {
    } else {
      PieceIsValid(pieces[0]);
      ChunkedIsValid(pieces[1..]);
      assert Chunked(pieces)[1..] == Chunked(pieces[1..]);
    }
  }

  /** Any two ways to cut the same body decode alike. */
  lemma {:induction false} ChunkingsDecodeAlike(a: seq<seq<Byte>>, b: seq<seq<Byte>>, rest: seq<Byte>)
    requires NoneEmpty(a) && NoneEmpty(b)
    requires Flatten(a) == Flatten(b)
    ensures Decode(Encode(Chunked(a), [48]) + rest) == Done(Flatten(a), rest)
    ensures Decode(Encode(Chunked(a), [48]) + rest) == Decode(Encode(Chunked(b), [48]) + rest)
  {
    assert [48][..0] == [] && DigitsValue([48]) == 0;
    ChunkedIsValid(a);
    ChunkedIsValid(b);
    DecodeEncode(Chunked(a), [48], rest);
    DecodeEncode(Chunked(b), [48], rest);
  }

  // ----- Chunk extensions -----

  lemma {:induction false} StripKeeps(s: seq<Byte>, b: Byte)
    requires b in s && !IsSpace(b)
    ensures b in StripRight(StripLeft(s))
  {
    StripLeftKeeps(s, b);
    StripRightKeeps(StripLeft(s), b);
  }

  lemma {:induction false} StripLeftKeeps(s: seq<Byte>, b: Byte)
    requires b in s && !IsSpace(b)
    ensures b in StripLeft(s)
  {
    if IsSpace(s[0]) {
      StripLeftKeeps(s[1..], b);
    }
  }

  lemma {:induction false} StripRightKeeps(s: seq<Byte>, b: Byte)
    requires b in s && !IsSpace(b)
    ensures b in StripRight(s)
  {
    if IsSpace(s[|s| - 1]) {
      StripRightKeeps(s[..|s| - 1], b);
    }
  }

  lemma {:induction false} NotGrouped(s: seq<Byte>)
    requires 59 in s
    ensures !Grouped(Unprefixed(s))
  {
    var k :| 0 <= k < |s| && s[k] == 59;
    var digits := Unprefixed(s);
    var i := k - (|s| - |digits|);
    assert 0 <= i < |digits| && digits[i] == 59;
    NotHex(digits, i);
  }

  lemma {:induction false} NotHex(digits: seq<Byte>, i: nat)
    requires i < |digits| && digits[i] == 59
    ensures !Grouped(digits)
  {
    assert !DigitAt(digits, i);
  }

  lemma {:induction false} NotANumber(line: seq<Byte>)
    requires 59 in line
    ensures IntBase16(line) == None
  {
    StripKeeps(line, 59);
    var t := StripRight(StripLeft(line));
    var u := if t != [] && (t[0] == 45 || t[0] == 43) then t[1..] else t;
    assert 59 in u;
    NotGrouped(u);
  }

  /** A size line with a chunk extension, which the RFC allows, is refused. */
  lemma {:induction false} ExtensionRefused(line: seq<Byte>, rest: seq<Byte>)
    requires NoCrLf(line) && 59 in line
    ensures Decode(line + [CR, LF] + rest) == BadSize(rest)
  {
    var s := line + [CR, LF] + rest;
    LineLengthOf(line, rest);
    assert s[..|line|] == line && s[|line| + 2..] == rest;
    NotANumber(line);
  }

  // ----- Sizes, digit by digit -----

  /** The digits 0 to 9 and the letters in either case have their hexadecimal values. */
  lemma {:induction false} HexDigits(b: Byte)
    ensures IsHexDigit(b) <==> b as char in "0123456789abcdefABCDEF"
    ensures IsHexDigit(b) ==>
              && HexDigit(b) < 16
              && (b as char == "0123456789abcdef"[HexDigit(b)] || b as char == "0123456789ABCDEF"[HexDigit(b)])
  {
  }

  /** Digits are read from left to right, each worth 16 times what follows; underscores are skipped. */
  lemma {:induction false} DigitsFromLeft(s: seq<Byte>, b: Byte)
    ensures DigitsValue([]) == 0
    ensures DigitsValue(s + [b]) == if IsHexDigit(b) then DigitsValue(s) * 16 + HexDigit(b) else DigitsValue(s)
  {
    assert (s + [b])[..|s|] == s;
  }

  lemma {:induction false} TrimmedInt(s: seq<Byte>)
    requires s != [] && !IsSpace(s[0]) && !IsSpace(s[|s| - 1])
    ensures StripRight(StripLeft(s)) == s
  {
  }

  /** A sign is allowed in front of the digits. */
  lemma {:induction false} SignedSizes(digits: seq<Byte>)
    requires IsHex(digits)
    ensures IntBase16([45] + digits) == Some(-(DigitsValue(digits) as int))
    ensures IntBase16([43] + digits) == Some(DigitsValue(digits) as int)
  {
    assert IsHexDigit(digits[|digits| - 1]);
    TrimmedInt([45] + digits);
    TrimmedInt([43] + digits);
    assert ([45] + digits)[1..] == digits && ([43] + digits)[1..] == digits;
    UnprefixedHex(digits);
    hide DigitsValue;
  }

  lemma {:induction false} UnprefixedHex(digits: seq<Byte>)
    requires IsHex(digits)
    ensures Unprefixed(digits) == digits && Grouped(digits)
  {
    assert |digits| >= 2 ==> IsHexDigit(digits[1]);
  }

  /** So is the prefix 0x. */
  lemma {:induction false} PrefixedSizes(digits: seq<Byte>)
    requires IsHex(digits)
    ensures IntBase16([48, 120] + digits) == Some(DigitsValue(digits) as int)
    ensures IntBase16([48, 88] + digits) == Some(DigitsValue(digits) as int)
  {
    assert IsHexDigit(digits[0]) && IsHexDigit(digits[|digits| - 1]);
    TrimmedInt([48, 120] + digits);
    TrimmedInt([48, 88] + digits);
    assert ([48, 120] + digits)[2..] == digits && ([48, 88] + digits)[2..] == digits;
    UnprefixedHex(digits);
    hide DigitsValue;
  }

  lemma {:induction false} ExampleDigits()
    ensures IsHex([50]) && DigitsValue([50]) == 2 && IsHex([48]) && DigitsValue([48]) == 0
  {
    assert [50][..0] == [] && [48][..0] == [];
  }

  lemma {:induction false} ExampleEncoded()
    ensures Encode([Chunk([50], [104, 105], [13, 10])], [48]) + [] == [50, 13, 10, 104, 105, 13, 10, 48, 13, 10]
    ensures Body([Chunk([50], [104, 105], [13, 10])]) == [104, 105]
  {
    var chunks := [Chunk([50], [104, 105], [13, 10])];
    assert chunks[1..] == [];
    assert Wire([], [48] + [13, 10]) == [48, 13, 10];
    assert Body([]) == [];
  }

  /** The bytes of `2`, CR LF, `hi`, CR LF, `0`, CR LF decode to `hi`. */
  lemma {:induction false} WireExample()
    ensures Decode([50, 13, 10, 104, 105, 13, 10, 48, 13, 10]) == Done([104, 105], [])
  {
    ExampleDigits();
    ExampleEncoded();
    hide Decode, Encode, Wire, Body, DigitsValue, IsHex;
    DecodeEncode([Chunk([50], [104, 105], [13, 10])], [48], []);
  }

  // ----- Blanks and underscores -----

  /** The bytes that count as white space around a size. */
  lemma {:induction false} SpaceBytes(b: Byte)
    ensures IsSpace(b) <==> b as int in [9, 10, 11, 12, 13, 32]
  {
  }

  predicate AllBlank(w: seq<Byte>) {
    forall i :: 0 <= i < |w| ==> IsSpace(w[i])
  }

  lemma {:induction false} StripLeftBlank(w: seq<Byte>, s: seq<Byte>)
    requires AllBlank(w) && s != [] && !IsSpace(s[0])
    ensures StripLeft(w + s) == s
  {
    if w == [] {
      assert w + s == s;
    } else {
      assert (w + s)[1..] == w[1..] + s;
      StripLeftBlank(w[1..], s);
    }
  }

  lemma {:induction false} StripRightBlank(s: seq<Byte>, w: seq<Byte>)
    requires AllBlank(w) && s != [] && !IsSpace(s[|s| - 1])
    ensures StripRight(s + w) == s
  {
    if w == [] {
      assert s + w == s;
    } else {
      assert (s + w)[..|s + w| - 1] == s + w[..|w| - 1];
      StripRightBlank(s, w[..|w| - 1]);
    }
  }

  /** White space around a size does not matter. */
  lemma {:induction false} PaddedSizes(w: seq<Byte>, s: seq<Byte>, w': seq<Byte>)
    requires AllBlank(w) && AllBlank(w') && s != [] && !IsSpace(s[0]) && !IsSpace(s[|s| - 1])
    ensures IntBase16(w + s + w') == IntBase16(s)
  {
    assert w + s + w' == w + (s + w');
    StripLeftBlank(w, s + w');
    StripRightBlank(s, w');
    TrimmedInt(s);
    hide StripLeft, StripRight, Unprefixed, Grouped, DigitsValue;
  }

  lemma {:induction false} DigitSlice(s: seq<Byte>, k: nat)
    requires Grouped(s) && k < |s| && s[k] == 95
    ensures 0 < k < |s| - 1 && IsHexDigit(s[k + 1])
  {
    assert DigitAt(s, k);
  }

  lemma {:induction false} GroupedTail(s: seq<Byte>, k: nat)
    requires Grouped(s) && 0 < k < |s| && IsHexDigit(s[k])
    ensures Grouped(s[k..])
  {
    forall i | 0 <= i < |s[k..]|
      ensures DigitAt(s[k..], i)
    {
      assert DigitAt(s, k + i);
    }
  }

  lemma {:induction false} FirstUnderscore(s: seq<Byte>) returns (k: nat)
    requires Grouped(s) && !IsHex(s)
    ensures k < |s| && s[k] == 95 && IsHex(s[..k])
  {
    k := 0;
    while k < |s| && IsHexDigit(s[k])
      invariant k <= |s| && forall i :: 0 <= i < k ==> IsHexDigit(s[i])
    {
      k := k + 1;
    }
    assert k < |s|;
    assert DigitAt(s, k);
    assert k > 0;
  }

  /** Digits that may be grouped: hexadecimal digits alone, or after them one underscore and grouped digits again. */
  lemma {:induction false} GroupedIff(s: seq<Byte>)
    ensures Grouped(s) <==> IsHex(s) || exists k :: 0 < k < |s| && s[k] == 95 && IsHex(s[..k]) && Grouped(s[k + 1..])
  {
    if IsHex(s) {
      UnprefixedHex(s);
    } else if Grouped(s) {
      var k := FirstUnderscore(s);
      DigitSlice(s, k);
      GroupedTail(s, k + 1);
    }
    if k :| 0 < k < |s| && s[k] == 95 && IsHex(s[..k]) && Grouped(s[k + 1..]) {
      GroupsJoin(s, k);
    }
  }

  lemma {:induction false} GroupsJoin(s: seq<Byte>, k: nat)
    requires 0 < k < |s| && s[k] == 95 && IsHex(s[..k]) && Grouped(s[k + 1..])
    ensures Grouped(s)
  {
    var a, b := s[..k], s[k + 1..];
    assert s[0] == a[0] && s[|s| - 1] == b[|b| - 1] && s[k + 1] == b[0];
    forall i | 0 <= i < |s|
      ensures DigitAt(s, i)
    {
      if i < k {
        assert IsHexDigit(a[i]);
      } else if i > k {
        assert DigitAt(b, i - k - 1);
      }
    }
  }

  /** One underscore may follow the prefix. */
  lemma {:induction false} UnderscoredPrefix(digits: seq<Byte>)
    requires IsHex(digits)
    ensures IntBase16([48, 120, 95] + digits) == Some(DigitsValue(digits) as int)
  {
    var s := [48, 120, 95] + digits;
    assert IsHexDigit(digits[|digits| - 1]);
    TrimmedInt(s);
    assert s[3..] == digits;
    UnprefixedHex(digits);
    hide DigitsValue;
  }

  /** Grouped digits count without their underscores. */
  lemma {:induction false} GroupedSizes(digits: seq<Byte>)
    requires Grouped(digits)
    ensures IntBase16(digits) == Some(DigitsValue(digits) as int)
  {
    TrimmedInt(digits);
    assert |digits| >= 2 ==> DigitAt(digits, 1);
    hide DigitsValue;
  }
}
