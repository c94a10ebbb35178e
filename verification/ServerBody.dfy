/**
 The server's reader of a chunked request body, with its size limit. It is more
 lenient than the client's decoder: any line may end a chunk's data, and any
 line of only CR and LF ends the trailer section.
 */
module ServerBody {
  import opened Common
  import opened Bytes
  import opened ChunkedCoding
  import opened ChunkFraming

  /** What `_read_chunked_body` does: the body and the unread bytes, or an exception. */
  datatype Outcome =
    | Body(bytes: seq<Byte>, rest: seq<Byte>)
    | InvalidChunkSize
    | TooLarge
    | Incomplete
    | BadTrailer(failure: Failure)
  {
    function After(data: seq<Byte>): Outcome
    {
      if Body? then Body(data + bytes, rest) else this
    }
  }

  /** What `readline()` leaves unread. */
  function DropLine(s: seq<Byte>): (rest: seq<Byte>)
    ensures |rest| <= |s| && (s != [] ==> |rest| < |s|)
  {
    if s == [] then [] else if s[0] == LF then s[1..] else DropLine(s[1..])
  }

  lemma {:induction false} DropLineIs(s: seq<Byte>)
    ensures DropLine(s) == s[LineLength(s)..]
  {
    if s != [] && s[0] != LF {
      DropLineIs(s[1..]);
    }
  }

  datatype Read = Short | Exactly(data: seq<Byte>, rest: seq<Byte>)

  /** `readexactly(n)`: the first `n` bytes and the rest; Short is IncompleteReadError. */
  function ReadExactly(s: seq<Byte>, n: nat): (r: Read)
    ensures r.Exactly? ==> |r.data| == n && |r.rest| + n == |s|
  {
    if n == 0 then Exactly([], s)
    else if s == [] then Short
    else
      match ReadExactly(s[1..], n - 1)
      case Short => Short
      case Exactly(data, rest) => Exactly([s[0]] + data, rest)
  }

  lemma {:induction false} ReadExactlyIs(s: seq<Byte>, n: nat)
    ensures ReadExactly(s, n) == if n <= |s| then Exactly(s[..n], s[n..]) else Short
  {
    if n > 0 && s != [] {
      ReadExactlyIs(s[1..], n - 1);
    }
  }

  /** What `rstrip("\r\n")` leaves empty. */
  predicate IsBlank(line: seq<Byte>)
  {
    forall i :: 0 <= i < |line| ==> line[i] == CR || line[i] == LF
  }

  /** `_read_header_section` with `discard`. */
  function ReadTrailer(s: seq<Byte>, count: nat, total: nat): Outcome
    decreases |s|
  {
    var line := ReadLine(s);
    if line == [] then BadTrailer(IncompleteTrailer)
    else if total + |line| > MAX_HEADER_BYTES then BadTrailer(TrailerLimit)
    else if IsBlank(line) then Body([], DropLine(s))
    else if count + 1 > MAX_HEADER_COUNT then BadTrailer(TrailerLimit)
    else ReadTrailer(DropLine(s), count + 1, total + |line|)
  }

  /**
   The outcome on the wire bytes `s` after `total` bytes of data, at most `limit` in all.
   As in the client's decoder, header lines are read by `parse`.
   */
  function ReadBody(parse: seq<Byte> -> Header, s: seq<Byte>, total: nat, limit: nat): Outcome
    decreases |s|, 1
  {
    ReadChunk(parse, parse(ReadLine(s)), DropLine(s), total, limit)
  }

  /** The same from behind a header line. */
  function ReadChunk(parse: seq<Byte> -> Header, header: Header, s: seq<Byte>, total: nat, limit: nat): Outcome
    decreases |s|, 0
  {
    match header
    case Missing => Body([], s)
    case Malformed => InvalidChunkSize
    case Announced(size) =>
      if size == 0 then ReadTrailer(s, 0, 0)
      else if total + size > limit then TooLarge
      else if size < 0 then InvalidChunkSize
      else
        match ReadExactly(s, size)
        case Short => Incomplete
        case Exactly(data, rest) => ReadBody(parse, DropLine(rest), total + size, limit).After(data)
  }

  method DiscardTrailer(s: seq<Byte>) returns (outcome: Outcome)
    ensures outcome == ReadTrailer(s, 0, 0)
  {
    var rest := s;
    var count: nat, total: nat := 0, 0;
    while true
      invariant ReadTrailer(rest, count, total) == ReadTrailer(s, 0, 0)
      decreases |rest|
    {
      var line := ReadLine(rest);
      if line == [] {
        return BadTrailer(IncompleteTrailer);
      }
      total := total + |line|;
      if total > MAX_HEADER_BYTES {
        return BadTrailer(TrailerLimit);
      }
      rest := DropLine(rest);
      if IsBlank(line) {
        return Body([], rest);
      }
      count := count + 1;
      if count > MAX_HEADER_COUNT {
        return BadTrailer(TrailerLimit);
      }
    }
  }

  /** `_read_chunked_body`, whose `parse` is `ReadHeader`. */
  method ReadChunkedBody(parse: seq<Byte> -> Header, wire: seq<Byte>, limit: nat) returns (outcome: Outcome)
    ensures outcome == ReadBody(parse, wire, 0, limit)
  {
    var rest, parts, total: nat := wire, [], 0;
    while true
      invariant ReadBody(parse, wire, 0, limit) == ReadBody(parse, rest, total, limit).After(parts)
      decreases |rest|
    {
      var header := parse(ReadLine(rest));
      var data := DropLine(rest);
      if header.Missing? {
        return Body(parts, data);
      }
      if header.Malformed? {
        return InvalidChunkSize;
      }
      if header.size == 0 {
        outcome := DiscardTrailer(data);
        return outcome.After(parts);
      }
      if total + header.size > limit {
        return TooLarge;
      }
      if header.size < 0 {
        return InvalidChunkSize;
      }
      total := total + header.size;
      var chunk := ReadExactly(data, header.size);
      if chunk.Short? {
        return Incomplete;
      }
      rest := DropLine(chunk.rest);
      parts := parts + chunk.data;
    }
  }

  /** No body longer than the limit is ever returned, whatever arrives. */
  lemma {:induction false} BodyWithinLimit(parse: seq<Byte> -> Header, s: seq<Byte>, total: nat, limit: nat)
    requires total <= limit
    ensures ReadBody(parse, s, total, limit).Body? ==> total + |ReadBody(parse, s, total, limit).bytes| <= limit
    decreases |s|, 1
  {
    ChunkWithinLimit(parse, parse(ReadLine(s)), DropLine(s), total, limit);
  }

  lemma {:induction false} ChunkWithinLimit(parse: seq<Byte> -> Header, header: Header, s: seq<Byte>, total: nat, limit: nat)
    requires total <= limit
    ensures ReadChunk(parse, header, s, total, limit).Body? ==> total + |ReadChunk(parse, header, s, total, limit).bytes| <= limit
    decreases |s|, 0
  {
    if header.Announced? {
      if header.size == 0 {
        TrailerHasNoBody(s, 0, 0);
      } else if header.size > 0 && total + header.size <= limit {
        var chunk := ReadExactly(s, header.size);
        if chunk.Exactly? {
          BodyWithinLimit(parse, DropLine(chunk.rest), total + header.size, limit);
        }
      }
    }
  }

  lemma {:induction false} TrailerHasNoBody(s: seq<Byte>, count: nat, total: nat)
    ensures ReadTrailer(s, count, total).Body? ==> ReadTrailer(s, count, total).bytes == []
    decreases |s|
  {
    var line := ReadLine(s);
    if line != [] && total + |line| <= MAX_HEADER_BYTES && !IsBlank(line) && count < MAX_HEADER_COUNT {
      TrailerHasNoBody(DropLine(s), count + 1, total + |line|);
    }
  }

  lemma {:induction false} TrailerAccepted(s: seq<Byte>, count: nat, total: nat)
    requires SkipTrailer(s, count, total).Complete?
    ensures ReadTrailer(s, count, total).Body? && ReadTrailer(s, count, total).bytes == []
    decreases |s|
  {
    var line := ReadLine(s);
    DropLineIs(s);
    if !IsBlank(line) {
      TrailerAccepted(DropLine(s), count + 1, total + |line|);
    }
  }

  /** One line, up to its line feed. */
  predicate IsLine(line: seq<Byte>)
  {
    line != [] && line[|line| - 1] == LF && forall i :: 0 <= i < |line| - 1 ==> line[i] != LF
  }

  /** One chunk as the server reads it: any line at all may end its data. */
  lemma ServerChunk(parse: seq<Byte> -> Header, data: seq<Byte>, line: seq<Byte>, more: seq<Byte>, total: nat, limit: nat)
    requires data != [] && IsLine(line)
    ensures ReadChunk(parse, Announced(|data|), data + (line + more), total, limit) ==
      if total + |data| > limit then TooLarge
      else ReadBody(parse, more, total + |data|, limit).After(data)
  {
    var s := data + (line + more);
    ReadExactlyIs(s, |data|);
    assert s[..|data|] == data && s[|data|..] == line + more;
    LineLengthAt(line + more, |line|);
    DropLineIs(line + more);
    assert (line + more)[|line|..] == more;
  }

  /** The server's outcome for what the client reads as `body`. */
  predicate Agrees(outcome: Outcome, body: seq<Byte>, total: nat, limit: nat)
  {
    if total + |body| <= limit then outcome.Body? && outcome.bytes == body else outcome == TooLarge
  }

  lemma ServerReadsEnd(parse: seq<Byte> -> Header, s: seq<Byte>, total: nat, limit: nat)
    requires EndsProperly(parse, s) || EndsEarly(parse, s)
    ensures ReadBody(parse, s, total, limit).Body? && ReadBody(parse, s, total, limit).bytes == []
  {
    DropLineIs(s);
    if EndsProperly(parse, s) {
      TrailerAccepted(DropLine(s), 0, 0);
    }
  }

  lemma ChunkAgrees(parse: seq<Byte> -> Header, s: seq<Byte>, data: seq<Byte>, more: seq<Byte>, body: seq<Byte>, total: nat, limit: nat)
    requires StartsWithChunk(parse, s, data, more) && data != []
    requires total + |data| <= limit ==> Agrees(ReadBody(parse, more, total + |data|, limit), body, total + |data|, limit)
    ensures Agrees(ReadBody(parse, s, total, limit), data + body, total, limit)
  {
    DropLineIs(s);
    ServerChunk(parse, data, CRLF, more, total, limit);
  }

  lemma {:induction false} ServerReadsFrames(
      parse: seq<Byte> -> Header, s: seq<Byte>, chunks: seq<seq<Byte>>, rest: seq<Byte>, total: nat, limit: nat)
    requires total <= limit && FramesThen(parse, s, chunks, rest)
    requires EndsProperly(parse, rest) || EndsEarly(parse, rest)
    ensures Agrees(ReadBody(parse, s, total, limit), Concat(chunks), total, limit)
    decreases |chunks|
  {
    if chunks == [] {
      ServerReadsEnd(parse, s, total, limit);
    } else {
      var data, others := chunks[0], chunks[1..];
      var more :| StartsWithChunk(parse, s, data, more) && data != [] && FramesThen(parse, more, others, rest);
      if total + |data| <= limit {
        ServerReadsFrames(parse, more, others, rest, total + |data|, limit);
      }
      ChunkAgrees(parse, s, data, more, Concat(others), total, limit);
    }
  }

  /**
   Server and client agree: whatever coding the client's decoder reads to its
   end, in pieces of any size, the server reads as the same bytes if they fit
   its limit, and refuses as too large if not.
   */
  lemma ServerReadsWhatClientReads(s: seq<Byte>, readSize: nat, limit: nat)
    requires readSize > 0 && Decode(s, readSize).1.Complete?
    ensures Agrees(ReadBody(ReadHeader, s, 0, limit), Concat(Decode(s, readSize).0), 0, limit)
  {
    var chunks, rest := DecodedFrames(ReadHeader, s, readSize);
    ServerReadsFrames(ReadHeader, s, chunks, rest, 0, limit);
  }

  /**
   A body written in chunks is read back within the limit and refused beyond it:
   the limit counts data bytes alone, however they are framed.
   */
  lemma WrittenBodyReadsBack(chunks: seq<seq<Byte>>, tail: seq<Byte>, limit: nat)
    requires [] !in chunks
    ensures ReadBody(ReadHeader, Encode(chunks) + tail, 0, limit) ==
      if |Concat(chunks)| <= limit then Body(Concat(chunks), tail) else TooLarge
  {
    ReadHeaderParsesHex();
    WrittenFrom(ReadHeader, chunks, tail, 0, limit);
  }

  lemma {:induction false} WrittenFrom(parse: seq<Byte> -> Header, chunks: seq<seq<Byte>>, tail: seq<Byte>, total: nat, limit: nat)
    requires [] !in chunks && total <= limit && ParsesHex(parse)
    ensures ReadBody(parse, Encode(chunks) + tail, total, limit) ==
      if total + |Concat(chunks)| <= limit then Body(Concat(chunks), tail) else TooLarge
  {
    if chunks == [] {
      WrittenLast(parse, tail, total, limit);
    } else {
      EncodeFront(chunks, tail);
      WrittenChunk(parse, chunks[0], CRLF, Encode(chunks[1..]) + tail, total, limit);
      if total + |chunks[0]| <= limit {
        WrittenFrom(parse, chunks[1..], tail, total + |chunks[0]|, limit);
      }
    }
  }

  lemma EncodeFront(chunks: seq<seq<Byte>>, tail: seq<Byte>)
    requires chunks != []
    ensures Encode(chunks) + tail ==
      Hex(|chunks[0]|) + CRLF + (chunks[0] + (CRLF + (Encode(chunks[1..]) + tail)))
  {
    var header, chunk, others := Hex(|chunks[0]|) + CRLF, chunks[0], Encode(chunks[1..]);
    assert Encode(chunks) == header + chunk + CRLF + others;
    assert header + chunk + CRLF + others + tail == header + (chunk + (CRLF + (others + tail)));
  }

  lemma WrittenLast(parse: seq<Byte> -> Header, tail: seq<Byte>, total: nat, limit: nat)
    requires ParsesHex(parse)
    ensures ReadBody(parse, LAST_CHUNK + tail, total, limit) == Body([], tail)
  {
    WrittenHeader(0, CRLF + tail);
    assert Hex(0) == [48];
    assert LAST_CHUNK + tail == Hex(0) + CRLF + (CRLF + tail);
    LineLengthAt(CRLF + tail, 2);
    DropLineIs(CRLF + tail);
    assert (CRLF + tail)[2..] == tail;
  }

  lemma WrittenChunk(parse: seq<Byte> -> Header, chunk: seq<Byte>, line: seq<Byte>, more: seq<Byte>, total: nat, limit: nat)
    requires chunk != [] && IsLine(line) && ParsesHex(parse)
    ensures ReadBody(parse, Hex(|chunk|) + CRLF + (chunk + (line + more)), total, limit) ==
      if total + |chunk| > limit then TooLarge
      else ReadBody(parse, more, total + |chunk|, limit).After(chunk)
  {
    WrittenHeader(|chunk|, chunk + (line + more));
    ServerChunk(parse, chunk, line, more, total, limit);
  }

  lemma WrittenHeader(n: nat, rest: seq<Byte>)
    ensures
      var s := Hex(n) + CRLF + rest;
      ReadLine(s) == Hex(n) + CRLF && DropLine(s) == rest
  {
    HeaderLine(n, rest);
    DropLineIs(Hex(n) + CRLF + rest);
  }

  /**
   Where the server returns a body, the client returns the same one if and only
   if the bytes are a whole chunked coding or break off at a frame boundary.
   */
  lemma ReadersAgreeExactlyOnFramed(s: seq<Byte>, readSize: nat, limit: nat)
    requires readSize > 0 && ReadBody(ReadHeader, s, 0, limit).Body?
    ensures
      var (pieces, end) := Decode(s, readSize);
      (end.Complete? && Concat(pieces) == ReadBody(ReadHeader, s, 0, limit).bytes) <==>
      (exists chunks :: Framed(ReadHeader, s, chunks)) || (exists chunks :: CutOff(ReadHeader, s, chunks))
  {
    DecodesExactlyFramed(s, readSize);
    if Decode(s, readSize).1.Complete? {
      ServerReadsWhatClientReads(s, readSize, limit);
    }
  }

  /** A wire that only the server reads: one byte of data, ended by a bare line feed. */
  lemma BareLineFeedExample()
    ensures
      var wire: seq<Byte> := [49, 13, 10, 120, 10, 48, 13, 10, 13, 10];
      ReadBody(ReadHeader, wire, 0, 10) == Body([120], []) && Decode(wire, 10).1 == Failed(InvalidTerminator)
  {
    var data: seq<Byte>, line: seq<Byte> := [120], [LF];
    var wire: seq<Byte> := [49, 13, 10, 120, 10, 48, 13, 10, 13, 10];
    assert Hex(1) == [49];
    assert wire == Hex(1) + CRLF + (data + (line + LAST_CHUNK));
    BareLineFeedRead(data, line);
    ReadHeaderParsesHex();
    BareLineFeedFails(ReadHeader, wire, data, line + LAST_CHUNK);
  }

  lemma BareLineFeedRead(data: seq<Byte>, line: seq<Byte>)
    requires |data| == 1 && IsLine(line)
    ensures ReadBody(ReadHeader, Hex(1) + CRLF + (data + (line + LAST_CHUNK)), 0, 10) == Body(data, [])
  {
    ReadHeaderParsesHex();
    ReadOneChunk(ReadHeader, data, line);
  }

  lemma ReadOneChunk(parse: seq<Byte> -> Header, data: seq<Byte>, line: seq<Byte>)
    requires |data| == 1 && IsLine(line) && ParsesHex(parse)
    ensures ReadBody(parse, Hex(1) + CRLF + (data + (line + LAST_CHUNK)), 0, 10) == Body(data, [])
  {
    WrittenChunk(parse, data, line, LAST_CHUNK, 0, 10);
    assert LAST_CHUNK + [] == LAST_CHUNK;
    WrittenLast(parse, [], 1, 10);
  }

  lemma BareLineFeedFails(parse: seq<Byte> -> Header, wire: seq<Byte>, data: seq<Byte>, after: seq<Byte>)
    requires |data| == 1 && |after| >= 2 && after[0] == LF && wire == Hex(1) + CRLF + (data + after)
    requires ParsesHex(parse)
    ensures DecodeBy(parse, wire, 10).1 == Failed(InvalidTerminator)
  {
    WrittenHeader(1, data + after);
    DropLineIs(wire);
    ClientNeedsCrlf(parse, wire, data, after, 10);
  }
}
