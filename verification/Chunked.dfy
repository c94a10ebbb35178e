/**
 Chunked transfer coding, section 7.1 of RFC 9112: the server's frame writer
 and the client's bounded decoder.
 */
module ChunkedCoding {
  import opened Common
  import opened Bytes

  const MAX_HEADER_BYTES := 65536
  const MAX_HEADER_COUNT := 100

  // ------------------------------------------------------------------------
  // Writer
  // ------------------------------------------------------------------------

  function HexDigit(d: nat): Byte
    requires d < 16
  {
    if d < 10 then 48 + d else 87 + d
  }

  /** Lower-case hexadecimal, as in Python's `{n:x}`. */
  function Hex(n: nat): (r: seq<Byte>)
    ensures r != []
  {
    if n < 16 then [HexDigit(n)] else Hex(n / 16) + [HexDigit(n % 16)]
  }

  function Frame(chunk: seq<Byte>): seq<Byte>
  {
    Hex(|chunk|) + CRLF + chunk + CRLF
  }

  const LAST_CHUNK: seq<Byte> := [48, 13, 10, 13, 10]

  function Encode(chunks: seq<seq<Byte>>): seq<Byte>
  {
    if chunks == [] then LAST_CHUNK else Frame(chunks[0]) + Encode(chunks[1..])
  }

  /** The body part of `StreamingResponse._write`. */
  method WriteChunks(chunks: seq<seq<Byte>>) returns (wire: seq<Byte>)
    ensures wire == Encode(chunks)
  {
    wire := [];
    for i := 0 to |chunks|
      invariant wire + Encode(chunks[i..]) == Encode(chunks)
    {
      assert chunks[i..][1..] == chunks[i + 1..];
      wire := wire + Hex(|chunks[i]|) + CRLF;
      wire := wire + chunks[i];
      wire := wire + CRLF;
    }
    wire := wire + LAST_CHUNK;
  }

  // ------------------------------------------------------------------------
  // Chunk sizes
  // ------------------------------------------------------------------------

  function BeforeSemicolon(s: seq<Byte>): seq<Byte>
  {
    if s == [] || s[0] == 59 then [] else [s[0]] + BeforeSemicolon(s[1..])
  }

  /** The size field of a chunk header line: `split(";")[0].strip()`. */
  function SizeField(line: seq<Byte>): seq<Byte>
  {
    StripRight(StripLeft(BeforeSemicolon(line)))
  }

  function DigitValue(b: Byte): Option<nat>
  {
    if 48 <= b <= 57 then Some(b - 48)
    else if 97 <= b <= 102 then Some(b - 87)
    else if 65 <= b <= 70 then Some(b - 55)
    else None
  }

  /** Digits with single underscores between them, as Python's `int` accepts them. */
  function DigitsValue(s: seq<Byte>): Option<nat>
  {
    if s == [] then None else
    var d := DigitValue(s[|s| - 1]);
    if d.None? then None
    else if |s| == 1 then d
    else
      var front := if s[|s| - 2] == 95 then s[..|s| - 2] else s[..|s| - 1];
      var high := DigitsValue(front);
      if high.None? then None else Some(high.value * 16 + d.value)
  }

  /** `int(s, 16)`: an optional sign, an optional `0x` prefix, digits. None is ValueError. */
  function ParseHex(s: seq<Byte>): Option<int>
  {
    var signed := s != [] && (s[0] == 43 || s[0] == 45);
    var body := if signed then s[1..] else s;
    var prefixed := |body| >= 2 && body[0] == 48 && (body[1] == 120 || body[1] == 88);
    var digits :=
      if !prefixed then body
      else if |body| > 2 && body[2] == 95 then body[3..]
      else body[2..];
    match DigitsValue(digits)
    case None => None
    case Some(n) =>
      var magnitude: int := n;
      Some(if signed && s[0] == 45 then -magnitude else magnitude)
  }

  // ------------------------------------------------------------------------
  // Decoder
  // ------------------------------------------------------------------------

  datatype Failure = InvalidSize | Truncated | InvalidTerminator | IncompleteTrailer | TrailerLimit

  /** How a decoding ends: with the unread bytes, or with an exception. */
  datatype End = Complete(rest: seq<Byte>) | Failed(failure: Failure)

  /** `readexactly` of at most `readSize` bytes at a time until `remaining` are read; None if input runs out. */
  function ReadData(s: seq<Byte>, remaining: nat, readSize: nat): (seq<seq<Byte>>, Option<seq<Byte>>)
    requires readSize > 0
    decreases remaining
  {
    if remaining == 0 then ([], Some(s)) else
    var n := if remaining < readSize then remaining else readSize;
    if |s| < n then ([], None) else
    var (pieces, rest) := ReadData(s[n..], remaining - n, readSize);
    ([s[..n]] + pieces, rest)
  }

  /** The discarded trailer section: header lines within the count and size budget, up to an empty line. */
  function SkipTrailer(s: seq<Byte>, count: nat, total: nat): End
    decreases |s|
  {
    var line := ReadLine(s);
    if line == [] then Failed(IncompleteTrailer)
    else if total + |line| > MAX_HEADER_BYTES then Failed(TrailerLimit)
    else if line == CRLF || line == [LF] then Complete(s[|line|..])
    else if count + 1 > MAX_HEADER_COUNT then Failed(TrailerLimit)
    else SkipTrailer(s[|line|..], count + 1, total + |line|)
  }

  lemma {:induction false} ReadDataShrinks(s: seq<Byte>, remaining: nat, readSize: nat)
    requires readSize > 0
    ensures ReadData(s, remaining, readSize).1.Some? ==>
      |ReadData(s, remaining, readSize).1.value| == |s| - remaining
    decreases remaining
  {
    if remaining > 0 {
      var n := if remaining < readSize then remaining else readSize;
      if n <= |s| {
        ReadDataShrinks(s[n..], remaining - n, readSize);
      }
    }
  }

  /** What a chunk header line announces. */
  datatype Header = Missing | Malformed | Announced(size: int)

  function ReadHeader(line: seq<Byte>): Header
  {
    var field := SizeField(line);
    if field == [] then Missing else
    match ParseHex(field)
    case None => Malformed
    case Some(size) => Announced(size)
  }

  /**
   The pieces yielded for the wire bytes `s`, and how the decoding ends. What a
   header line announces is up to `parse`, so that framing is reasoned about
   apart from number syntax; the code's own reading is `ReadHeader`.
   */
  function DecodeBy(parse: seq<Byte> -> Header, s: seq<Byte>, readSize: nat): (seq<seq<Byte>>, End)
    requires readSize > 0
    decreases |s|
  {
    var line := ReadLine(s);
    var body := s[|line|..];
    match parse(line)
    case Missing => ([], Complete(body))
    case Malformed => ([], Failed(InvalidSize))
    case Announced(size) =>
      if size == 0 then ([], SkipTrailer(body, 0, 0))
      else if size < 0 then ([], Failed(InvalidSize))
      else
        ReadDataShrinks(body, size, readSize);
        var (pieces, rest) := ReadData(body, size, readSize);
        match rest
        case None => (pieces, Failed(Truncated))
        case Some(after) =>
          if |after| < 2 then (pieces, Failed(Truncated))
          else if after[..2] != CRLF then (pieces, Failed(InvalidTerminator))
          else
            var (more, end) := DecodeBy(parse, after[2..], readSize);
            (pieces + more, end)
  }

  function Decode(s: seq<Byte>, readSize: nat): (seq<seq<Byte>>, End)
    requires readSize > 0
  {
    DecodeBy(ReadHeader, s, readSize)
  }

  method SkipTrailerSection(s: seq<Byte>) returns (end: End)
    ensures end == SkipTrailer(s, 0, 0)
  {
    var rest := s;
    var count: nat, total: nat := 0, 0;
    while true
      invariant SkipTrailer(rest, count, total) == SkipTrailer(s, 0, 0)
      decreases |rest|
    {
      var line := ReadLine(rest);
      if line == [] {
        return Failed(IncompleteTrailer);
      }
      total := total + |line|;
      if total > MAX_HEADER_BYTES {
        return Failed(TrailerLimit);
      }
      rest := rest[|line|..];
      if line == CRLF || line == [LF] {
        return Complete(rest);
      }
      count := count + 1;
      if count > MAX_HEADER_COUNT {
        return Failed(TrailerLimit);
      }
    }
  }

  /** The inner loop of `_aiter_chunked`: one chunk's data in bounded reads. */
  method ReadChunkData(s: seq<Byte>, size: nat, readSize: nat)
    returns (pieces: seq<seq<Byte>>, rest: Option<seq<Byte>>)
    requires readSize > 0
    ensures pieces == ReadData(s, size, readSize).0 && rest == ReadData(s, size, readSize).1
  {
    pieces := [];
    var unread, remaining := s, size;
    while remaining > 0
      invariant remaining >= 0
      invariant ReadData(s, size, readSize).0 == pieces + ReadData(unread, remaining, readSize).0
      invariant ReadData(s, size, readSize).1 == ReadData(unread, remaining, readSize).1
    {
      var n := if remaining < readSize then remaining else readSize;
      if |unread| < n {
        return pieces, None;
      }
      pieces := pieces + [unread[..n]];
      unread := unread[n..];
      remaining := remaining - n;
    }
    return pieces, Some(unread);
  }

  /** `_aiter_chunked`, whose `parse` is `ReadHeader`: decode in pieces no larger than `readSize`. */
  method AiterChunked(parse: seq<Byte> -> Header, wire: seq<Byte>, readSize: nat)
    returns (pieces: seq<seq<Byte>>, end: End)
    requires readSize > 0
    ensures pieces == DecodeBy(parse, wire, readSize).0 && end == DecodeBy(parse, wire, readSize).1
  {
    pieces := [];
    var rest := wire;
    while true
      invariant DecodeBy(parse, wire, readSize).0 == pieces + DecodeBy(parse, rest, readSize).0
      invariant DecodeBy(parse, wire, readSize).1 == DecodeBy(parse, rest, readSize).1
      decreases |rest|
    {
      var line := ReadLine(rest);
      var header := parse(line);
      var body := rest[|line|..];
      if header.Missing? {
        return pieces, Complete(body);
      }
      if header.Malformed? || header.size < 0 {
        return pieces, Failed(InvalidSize);
      }
      if header.size == 0 {
        end := SkipTrailerSection(body);
        return;
      }
      var data, after := ReadChunkData(body, header.size, readSize);
      ReadDataShrinks(body, header.size, readSize);
      pieces := pieces + data;
      if after.None? || |after.value| < 2 {
        assert DecodeBy(parse, rest, readSize) == (data, Failed(Truncated));
        return pieces, Failed(Truncated);
      }
      if after.value[..2] != CRLF {
        assert DecodeBy(parse, rest, readSize) == (data, Failed(InvalidTerminator));
        return pieces, Failed(InvalidTerminator);
      }
      rest := after.value[2..];
    }
  }

  // ------------------------------------------------------------------------
  // The decoder undoes the writer
  // ------------------------------------------------------------------------

  predicate IsHexByte(b: Byte)
  {
    48 <= b <= 57 || 97 <= b <= 102
  }

  lemma {:induction false} HexRoundTrip(n: nat)
    ensures forall b :: b in Hex(n) ==> IsHexByte(b)
    ensures DigitsValue(Hex(n)) == Some(n)
  {
    if n >= 16 {
      HexRoundTrip(n / 16);
      var h := Hex(n);
      assert h[..|h| - 1] == Hex(n / 16);
      assert h[|h| - 2] in Hex(n / 16);
    }
  }

  lemma ParseHexOfHex(n: nat)
    ensures ParseHex(Hex(n)) == Some(n)
  {
    HexRoundTrip(n);
    var h := Hex(n);
    assert IsHexByte(h[0]);
    assert |h| >= 2 ==> IsHexByte(h[1]);
  }

  lemma {:induction false} NoSemicolon(s: seq<Byte>)
    requires 59 !in s
    ensures BeforeSemicolon(s) == s
  {
    if s != [] {
      assert s == [s[0]] + s[1..];
      NoSemicolon(s[1..]);
    }
  }

  /** A chunk header line gives back its size. */
  lemma HeaderLine(n: nat, s: seq<Byte>)
    ensures ReadLine(Hex(n) + CRLF + s) == Hex(n) + CRLF
    ensures SizeField(Hex(n) + CRLF) == Hex(n)
  {
    HexRoundTrip(n);
    assert forall i :: 0 <= i < |Hex(n)| ==> Hex(n)[i] in Hex(n);
    LineLengthAt(Hex(n) + CRLF + s, |Hex(n)| + 2);
    SizeFieldOf(Hex(n));
  }

  lemma SizeFieldOf(digits: seq<Byte>)
    requires digits != [] && forall b :: b in digits ==> IsHexByte(b)
    ensures SizeField(digits + CRLF) == digits
  {
    var line := digits + CRLF;
    NoSemicolon(line);
    assert digits[0] in digits && digits[|digits| - 1] in digits;
    assert StripLeft(line) == line;
    assert line[..|line| - 1] == digits + [CR];
    assert StripRight(line) == StripRight(digits + [CR]);
    assert (digits + [CR])[..|digits|] == digits;
    assert StripRight(digits + [CR]) == StripRight(digits);
  }

  lemma {:induction false} ReadDataOf(data: seq<Byte>, s: seq<Byte>, readSize: nat)
    requires readSize > 0
    ensures
      var (pieces, rest) := ReadData(data + s, |data|, readSize);
      && rest == Some(s)
      && Concat(pieces) == data
      && forall p :: p in pieces ==> 0 < |p| <= readSize
    decreases |data|
  {
    if data == [] {
      assert data + s == s;
    } else {
      var n := if |data| < readSize then |data| else readSize;
      ReadDataOf(data[n..], s, readSize);
      ReadDataFirst(data, s, readSize, n);
      FirstPiece(data, n, ReadData(data[n..] + s, |data| - n, readSize).0, readSize);
    }
  }

  lemma ReadDataFirst(data: seq<Byte>, s: seq<Byte>, readSize: nat, n: nat)
    requires readSize > 0 && data != [] && n == if |data| < readSize then |data| else readSize
    ensures
      var (pieces, rest) := ReadData(data[n..] + s, |data| - n, readSize);
      ReadData(data + s, |data|, readSize) == ([data[..n]] + pieces, rest)
  {
    assert (data + s)[n..] == data[n..] + s;
    assert (data + s)[..n] == data[..n];
  }

  lemma FirstPiece(data: seq<Byte>, n: nat, pieces: seq<seq<Byte>>, readSize: nat)
    requires 0 < n <= |data| && n <= readSize && Concat(pieces) == data[n..]
    requires forall p :: p in pieces ==> 0 < |p| <= readSize
    ensures Concat([data[..n]] + pieces) == data
    ensures forall p :: p in [data[..n]] + pieces ==> 0 < |p| <= readSize
  {
    assert ([data[..n]] + pieces)[1..] == pieces;
    assert data == data[..n] + data[n..];
  }

  /** `parse` reads the sizes that the writer writes. */
  ghost predicate ParsesHex(parse: seq<Byte> -> Header)
  {
    forall n: nat :: parse(Hex(n) + CRLF) == Announced(n)
  }

  lemma ReadHeaderParsesHex()
    ensures ParsesHex(ReadHeader)
  {
    forall n: nat ensures ReadHeader(Hex(n) + CRLF) == Announced(n) {
      HeaderLine(n, []);
      ParseHexOfHex(n);
    }
  }

  /** A frame decodes to pieces of its chunk, and decoding goes on behind it. */
  lemma FrameDecodes(parse: seq<Byte> -> Header, chunk: seq<Byte>, more: seq<Byte>, readSize: nat)
    requires readSize > 0 && chunk != [] && ParsesHex(parse)
    ensures
      var (pieces, end) := DecodeBy(parse, Frame(chunk) + more, readSize);
      var (rest, endOfRest) := DecodeBy(parse, more, readSize);
      && end == endOfRest
      && Concat(pieces) == chunk + Concat(rest)
      && ((forall p :: p in rest ==> 0 < |p| <= readSize) ==> forall p :: p in pieces ==> 0 < |p| <= readSize)
  {
    DecodeFrame(parse, chunk, more, readSize);
    ReadDataOf(chunk, CRLF + more, readSize);
    ConcatAppend(ReadData(chunk + (CRLF + more), |chunk|, readSize).0, DecodeBy(parse, more, readSize).0);
  }

  lemma DecodeFrame(parse: seq<Byte> -> Header, chunk: seq<Byte>, more: seq<Byte>, readSize: nat)
    requires readSize > 0 && chunk != [] && ParsesHex(parse)
    ensures
      var pieces := ReadData(chunk + (CRLF + more), |chunk|, readSize).0;
      var (rest, end) := DecodeBy(parse, more, readSize);
      DecodeBy(parse, Frame(chunk) + more, readSize) == (pieces + rest, end)
  {
    var line, body := Hex(|chunk|) + CRLF, chunk + (CRLF + more);
    assert Frame(chunk) + more == line + body;
    HeaderLine(|chunk|, body);
    assert (line + body)[|line|..] == body;
    ReadDataOf(chunk, CRLF + more, readSize);
    assert (CRLF + more)[..2] == CRLF && (CRLF + more)[2..] == more;
  }

  lemma DecodeLast(parse: seq<Byte> -> Header, s: seq<Byte>, readSize: nat)
    requires readSize > 0 && ParsesHex(parse)
    ensures DecodeBy(parse, LAST_CHUNK + s, readSize) == ([], Complete(s))
  {
    var wire := LAST_CHUNK + s;
    assert Hex(0) == [48];
    assert wire == Hex(0) + CRLF + (CRLF + s);
    HeaderLine(0, CRLF + s);
    var body := wire[3..];
    assert body == CRLF + s;
    LineLengthAt(body, 2);
    assert ReadLine(body) == CRLF && body[2..] == s;
  }

  /** The chunks a client gets to see: an empty one is written as the last-chunk. */
  function UpToEmpty(chunks: seq<seq<Byte>>): seq<seq<Byte>>
  {
    if chunks == [] || chunks[0] == [] then [] else [chunks[0]] + UpToEmpty(chunks[1..])
  }

  lemma {:induction false} DecodeByUndoesEncode(
      parse: seq<Byte> -> Header, chunks: seq<seq<Byte>>, tail: seq<Byte>, readSize: nat)
    requires readSize > 0 && ParsesHex(parse)
    ensures
      var (pieces, end) := DecodeBy(parse, Encode(chunks) + tail, readSize);
      && end.Complete?
      && Concat(pieces) == Concat(UpToEmpty(chunks))
      && (forall p :: p in pieces ==> 0 < |p| <= readSize)
      && ([] !in chunks ==> end.rest == tail)
    decreases |chunks|
  {
    if chunks == [] {
      DecodeLast(parse, tail, readSize);
    } else {
      var more := Encode(chunks[1..]) + tail;
      assert Encode(chunks) + tail == Frame(chunks[0]) + more;
      if chunks[0] == [] {
        assert Hex(0) == [48];
        assert Frame(chunks[0]) == LAST_CHUNK;
        DecodeLast(parse, more, readSize);
      } else {
        DecodeByUndoesEncode(parse, chunks[1..], tail, readSize);
        FrameDecodes(parse, chunks[0], more, readSize);
      }
    }
  }

  /**
   For any chunks and any positive read size, decoding what was written gives
   back the bytes of the chunks up to the first empty one, in non-empty pieces
   no larger than the read size; and if no chunk is empty the decoder stops
   exactly where the writer stopped.
   */
  lemma DecodeUndoesEncode(chunks: seq<seq<Byte>>, tail: seq<Byte>, readSize: nat)
    requires readSize > 0
    ensures
      var (pieces, end) := Decode(Encode(chunks) + tail, readSize);
      && end.Complete?
      && Concat(pieces) == Concat(UpToEmpty(chunks))
      && (forall p :: p in pieces ==> 0 < |p| <= readSize)
      && ([] !in chunks ==> end.rest == tail)
  {
    ReadHeaderParsesHex();
    DecodeByUndoesEncode(ReadHeader, chunks, tail, readSize);
  }

  /** Nothing but empty chunks follows the first empty chunk. */
  predicate OnlyEmptyAfterEmpty(chunks: seq<seq<Byte>>)
  {
    forall i, j :: 0 <= i < j < |chunks| && chunks[i] == [] ==> chunks[j] == []
  }

  lemma {:induction false} ConcatOfEmpty(chunks: seq<seq<Byte>>)
    ensures Concat(chunks) == [] <==> forall i :: 0 <= i < |chunks| ==> chunks[i] == []
  {
    if chunks != [] {
      ConcatOfEmpty(chunks[1..]);
      assert forall i :: 0 < i < |chunks| ==> chunks[i] == chunks[1..][i - 1];
    }
  }

  lemma {:induction false} UpToEmptyLosesNothing(chunks: seq<seq<Byte>>)
    ensures Concat(UpToEmpty(chunks)) == Concat(chunks) <==> OnlyEmptyAfterEmpty(chunks)
  {
    if chunks != [] {
      assert forall i :: 0 < i < |chunks| ==> chunks[i] == chunks[1..][i - 1];
      if chunks[0] == [] {
        ConcatOfEmpty(chunks);
      } else {
        UpToEmptyLosesNothing(chunks[1..]);
        assert Concat(UpToEmpty(chunks)) == chunks[0] + Concat(UpToEmpty(chunks[1..]));
        assert Concat(UpToEmpty(chunks)) == Concat(chunks) <==>
          Concat(UpToEmpty(chunks))[|chunks[0]|..] == Concat(chunks)[|chunks[0]|..];
        assert OnlyEmptyAfterEmpty(chunks) <==> OnlyEmptyAfterEmpty(chunks[1..]) by {
          var rest := chunks[1..];
          assert forall i :: 0 <= i < |rest| ==> rest[i] == chunks[i + 1];
        }
      }
    }
  }

  /** The body arrives whole exactly when the server writes nothing more after an empty chunk. */
  lemma BodyArrivesWhole(chunks: seq<seq<Byte>>, readSize: nat)
    requires readSize > 0
    ensures Concat(Decode(Encode(chunks), readSize).0) == Concat(chunks) <==> OnlyEmptyAfterEmpty(chunks)
  {
    assert Encode(chunks) + [] == Encode(chunks);
    DecodeUndoesEncode(chunks, [], readSize);
    UpToEmptyLosesNothing(chunks);
  }
}
