/**
 A chunked body that breaks off: at which cuts of what the writer wrote the two
 readers notice. Neither requires the last-chunk, so a cut at a frame boundary
 passes for the end of the body.
 */
module CutBodies {
  import opened Common
  import opened Bytes
  import opened ChunkedCoding
  import opened ChunkFraming
  import opened ServerBody

  /** Where the first `i` frames of the coding end. */
  function FrameEnd(chunks: seq<seq<Byte>>, i: nat): nat
    requires i <= |chunks|
  {
    if i == 0 then 0 else |Frame(chunks[0])| + FrameEnd(chunks[1..], i - 1)
  }

  /** `parse` also reads a size line that breaks off behind its digits. */
  ghost predicate ParsesCutHex(parse: seq<Byte> -> Header)
  {
    && ParsesHex(parse)
    && parse([]).Missing?
    && forall n: nat :: parse(Hex(n)) == Announced(n) && parse(Hex(n) + [CR]) == Announced(n)
  }

  lemma ReadHeaderParsesCutHex()
    ensures ParsesCutHex(ReadHeader)
  {
    ReadHeaderParsesHex();
    forall n: nat
      ensures ReadHeader(Hex(n)) == Announced(n) && ReadHeader(Hex(n) + [CR]) == Announced(n)
    {
      HexRoundTrip(n);
      ParseHexOfHex(n);
      CutSizeField(Hex(n));
    }
  }

  lemma CutSizeField(digits: seq<Byte>)
    requires digits != [] && forall b :: b in digits ==> IsHexByte(b)
    ensures SizeField(digits) == digits && SizeField(digits + [CR]) == digits
  {
    assert digits[0] in digits && digits[|digits| - 1] in digits;
    NoSemicolon(digits);
    NoSemicolon(digits + [CR]);
    assert StripLeft(digits + [CR]) == digits + [CR];
    assert (digits + [CR])[..|digits|] == digits;
    assert StripRight(digits + [CR]) == StripRight(digits);
  }

  /** The front of a size is a size. */
  lemma {:induction false} FrontOfHex(n: nat, k: nat) returns (m: nat)
    requires 0 < k <= |Hex(n)|
    ensures Hex(n)[..k] == Hex(m) && (n > 0 ==> m > 0)
  {
    if k == |Hex(n)| {
      m := n;
    } else {
      assert Hex(n)[..|Hex(n)| - 1] == Hex(n / 16);
      m := FrontOfHex(n / 16, k);
      assert Hex(n)[..k] == Hex(n / 16)[..k];
    }
  }

  lemma {:induction false} HexHasNoLineFeed(n: nat)
    ensures LF !in Hex(n)
  {
    HexRoundTrip(n);
  }

  /** A line that breaks off is read whole. */
  lemma CutLine(s: seq<Byte>)
    requires LF !in s
    ensures ReadLine(s) == s && DropLine(s) == []
  {
    LineShape(s);
    DropLineIs(s);
  }

  // ------------------------------------------------------------------------
  // Inside a frame
  // ------------------------------------------------------------------------

  /** What a cut inside the frame of `chunk` leaves of it: a size line, perhaps cut, and some of what follows. */
  lemma CutFrame(parse: seq<Byte> -> Header, chunk: seq<Byte>, k: nat) returns (size: nat)
    requires ParsesCutHex(parse) && chunk != [] && 0 < k < |Frame(chunk)|
    ensures
      var s := Frame(chunk)[..k];
      && size > 0 && parse(ReadLine(s)) == Announced(size)
      && (if k < |Hex(|chunk|)| + 2 then DropLine(s) == []
          else size == |chunk| && DropLine(s) == (chunk + CRLF)[..k - |Hex(|chunk|)| - 2])
  {
    var hex, frame := Hex(|chunk|), Frame(chunk);
    var s := frame[..k];
    HexHasNoLineFeed(|chunk|);
    if k <= |hex| {
      size := FrontOfHex(|chunk|, k);
      assert s == hex[..k];
      CutLine(s);
    } else if k == |hex| + 1 {
      size := |chunk|;
      assert s == hex + [CR];
      CutLine(s);
    } else {
      size := |chunk|;
      var rest := (chunk + CRLF)[..k - |hex| - 2];
      assert s == hex + CRLF + rest;
      WrittenHeader(|chunk|, rest);
    }
  }

  lemma {:induction false} ReadDataShort(s: seq<Byte>, remaining: nat, readSize: nat)
    requires readSize > 0 && |s| < remaining
    ensures ReadData(s, remaining, readSize).1.None?
    decreases remaining
  {
    var n := if remaining < readSize then remaining else readSize;
    if n <= |s| {
      ReadDataShort(s[n..], remaining - n, readSize);
    }
  }

  /** The client wants all of the data and two bytes behind it. */
  lemma ClientNoticesCut(parse: seq<Byte> -> Header, s: seq<Byte>, size: nat, readSize: nat)
    requires readSize > 0 && size > 0 && parse(ReadLine(s)) == Announced(size) && |DropLine(s)| < size + 2
    ensures DecodeBy(parse, s, readSize).1 == Failed(Truncated)
  {
    DropLineIs(s);
    var body := s[LineLength(s)..];
    if |body| < size {
      ReadDataShort(body, size, readSize);
    } else {
      ReadDataShrinks(body, size, readSize);
    }
  }

  /** The server wants all of the data, and takes what is left behind it for the end of the line. */
  lemma ServerMissesCut(parse: seq<Byte> -> Header, s: seq<Byte>, size: nat, total: nat, limit: nat)
    requires ParsesCutHex(parse) && size > 0 && parse(ReadLine(s)) == Announced(size)
    requires |DropLine(s)| >= size ==> LF !in DropLine(s)[size..]
    ensures ReadBody(parse, s, total, limit) ==
      if total + size > limit then TooLarge
      else if |DropLine(s)| < size then Incomplete
      else Body(DropLine(s)[..size], [])
  {
    var body := DropLine(s);
    ReadExactlyIs(body, size);
    if |body| >= size {
      CutLine(body[size..]);
      assert body[..size] + [] == body[..size];
      assert ReadBody(parse, [], total + size, limit) == Body([], []);
    }
  }

  // ------------------------------------------------------------------------
  // The last-chunk
  // ------------------------------------------------------------------------

  lemma CutLastLine(parse: seq<Byte> -> Header, k: nat)
    requires ParsesCutHex(parse) && 0 < k < 5
    ensures
      var s := LAST_CHUNK[..k];
      parse(ReadLine(s)) == Announced(0) && DropLine(s) == if k == 4 then [CR] else []
  {
    var s := LAST_CHUNK[..k];
    assert Hex(0) == [48];
    if k == 1 {
      assert s == Hex(0);
      CutLine(s);
    } else if k == 2 {
      assert s == Hex(0) + [CR];
      CutLine(s);
    } else {
      var rest: seq<Byte> := if k == 4 then [CR] else [];
      assert s == Hex(0) + CRLF + rest;
      WrittenHeader(0, rest);
    }
  }

  /** Behind the zero both want a trailer section; of its CRLF the server does not miss the last byte. */
  lemma CutTrailer(s: seq<Byte>)
    requires s == [] || s == [CR]
    ensures SkipTrailer(s, 0, 0) == Failed(IncompleteTrailer)
    ensures ReadTrailer(s, 0, 0) == if s == [] then BadTrailer(IncompleteTrailer) else Body([], [])
  {
    CutLine(s);
    assert SkipTrailer([], 1, |s|) == Failed(IncompleteTrailer);
    assert s[|s|..] == [];
  }

  // ------------------------------------------------------------------------
  // The client
  // ------------------------------------------------------------------------

  lemma LastChunkCutClient(parse: seq<Byte> -> Header, k: nat, readSize: nat)
    requires readSize > 0 && ParsesCutHex(parse) && k < 5
    ensures
      var (pieces, end) := DecodeBy(parse, LAST_CHUNK[..k], readSize);
      pieces == [] && (end.Complete? <==> k == 0)
  {
    var s := LAST_CHUNK[..k];
    if k == 0 {
      CutLine([]);
      assert s == [];
    } else {
      CutLastLine(parse, k);
      DropLineIs(s);
      CutTrailer(DropLine(s));
    }
  }

  /** A cut inside the first frame. */
  lemma CutInFrame(chunks: seq<seq<Byte>>, k: nat)
    requires chunks != [] && k < |Frame(chunks[0])|
    ensures k <= |Encode(chunks)| && Encode(chunks)[..k] == Frame(chunks[0])[..k]
  {
  }

  /** A cut behind the first frame. */
  lemma CutBehindFrame(chunks: seq<seq<Byte>>, k: nat)
    requires chunks != [] && |Frame(chunks[0])| <= k < |Encode(chunks)|
    ensures
      var n := k - |Frame(chunks[0])|;
      n < |Encode(chunks[1..])| && Encode(chunks)[..k] == Frame(chunks[0]) + Encode(chunks[1..])[..n]
  {
  }

  lemma NoneEmptyBehind(chunks: seq<seq<Byte>>)
    requires chunks != [] && [] !in chunks
    ensures chunks[0] != [] && [] !in chunks[1..]
  {
    assert chunks[0] in chunks;
  }

  /** The number of frames that end at `k`, if `k` is where one ends. */
  function FramesAt(chunks: seq<seq<Byte>>, k: nat): (i: Option<nat>)
    ensures i.Some? ==> i.value <= |chunks| && k == FrameEnd(chunks, i.value)
  {
    if k == 0 then Some(0)
    else if chunks == [] || k < |Frame(chunks[0])| then None
    else
      match FramesAt(chunks[1..], k - |Frame(chunks[0])|)
      case None => None
      case Some(i) => Some(i + 1)
  }

  lemma {:induction false} FramesAtEnd(chunks: seq<seq<Byte>>, i: nat)
    requires i <= |chunks|
    ensures FramesAt(chunks, FrameEnd(chunks, i)) == Some(i)
  {
    if i > 0 {
      FramesAtEnd(chunks[1..], i - 1);
    }
  }

  lemma FramesAtFront(chunks: seq<seq<Byte>>, k: nat)
    requires chunks != [] && k > 0
    ensures FramesAt(chunks, k) ==
      if k < |Frame(chunks[0])| then None
      else
        var i := FramesAt(chunks[1..], k - |Frame(chunks[0])|);
        if i.Some? then Some(i.value + 1) else None
  {
  }

  lemma FramesAtEnds(chunks: seq<seq<Byte>>, k: nat)
    ensures FramesAt(chunks, k).Some? <==> exists i :: 0 <= i <= |chunks| && k == FrameEnd(chunks, i)
    ensures forall i :: 0 <= i <= |chunks| && k == FrameEnd(chunks, i) ==> FramesAt(chunks, k) == Some(i)
  {
    var at := FramesAt(chunks, k);
    if at.Some? {
      assert 0 <= at.value <= |chunks| && k == FrameEnd(chunks, at.value);
    }
    forall i | 0 <= i <= |chunks| && k == FrameEnd(chunks, i)
      ensures FramesAt(chunks, k) == Some(i)
    {
      FramesAtEnd(chunks, i);
    }
  }

  /** The client takes `s` for the first `i` chunks, or fails on it. */
  predicate ClientTakes(parse: seq<Byte> -> Header, s: seq<Byte>, readSize: nat, chunks: seq<seq<Byte>>, i: Option<nat>)
    requires readSize > 0 && (i.Some? ==> i.value <= |chunks|)
  {
    var (pieces, end) := DecodeBy(parse, s, readSize);
    (end.Complete? <==> i.Some?) && (i.Some? ==> Concat(pieces) == Concat(chunks[..i.value]))
  }

  lemma ClientInFrame(parse: seq<Byte> -> Header, chunks: seq<seq<Byte>>, k: nat, readSize: nat)
    requires readSize > 0 && ParsesCutHex(parse) && chunks != [] && chunks[0] != [] && 0 < k < |Frame(chunks[0])|
    ensures ClientTakes(parse, Frame(chunks[0])[..k], readSize, chunks, None)
  {
    var size := CutFrame(parse, chunks[0], k);
    ClientNoticesCut(parse, Frame(chunks[0])[..k], size, readSize);
  }

  lemma ClientBehindFrame(
      parse: seq<Byte> -> Header, chunks: seq<seq<Byte>>, cut: seq<Byte>, i: Option<nat>, readSize: nat)
    requires readSize > 0 && ParsesHex(parse) && chunks != [] && chunks[0] != []
    requires (i.Some? ==> i.value < |chunks|) && ClientTakes(parse, cut, readSize, chunks[1..], i)
    ensures ClientTakes(parse, Frame(chunks[0]) + cut, readSize, chunks, if i.Some? then Some(i.value + 1) else None)
  {
    FrameDecodes(parse, chunks[0], cut, readSize);
    FrontOfChunks(chunks, i);
  }

  lemma ClientBeforeFrames(parse: seq<Byte> -> Header, chunks: seq<seq<Byte>>, k: nat, readSize: nat)
    requires readSize > 0 && ParsesCutHex(parse) && k < |Encode(chunks)| && (k == 0 || chunks == [])
    ensures ClientTakes(parse, Encode(chunks)[..k], readSize, chunks, FramesAt(chunks, k))
  {
    LastChunkCutClient(parse, k, readSize);
    assert Encode(chunks)[..k] == LAST_CHUNK[..k];
  }

  lemma {:induction false} ClientAtCut(parse: seq<Byte> -> Header, chunks: seq<seq<Byte>>, k: nat, readSize: nat)
    requires readSize > 0 && ParsesCutHex(parse) && [] !in chunks && k < |Encode(chunks)|
    ensures ClientTakes(parse, Encode(chunks)[..k], readSize, chunks, FramesAt(chunks, k))
    decreases |chunks|
  {
    if k == 0 || chunks == [] {
      ClientBeforeFrames(parse, chunks, k, readSize);
    } else {
      NoneEmptyBehind(chunks);
      if k < |Frame(chunks[0])| {
        ClientInFrame(parse, chunks, k, readSize);
        CutInFrame(chunks, k);
        FramesAtFront(chunks, k);
      } else {
        var n := k - |Frame(chunks[0])|;
        CutBehindFrame(chunks, k);
        ClientAtCut(parse, chunks[1..], n, readSize);
        ClientBehindFrame(parse, chunks, Encode(chunks[1..])[..n], FramesAt(chunks[1..], n), readSize);
        FramesAtFront(chunks, k);
      }
    }
  }

  lemma FrontOfChunks(chunks: seq<seq<Byte>>, i: Option<nat>)
    requires chunks != [] && (i.Some? ==> i.value < |chunks|)
    ensures i.Some? ==> Concat(chunks[..i.value + 1]) == chunks[0] + Concat(chunks[1..][..i.value])
  {
    if i.Some? {
      assert chunks[..i.value + 1][1..] == chunks[1..][..i.value];
    }
  }

  /**
   Of a body cut off anywhere, the client takes what arrived for the whole body
   if and only if the cut falls on a frame boundary: it gets exactly the chunks
   before the cut, and no error.
   */
  lemma ClientMissesCutExactlyAtFrameEnd(chunks: seq<seq<Byte>>, k: nat, readSize: nat)
    requires readSize > 0 && [] !in chunks && k < |Encode(chunks)|
    ensures
      var (pieces, end) := Decode(Encode(chunks)[..k], readSize);
      && (end.Complete? <==> exists i :: 0 <= i <= |chunks| && k == FrameEnd(chunks, i))
      && (forall i :: 0 <= i <= |chunks| && k == FrameEnd(chunks, i) ==> Concat(pieces) == Concat(chunks[..i]))
  {
    ReadHeaderParsesCutHex();
    ClientAtCut(ReadHeader, chunks, k, readSize);
    FramesAtEnds(chunks, k);
  }

  // ------------------------------------------------------------------------
  // The server
  // ------------------------------------------------------------------------

  /** The cut falls on the end of the first `i` frames, or inside the CRLF that ends the last of them. */
  predicate CutNear(chunks: seq<seq<Byte>>, i: nat, k: nat)
    requires i <= |chunks|
  {
    k <= FrameEnd(chunks, i) && FrameEnd(chunks, i) <= if i == 0 then k else k + 2
  }

  /** The number of whole chunks of data before such a cut. */
  function ChunksNear(chunks: seq<seq<Byte>>, k: nat): (i: Option<nat>)
    ensures i.Some? ==> i.value <= |chunks| && CutNear(chunks, i.value, k)
  {
    if k == 0 then Some(0)
    else if chunks == [] || k + 2 < |Frame(chunks[0])| then None
    else if k < |Frame(chunks[0])| then Some(1)
    else
      match ChunksNear(chunks[1..], k - |Frame(chunks[0])|)
      case None => None
      case Some(i) => Some(i + 1)
  }

  lemma {:induction false} ChunksNearCut(chunks: seq<seq<Byte>>, i: nat, k: nat)
    requires i <= |chunks| && [] !in chunks && CutNear(chunks, i, k)
    ensures ChunksNear(chunks, k) == Some(i)
  {
    if i > 0 {
      assert chunks[0] in chunks;
      assert |Frame(chunks[0])| > 4;
      if k >= |Frame(chunks[0])| {
        if i > 1 {
          assert chunks[1] in chunks && chunks[1..][0] == chunks[1];
        }
        ChunksNearCut(chunks[1..], i - 1, k - |Frame(chunks[0])|);
      } else if i > 1 {
        FrameEndBeyond(chunks, i);
      }
    }
  }

  /** Two frames end well behind the first. */
  lemma FrameEndBeyond(chunks: seq<seq<Byte>>, i: nat)
    requires 1 < i <= |chunks|
    ensures FrameEnd(chunks, i) > |Frame(chunks[0])| + 3
  {
    var rest := chunks[1..];
    assert FrameEnd(rest, i - 1) == |Frame(rest[0])| + FrameEnd(rest[1..], i - 2);
    assert |Frame(rest[0])| > 3;
  }

  lemma LastChunkCutServer(parse: seq<Byte> -> Header, k: nat, total: nat, limit: nat)
    requires ParsesCutHex(parse) && k < 5 && total <= limit
    ensures
      var outcome := ReadBody(parse, LAST_CHUNK[..k], total, limit);
      (outcome.Body? <==> k == 0 || k == 4) && (outcome.Body? ==> outcome.bytes == [])
  {
    var s := LAST_CHUNK[..k];
    if k == 0 {
      CutLine([]);
      assert s == [];
    } else {
      CutLastLine(parse, k);
      CutTrailer(DropLine(s));
    }
  }

  /** What the server does with a cut inside a frame. */
  lemma FrameCutServer(parse: seq<Byte> -> Header, chunk: seq<Byte>, k: nat, total: nat, limit: nat)
    requires ParsesCutHex(parse) && chunk != [] && 0 < k < |Frame(chunk)| && total <= limit
    ensures
      var outcome := ReadBody(parse, Frame(chunk)[..k], total, limit);
      && (outcome.Body? <==> k + 2 >= |Frame(chunk)| && total + |chunk| <= limit)
      && (outcome.Body? ==> outcome.bytes == chunk)
  {
    var s := Frame(chunk)[..k];
    var size := CutFrame(parse, chunk, k);
    var body := DropLine(s);
    if |body| >= size {
      assert body[size..] == [] || body[size..] == [CR];
      assert body[..size] == chunk;
    }
    ServerMissesCut(parse, s, size, total, limit);
  }

  /** The number of chunks whose data the server returns at cut `k`, if it returns any. */
  function ServerChunks(chunks: seq<seq<Byte>>, k: nat): (i: Option<nat>)
    ensures i.Some? ==> i.value <= |chunks|
  {
    if k + 1 == |Encode(chunks)| then Some(|chunks|) else ChunksNear(chunks, k)
  }

  /** The server takes `s` for the first `i` chunks if their data fits the limit, and refuses it otherwise. */
  predicate ServerTakes(
      parse: seq<Byte> -> Header, s: seq<Byte>, total: nat, limit: nat, chunks: seq<seq<Byte>>, i: Option<nat>)
    requires i.Some? ==> i.value <= |chunks|
  {
    var outcome := ReadBody(parse, s, total, limit);
    && (outcome.Body? <==> i.Some? && total + |Concat(chunks[..i.value])| <= limit)
    && (outcome.Body? ==> outcome.bytes == Concat(chunks[..i.value]))
  }

  lemma ServerInFrame(parse: seq<Byte> -> Header, chunks: seq<seq<Byte>>, k: nat, total: nat, limit: nat)
    requires ParsesCutHex(parse) && chunks != [] && chunks[0] != [] && 0 < k < |Frame(chunks[0])| && total <= limit
    ensures ServerTakes(
      parse, Frame(chunks[0])[..k], total, limit, chunks, if k + 2 >= |Frame(chunks[0])| then Some(1) else None)
  {
    FrameCutServer(parse, chunks[0], k, total, limit);
    FrontOfChunks(chunks, Some(0));
  }

  lemma ServerBehindFrame(
      parse: seq<Byte> -> Header, chunks: seq<seq<Byte>>, cut: seq<Byte>, i: Option<nat>, total: nat, limit: nat)
    requires ParsesHex(parse) && chunks != [] && chunks[0] != [] && (i.Some? ==> i.value < |chunks|)
    requires total + |chunks[0]| <= limit ==> ServerTakes(parse, cut, total + |chunks[0]|, limit, chunks[1..], i)
    ensures ServerTakes(
      parse, Frame(chunks[0]) + cut, total, limit, chunks, if i.Some? then Some(i.value + 1) else None)
  {
    FrameThen(chunks[0], cut);
    WrittenChunk(parse, chunks[0], CRLF, cut, total, limit);
    FrontOfChunks(chunks, i);
  }

  lemma Regroup<T>(a: seq<T>, b: seq<T>, c: seq<T>, d: seq<T>)
    ensures a + b + c + d == a + (b + (c + d))
  {
  }

  lemma FrameThen(chunk: seq<Byte>, cut: seq<Byte>)
    ensures Frame(chunk) + cut == Hex(|chunk|) + CRLF + (chunk + (CRLF + cut))
  {
    Regroup(Hex(|chunk|) + CRLF, chunk, CRLF, cut);
  }

  lemma ServerBeforeFrames(parse: seq<Byte> -> Header, chunks: seq<seq<Byte>>, k: nat, total: nat, limit: nat)
    requires ParsesCutHex(parse) && k < |Encode(chunks)| && total <= limit && (k == 0 || chunks == [])
    ensures ServerTakes(parse, Encode(chunks)[..k], total, limit, chunks, ServerChunks(chunks, k))
  {
    LastChunkCutServer(parse, k, total, limit);
    assert Encode(chunks)[..k] == LAST_CHUNK[..k];
  }

  lemma {:induction false} ServerAtCut(
      parse: seq<Byte> -> Header, chunks: seq<seq<Byte>>, k: nat, total: nat, limit: nat)
    requires ParsesCutHex(parse) && [] !in chunks && k < |Encode(chunks)| && total <= limit
    ensures ServerTakes(parse, Encode(chunks)[..k], total, limit, chunks, ServerChunks(chunks, k))
    decreases |chunks|
  {
    if k == 0 || chunks == [] {
      ServerBeforeFrames(parse, chunks, k, total, limit);
    } else {
      NoneEmptyBehind(chunks);
      if k < |Frame(chunks[0])| {
        ServerInFrame(parse, chunks, k, total, limit);
        CutInFrame(chunks, k);
        ServerChunksInFrame(chunks, k);
      } else {
        var n := k - |Frame(chunks[0])|;
        CutBehindFrame(chunks, k);
        if total + |chunks[0]| <= limit {
          ServerAtCut(parse, chunks[1..], n, total + |chunks[0]|, limit);
        }
        ServerBehindFrame(parse, chunks, Encode(chunks[1..])[..n], ServerChunks(chunks[1..], n), total, limit);
        ServerChunksBehindFrame(chunks, k);
      }
    }
  }

  lemma ServerChunksInFrame(chunks: seq<seq<Byte>>, k: nat)
    requires chunks != [] && 0 < k < |Frame(chunks[0])|
    ensures ServerChunks(chunks, k) == if k + 2 >= |Frame(chunks[0])| then Some(1) else None
  {
    CodingLength(chunks);
    CodingLength(chunks[1..]);
  }

  lemma ServerChunksBehindFrame(chunks: seq<seq<Byte>>, k: nat)
    requires chunks != [] && |Frame(chunks[0])| <= k < |Encode(chunks)|
    ensures
      var i := ServerChunks(chunks[1..], k - |Frame(chunks[0])|);
      ServerChunks(chunks, k) == if i.Some? then Some(i.value + 1) else None
  {
  }

  /**
   The server takes what arrived for the whole body if and only if its data fits
   the limit and the cut falls on a frame boundary, inside the CRLF behind a
   chunk's data, or just before the very last byte.
   */
  lemma ServerMissesCutExactlyNearFrameEnd(chunks: seq<seq<Byte>>, k: nat, limit: nat)
    requires [] !in chunks && k < |Encode(chunks)|
    ensures
      var outcome := ReadBody(ReadHeader, Encode(chunks)[..k], 0, limit);
      outcome.Body? <==>
        || (k + 1 == |Encode(chunks)| && |Concat(chunks)| <= limit)
        || exists i :: 0 <= i <= |chunks| && CutNear(chunks, i, k) && |Concat(chunks[..i])| <= limit
    ensures
      var outcome := ReadBody(ReadHeader, Encode(chunks)[..k], 0, limit);
      outcome.Body? ==>
        && (k + 1 == |Encode(chunks)| ==> outcome.bytes == Concat(chunks))
        && (forall i :: 0 <= i <= |chunks| && CutNear(chunks, i, k) ==> outcome.bytes == Concat(chunks[..i]))
  {
    ReadHeaderParsesCutHex();
    ServerAtCut(ReadHeader, chunks, k, 0, limit);
    assert chunks[..|chunks|] == chunks;
    CodingLength(chunks);
    forall i | 0 <= i <= |chunks| && CutNear(chunks, i, k)
      ensures ChunksNear(chunks, k) == Some(i) && k + 1 != |Encode(chunks)|
    {
      ChunksNearCut(chunks, i, k);
      FrameEndWithin(chunks, i);
    }
  }

  lemma {:induction false} CodingLength(chunks: seq<seq<Byte>>)
    ensures |Encode(chunks)| == FrameEnd(chunks, |chunks|) + 5
  {
    if chunks != [] {
      CodingLength(chunks[1..]);
    }
  }

  lemma {:induction false} FrameEndWithin(chunks: seq<seq<Byte>>, i: nat)
    requires i <= |chunks|
    ensures FrameEnd(chunks, i) <= FrameEnd(chunks, |chunks|)
  {
    if i > 0 {
      FrameEndWithin(chunks[1..], i - 1);
    }
  }

  /** One frame and nothing behind it: both readers return its data as the body, though it is no chunked coding. */
  lemma CutBodyExample()
    ensures
      var wire: seq<Byte> := [49, 13, 10, 120, 13, 10];
      && Decode(wire, 10).1 == Complete([]) && Concat(Decode(wire, 10).0) == [120]
      && ReadBody(ReadHeader, wire, 0, 10) == Body([120], [])
      && forall chunks :: !Framed(ReadHeader, wire, chunks)
  {
    var wire: seq<Byte> := [49, 13, 10, 120, 13, 10];
    var chunk: seq<Byte> := [120];
    assert Hex(1) == [49];
    assert wire == Frame(chunk);
    OneFrame(ReadHeader, chunk, wire);
  }

  lemma OneFrame(parse: seq<Byte> -> Header, chunk: seq<Byte>, wire: seq<Byte>)
    requires chunk != [] && |chunk| <= 10 && wire == Frame(chunk) && parse == ReadHeader
    ensures Decode(wire, 10).1 == Complete([]) && Concat(Decode(wire, 10).0) == chunk
    ensures ReadBody(parse, wire, 0, 10) == Body(chunk, [])
    ensures forall chunks :: !Framed(parse, wire, chunks)
  {
    ReadHeaderParsesCutHex();
    CutLine([]);
    assert Frame(chunk) + [] == Frame(chunk);
    FrameThen(chunk, []);
    FrameDecodes(parse, chunk, [], 10);
    WrittenChunk(parse, chunk, CRLF, [], 0, 10);
    assert ReadBody(parse, [], |chunk|, 10) == Body([], []);
    OneFrameCut(parse, chunk);
    forall chunks
      ensures !Framed(parse, wire, chunks)
    {
      NeverBoth(parse, wire, chunks, [chunk]);
    }
  }

  lemma OneFrameCut(parse: seq<Byte> -> Header, chunk: seq<Byte>)
    requires chunk != [] && ParsesCutHex(parse)
    ensures CutOff(parse, Frame(chunk), [chunk])
  {
    var s := Frame(chunk);
    assert s == Hex(|chunk|) + CRLF + (chunk + CRLF) && chunk + (CRLF + []) == chunk + CRLF;
    WrittenHeader(|chunk|, chunk + CRLF);
    DropLineIs(s);
    assert StartsWithChunk(parse, s, chunk, []);
    assert [chunk][1..] == [] && FramesThen(parse, [], [chunk][1..], []);
    assert FramesThen(parse, s, [chunk], []);
    CutLine([]);
    assert EndsEarly(parse, []);
  }
}
