/**
 What the client's chunked decoder takes for a complete body: frames and the
 last-chunk, but also frames after which there is no size line. Size lines are
 read as `int(..., 16)` reads them.
 */
module ChunkFraming {
  import opened Common
  import opened Bytes
  import opened ChunkedCoding

  /** `s` announces the chunk `data`, ended by CRLF, and goes on with `more`. */
  predicate StartsWithChunk(parse: seq<Byte> -> Header, s: seq<Byte>, data: seq<Byte>, more: seq<Byte>)
  {
    parse(ReadLine(s)) == Announced(|data|) && s[LineLength(s)..] == data + (CRLF + more)
  }

  /** One chunk as the client reads it. */
  lemma ClientChunk(parse: seq<Byte> -> Header, s: seq<Byte>, size: nat, readSize: nat)
    returns (data: seq<Byte>, more: seq<Byte>)
    requires readSize > 0 && size > 0
    requires parse(ReadLine(s)) == Announced(size)
    requires DecodeBy(parse, s, readSize).1.Complete?
    ensures StartsWithChunk(parse, s, data, more) && data != [] && |more| < |s|
    ensures DecodeBy(parse, more, readSize).1.Complete?
    ensures Concat(DecodeBy(parse, s, readSize).0) == data + Concat(DecodeBy(parse, more, readSize).0)
  {
    var rest := s[|ReadLine(s)|..];
    ReadDataShrinks(rest, size, readSize);
    var (pieces, unread) := ReadData(rest, size, readSize);
    data := rest[..size];
    var after := rest[size..];
    assert rest == data + after;
    ReadDataOf(data, after, readSize);
    ConcatAppend(pieces, DecodeBy(parse, after[2..], readSize).0);
    assert after == CRLF + after[2..];
    more := after[2..];
  }

  lemma DecodeChunk(parse: seq<Byte> -> Header, s: seq<Byte>, data: seq<Byte>, more: seq<Byte>, readSize: nat)
    requires readSize > 0 && data != [] && StartsWithChunk(parse, s, data, more)
    ensures DecodeBy(parse, s, readSize).1 == DecodeBy(parse, more, readSize).1
    ensures Concat(DecodeBy(parse, s, readSize).0) == data + Concat(DecodeBy(parse, more, readSize).0)
  {
    var rest := data + (CRLF + more);
    ReadDataOf(data, CRLF + more, readSize);
    assert (CRLF + more)[..2] == CRLF && (CRLF + more)[2..] == more;
    ConcatAppend(ReadData(rest, |data|, readSize).0, DecodeBy(parse, more, readSize).0);
  }

  /** `s` is frames of `chunks`, all non-empty, followed by `rest`. */
  ghost predicate FramesThen(parse: seq<Byte> -> Header, s: seq<Byte>, chunks: seq<seq<Byte>>, rest: seq<Byte>)
    decreases |chunks|
  {
    if chunks == [] then s == rest
    else exists more ::
      StartsWithChunk(parse, s, chunks[0], more) && chunks[0] != [] && FramesThen(parse, more, chunks[1..], rest)
  }

  /** The last-chunk, and a trailer section within its budget. */
  predicate EndsProperly(parse: seq<Byte> -> Header, s: seq<Byte>)
  {
    parse(ReadLine(s)) == Announced(0) && SkipTrailer(s[LineLength(s)..], 0, 0).Complete?
  }

  /** No size where one is due: the end of the input, or a line without one. */
  predicate EndsEarly(parse: seq<Byte> -> Header, s: seq<Byte>)
  {
    parse(ReadLine(s)).Missing?
  }

  /** `s` starts with a whole chunked coding of `chunks`. */
  ghost predicate Framed(parse: seq<Byte> -> Header, s: seq<Byte>, chunks: seq<seq<Byte>>)
  {
    exists rest :: FramesThen(parse, s, chunks, rest) && EndsProperly(parse, rest)
  }

  /** `s` starts with frames of `chunks` and breaks off at a frame boundary. */
  ghost predicate CutOff(parse: seq<Byte> -> Header, s: seq<Byte>, chunks: seq<seq<Byte>>)
  {
    exists rest :: FramesThen(parse, s, chunks, rest) && EndsEarly(parse, rest)
  }

  lemma {:induction false} DecodedFrames(parse: seq<Byte> -> Header, s: seq<Byte>, readSize: nat)
    returns (chunks: seq<seq<Byte>>, rest: seq<Byte>)
    requires readSize > 0 && DecodeBy(parse, s, readSize).1.Complete?
    ensures FramesThen(parse, s, chunks, rest) && (EndsProperly(parse, rest) || EndsEarly(parse, rest))
    ensures Concat(chunks) == Concat(DecodeBy(parse, s, readSize).0)
    decreases |s|
  {
    var header := parse(ReadLine(s));
    if header.Announced? && header.size > 0 {
      var data, more := ClientChunk(parse, s, header.size, readSize);
      var others;
      others, rest := DecodedFrames(parse, more, readSize);
      chunks := [data] + others;
      assert chunks[1..] == others;
    } else {
      chunks, rest := [], s;
    }
  }

  lemma {:induction false} FramesDecode(
      parse: seq<Byte> -> Header, s: seq<Byte>, chunks: seq<seq<Byte>>, rest: seq<Byte>, readSize: nat)
    requires readSize > 0 && FramesThen(parse, s, chunks, rest)
    requires EndsProperly(parse, rest) || EndsEarly(parse, rest)
    ensures DecodeBy(parse, s, readSize).1.Complete? && Concat(DecodeBy(parse, s, readSize).0) == Concat(chunks)
    decreases |chunks|
  {
    if chunks != [] {
      var more :|
        StartsWithChunk(parse, s, chunks[0], more) && chunks[0] != [] && FramesThen(parse, more, chunks[1..], rest);
      FramesDecode(parse, more, chunks[1..], rest, readSize);
      DecodeChunk(parse, s, chunks[0], more, readSize);
    }
  }

  /** The bytes settle which frames they are and what follows them. */
  lemma {:induction false} FramesUnique(
      parse: seq<Byte> -> Header, s: seq<Byte>,
      a: seq<seq<Byte>>, restA: seq<Byte>, b: seq<seq<Byte>>, restB: seq<Byte>)
    requires FramesThen(parse, s, a, restA) && (EndsProperly(parse, restA) || EndsEarly(parse, restA))
    requires FramesThen(parse, s, b, restB) && (EndsProperly(parse, restB) || EndsEarly(parse, restB))
    ensures a == b && restA == restB
    decreases |a|
  {
    if a != [] && b != [] {
      var moreA :|
        StartsWithChunk(parse, s, a[0], moreA) && a[0] != [] && FramesThen(parse, moreA, a[1..], restA);
      var moreB :|
        StartsWithChunk(parse, s, b[0], moreB) && b[0] != [] && FramesThen(parse, moreB, b[1..], restB);
      SameChunk(parse, s, a[0], moreA, b[0], moreB);
      FramesUnique(parse, moreA, a[1..], restA, b[1..], restB);
      assert a == [a[0]] + a[1..] && b == [b[0]] + b[1..];
    }
  }

  lemma SameChunk(
      parse: seq<Byte> -> Header, s: seq<Byte>, a: seq<Byte>, moreA: seq<Byte>, b: seq<Byte>, moreB: seq<Byte>)
    requires StartsWithChunk(parse, s, a, moreA) && StartsWithChunk(parse, s, b, moreB)
    ensures a == b && moreA == moreB
  {
    var body := s[LineLength(s)..];
    assert a == body[..|a|] && b == body[..|b|];
    assert moreA == body[|a| + 2..] && moreB == body[|b| + 2..];
  }

  /**
   The client's decoder completes on whole chunked codings and on frames that
   break off at a boundary, and on nothing else; no input is both.
   */
  lemma DecodesExactlyFramed(s: seq<Byte>, readSize: nat)
    requires readSize > 0
    ensures Decode(s, readSize).1.Complete? <==>
      (exists chunks :: Framed(ReadHeader, s, chunks)) || (exists chunks :: CutOff(ReadHeader, s, chunks))
    ensures forall a, b :: !(Framed(ReadHeader, s, a) && CutOff(ReadHeader, s, b))
  {
    if Decode(s, readSize).1.Complete? {
      var chunks, rest := DecodedFrames(ReadHeader, s, readSize);
      assert Framed(ReadHeader, s, chunks) || CutOff(ReadHeader, s, chunks);
    } else if chunks :| Framed(ReadHeader, s, chunks) || CutOff(ReadHeader, s, chunks) {
      FramedDecodes(ReadHeader, s, chunks, readSize);
    }
    forall a, b
      ensures !(Framed(ReadHeader, s, a) && CutOff(ReadHeader, s, b))
    {
      NeverBoth(ReadHeader, s, a, b);
    }
  }

  lemma FramedDecodes(parse: seq<Byte> -> Header, s: seq<Byte>, chunks: seq<seq<Byte>>, readSize: nat)
    requires readSize > 0 && (Framed(parse, s, chunks) || CutOff(parse, s, chunks))
    ensures DecodeBy(parse, s, readSize).1.Complete? && Concat(DecodeBy(parse, s, readSize).0) == Concat(chunks)
  {
    var rest :|
      FramesThen(parse, s, chunks, rest) && (EndsProperly(parse, rest) || EndsEarly(parse, rest));
    FramesDecode(parse, s, chunks, rest, readSize);
  }

  lemma NeverBoth(parse: seq<Byte> -> Header, s: seq<Byte>, a: seq<seq<Byte>>, b: seq<seq<Byte>>)
    ensures !(Framed(parse, s, a) && CutOff(parse, s, b))
  {
    if Framed(parse, s, a) && CutOff(parse, s, b) {
      var restA :| FramesThen(parse, s, a, restA) && EndsProperly(parse, restA);
      var restB :| FramesThen(parse, s, b, restB) && EndsEarly(parse, restB);
      FramesUnique(parse, s, a, restA, b, restB);
    }
  }

  /** The client is stricter: where it finds other bytes than CRLF behind a chunk's data it fails. */
  lemma ClientNeedsCrlf(
      parse: seq<Byte> -> Header, s: seq<Byte>, data: seq<Byte>, after: seq<Byte>, readSize: nat)
    requires readSize > 0 && data != [] && |after| >= 2
    requires parse(ReadLine(s)) == Announced(|data|) && s[LineLength(s)..] == data + after
    ensures DecodeBy(parse, s, readSize).1 == Failed(InvalidTerminator) || after[..2] == CRLF
  {
    ReadDataOf(data, after, readSize);
  }
}
