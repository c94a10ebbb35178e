/**
 What the two readers of a chunked body do with any input at all: both take the
 frames at its front, and what comes behind those decides how they end.
 */
module FirstFaults {
  import opened Common
  import opened Bytes
  import opened ChunkedCoding
  import opened ChunkFraming
  import opened ServerBody

  // ------------------------------------------------------------------------
  // The client
  // ------------------------------------------------------------------------

  /** How the client ends on an input that does not start with a frame. */
  ghost predicate ClientEnds(parse: seq<Byte> -> Header, s: seq<Byte>, end: End)
  {
    var header, body := parse(ReadLine(s)), s[LineLength(s)..];
    match header
    case Missing => end == Complete(body)
    case Malformed => end == Failed(InvalidSize)
    case Announced(size) =>
      if size < 0 then end == Failed(InvalidSize)
      else if size == 0 then end == SkipTrailer(body, 0, 0)
      else if |body| < size + 2 then end == Failed(Truncated)
      else body[size..size + 2] != CRLF && end == Failed(InvalidTerminator)
  }

  lemma NoFrameEnds(parse: seq<Byte> -> Header, s: seq<Byte>, readSize: nat)
    requires readSize > 0
    requires
      var header, body := parse(ReadLine(s)), s[LineLength(s)..];
      header.Announced? && header.size > 0 ==> |body| < header.size + 2 || body[header.size..header.size + 2] != CRLF
    ensures ClientEnds(parse, s, DecodeBy(parse, s, readSize).1)
  {
    var header, body := parse(ReadLine(s)), s[LineLength(s)..];
    if header.Announced? && header.size > 0 {
      ReadDataShrinks(body, header.size, readSize);
      if |body| >= header.size {
        assert body == body[..header.size] + body[header.size..];
        ReadDataOf(body[..header.size], body[header.size..], readSize);
        assert |body| >= header.size + 2 ==> body[header.size..][..2] == body[header.size..header.size + 2];
      } else {
        ReadDataEnds(body, header.size, readSize);
      }
    }
  }

  lemma {:induction false} ReadDataEnds(s: seq<Byte>, remaining: nat, readSize: nat)
    requires readSize > 0 && |s| < remaining
    ensures ReadData(s, remaining, readSize).1.None?
    decreases remaining
  {
    var n := if remaining < readSize then remaining else readSize;
    if n <= |s| {
      ReadDataEnds(s[n..], remaining - n, readSize);
    }
  }

  /** Every input is frames, which the client yields, and something behind them, on which it ends. */
  lemma {:induction false} ClientReadsToFirstFault(parse: seq<Byte> -> Header, s: seq<Byte>, readSize: nat)
    returns (chunks: seq<seq<Byte>>, rest: seq<Byte>)
    requires readSize > 0
    ensures FramesThen(parse, s, chunks, rest)
    ensures ClientEnds(parse, rest, DecodeBy(parse, s, readSize).1)
    ensures Concat(chunks) <= Concat(DecodeBy(parse, s, readSize).0)
    decreases |s|
  {
    var header, body := parse(ReadLine(s)), s[LineLength(s)..];
    if header.Announced? && header.size > 0 && |body| >= header.size + 2 && body[header.size..header.size + 2] == CRLF {
      var data, more := body[..header.size], body[header.size + 2..];
      assert body == data + (CRLF + more);
      DecodeChunk(parse, s, data, more, readSize);
      var others;
      others, rest := ClientReadsToFirstFault(parse, more, readSize);
      chunks := [data] + others;
      assert chunks[1..] == others;
    } else {
      chunks, rest := [], s;
      NoFrameEnds(parse, s, readSize);
    }
  }

  // ------------------------------------------------------------------------
  // The server
  // ------------------------------------------------------------------------

  /** A size, as many bytes, and the rest of their line whatever it is. */
  predicate StartsWithLooseChunk(parse: seq<Byte> -> Header, s: seq<Byte>, data: seq<Byte>, more: seq<Byte>)
  {
    && data != [] && parse(ReadLine(s)) == Announced(|data|)
    && data <= s[LineLength(s)..]
    && more == DropLine(s[LineLength(s) + |data|..])
  }

  ghost predicate LooseFramesThen(parse: seq<Byte> -> Header, s: seq<Byte>, chunks: seq<seq<Byte>>, rest: seq<Byte>)
    decreases |chunks|
  {
    if chunks == [] then s == rest
    else exists more :: StartsWithLooseChunk(parse, s, chunks[0], more) && LooseFramesThen(parse, more, chunks[1..], rest)
  }

  /** How the server ends, with `body` read so far, on an input that starts with no chunk within the limit. */
  ghost predicate ServerEnds(
      parse: seq<Byte> -> Header, s: seq<Byte>, body: seq<Byte>, limit: nat, outcome: Outcome)
  {
    var header, after := parse(ReadLine(s)), s[LineLength(s)..];
    match header
    case Missing => outcome == Body(body, after)
    case Malformed => outcome == InvalidChunkSize
    case Announced(size) =>
      if size < 0 then outcome == InvalidChunkSize
      else if size == 0 then outcome == ReadTrailer(after, 0, 0).After(body)
      else if |body| + size > limit then outcome == TooLarge
      else |after| < size && outcome == Incomplete
  }

  lemma ServerChunkTaken(
      parse: seq<Byte> -> Header, s: seq<Byte>, data: seq<Byte>, more: seq<Byte>, total: nat, limit: nat)
    requires StartsWithLooseChunk(parse, s, data, more) && total + |data| <= limit
    ensures ReadBody(parse, s, total, limit) == ReadBody(parse, more, total + |data|, limit).After(data)
  {
    DropLineIs(s);
    var body := s[LineLength(s)..];
    ReadExactlyIs(body, |data|);
    assert body[..|data|] == data && body[|data|..] == s[LineLength(s) + |data|..];
  }

  lemma NoChunkEnds(parse: seq<Byte> -> Header, s: seq<Byte>, body: seq<Byte>, limit: nat)
    requires |body| <= limit
    requires
      var header, after := parse(ReadLine(s)), s[LineLength(s)..];
      header.Announced? && header.size > 0 ==> |body| + header.size > limit || |after| < header.size
    ensures ServerEnds(parse, s, body, limit, ReadBody(parse, s, |body|, limit).After(body))
  {
    DropLineIs(s);
    var header, after := parse(ReadLine(s)), s[LineLength(s)..];
    if header.Announced? && header.size > 0 {
      ReadExactlyIs(after, header.size);
    }
    assert body + [] == body;
  }

  lemma AfterTwice(outcome: Outcome, a: seq<Byte>, b: seq<Byte>)
    ensures outcome.After(b).After(a) == outcome.After(a + b)
  {
    if outcome.Body? {
      assert a + (b + outcome.bytes) == a + b + outcome.bytes;
    }
  }

  /** With `before` read so far, the server takes `chunks` off `s` and ends on `rest`. */
  ghost predicate ServerReads(
      parse: seq<Byte> -> Header, s: seq<Byte>, before: seq<Byte>, limit: nat, chunks: seq<seq<Byte>>, rest: seq<Byte>)
  {
    && LooseFramesThen(parse, s, chunks, rest)
    && |before + Concat(chunks)| <= limit
    && ServerEnds(parse, rest, before + Concat(chunks), limit, ReadBody(parse, s, |before|, limit).After(before))
  }

  lemma ServerReadsChunk(
      parse: seq<Byte> -> Header, s: seq<Byte>, before: seq<Byte>, limit: nat,
      data: seq<Byte>, more: seq<Byte>, others: seq<seq<Byte>>, rest: seq<Byte>)
    requires StartsWithLooseChunk(parse, s, data, more) && |before + data| <= limit
    requires ServerReads(parse, more, before + data, limit, others, rest)
    ensures ServerReads(parse, s, before, limit, [data] + others, rest)
  {
    LooseFramesGrow(parse, s, data, more, others, rest);
    SameOutcome(parse, s, before, limit, data, more);
    ConcatBehind(before, data, others);
  }

  lemma SameOutcome(
      parse: seq<Byte> -> Header, s: seq<Byte>, before: seq<Byte>, limit: nat, data: seq<Byte>, more: seq<Byte>)
    requires StartsWithLooseChunk(parse, s, data, more) && |before + data| <= limit
    ensures ReadBody(parse, s, |before|, limit).After(before) ==
      ReadBody(parse, more, |before + data|, limit).After(before + data)
  {
    ServerChunkTaken(parse, s, data, more, |before|, limit);
    AfterTwice(ReadBody(parse, more, |before| + |data|, limit), before, data);
  }

  lemma ConcatBehind(before: seq<Byte>, data: seq<Byte>, others: seq<seq<Byte>>)
    ensures before + Concat([data] + others) == before + data + Concat(others)
  {
    assert ([data] + others)[1..] == others;
    assert before + (data + Concat(others)) == before + data + Concat(others);
  }

  lemma LooseFramesGrow(
      parse: seq<Byte> -> Header, s: seq<Byte>, data: seq<Byte>, more: seq<Byte>, others: seq<seq<Byte>>, rest: seq<Byte>)
    requires StartsWithLooseChunk(parse, s, data, more) && LooseFramesThen(parse, more, others, rest)
    ensures LooseFramesThen(parse, s, [data] + others, rest)
  {
    var chunks := [data] + others;
    assert chunks[0] == data && chunks[1..] == others;
  }

  /** Every input is chunks within the limit, which the server takes, and something behind them, on which it ends. */
  lemma {:induction false} ServerReadsToFirstFault(
      parse: seq<Byte> -> Header, s: seq<Byte>, before: seq<Byte>, limit: nat)
    returns (chunks: seq<seq<Byte>>, rest: seq<Byte>)
    requires |before| <= limit
    ensures ServerReads(parse, s, before, limit, chunks, rest)
    decreases |s|
  {
    var header, after := parse(ReadLine(s)), s[LineLength(s)..];
    if header.Announced? && header.size > 0 && |before| + header.size <= limit && |after| >= header.size {
      var data, more := after[..header.size], DropLine(after[header.size..]);
      assert after[header.size..] == s[LineLength(s) + header.size..];
      var others;
      others, rest := ServerReadsToFirstFault(parse, more, before + data, limit);
      chunks := [data] + others;
      ServerReadsChunk(parse, s, before, limit, data, more, others, rest);
    } else {
      chunks, rest := [], s;
      assert before + [] == before;
      NoChunkEnds(parse, s, before, limit);
    }
  }
}
