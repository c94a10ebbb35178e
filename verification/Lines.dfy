/**
 Splitting a response body into lines, incrementally over whatever pieces
 arrive (`aiter_lines`) and by bounded `readline` calls (`iter_lines`).
 */
module LineSplitting {
  import opened Common
  import opened Bytes

  /** How the iteration ends: at the end of the body, on an over-long line of which `size` bytes were seen, or at once on a bad limit. */
  datatype End = Exhausted | TooLong(size: nat) | InvalidLimit

  /** The lines of a body with their terminators; only the last may lack one. */
  function WireLines(s: seq<Byte>): seq<seq<Byte>>
    decreases |s|
  {
    if s == [] then [] else [ReadLine(s)] + WireLines(s[|ReadLine(s)|..])
  }

  function Chop(line: seq<Byte>): seq<Byte>
  {
    if line != [] && line[|line| - 1] == LF then line[..|line| - 1] else line
  }

  predicate Fits(line: seq<Byte>, limit: Option<int>)
  {
    limit.None? || |line| <= limit.value
  }

  function StripCR(s: string): string
  {
    if s != "" && s[|s| - 1] == '\r' then StripCR(s[..|s| - 1]) else s
  }

  function StripCRLF(s: string): string
  {
    if s != "" && (s[|s| - 1] == '\r' || s[|s| - 1] == '\n') then StripCRLF(s[..|s| - 1]) else s
  }

  /** The text of a line, decoded without its terminator. */
  function Text(line: seq<Byte>, decode: seq<Byte> -> string): string
  {
    StripCR(decode(Chop(line)))
  }

  predicate BadLimit(limit: Option<int>)
  {
    limit.Some? && limit.value <= 0
  }

  /** What a body yields, line by line, and whether every line fitted. */
  function Yield(body: seq<Byte>, limit: Option<int>, decode: seq<Byte> -> string): (seq<string>, bool)
    decreases |body|
  {
    if body == [] then ([], true) else
    var line := ReadLine(body);
    if !Fits(line, limit) then ([], false) else
    var (texts, fits) := Yield(body[|line|..], limit, decode);
    ([Text(line, decode)] + texts, fits)
  }

  /** The size of the first over-long line, 0 if there is none. */
  function FirstLongSize(body: seq<Byte>, limit: Option<int>): nat
    decreases |body|
  {
    if body == [] then 0 else
    var line := ReadLine(body);
    if !Fits(line, limit) then |line| else FirstLongSize(body[|line|..], limit)
  }

  /** How many bytes precede the first over-long line. */
  function FirstLongStart(body: seq<Byte>, limit: Option<int>): nat
    decreases |body|
  {
    if body == [] then 0 else
    var line := ReadLine(body);
    if !Fits(line, limit) then 0 else |line| + FirstLongStart(body[|line|..], limit)
  }

  /**
   What the error reports of a line of `size` bytes that begins `start` bytes
   into `pieces`: as much of it as has arrived with the first piece that takes it
   over the limit.
   */
  function Reported(pieces: seq<seq<Byte>>, start: int, size: nat, limit: int): int
  {
    if pieces == [] then size
    else if |pieces[0]| - start <= limit then Reported(pieces[1..], start - |pieces[0]|, size, limit)
    else if |pieces[0]| - start < size then |pieces[0]| - start
    else size
  }

  /** More than the limit and no more than the line. */
  lemma {:induction false} ReportedWithin(pieces: seq<seq<Byte>>, start: int, size: nat, limit: int)
    requires limit < size
    ensures limit < Reported(pieces, start, size, limit) <= size
  {
    if pieces != [] {
      ReportedWithin(pieces[1..], start - |pieces[0]|, size, limit);
    }
  }

  /** Piece by piece: the first one with which more than `limit` bytes of the line have come decides. */
  lemma {:induction false} ReportedAt(pieces: seq<seq<Byte>>, start: int, size: nat, limit: int, i: nat)
    requires i < |pieces| && |Concat(pieces[..i + 1])| - start > limit
    requires forall j :: 0 <= j <= i ==> |Concat(pieces[..j])| - start <= limit
    ensures
      var arrived := |Concat(pieces[..i + 1])| - start;
      Reported(pieces, start, size, limit) == if arrived < size then arrived else size
  {
    FirstPieceArrived(pieces, i);
    if i > 0 {
      var n := |pieces[0]|;
      FirstPieceArrived(pieces, 0);
      assert |Concat(pieces[..1])| - start <= limit;
      forall j | 0 <= j <= i - 1
        ensures |Concat(pieces[1..][..j])| - (start - n) <= limit
      {
        FirstPieceArrived(pieces, j);
        assert |Concat(pieces[..j + 1])| - start <= limit;
      }
      ReportedAt(pieces[1..], start - n, size, limit, i - 1);
    }
  }

  lemma FirstPieceArrived(pieces: seq<seq<Byte>>, i: nat)
    requires i < |pieces|
    ensures |Concat(pieces[..i + 1])| == |pieces[0]| + |Concat(pieces[1..][..i])|
  {
    assert pieces[..i + 1][1..] == pieces[1..][..i];
  }

  /** The iteration over `pieces` ended as the lines of the body demand. */
  predicate EndsWell(pieces: seq<seq<Byte>>, limit: Option<int>, fits: bool, end: End)
  {
    var body := Concat(pieces);
    match end
    case Exhausted => fits
    case TooLong(size) =>
      && !fits && limit.Some?
      && size == Reported(pieces, FirstLongStart(body, limit), FirstLongSize(body, limit), limit.value)
    case InvalidLimit => false
  }

  function Find(s: seq<Byte>): (i: Option<nat>)
    ensures i.None? ==> LF !in s
    ensures i.Some? ==> i.value < |s| && s[i.value] == LF && LF !in s[..i.value]
  {
    if s == [] then None
    else if s[0] == LF then Some(0)
    else
      match Find(s[1..])
      case None => None
      case Some(i) =>
        assert s[..i + 1] == [s[0]] + s[1..][..i];
        Some(i + 1)
  }

  /** A line feed in the buffer ends the line, whatever is still to come. */
  lemma LineInBuffer(buf: seq<Byte>, rest: seq<Byte>, newline: nat)
    requires newline < |buf| && buf[newline] == LF && LF !in buf[..newline]
    ensures ReadLine(buf + rest) == buf[..newline + 1]
    ensures (buf + rest)[newline + 1..] == buf[newline + 1..] + rest
    ensures Chop(buf[..newline + 1]) == buf[..newline]
  {
    forall i | 0 <= i < newline
      ensures (buf + rest)[i] != LF
    {
      assert buf[i] == buf[..newline][i];
    }
    LineLengthAt(buf + rest, newline + 1);
  }

  /** A buffer without a line feed is the front of the next line. */
  lemma BufferFrontsLine(buf: seq<Byte>, rest: seq<Byte>)
    requires Find(buf).None?
    ensures |ReadLine(buf + rest)| >= |buf|
    ensures rest == [] ==> ReadLine(buf + rest) == buf && Chop(buf) == buf
  {
    LineShape(buf + rest);
    assert forall i :: 0 <= i < |buf| ==> (buf + rest)[i] == buf[i] != LF;
    assert rest == [] ==> buf + rest == buf;
  }

  /** `left` is what remains of the body before its first over-long line. */
  ghost predicate SizesKept(body: seq<Byte>, limit: Option<int>, left: seq<Byte>)
  {
    && FirstLongSize(body, limit) == FirstLongSize(left, limit)
    && FirstLongStart(body, limit) + |left| == |body| + FirstLongStart(left, limit)
  }

  /** `lines` have been yielded and `left` is what remains of the body. */
  ghost predicate Progress(
      body: seq<Byte>, limit: Option<int>, decode: seq<Byte> -> string, lines: seq<string>, left: seq<Byte>)
  {
    && Yield(body, limit, decode).0 == lines + Yield(left, limit, decode).0
    && Yield(body, limit, decode).1 == Yield(left, limit, decode).1
    && SizesKept(body, limit, left)
  }

  lemma LineTaken(
      body: seq<Byte>, limit: Option<int>, decode: seq<Byte> -> string, lines: seq<string>, left: seq<Byte>)
    requires Progress(body, limit, decode, lines, left) && left != []
    ensures
      var line := ReadLine(left);
      if Fits(line, limit) then Progress(body, limit, decode, lines + [Text(line, decode)], left[|line|..])
      else
        && Yield(body, limit, decode).0 == lines && !Yield(body, limit, decode).1
        && FirstLongSize(body, limit) == |line|
        && FirstLongStart(body, limit) == |body| - |left|
  {
    var rest := left[|ReadLine(left)|..];
    SizesTaken(body, limit, left);
    if Fits(ReadLine(left), limit) {
      AddText(lines, Text(ReadLine(left), decode), Yield(rest, limit, decode).0);
    }
  }

  lemma AddText(lines: seq<string>, text: string, more: seq<string>)
    ensures lines + ([text] + more) == (lines + [text]) + more
  {
  }

  lemma SizesTaken(body: seq<Byte>, limit: Option<int>, left: seq<Byte>)
    requires SizesKept(body, limit, left) && left != []
    ensures
      var line := ReadLine(left);
      if Fits(line, limit) then SizesKept(body, limit, left[|line|..])
      else FirstLongSize(body, limit) == |line| && FirstLongStart(body, limit) == |body| - |left|
  {
  }

  /** What is reported once the first `i` pieces have gone by without an error. */
  ghost predicate ReportsFrom(pieces: seq<seq<Byte>>, i: nat, limit: Option<int>)
    requires i <= |pieces|
  {
    var body := Concat(pieces);
    var start, size := FirstLongStart(body, limit), FirstLongSize(body, limit);
    limit.Some? ==>
      Reported(pieces, start, size, limit.value) ==
      Reported(pieces[i..], start - (|body| - |Concat(pieces[i..])|), size, limit.value)
  }

  /** `arrived` bytes of the over-long line have come with piece `i`. */
  lemma NextReport(pieces: seq<seq<Byte>>, i: nat, limit: Option<int>, arrived: int)
    requires i < |pieces| && limit.Some? && ReportsFrom(pieces, i, limit)
    requires arrived == |Concat(pieces)| - |Concat(pieces[i + 1..])| - FirstLongStart(Concat(pieces), limit)
    ensures arrived <= limit.value ==> ReportsFrom(pieces, i + 1, limit)
    ensures limit.value < arrived ==>
      var size := FirstLongSize(Concat(pieces), limit);
      Reported(pieces, FirstLongStart(Concat(pieces), limit), size, limit.value) == if arrived < size then arrived else size
  {
    NextPiece(pieces, i, []);
  }

  /** The inner loop of `aiter_lines`: take every complete line off the buffer. */
  method TakeLines(
      buf: seq<Byte>, limit: Option<int>, decode: seq<Byte> -> string,
      taken: seq<string>, ghost body: seq<Byte>, ghost rest: seq<Byte>)
    returns (lines: seq<string>, unread: seq<Byte>, long: Option<nat>)
    requires Progress(body, limit, decode, taken, buf + rest)
    ensures long.None? ==> Find(unread).None? && Progress(body, limit, decode, lines, unread + rest)
    ensures long.Some? ==> lines == Yield(body, limit, decode).0 && !Yield(body, limit, decode).1
    ensures long.Some? ==>
      && limit.Some? && limit.value < long.value == FirstLongSize(body, limit) <= |unread|
      && FirstLongStart(body, limit) == |body| - |unread| - |rest|
  {
    lines, unread := taken, buf;
    var newline := Find(unread);
    while newline.Some?
      invariant newline == Find(unread)
      invariant Progress(body, limit, decode, lines, unread + rest)
      decreases |unread|
    {
      LineInBuffer(unread, rest, newline.value);
      LineTaken(body, limit, decode, lines, unread + rest);
      var wireSize := newline.value + 1;
      if limit.Some? && wireSize > limit.value {
        return lines, unread, Some(wireSize);
      }
      var line := unread[..newline.value];
      unread := unread[wireSize..];
      lines := lines + [StripCR(decode(line))];
      newline := Find(unread);
    }
    long := None;
  }

  lemma NextPiece(pieces: seq<seq<Byte>>, i: nat, buf: seq<Byte>)
    requires i < |pieces|
    ensures buf + Concat(pieces[i..]) == (buf + pieces[i]) + Concat(pieces[i + 1..])
    ensures pieces[i..][0] == pieces[i] && pieces[i..][1..] == pieces[i + 1..]
    ensures |Concat(pieces[i..])| == |pieces[i]| + |Concat(pieces[i + 1..])|
  {
    assert pieces[i..][1..] == pieces[i + 1..];
  }

  /** A buffer over the limit, without a line feed, is already an over-long line. */
  lemma OverlongBuffer(
      body: seq<Byte>, limit: Option<int>, decode: seq<Byte> -> string, lines: seq<string>, buf: seq<Byte>, rest: seq<Byte>)
    requires Progress(body, limit, decode, lines, buf + rest)
    requires Find(buf).None? && !Fits(buf, limit) && buf != []
    ensures lines == Yield(body, limit, decode).0 && !Yield(body, limit, decode).1
    ensures |buf| <= FirstLongSize(body, limit) && FirstLongStart(body, limit) == |body| - |buf| - |rest|
  {
    BufferFrontsLine(buf, rest);
    LineTaken(body, limit, decode, lines, buf + rest);
  }

  /** At the end of the body, what is left in the buffer is one unterminated line. */
  lemma LastLine(body: seq<Byte>, limit: Option<int>, decode: seq<Byte> -> string, lines: seq<string>, buf: seq<Byte>)
    requires Progress(body, limit, decode, lines, buf)
    requires Find(buf).None? && Fits(buf, limit)
    ensures Yield(body, limit, decode).0 == if buf == [] then lines else lines + [StripCR(decode(buf))]
    ensures Yield(body, limit, decode).1
  {
    BufferFrontsLine(buf, []);
    assert buf + [] == buf && buf[|buf|..] == [];
    if buf != [] {
      LineTaken(body, limit, decode, lines, buf);
    }
  }

  /** `aiter_lines`: keep a buffer, yield a line for every line feed, check the limit after every piece. */
  method AiterLines(pieces: seq<seq<Byte>>, limit: Option<int>, decode: seq<Byte> -> string)
    returns (lines: seq<string>, end: End)
    ensures end == InvalidLimit <==> BadLimit(limit)
    ensures end == InvalidLimit ==> lines == []
    ensures end != InvalidLimit ==>
      && lines == Yield(Concat(pieces), limit, decode).0
      && EndsWell(pieces, limit, Yield(Concat(pieces), limit, decode).1, end)
  {
    lines := [];
    if BadLimit(limit) {
      return lines, InvalidLimit;
    }
    ghost var body := Concat(pieces);
    var buf: seq<Byte> := [];
    assert pieces[0..] == pieces && buf + body == body;
    for i := 0 to |pieces|
      invariant Find(buf).None? && Fits(buf, limit)
      invariant Progress(body, limit, decode, lines, buf + Concat(pieces[i..]))
      invariant ReportsFrom(pieces, i, limit)
    {
      ghost var rest := Concat(pieces[i + 1..]);
      NextPiece(pieces, i, buf);
      var long;
      lines, buf, long := TakeLines(buf + pieces[i], limit, decode, lines, body, rest);
      if limit.Some? {
        NextReport(pieces, i, limit, |body| - |rest| - FirstLongStart(body, limit));
      }
      if long.Some? {
        return lines, TooLong(long.value);
      }
      if limit.Some? && |buf| > limit.value {
        OverlongBuffer(body, limit, decode, lines, buf, rest);
        return lines, TooLong(|buf|);
      }
    }
    assert buf + Concat(pieces[|pieces|..]) == buf;
    LastLine(body, limit, decode, lines, buf);
    if buf != [] {
      lines := lines + [StripCR(decode(buf))];
    }
    end := Exhausted;
  }

  // ------------------------------------------------------------------------
  // The synchronous reader
  // ------------------------------------------------------------------------

  /** Decoding keeps line feeds apart: one byte, one character, and no other way to get one. */
  ghost predicate KeepsLineFeeds(decode: seq<Byte> -> string)
  {
    forall s: seq<Byte> :: LF !in s ==> '\n' !in decode(s) && decode(s + [LF]) == decode(s) + "\n"
  }

  lemma {:induction false} StripsAgree(s: string)
    requires '\n' !in s
    ensures StripCRLF(s) == StripCR(s)
  {
    if s != "" && s[|s| - 1] == '\r' {
      StripsAgree(s[..|s| - 1]);
    }
  }

  /** What `iter_lines` yields: it decodes a line with its terminator and strips both characters after that. */
  function SyncYield(body: seq<Byte>, limit: Option<int>, decode: seq<Byte> -> string): (seq<string>, bool)
    decreases |body|
  {
    if body == [] then ([], true) else
    var line := ReadLine(body);
    if !Fits(line, limit) then ([], false) else
    var (texts, fits) := SyncYield(body[|line|..], limit, decode);
    ([StripCRLF(decode(line))] + texts, fits)
  }

  /**
   Whether it strips a line before or after its terminator is decoded, the text
   is the same: the exact condition for the two readers to agree.
   */
  ghost predicate StripsAlike(decode: seq<Byte> -> string)
  {
    forall s: seq<Byte> :: LF !in s ==>
      && StripCRLF(decode(s + [LF])) == StripCR(decode(s))
      && (s != [] ==> StripCRLF(decode(s)) == StripCR(decode(s)))
  }

  lemma KeepingLineFeedsStripsAlike(decode: seq<Byte> -> string)
    requires KeepsLineFeeds(decode)
    ensures StripsAlike(decode)
  {
    forall s: seq<Byte> | LF !in s
      ensures StripCRLF(decode(s + [LF])) == StripCR(decode(s)) && StripCRLF(decode(s)) == StripCR(decode(s))
    {
      assert '\n' !in decode(s) && decode(s + [LF]) == decode(s) + "\n";
      StripsAgree(decode(s));
      assert decode(s + [LF])[..|decode(s)|] == decode(s);
    }
  }

  /** A line is some bytes without a line feed, and one or nothing behind them. */
  lemma TextsAgree(line: seq<Byte>, decode: seq<Byte> -> string)
    requires StripsAlike(decode) && line != [] && LF !in Chop(line)
    ensures StripCRLF(decode(line)) == Text(line, decode)
  {
    var s := Chop(line);
    assert line == s || line == s + [LF];
    assert StripCRLF(decode(s + [LF])) == StripCR(decode(s));
  }

  /** Whatever the decoder, both readers yield as many lines and fail on the same bodies. */
  lemma {:induction false} ReadersFailAlike(body: seq<Byte>, limit: Option<int>, decode: seq<Byte> -> string)
    ensures |SyncYield(body, limit, decode).0| == |Yield(body, limit, decode).0|
    ensures SyncYield(body, limit, decode).1 == Yield(body, limit, decode).1
    decreases |body|
  {
    if body != [] {
      ReadersFailAlike(body[|ReadLine(body)|..], limit, decode);
    }
  }

  lemma {:induction false} StrippingAlikeSuffices(body: seq<Byte>, limit: Option<int>, decode: seq<Byte> -> string)
    requires StripsAlike(decode)
    ensures SyncYield(body, limit, decode) == Yield(body, limit, decode)
    decreases |body|
  {
    if body != [] {
      var line := ReadLine(body);
      ChoppedHasNoLineFeed(body);
      TextsAgree(line, decode);
      StrippingAlikeSuffices(body[|line|..], limit, decode);
    }
  }

  /** A body of one line yields that line. */
  lemma OneLineYields(line: seq<Byte>, decode: seq<Byte> -> string)
    requires line != [] && LF !in Chop(line)
    ensures Yield(line, None, decode).0 == [Text(line, decode)]
    ensures SyncYield(line, None, decode).0 == [StripCRLF(decode(line))]
  {
    forall i | 0 <= i < |line| - 1
      ensures line[i] != LF
    {
      assert line[i] == Chop(line)[i];
    }
    LineShape(line);
    if line[|line| - 1] == LF {
      LineLengthAt(line, |line|);
    }
    assert ReadLine(line) == line && line[|line|..] == [];
  }

  ghost predicate AgreeEverywhere(decode: seq<Byte> -> string)
  {
    forall body: seq<Byte>, limit: Option<int> :: SyncYield(body, limit, decode) == Yield(body, limit, decode)
  }

  /** The readers agree on every body under every limit if and only if the decoder lets them strip alike. */
  lemma ReadersAgree(decode: seq<Byte> -> string)
    ensures AgreeEverywhere(decode) <==> StripsAlike(decode)
    ensures KeepsLineFeeds(decode) ==> StripsAlike(decode)
  {
    if KeepsLineFeeds(decode) {
      KeepingLineFeedsStripsAlike(decode);
    }
    if StripsAlike(decode) {
      forall body: seq<Byte>, limit: Option<int>
        ensures SyncYield(body, limit, decode) == Yield(body, limit, decode)
      {
        StrippingAlikeSuffices(body, limit, decode);
      }
    }
    if AgreeEverywhere(decode) {
      AgreeingStripsAlike(decode);
    }
  }

  lemma AgreeingStripsAlike(decode: seq<Byte> -> string)
    requires AgreeEverywhere(decode)
    ensures StripsAlike(decode)
  {
    forall s: seq<Byte> | LF !in s
      ensures
        && StripCRLF(decode(s + [LF])) == StripCR(decode(s))
        && (s != [] ==> StripCRLF(decode(s)) == StripCR(decode(s)))
    {
      AgreeOnLine(s, decode);
    }
  }

  lemma AgreeOnLine(s: seq<Byte>, decode: seq<Byte> -> string)
    requires AgreeEverywhere(decode) && LF !in s
    ensures StripCRLF(decode(s + [LF])) == StripCR(decode(s))
    ensures s != [] ==> StripCRLF(decode(s)) == StripCR(decode(s))
  {
    var line := s + [LF];
    assert Chop(line) == s;
    OneLineYields(line, decode);
    assert SyncYield(line, None, decode) == Yield(line, None, decode);
    if s != [] {
      assert s[|s| - 1] in s;
      OneLineYields(s, decode);
      assert SyncYield(s, None, decode) == Yield(s, None, decode);
    }
  }

  /** UTF-16, little endian, of the basic plane; anything else is the replacement character. */
  function DecodeUtf16(s: seq<Byte>): string
  {
    if s == [] then ""
    else if |s| == 1 then ['\U{FFFD}']
    else
      var unit := (s[0] as int) + 256 * (s[1] as int);
      [if unit < 0xD800 || 0xE000 <= unit then unit as char else '\U{FFFD}'] + DecodeUtf16(s[2..])
  }

  /**
   The readers part on the encoding of "a" and a line feed. The first line ends
   behind half of the line feed: one reader strips that half before decoding,
   the other decodes it to a replacement character.
   */
  lemma Utf16Example()
    ensures
      var body: seq<Byte> := [0x61, 0, 0x0A, 0];
      && DecodeUtf16(body) == "a\n"
      && Yield(body, None, DecodeUtf16).0 == ["a", "\U{FFFD}"]
      && SyncYield(body, None, DecodeUtf16).0 == ["a\U{FFFD}", "\U{FFFD}"]
    ensures !StripsAlike(DecodeUtf16)
  {
    assert ["a", "\U{FFFD}"][0] != ["a\U{FFFD}", "\U{FFFD}"][0];
    DecodedPieces();
    TwoLines([0x61, 0, 0x0A], [0], DecodeUtf16);
    StripsToItself("a");
    StripsToItself("a\U{FFFD}");
    StripsToItself("\U{FFFD}");
    ReadersAgree(DecodeUtf16);
  }

  lemma TwoLines(line: seq<Byte>, last: seq<Byte>, decode: seq<Byte> -> string)
    requires line == [0x61, 0, 0x0A] && last == [0]
    ensures Yield(line + last, None, decode).0 == [StripCR(decode([0x61, 0])), StripCR(decode(last))]
    ensures SyncYield(line + last, None, decode).0 == [StripCRLF(decode(line)), StripCRLF(decode(last))]
    ensures line + last == [0x61, 0, 0x0A, 0]
  {
    var body := line + last;
    LineLengthAt(body, 3);
    assert ReadLine(body) == line && body[|line|..] == last;
    assert Chop(line) == [0x61, 0] && Chop(last) == last;
    OneLineYields(last, decode);
  }

  lemma StripsToItself(s: string)
    requires s != "" && s[|s| - 1] !in "\r\n"
    ensures StripCR(s) == s && StripCRLF(s) == s
  {
  }

  lemma DecodedPieces()
    ensures DecodeUtf16([0x61, 0, 0x0A, 0]) == "a\n" && DecodeUtf16([0x61, 0]) == "a"
    ensures DecodeUtf16([0x61, 0, 0x0A]) == "a\U{FFFD}" && DecodeUtf16([0]) == "\U{FFFD}"
  {
    var body: seq<Byte>, line: seq<Byte>, a: seq<Byte> := [0x61, 0, 0x0A, 0], [0x61, 0, 0x0A], [0x61, 0];
    assert body[2..] == [0x0A, 0] && line[2..] == [0x0A] && a[2..] == [];
    var feed: seq<Byte> := [0x0A, 0];
    assert feed[2..] == [];
    assert DecodeUtf16(feed) == "\n";
    assert DecodeUtf16(a) == "a";
  }

  /** `readline(size)`: a line, cut off after `size` bytes unless `size` is negative. */
  function ReadLineBounded(s: seq<Byte>, size: int): seq<Byte>
  {
    var n := LineLength(s);
    if 0 <= size < n then s[..size] else s[..n]
  }

  /** `lines` have been yielded and `left` is what remains of the body. */
  ghost predicate SyncProgress(
      body: seq<Byte>, limit: Option<int>, decode: seq<Byte> -> string, lines: seq<string>, left: seq<Byte>)
  {
    && SyncYield(body, limit, decode).0 == lines + SyncYield(left, limit, decode).0
    && SyncYield(body, limit, decode).1 == SyncYield(left, limit, decode).1
  }

  lemma SyncLineTaken(
      body: seq<Byte>, limit: Option<int>, decode: seq<Byte> -> string, lines: seq<string>, left: seq<Byte>)
    requires SyncProgress(body, limit, decode, lines, left) && left != []
    ensures
      var line := ReadLine(left);
      if Fits(line, limit) then SyncProgress(body, limit, decode, lines + [StripCRLF(decode(line))], left[|line|..])
      else SyncYield(body, limit, decode).0 == lines && !SyncYield(body, limit, decode).1
  {
    var rest := left[|ReadLine(left)|..];
    if Fits(ReadLine(left), limit) {
      var text := StripCRLF(decode(ReadLine(left)));
      assert lines + ([text] + SyncYield(rest, limit, decode).0) == (lines + [text]) + SyncYield(rest, limit, decode).0;
    }
  }

  /** `iter_lines`: read one byte more than the limit allows, and stop if it is there. */
  method IterLines(body: seq<Byte>, limit: Option<int>, decode: seq<Byte> -> string)
    returns (lines: seq<string>, end: End)
    ensures end == InvalidLimit <==> BadLimit(limit)
    ensures end == InvalidLimit ==> lines == []
    ensures end != InvalidLimit ==>
      && lines == SyncYield(body, limit, decode).0
      && (end == Exhausted <==> SyncYield(body, limit, decode).1)
      && (end.TooLong? ==> limit.Some? && end.size == limit.value + 1)
  {
    lines := [];
    if BadLimit(limit) {
      return lines, InvalidLimit;
    }
    var rest := body;
    while true
      invariant SyncProgress(body, limit, decode, lines, rest)
      decreases |rest|
    {
      var size := if limit.None? then -1 else limit.value + 1;
      var line := ReadLineBounded(rest, size);
      if line == [] {
        return lines, Exhausted;
      }
      SyncLineTaken(body, limit, decode, lines, rest);
      if limit.Some? && |line| > limit.value {
        return lines, TooLong(|line|);
      }
      assert line == ReadLine(rest);
      lines := lines + [StripCRLF(decode(line))];
      rest := rest[|line|..];
    }
  }

  lemma ChoppedHasNoLineFeed(s: seq<Byte>)
    ensures LF !in Chop(ReadLine(s))
  {
    LineShape(s);
    var line := ReadLine(s);
    assert forall i :: 0 <= i < |line| - 1 ==> line[i] == s[i] != LF;
  }

  // ------------------------------------------------------------------------
  // What the limit means
  // ------------------------------------------------------------------------

  /** The wire lines are the body cut after every line feed. */
  lemma {:induction false} LinesMakeUpBody(s: seq<Byte>)
    ensures Concat(WireLines(s)) == s
    ensures forall l :: l in WireLines(s) ==> l != [] && LF !in Chop(l)
    ensures forall i :: 0 <= i < |WireLines(s)| - 1 ==> WireLines(s)[i] != Chop(WireLines(s)[i])
    decreases |s|
  {
    if s != [] {
      var line := ReadLine(s);
      var rest := WireLines(s[|line|..]);
      LinesMakeUpBody(s[|line|..]);
      FirstLine(s);
      assert WireLines(s) == [line] + rest;
      assert ([line] + rest)[1..] == rest;
    }
  }

  /** The first line of a body is terminated if anything follows it. */
  lemma FirstLine(s: seq<Byte>)
    requires s != []
    ensures
      var line := ReadLine(s);
      && s == line + s[|line|..] && LF !in Chop(line)
      && (s[|line|..] != [] ==> line != Chop(line))
  {
    ChoppedHasNoLineFeed(s);
    LineShape(s);
  }

  /**
   The iteration fails exactly when some line of the body, counting its
   terminator, exceeds the limit. What it yields depends on the body alone:
   the texts of the `k` lines before the first over-long one.
   */
  lemma {:induction false} FailsExactlyOnLongLine(body: seq<Byte>, limit: Option<int>, decode: seq<Byte> -> string)
    returns (k: nat)
    ensures k <= |WireLines(body)|
    ensures forall i :: 0 <= i < k ==> Fits(WireLines(body)[i], limit)
    ensures k < |WireLines(body)| ==> !Fits(WireLines(body)[k], limit)
    ensures Yield(body, limit, decode).1 <==> k == |WireLines(body)|
    ensures |Yield(body, limit, decode).0| == k
    ensures forall i :: 0 <= i < k ==> Yield(body, limit, decode).0[i] == Text(WireLines(body)[i], decode)
    decreases |body|
  {
    k := 0;
    if body != [] && Fits(ReadLine(body), limit) {
      var rest := body[|ReadLine(body)|..];
      k := FailsExactlyOnLongLine(rest, limit, decode);
      k := k + 1;
      assert WireLines(body) == [ReadLine(body)] + WireLines(rest);
    }
  }
}
