/**
 The whole streaming path: the server's chunked writer, the client's chunked
 decoder, its line splitter and its event parser, end to end.
 */
module StreamPath {
  import opened Common
  import opened Bytes
  import ChunkedCoding
  import LineSplitting
  import Sse = ServerSentEvents

  /** What a client makes of a body, said of the body alone; a limit that is not positive is refused at once. */
  function EventsOf(body: seq<Byte>, maxLine: Option<int>, maxEvent: Option<int>, decode: seq<Byte> -> string)
    : (seq<Sse.Event>, bool)
  {
    if Sse.BadLimit(maxEvent) || LineSplitting.BadLimit(maxLine) then ([], false) else
    var (lines, fits) := LineSplitting.Yield(body, maxLine, decode);
    var (events, done) := Sse.Parse(Sse.Fresh(maxEvent), lines);
    (events, fits && done)
  }

  /** The client: chunk decoder, then lines, then events. `ok` says that every stage reached its end. */
  method ReceiveEvents(
      wire: seq<Byte>, readSize: nat, maxLine: Option<int>, maxEvent: Option<int>, decode: seq<Byte> -> string)
    returns (events: seq<Sse.Event>, ok: bool)
    requires readSize > 0
    ensures ChunkedCoding.Decode(wire, readSize).1.Complete? ==>
      var body := Concat(ChunkedCoding.Decode(wire, readSize).0);
      events == EventsOf(body, maxLine, maxEvent, decode).0 && ok == EventsOf(body, maxLine, maxEvent, decode).1
    ensures ChunkedCoding.Decode(wire, readSize).1.Failed? ==> !ok
  {
    var pieces, end := ChunkedCoding.AiterChunked(ChunkedCoding.ReadHeader, wire, readSize);
    var lines, lineEnd := LineSplitting.AiterLines(pieces, maxLine, decode);
    var eventEnd;
    events, eventEnd := Sse.EventSource(lines, maxEvent);
    ok := end.Complete? && lineEnd == LineSplitting.Exhausted && eventEnd == Sse.Exhausted;
  }

  /**
   Transparency: for any chunks and any positive read size, the client gets the
   events of the bytes that the server wrote up to its first empty chunk, all of
   them if it wrote none. How it cut the bytes into chunks, and how the client
   reads them, makes no difference.
   */
  method SendAndReceive(
      chunks: seq<seq<Byte>>, readSize: nat, maxLine: Option<int>, maxEvent: Option<int>,
      decode: seq<Byte> -> string)
    returns (events: seq<Sse.Event>, ok: bool)
    requires readSize > 0
    ensures
      var body := Concat(ChunkedCoding.UpToEmpty(chunks));
      && events == EventsOf(body, maxLine, maxEvent, decode).0
      && ok == EventsOf(body, maxLine, maxEvent, decode).1
      && ([] !in chunks ==> body == Concat(chunks))
  {
    var wire := ChunkedCoding.WriteChunks(chunks);
    events, ok := ReceiveEvents(wire, readSize, maxLine, maxEvent, decode);
    assert wire + [] == wire;
    ChunkedCoding.DecodeUndoesEncode(chunks, [], readSize);
    if [] !in chunks {
      NoEmptyChunk(chunks);
    }
  }

  lemma {:induction false} NoEmptyChunk(chunks: seq<seq<Byte>>)
    requires [] !in chunks
    ensures ChunkedCoding.UpToEmpty(chunks) == chunks
  {
    if chunks != [] {
      assert chunks[0] in chunks;
      NoEmptyChunk(chunks[1..]);
    }
  }

  // ------------------------------------------------------------------------
  // Events there and back
  // ------------------------------------------------------------------------

  /** Lines as text, each ended by a line feed. */
  function TextOf(lines: seq<string>): string
  {
    if lines == [] then "" else lines[0] + "\n" + TextOf(lines[1..])
  }

  predicate Clean(s: string)
  {
    '\r' !in s && '\n' !in s
  }

  /** The client's decoder reads UTF-8. */
  ghost predicate DecodesUtf8(decode: seq<Byte> -> string)
  {
    forall s: string :: decode(Utf8(s)) == s
  }

  lemma NoCarriageReturn(s: string)
    requires '\r' !in s
    ensures LineSplitting.StripCR(s) == s
  {
  }

  lemma {:induction false} FirstLineBytes(l: string, more: string)
    requires '\n' !in l
    ensures Utf8(l + "\n" + more) == Utf8(l) + [LF] + Utf8(more)
    ensures ReadLine(Utf8(l) + [LF] + Utf8(more)) == Utf8(l) + [LF]
    ensures LineSplitting.Chop(Utf8(l) + [LF]) == Utf8(l)
  {
    Utf8Append(l, "\n" + more);
    Utf8Append("\n", more);
    assert Utf8("\n") == [LF];
    assert l + "\n" + more == l + ("\n" + more);
    Utf8Newlines(l);
    LineLengthAt(Utf8(l) + [LF] + Utf8(more), |Utf8(l)| + 1);
  }

  /** The bytes of clean lines split back into those lines. */
  lemma {:induction false} LinesComeBack(lines: seq<string>, maxLine: Option<int>, decode: seq<Byte> -> string)
    requires DecodesUtf8(decode)
    requires forall l :: l in lines ==> Clean(l)
    requires maxLine.Some? ==> forall l :: l in lines ==> |Utf8(l)| < maxLine.value
    ensures LineSplitting.Yield(Utf8(TextOf(lines)), maxLine, decode) == (lines, true)
    decreases |lines|
  {
    if lines != [] {
      var l, more := lines[0], TextOf(lines[1..]);
      assert l in lines;
      FirstLineBytes(l, more);
      var body := Utf8(l) + [LF] + Utf8(more);
      assert body[|Utf8(l) + [LF]|..] == Utf8(more);
      NoCarriageReturn(l);
      LinesComeBack(lines[1..], maxLine, decode);
      assert LineSplitting.Text(Utf8(l) + [LF], decode) == l;
      assert lines == [l] + lines[1..];
    }
  }

  /** Events that survive a line-based transport: no line breaks in type or id, no CR in data. */
  predicate Transportable(e: Sse.Event)
  {
    Clean(e.event) && Clean(e.id) && '\r' !in e.data
  }

  lemma {:induction false} SplitIsClean(s: string)
    requires '\r' !in s
    ensures forall part :: part in Sse.SplitLF(s) ==> Clean(part)
  {
    if s != "" {
      SplitIsClean(s[1..]);
      var rest := Sse.SplitLF(s[1..]);
      assert rest[0] in rest;
      assert s[0] in s;
    }
  }

  lemma {:induction false} DataLinesClean(parts: seq<string>)
    requires forall part :: part in parts ==> Clean(part)
    ensures forall l :: l in Sse.DataLines(parts) ==> Clean(l)
  {
    if parts != [] {
      assert parts[0] in parts;
      DataLinesClean(parts[1..]);
      assert Clean("data" + ": " + parts[0]);
    }
  }

  lemma PrintIsClean(e: Sse.Event)
    requires Transportable(e)
    ensures forall l :: l in Sse.Print(e) ==> Clean(l)
  {
    SplitIsClean(e.data);
    DataLinesClean(Sse.SplitLF(e.data));
    assert Clean(Sse.FieldLine("event", e.event)) && Clean(Sse.FieldLine("id", e.id)) && Clean("");
    if e.retry.Some? {
      DecimalRoundTrip(e.retry.value);
      assert Clean(Sse.FieldLine("retry", Decimal(e.retry.value)));
    }
  }

  lemma {:induction false} PrintAllIsClean(events: seq<Sse.Event>)
    requires forall e :: e in events ==> Transportable(e)
    ensures forall l :: l in Sse.PrintAll(events) ==> Clean(l)
  {
    if events != [] {
      PrintIsClean(events[0]);
      PrintAllIsClean(events[1..]);
    }
  }

  /**
   End to end: whatever list of events is printed as lines, encoded as UTF-8,
   cut in any way into chunks before the first empty one and read in pieces of
   any size, the client receives exactly that list, unless it is given a limit
   that is not positive.
   */
  lemma EventsArrive(
      events: seq<Sse.Event>, chunks: seq<seq<Byte>>, readSize: nat,
      maxLine: Option<int>, maxEvent: Option<int>, decode: seq<Byte> -> string)
    requires readSize > 0 && DecodesUtf8(decode)
    requires Concat(ChunkedCoding.UpToEmpty(chunks)) == Utf8(TextOf(Sse.PrintAll(events)))
    requires Sse.Printable(events, None, maxEvent)
    requires forall e :: e in events ==> Transportable(e)
    requires maxLine.Some? ==> forall l :: l in Sse.PrintAll(events) ==> |Utf8(l)| < maxLine.value
    ensures
      var (pieces, end) := ChunkedCoding.Decode(ChunkedCoding.Encode(chunks), readSize);
      && end.Complete?
      && EventsOf(Concat(pieces), maxLine, maxEvent, decode) ==
           if Sse.BadLimit(maxEvent) || LineSplitting.BadLimit(maxLine) then ([], false) else (events, true)
  {
    var wire := ChunkedCoding.Encode(chunks);
    assert wire + [] == wire;
    ChunkedCoding.DecodeUndoesEncode(chunks, [], readSize);
    PrintAllIsClean(events);
    LinesComeBack(Sse.PrintAll(events), maxLine, decode);
    Sse.PrintedEventsParseBack(events, maxEvent);
  }

  // ------------------------------------------------------------------------
  // The standard's lines
  // ------------------------------------------------------------------------

  function Prepend(c: char, lines: seq<string>): seq<string>
  {
    if lines == [] then [[c]] else [[c] + lines[0]] + lines[1..]
  }

  /**
   Section 9.2.5: a line ends at CRLF, at LF, or at CR. What follows the last
   line end counts as a line too; it is never blank, so it dispatches nothing.
   */
  function StandardLines(s: string): seq<string>
    decreases |s|
  {
    if s == "" then []
    else if s[0] == '\n' then [""] + StandardLines(s[1..])
    else if s[0] == '\r' then [""] + StandardLines(if |s| > 1 && s[1] == '\n' then s[2..] else s[1..])
    else Prepend(s[0], StandardLines(s[1..]))
  }

  /** A text cut at its line feeds. */
  function CutAtLF(s: string): seq<string>
  {
    if s == "" then []
    else if s[0] == '\n' then [""] + CutAtLF(s[1..])
    else Prepend(s[0], CutAtLF(s[1..]))
  }

  function StripAll(lines: seq<string>): seq<string>
  {
    if lines == [] then [] else [LineSplitting.StripCR(lines[0])] + StripAll(lines[1..])
  }

  /** The client's lines of a text: cut at LF alone, and every trailing CR stripped. */
  function ClientLines(s: string): seq<string>
  {
    StripAll(CutAtLF(s))
  }

  /** Every CR stands before an LF or at the very end. */
  predicate NoLoneCR(s: string)
  {
    forall i :: 0 <= i < |s| - 1 && s[i] == '\r' ==> s[i + 1] == '\n'
  }

  lemma {:induction false} CutLine(l: string, more: string)
    requires '\n' !in l
    ensures CutAtLF(l + "\n" + more) == [l] + CutAtLF(more)
    ensures CutAtLF(l) == if l == "" then [] else [l]
  {
    if l == "" {
      assert l + "\n" + more == "\n" + more;
      assert ("\n" + more)[1..] == more;
    } else {
      CutLine(l[1..], more);
      assert (l + "\n" + more)[1..] == l[1..] + "\n" + more;
      assert [l[0]] + l[1..] == l;
      if l[1..] == "" {
        assert l == [l[0]];
      }
    }
  }

  lemma FirstLineYields(l: string, more: string, decode: seq<Byte> -> string)
    requires DecodesUtf8(decode) && '\n' !in l
    ensures
      var (texts, fits) := LineSplitting.Yield(Utf8(more), None, decode);
      LineSplitting.Yield(Utf8(l + "\n" + more), None, decode) == ([LineSplitting.StripCR(l)] + texts, fits)
  {
    FirstLineBytes(l, more);
    var body := Utf8(l) + [LF] + Utf8(more);
    assert body[|Utf8(l) + [LF]|..] == Utf8(more);
  }

  lemma LastLineYields(s: string, decode: seq<Byte> -> string)
    requires DecodesUtf8(decode) && '\n' !in s && s != ""
    ensures LineSplitting.Yield(Utf8(s), None, decode) == ([LineSplitting.StripCR(s)], true)
  {
    var body := Utf8(s);
    Utf8Newlines(s);
    LineShape(body);
    assert body != [] && ReadLine(body) == body && body[|body|..] == [];
    assert body[|body| - 1] != LF && LineSplitting.Chop(body) == body;
    assert LineSplitting.Text(body, decode) == LineSplitting.StripCR(s);
    assert LineSplitting.Yield(body[|body|..], None, decode) == ([], true);
    assert [LineSplitting.StripCR(s)] + [] == [LineSplitting.StripCR(s)];
  }

  lemma ClientLinesOf(l: string, more: string)
    requires '\n' !in l
    ensures ClientLines(l + "\n" + more) == [LineSplitting.StripCR(l)] + ClientLines(more)
    ensures l != "" ==> ClientLines(l) == [LineSplitting.StripCR(l)]
  {
    CutLine(l, more);
    assert ([l] + CutAtLF(more))[1..] == CutAtLF(more);
    assert StripAll([l][1..]) == [] && [LineSplitting.StripCR(l)] + [] == [LineSplitting.StripCR(l)];
  }

  /** The bytes of a text yield the client's lines of that text. */
  lemma {:induction false} BytesYieldClientLines(s: string, decode: seq<Byte> -> string)
    requires DecodesUtf8(decode)
    ensures LineSplitting.Yield(Utf8(s), None, decode) == (ClientLines(s), true)
    decreases |s|
  {
    var i := FirstLF(s);
    var l := s[..i];
    if i < |s| {
      var more := s[i + 1..];
      assert s == l + "\n" + more;
      ClientLinesOf(l, more);
      FirstLineYields(l, more, decode);
      BytesYieldClientLines(more, decode);
    } else if s != "" {
      assert s == l;
      ClientLinesOf(s, "");
      LastLineYields(s, decode);
    }
  }

  function FirstLF(s: string): (i: nat)
    ensures i <= |s| && '\n' !in s[..i] && (i < |s| ==> s[i] == '\n')
  {
    if s == "" || s[0] == '\n' then 0
    else
      var i := FirstLF(s[1..]);
      assert s[..i + 1] == [s[0]] + s[1..][..i];
      1 + i
  }

  lemma {:induction false} StripFront(c: char, l: string)
    ensures LineSplitting.StripCR([c] + l) ==
      if c == '\r' && LineSplitting.StripCR(l) == "" then "" else [c] + LineSplitting.StripCR(l)
    decreases |l|
  {
    if l != "" && l[|l| - 1] == '\r' {
      assert ([c] + l)[..|l|] == [c] + l[..|l| - 1];
      StripFront(c, l[..|l| - 1]);
    } else {
      assert c == '\r' ==> LineSplitting.StripCR([c]) == "" by {
        assert [c][..0] == "";
      }
    }
  }

  /** The client's lines, one character at a time. */
  lemma ClientStep(s: string)
    requires s != ""
    ensures
      var rest := ClientLines(s[1..]);
      && (s[0] == '\n' ==> ClientLines(s) == [""] + rest)
      && (s[0] != '\n' && s[0] != '\r' ==> ClientLines(s) == Prepend(s[0], rest))
      && (s[0] == '\r' ==> |ClientLines(s)| == if rest == [] then 1 else |rest|)
      && (s[0] == '\r' && (rest == [] || rest[0] == "") ==>
            ClientLines(s) == [""] + if rest == [] then [] else rest[1..])
    ensures ClientLines(s) != []
  {
    var cut := CutAtLF(s[1..]);
    if s[0] == '\n' {
      assert ([""] + cut)[1..] == cut;
    } else if cut == [] {
      StripFront(s[0], "");
      assert [s[0]] + "" == [s[0]];
      assert [[s[0]]][1..] == [];
    } else {
      StripFront(s[0], cut[0]);
      assert ([[s[0]] + cut[0]] + cut[1..])[1..] == cut[1..];
      StripAllLength(cut[1..]);
    }
  }

  lemma {:induction false} StripAllLength(lines: seq<string>)
    ensures |StripAll(lines)| == |lines|
  {
    if lines != [] {
      StripAllLength(lines[1..]);
    }
  }

  /** The standard sees no fewer lines, and as many, then the same, exactly without lone CRs. */
  lemma {:induction false} LinesCompared(s: string)
    ensures |StandardLines(s)| >= |ClientLines(s)|
    ensures |StandardLines(s)| == |ClientLines(s)| <==> NoLoneCR(s)
    ensures NoLoneCR(s) ==> StandardLines(s) == ClientLines(s)
    decreases |s|
  {
    if s != "" {
      var t := s[1..];
      ClientStep(s);
      LinesCompared(t);
      assert forall i :: 0 <= i < |t| ==> t[i] == s[i + 1];
      if t != "" {
        ClientStep(t);
      }
      if s[0] == '\r' && t != "" && t[0] == '\n' {
        assert s[2..] == t[1..];
        LinesCompared(t[1..]);
        assert forall i :: 0 <= i < |t[1..]| ==> t[1..][i] == s[i + 2];
        assert ([""] + ClientLines(t[1..]))[1..] == ClientLines(t[1..]);
      } else if s[0] == '\r' && t != "" {
        assert !NoLoneCR(s);
      }
    }
  }

  /** The client's lines of a UTF-8 body are the standard's if and only if the text has no lone CR. */
  lemma LinesAreStandard(s: string, decode: seq<Byte> -> string)
    requires DecodesUtf8(decode)
    ensures LineSplitting.Yield(Utf8(s), None, decode).0 == StandardLines(s) <==> NoLoneCR(s)
  {
    BytesYieldClientLines(s, decode);
    LinesCompared(s);
  }

  /**
   From bytes to events: on a UTF-8 body without lone CRs the client's events
   are the standard's if and only if none inherits a stale type.
   */
  lemma EventsAreStandard(s: string, decode: seq<Byte> -> string)
    requires DecodesUtf8(decode) && NoLoneCR(s)
    ensures
      var lines := StandardLines(s);
      EventsOf(Utf8(s), None, None, decode).0 == Sse.StandardEvents(lines) <==>
      !Sse.StaleType(Sse.Fields(true, lines), "", false, false)
  {
    LinesAreStandard(s, decode);
    Sse.AgreesWithStandard(StandardLines(s));
  }

  // ------------------------------------------------------------------------
  // A lone CR
  // ------------------------------------------------------------------------

  /** A line of the standard's, ended by CR or LF. */
  lemma {:induction false} StandardLine(l: string, end: char, more: string)
    requires Clean(l) && (end == '\n' || (end == '\r' && (more == "" || more[0] != '\n')))
    ensures StandardLines(l + [end] + more) == [l] + StandardLines(more)
  {
    var s := l + [end] + more;
    if l == "" {
      assert s == [end] + more && s[1..] == more;
    } else {
      assert s[1..] == l[1..] + [end] + more;
      StandardLine(l[1..], end, more);
      assert ([l[1..]] + StandardLines(more))[1..] == StandardLines(more);
      assert [l[0]] + l[1..] == l;
    }
  }

  /** One data line and a blank one: the client's event. */
  lemma OneDataLine(value: string)
    ensures Sse.Parse(Sse.Fresh(None), [Sse.FieldLine("data", value)] + [""]).0 ==
      [Sse.Event("message", value, "", None)]
  {
    Sse.DataLineFirst(value, [""]);
    Sse.FieldsOfOne("");
    Sse.ParseIsConsume(Sse.Fresh(None), [Sse.FieldLine("data", value)] + [""]);
    Sse.OneDataField(Sse.Fresh(None).(firstLine := false), value);
  }

  /** Two data lines and a blank one: the standard's event. */
  lemma TwoDataLines(a: string, b: string)
    ensures Sse.StandardEvents([Sse.FieldLine("data", a)] + ([Sse.FieldLine("data", b)] + [""])) ==
      [Sse.Event("message", a + "\n" + b, "", None)]
  {
    Sse.DataLineFirst(a, [Sse.FieldLine("data", b)] + [""]);
    Sse.DataLineFirst(b, [""]);
    Sse.FieldsOfOne("");
    Sse.TwoDataFields(a, b);
    Sse.StandardIsFields([Sse.FieldLine("data", a)] + ([Sse.FieldLine("data", b)] + [""]));
  }

  /** The client's reading: a single line. */
  lemma LoneCRForClient(a: string, b: string)
    requires Clean(a) && Clean(b)
    ensures
      var s := Sse.FieldLine("data", a) + "\r" + Sse.FieldLine("data", b) + "\n" + "\n";
      ClientLines(s) == [Sse.FieldLine("data", a + "\r" + Sse.FieldLine("data", b))] + [""]
  {
    var value := a + "\r" + Sse.FieldLine("data", b);
    var line := Sse.FieldLine("data", value);
    assert line == Sse.FieldLine("data", a) + "\r" + Sse.FieldLine("data", b);
    assert Clean(Sse.FieldLine("data", a)) && Clean(Sse.FieldLine("data", b));
    assert line[|line| - 1] == Sse.FieldLine("data", b)[|Sse.FieldLine("data", b)| - 1];
    assert LineSplitting.StripCR(line) == line;
    ClientLinesOf(line, "\n");
    BlankClientLine();
  }

  lemma BlankClientLine()
    ensures ClientLines("\n") == [""]
  {
    ClientLinesOf("", "");
    assert "" + "\n" + "" == "\n";
  }

  /** The standard's reading: two lines. */
  lemma LoneCRForStandard(a: string, b: string)
    requires Clean(a) && Clean(b)
    ensures
      var s := Sse.FieldLine("data", a) + "\r" + Sse.FieldLine("data", b) + "\n" + "\n";
      StandardLines(s) == [Sse.FieldLine("data", a)] + ([Sse.FieldLine("data", b)] + [""])
  {
    var first, second := Sse.FieldLine("data", a), Sse.FieldLine("data", b);
    assert Clean(first) && Clean(second);
    var more := second + "\n" + "\n";
    assert first + "\r" + second + "\n" + "\n" == first + ['\r'] + more;
    assert more == second + ['\n'] + "\n";
    StandardLine(first, '\r', more);
    StandardLine(second, '\n', "\n");
    StandardLine("", '\n', "");
    assert "" + ['\n'] + "" == "\n";
  }

  /** Two data lines with a lone CR between them are two lines to the standard and one to the client. */
  lemma LoneCRExample(a: string, b: string, decode: seq<Byte> -> string)
    requires DecodesUtf8(decode) && Clean(a) && Clean(b)
    ensures
      var s := Sse.FieldLine("data", a) + "\r" + Sse.FieldLine("data", b) + "\n" + "\n";
      && EventsOf(Utf8(s), None, None, decode).0 ==
           [Sse.Event("message", a + "\r" + Sse.FieldLine("data", b), "", None)]
      && Sse.StandardEvents(StandardLines(s)) == [Sse.Event("message", a + "\n" + b, "", None)]
  {
    var s := Sse.FieldLine("data", a) + "\r" + Sse.FieldLine("data", b) + "\n" + "\n";
    BytesYieldClientLines(s, decode);
    LoneCRForClient(a, b);
    OneDataLine(a + "\r" + Sse.FieldLine("data", b));
    LoneCRForStandard(a, b);
    TwoDataLines(a, b);
  }
}
