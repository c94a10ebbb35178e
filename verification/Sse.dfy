/**
 The server-sent-events line parser, with its byte limit, against the event
 stream interpretation of section 9.2.6 of the WHATWG HTML Living Standard.
 Digits of a retry field are ASCII digits.
 */
module ServerSentEvents {
  import opened Common
  import opened Bytes

  const BOM: char := '\U{FEFF}'

  datatype Event = Event(event: string, data: string, id: string, retry: Option<nat>)

  /** The limit was exceeded by an event of `actual` bytes. */
  datatype LimitError = EventTooLarge(limit: int, actual: nat)

  // ------------------------------------------------------------------------
  // Lines as fields
  // ------------------------------------------------------------------------

  datatype Field =
    | Blank
    | EventName(name: string)
    | Data(value: string)
    | Id(id: string)
    | Retry(ms: nat)
    | Ignored

  /** The position of the first colon, or the length of the line. */
  function ColonAt(line: string): (i: nat)
    ensures i <= |line| && (i < |line| ==> line[i] == ':')
  {
    if line == "" || line[0] == ':' then 0 else 1 + ColonAt(line[1..])
  }

  function FieldValue(line: string): string
  {
    var i := ColonAt(line);
    if i == |line| then ""
    else if i + 1 < |line| && line[i + 1] == ' ' then line[i + 2..]
    else line[i + 1..]
  }

  function FieldOf(field: string, value: string): Field
  {
    if field == "event" then EventName(value)
    else if field == "data" then Data(value)
    else if field == "id" then (if '\0' in value then Ignored else Id(value))
    else if field == "retry" then (if IsDigits(value) && value != "" then Retry(DecimalValue(value)) else Ignored)
    else Ignored
  }

  function Classify(line: string): Field
  {
    if line == "" then Blank
    else if line[0] == ':' then Ignored
    else FieldOf(line[..ColonAt(line)], FieldValue(line))
  }

  function StripBom(line: string): string
  {
    if line != "" && line[0] == BOM then line[1..] else line
  }

  // ------------------------------------------------------------------------
  // The parser
  // ------------------------------------------------------------------------

  datatype Parser = Parser(
    eventType: string,
    data: seq<string>,
    lastId: string,
    retry: Option<nat>,
    firstLine: bool,
    limit: Option<int>,
    bytes: nat)

  function Fresh(limit: Option<int>): Parser
  {
    Parser("", [], "", None, true, limit, 0)
  }

  /** `"\n".join(parts)`. */
  function Join(parts: seq<string>): string
  {
    if parts == [] then ""
    else if |parts| == 1 then parts[0]
    else parts[0] + "\n" + Join(parts[1..])
  }

  function Dispatch(p: Parser): (Parser, Option<Event>)
  {
    if p.data == [] then (p, None)
    else
      (p.(eventType := "", data := [], bytes := 0),
       Some(Event(if p.eventType == "" then "message" else p.eventType, Join(p.data), p.lastId, p.retry)))
  }

  /** One field of the stream. */
  function Step(p: Parser, f: Field): (Parser, Result<Option<Event>, LimitError>)
  {
    match f
    case Blank => var (q, e) := Dispatch(p); (q, Ok(e))
    case EventName(v) => (p.(eventType := v), Ok(None))
    case Data(v) =>
      var size := p.bytes + |Utf8(v)| + (if p.data == [] then 0 else 1);
      if p.limit.Some? && size > p.limit.value then (p, Err(EventTooLarge(p.limit.value, size)))
      else (p.(data := p.data + [v], bytes := size), Ok(None))
    case Id(v) => (p.(lastId := v), Ok(None))
    case Retry(ms) => (p.(retry := Some(ms)), Ok(None))
    case Ignored => (p, Ok(None))
  }

  function Feed(p: Parser, line: string): (Parser, Result<Option<Event>, LimitError>)
  {
    Step(p.(firstLine := false), Classify(if p.firstLine then StripBom(line) else line))
  }

  class SseParser {
    var eventType: string
    var dataBuf: seq<string>
    var lastId: string
    var retry: Option<nat>
    var firstLine: bool
    const maxEventBytes: Option<int>
    var eventBytes: nat

    ghost function State(): Parser
      reads this
    {
      Parser(eventType, dataBuf, lastId, retry, firstLine, maxEventBytes, eventBytes)
    }

    constructor (id: string, interval: Option<nat>, limit: Option<int>)
      requires limit.Some? ==> limit.value > 0
      ensures State() == Fresh(limit).(lastId := id, retry := interval)
    {
      maxEventBytes := limit;
      eventType, dataBuf, lastId, retry, firstLine, eventBytes := "", [], id, interval, true, 0;
    }

    method DispatchEvent() returns (event: Option<Event>)
      modifies this
      ensures (State(), event) == Dispatch(old(State()))
    {
      if dataBuf == [] {
        return None;
      }
      var kind := if eventType == "" then "message" else eventType;
      event := Some(Event(kind, Join(dataBuf), lastId, retry));
      eventType := "";
      dataBuf := [];
      eventBytes := 0;
    }

    method ProcessField(field: string, value: string) returns (r: Result<Option<Event>, LimitError>)
      modifies this
      ensures (State(), r) == Step(old(State()), FieldOf(field, value))
    {
      if field == "event" {
        eventType := value;
      } else if field == "data" {
        var size := eventBytes + |Utf8(value)|;
        if dataBuf != [] {
          size := size + 1;
        }
        if maxEventBytes.Some? && size > maxEventBytes.value {
          return Err(EventTooLarge(maxEventBytes.value, size));
        }
        dataBuf := dataBuf + [value];
        eventBytes := size;
      } else if field == "id" {
        if '\0' !in value {
          lastId := value;
        }
      } else if field == "retry" {
        if IsDigits(value) && value != "" {
          retry := Some(DecimalValue(value));
        }
      }
      return Ok(None);
    }

    method FeedLine(text: string) returns (r: Result<Option<Event>, LimitError>)
      modifies this
      ensures (State(), r) == Feed(old(State()), text)
    {
      var line := text;
      if firstLine {
        firstLine := false;
        if line != "" && line[0] == BOM {
          line := line[1..];
        }
      }
      if line == "" {
        var event := DispatchEvent();
        return Ok(event);
      }
      if line[0] == ':' {
        return Ok(None);
      }
      var colon := ColonAt(line);
      var field, value := line[..colon], "";
      if colon < |line| {
        value := line[colon + 1..];
        if value != "" && value[0] == ' ' {
          value := value[1..];
        }
      }
      assert value == FieldValue(line);
      r := ProcessField(field, value);
    }
  }

  predicate BadLimit(limit: Option<int>)
  {
    limit.Some? && limit.value <= 0
  }

  /** `_SSEParser(...)`; None is its ValueError. */
  method NewParser(id: string, interval: Option<nat>, limit: Option<int>) returns (parser: Option<SseParser>)
    ensures parser.None? <==> BadLimit(limit)
    ensures parser.Some? ==>
      fresh(parser.value) && parser.value.State() == Fresh(limit).(lastId := id, retry := interval)
  {
    if BadLimit(limit) {
      return None;
    }
    var p := new SseParser(id, interval, limit);
    return Some(p);
  }

  /** How an `EventSource` ends: with its lines, on an event beyond the limit, or at once on a bad limit. */
  datatype End = Exhausted | OverLimit | InvalidLimit

  /** What an `EventSource` over `lines` yields, and whether it reached the end without a limit error. */
  function Parse(p: Parser, lines: seq<string>): (seq<Event>, bool)
    decreases |lines|
  {
    if lines == [] then ([], true) else
    var (q, r) := Feed(p, lines[0]);
    match r
    case Err(_) => ([], false)
    case Ok(event) =>
      var (events, done) := Parse(q, lines[1..]);
      ((if event.Some? then [event.value] else []) + events, done)
  }

  /** A stream as fields; only the first line of a stream loses a byte order mark. */
  function Fields(first: bool, lines: seq<string>): seq<Field>
  {
    if lines == [] then [] else [Classify(if first then StripBom(lines[0]) else lines[0])] + Fields(false, lines[1..])
  }

  /** What the parser yields for a stream of fields. */
  function Consume(p: Parser, fields: seq<Field>): (seq<Event>, bool)
    decreases |fields|
  {
    if fields == [] then ([], true) else
    var (q, r) := Step(p, fields[0]);
    match r
    case Err(_) => ([], false)
    case Ok(event) =>
      var (events, done) := Consume(q, fields[1..]);
      ((if event.Some? then [event.value] else []) + events, done)
  }

  lemma {:induction false} ParseIsConsume(p: Parser, lines: seq<string>)
    ensures Parse(p, lines) == Consume(p.(firstLine := false), Fields(p.firstLine, lines))
    decreases |lines|
  {
    if lines != [] {
      var f := Classify(if p.firstLine then StripBom(lines[0]) else lines[0]);
      var q := Step(p.(firstLine := false), f).0;
      StepKeepsFirstLine(p.(firstLine := false), f);
      ParseIsConsume(q, lines[1..]);
      ConsumeOne(p.(firstLine := false), f, Fields(false, lines[1..]));
    }
  }

  lemma StepKeepsFirstLine(p: Parser, f: Field)
    ensures Step(p, f).0.firstLine == p.firstLine
  {
  }

  /** `events` have been yielded and the parser stands at `p` before `rest`. */
  ghost predicate Progress(all: (seq<Event>, bool), events: seq<Event>, p: Parser, rest: seq<string>)
  {
    all.0 == events + Parse(p, rest).0 && all.1 == Parse(p, rest).1
  }

  lemma LineFed(all: (seq<Event>, bool), events: seq<Event>, p: Parser, rest: seq<string>)
    requires Progress(all, events, p, rest) && rest != []
    ensures
      var (q, r) := Feed(p, rest[0]);
      match r
      case Err(_) => all.0 == events && !all.1
      case Ok(e) => Progress(all, if e.Some? then events + [e.value] else events, q, rest[1..])
  {
  }

  method EventSource(lines: seq<string>, limit: Option<int>) returns (events: seq<Event>, end: End)
    ensures end == InvalidLimit <==> BadLimit(limit)
    ensures BadLimit(limit) ==> events == []
    ensures !BadLimit(limit) ==>
      events == Parse(Fresh(limit), lines).0 && (end == Exhausted <==> Parse(Fresh(limit), lines).1)
  {
    var created := NewParser("", None, limit);
    events := [];
    if created.None? {
      return events, InvalidLimit;
    }
    var parser := created.value;
    ghost var all := Parse(Fresh(limit), lines);
    for i := 0 to |lines|
      invariant fresh(parser)
      invariant Progress(all, events, parser.State(), lines[i..])
    {
      LineFed(all, events, parser.State(), lines[i..]);
      var r := parser.FeedLine(lines[i]);
      if r.Err? {
        return events, OverLimit;
      }
      if r.value.Some? {
        events := events + [r.value.value];
      }
      assert lines[i..][1..] == lines[i + 1..];
    }
    end := Exhausted;
  }

  // ------------------------------------------------------------------------
  // The byte counter
  // ------------------------------------------------------------------------

  lemma {:induction false} JoinAppend(parts: seq<string>, last: string)
    requires parts != []
    ensures Join(parts + [last]) == Join(parts) + "\n" + last
  {
    if |parts| > 1 {
      assert (parts + [last])[1..] == parts[1..] + [last];
      JoinAppend(parts[1..], last);
    } else {
      assert parts + [last] == [parts[0], last];
    }
  }

  /** The counter is the UTF-8 size of the data collected so far, joined, and within the limit. */
  ghost predicate Counted(p: Parser)
  {
    && p.bytes == |Utf8(Join(p.data))|
    && (p.limit.Some? ==> 0 <= p.bytes <= p.limit.value)
  }

  lemma StepCounts(p: Parser, f: Field)
    requires Counted(p)
    ensures Step(p, f).0.limit == p.limit
    ensures Step(p, f).1.Ok? ==> Counted(Step(p, f).0)
    ensures Step(p, f).1.Ok? && Step(p, f).1.value.Some? && p.limit.Some? ==>
      |Utf8(Step(p, f).1.value.value.data)| <= p.limit.value
    ensures Step(p, f).1.Err? <==> f.Data? && p.limit.Some? && |Utf8(Join(p.data + [f.value]))| > p.limit.value
    ensures Step(p, f).1.Err? ==>
      Step(p, f).0 == p && Step(p, f).1.error == EventTooLarge(p.limit.value, |Utf8(Join(p.data + [f.value]))|)
  {
    if f.Data? && p.data != [] {
      JoinAppend(p.data, f.value);
      Utf8Append(Join(p.data), "\n" + f.value);
      Utf8Append("\n", f.value);
      assert Utf8("\n") == [LF];
      assert Join(p.data) + "\n" + f.value == Join(p.data) + ("\n" + f.value);
    }
  }

  lemma {:induction false} ConsumeWithinLimit(p: Parser, fields: seq<Field>)
    requires Counted(p)
    ensures p.limit.Some? ==> forall e :: e in Consume(p, fields).0 ==> |Utf8(e.data)| <= p.limit.value
    decreases |fields|
  {
    if fields != [] {
      StepCounts(p, fields[0]);
      if Step(p, fields[0]).1.Ok? {
        ConsumeWithinLimit(Step(p, fields[0]).0, fields[1..]);
      }
    }
  }

  /** No dispatched event exceeds the limit, for any lines. */
  lemma EventsWithinLimit(lines: seq<string>, limit: int)
    requires limit > 0
    ensures forall e :: e in Parse(Fresh(Some(limit)), lines).0 ==> |Utf8(e.data)| <= limit
  {
    ParseIsConsume(Fresh(Some(limit)), lines);
    ConsumeWithinLimit(Fresh(Some(limit)).(firstLine := false), Fields(true, lines));
  }

  /** The limit only ever stops a parse: what was yielded before is a prefix of what the unlimited parser yields. */
  lemma {:induction false} LimitOnlyStops(p: Parser, fields: seq<Field>)
    ensures Consume(p, fields).0 <= Consume(p.(limit := None), fields).0
    ensures Consume(p, fields).1 ==> Consume(p, fields) == Consume(p.(limit := None), fields)
    decreases |fields|
  {
    if fields != [] {
      var (q, r) := Step(p, fields[0]);
      if r.Ok? {
        assert Step(p.(limit := None), fields[0]) == (q.(limit := None), r);
        LimitOnlyStops(q, fields[1..]);
      }
    }
  }

  // ------------------------------------------------------------------------
  // Printing and parsing back
  // ------------------------------------------------------------------------

  function SplitLF(s: string): (parts: seq<string>)
    ensures parts != []
  {
    if s == "" then [""]
    else if s[0] == '\n' then [""] + SplitLF(s[1..])
    else var rest := SplitLF(s[1..]); [[s[0]] + rest[0]] + rest[1..]
  }

  function FieldLine(name: string, value: string): string
  {
    name + ": " + value
  }

  function DataLines(parts: seq<string>): seq<string>
  {
    if parts == [] then [] else [FieldLine("data", parts[0])] + DataLines(parts[1..])
  }

  function RetryLines(retry: Option<nat>): seq<string>
  {
    if retry.Some? then [FieldLine("retry", Decimal(retry.value))] else []
  }

  /** The canonical text of an event: its type, its id, its retry if there is one, its data line by line. */
  function Print(e: Event): seq<string>
  {
    [FieldLine("event", e.event)] + ([FieldLine("id", e.id)] + (RetryLines(e.retry)
      + (DataLines(SplitLF(e.data)) + [""])))
  }

  function PrintAll(events: seq<Event>): seq<string>
  {
    if events == [] then [] else Print(events[0]) + PrintAll(events[1..])
  }

  /** Events a parser with this much state can have produced: retry, once given, stays given. */
  ghost predicate Printable(events: seq<Event>, retry: Option<nat>, limit: Option<int>)
  {
    && (forall e :: e in events ==> e.event != "" && '\0' !in e.id)
    && (limit.Some? ==> forall e :: e in events ==> |Utf8(e.data)| <= limit.value)
    && (events != [] && events[0].retry.None? ==> retry.None?)
    && (forall i :: 0 < i < |events| && events[i].retry.None? ==> events[i - 1].retry.None?)
  }

  lemma {:induction false} JoinSplit(s: string)
    ensures Join(SplitLF(s)) == s
  {
    if s != "" {
      JoinSplit(s[1..]);
      var rest := SplitLF(s[1..]);
      assert s == [s[0]] + s[1..];
      if s[0] == '\n' {
        assert SplitLF(s)[1..] == rest;
      } else {
        assert SplitLF(s)[1..] == rest[1..];
        assert Join(SplitLF(s)) == [s[0]] + Join(rest);
      }
    }
  }

  lemma {:induction false} ColonPosition(name: string, rest: string)
    requires ':' !in name
    ensures ColonAt(name + ":" + rest) == |name|
  {
    if name != "" {
      assert (name + ":" + rest)[1..] == name[1..] + ":" + rest;
      ColonPosition(name[1..], rest);
    }
  }

  lemma ClassifyPrinted(name: string, value: string)
    requires name != "" && ':' !in name
    ensures Classify(FieldLine(name, value)) == FieldOf(name, value)
  {
    PrintedParts(name, value);
    ClassifyField(FieldLine(name, value));
  }

  /**
   Every way to write a field: with or without one space behind the colon, which
   is not part of the value; without a colon, which makes the value empty; and
   the lines that are no fields.
   */
  lemma LineForms(name: string, value: string)
    requires name != "" && ':' !in name
    ensures Classify(name + ": " + value) == FieldOf(name, value)
    ensures (value == "" || value[0] != ' ') ==> Classify(name + ":" + value) == FieldOf(name, value)
    ensures Classify(name) == FieldOf(name, "")
    ensures Classify(":" + value) == Ignored
    ensures Classify("") == Blank
  {
    assert name + ": " + value == FieldLine(name, value);
    ClassifyPrinted(name, value);
    if value == "" || value[0] != ' ' {
      TightForm(name, value);
    }
    BareForm(name);
  }

  lemma TightForm(name: string, value: string)
    requires name != "" && ':' !in name && (value == "" || value[0] != ' ')
    ensures Classify(name + ":" + value) == FieldOf(name, value)
  {
    var line := name + ":" + value;
    assert name[0] in name;
    ColonPosition(name, value);
    assert line[..|name|] == name && line[|name| + 1..] == value;
    ClassifyField(line);
  }

  lemma BareForm(name: string)
    requires name != "" && ':' !in name
    ensures Classify(name) == FieldOf(name, "")
  {
    assert name[0] in name;
    NoColon(name);
    ClassifyField(name);
  }

  lemma {:induction false} NoColon(name: string)
    requires ':' !in name
    ensures ColonAt(name) == |name|
  {
    if name != "" {
      NoColon(name[1..]);
    }
  }

  /** What each field means: an id with a NUL and a retry that is no number are ignored, like unknown names. */
  lemma FieldMeanings(value: string, ms: nat, name: string)
    ensures FieldOf("event", value) == EventName(value)
    ensures FieldOf("data", value) == Data(value)
    ensures FieldOf("id", value) == if '\0' in value then Ignored else Id(value)
    ensures FieldOf("retry", Decimal(ms)) == Retry(ms)
    ensures value == "" || (exists c :: c in value && (c < '0' || c > '9')) ==> FieldOf("retry", value) == Ignored
    ensures name !in {"event", "data", "id", "retry"} ==> FieldOf(name, value) == Ignored
  {
    DecimalRoundTrip(ms);
    if c :| c in value && (c < '0' || c > '9') {
      var i :| 0 <= i < |value| && value[i] == c;
      assert !IsDigits(value);
    }
  }

  lemma PrintedParts(name: string, value: string)
    requires name != "" && ':' !in name
    ensures
      var line := FieldLine(name, value);
      line[0] != ':' && line[..ColonAt(line)] == name && FieldValue(line) == value
  {
    var line := FieldLine(name, value);
    assert line == name + ":" + (" " + value);
    ColonPosition(name, " " + value);
    assert line[..|name|] == name && line[|name| + 2..] == value;
    assert name[0] in name;
  }

  lemma ClassifyField(line: string)
    requires line != "" && line[0] != ':'
    ensures Classify(line) == FieldOf(line[..ColonAt(line)], FieldValue(line))
  {
  }

  lemma {:induction false} FieldsAppend(a: seq<string>, b: seq<string>)
    ensures Fields(false, a + b) == Fields(false, a) + Fields(false, b)
  {
    if a == [] {
      assert a + b == b;
    } else {
      assert (a + b)[1..] == a[1..] + b;
      FieldsAppend(a[1..], b);
    }
  }

  lemma FieldsOfOne(line: string)
    ensures Fields(false, [line]) == [Classify(line)]
  {
    assert [line][1..] == [];
  }

  /** A `data` line at the front of a stream or inside it. */
  lemma DataLineFirst(value: string, more: seq<string>)
    ensures forall first :: Fields(first, [FieldLine("data", value)] + more) == [Data(value)] + Fields(false, more)
  {
    var line := FieldLine("data", value);
    assert line[0] == 'd' && StripBom(line) == line;
    ClassifyPrinted("data", value);
    assert ([line] + more)[1..] == more;
  }

  function DataFields(parts: seq<string>): seq<Field>
  {
    if parts == [] then [] else [Data(parts[0])] + DataFields(parts[1..])
  }

  function RetryFields(retry: Option<nat>): seq<Field>
  {
    if retry.Some? then [Retry(retry.value)] else []
  }

  function EventFields(e: Event): seq<Field>
  {
    [EventName(e.event)] + ([Id(e.id)] + (RetryFields(e.retry) + (DataFields(SplitLF(e.data)) + [Blank])))
  }

  lemma {:induction false} FieldsOfData(parts: seq<string>)
    ensures Fields(false, DataLines(parts)) == DataFields(parts)
  {
    if parts != [] {
      ClassifyPrinted("data", parts[0]);
      FieldsOfOne(FieldLine("data", parts[0]));
      FieldsOfData(parts[1..]);
      FieldsAppend([FieldLine("data", parts[0])], DataLines(parts[1..]));
    }
  }

  lemma FieldsOfHead(e: Event)
    requires '\0' !in e.id
    ensures Fields(false, [FieldLine("event", e.event)]) == [EventName(e.event)]
    ensures Fields(false, [FieldLine("id", e.id)]) == [Id(e.id)]
    ensures Fields(false, RetryLines(e.retry)) == if e.retry.Some? then [Retry(e.retry.value)] else []
  {
    ClassifyPrinted("event", e.event);
    ClassifyPrinted("id", e.id);
    FieldsOfOne(FieldLine("event", e.event));
    FieldsOfOne(FieldLine("id", e.id));
    if e.retry.Some? {
      DecimalRoundTrip(e.retry.value);
      ClassifyPrinted("retry", Decimal(e.retry.value));
      FieldsOfOne(FieldLine("retry", Decimal(e.retry.value)));
    }
  }

  /** The lines an event is printed as are its fields. */
  lemma FieldsOfPrint(e: Event)
    requires '\0' !in e.id
    ensures Fields(false, Print(e)) == EventFields(e)
  {
    var parts := SplitLF(e.data);
    var tail := DataLines(parts) + [""];
    FieldsOfHead(e);
    FieldsOfData(parts);
    FieldsOfOne("");
    FieldsAppend(DataLines(parts), [""]);
    FieldsAppend(RetryLines(e.retry), tail);
    FieldsAppend([FieldLine("id", e.id)], RetryLines(e.retry) + tail);
    FieldsAppend([FieldLine("event", e.event)], [FieldLine("id", e.id)] + (RetryLines(e.retry) + tail));
  }

  function AllFields(events: seq<Event>): seq<Field>
  {
    if events == [] then [] else EventFields(events[0]) + AllFields(events[1..])
  }

  lemma FieldsOfPrintAll(events: seq<Event>, first: bool)
    requires forall e :: e in events ==> '\0' !in e.id
    ensures Fields(first, PrintAll(events)) == AllFields(events)
  {
    if events != [] {
      FieldsOfPrint(events[0]);
      FieldsOfPrintAll(events[1..], false);
      FieldsAppend(Print(events[0]), PrintAll(events[1..]));
      var lines := PrintAll(events);
      assert lines[0] == FieldLine("event", events[0].event) && lines[0][0] == 'e';
      assert StripBom(lines[0]) == lines[0];
    }
  }

  /** A field that dispatches nothing just moves the parser on. */
  lemma ConsumeOne(p: Parser, f: Field, more: seq<Field>)
    ensures
      var (q, r) := Step(p, f);
      Consume(p, [f] + more) ==
        match r
        case Err(_) => ([], false)
        case Ok(None) => Consume(q, more)
        case Ok(Some(e)) => ([e] + Consume(q, more).0, Consume(q, more).1)
  {
    assert ([f] + more)[1..] == more;
    var (q, r) := Step(p, f);
    assert [] + Consume(q, more).0 == Consume(q, more).0;
  }

  lemma {:induction false} JoinGrows(parts: seq<string>, more: seq<string>)
    requires parts != []
    ensures |Utf8(Join(parts))| <= |Utf8(Join(parts + more))|
    decreases |more|
  {
    if more == [] {
      assert parts + more == parts;
    } else {
      JoinAppend(parts, more[0]);
      Utf8Append(Join(parts), "\n" + more[0]);
      assert Join(parts) + "\n" + more[0] == Join(parts) + ("\n" + more[0]);
      assert parts + more == (parts + [more[0]]) + more[1..];
      JoinGrows(parts + [more[0]], more[1..]);
    }
  }

  /** The parser once it has collected `whole`. */
  function Holding(p: Parser, whole: seq<string>): Parser
  {
    p.(data := whole, bytes := |Utf8(Join(whole))|)
  }

  lemma DataCollected(p: Parser, held: seq<string>, part: string, more: seq<string>)
    requires p.limit.Some? ==> |Utf8(Join(held + [part] + more))| <= p.limit.value
    ensures Step(Holding(p, held), Data(part)) == (Holding(p, held + [part]), Ok(None))
  {
    JoinGrows(held + [part], more);
    StepCounts(Holding(p, held).(limit := None), Data(part));
  }

  /** Data fields whose parts fit the limit together are all collected. */
  lemma {:induction false} ConsumeData(p: Parser, held: seq<string>, parts: seq<string>, more: seq<Field>)
    requires p.limit.Some? ==> |Utf8(Join(held + parts))| <= p.limit.value
    ensures Consume(Holding(p, held), DataFields(parts) + more) == Consume(Holding(p, held + parts), more)
    decreases |parts|
  {
    if parts == [] {
      assert DataFields(parts) + more == more && held + parts == held;
    } else {
      assert held + [parts[0]] + parts[1..] == held + parts;
      DataCollected(p, held, parts[0], parts[1..]);
      var rest := DataFields(parts[1..]) + more;
      assert DataFields(parts) + more == [Data(parts[0])] + rest;
      ConsumeOne(Holding(p, held), Data(parts[0]), rest);
      ConsumeData(p, held + [parts[0]], parts[1..], more);
    }
  }

  /** The fields of one event come back as that event, and leave only id and retry behind. */
  lemma ConsumeEvent(p: Parser, e: Event, more: seq<Field>)
    requires e.event != "" && p.data == [] && p.bytes == 0
    requires e.retry.None? ==> p.retry.None?
    requires p.limit.Some? ==> |Utf8(e.data)| <= p.limit.value
    ensures
      var q := p.(eventType := "", lastId := e.id, retry := e.retry);
      Consume(p, EventFields(e) + more) == ([e] + Consume(q, more).0, Consume(q, more).1)
  {
    var data := DataFields(SplitLF(e.data)) + ([Blank] + more);
    assert EventFields(e) + more == [EventName(e.event)] + ([Id(e.id)] + (RetryFields(e.retry) + data));
    ConsumeHead(p, e, data);
    ConsumeBody(p.(eventType := e.event, lastId := e.id, retry := e.retry), e, more);
  }

  /** Type, id and retry are noted before the data. */
  lemma ConsumeHead(p: Parser, e: Event, data: seq<Field>)
    requires e.retry.None? ==> p.retry.None?
    ensures Consume(p, [EventName(e.event)] + ([Id(e.id)] + (RetryFields(e.retry) + data))) ==
      Consume(p.(eventType := e.event, lastId := e.id, retry := e.retry), data)
  {
    var retry := RetryFields(e.retry) + data;
    ConsumeOne(p, EventName(e.event), [Id(e.id)] + retry);
    ConsumeOne(p.(eventType := e.event), Id(e.id), retry);
    if e.retry.Some? {
      ConsumeOne(p.(eventType := e.event, lastId := e.id), Retry(e.retry.value), data);
    } else {
      assert retry == data;
    }
  }

  lemma ConsumeBody(p: Parser, e: Event, more: seq<Field>)
    requires e.event != "" && p.data == [] && p.bytes == 0
    requires p.eventType == e.event && p.lastId == e.id && p.retry == e.retry
    requires p.limit.Some? ==> |Utf8(e.data)| <= p.limit.value
    ensures
      var q := p.(eventType := "");
      Consume(p, DataFields(SplitLF(e.data)) + ([Blank] + more)) == ([e] + Consume(q, more).0, Consume(q, more).1)
  {
    var parts := SplitLF(e.data);
    JoinSplit(e.data);
    assert Holding(p, []) == p && [] + parts == parts;
    ConsumeData(p, [], parts, [Blank] + more);
    ConsumeOne(Holding(p, parts), Blank, more);
  }

  lemma ConsumeEvents(p: Parser, events: seq<Event>)
    requires p.data == [] && p.bytes == 0 && Printable(events, p.retry, p.limit)
    ensures Consume(p, AllFields(events)) == (events, true)
    decreases |events|
  {
    if events != [] {
      var rest := events[1..];
      var q := p.(eventType := "", lastId := events[0].id, retry := events[0].retry);
      ConsumeEvent(p, events[0], AllFields(rest));
      assert forall i :: 0 <= i < |rest| ==> rest[i] == events[i + 1];
      ConsumeEvents(q, rest);
      assert events == [events[0]] + rest;
    }
  }

  /**
   Printing any list of events and parsing the lines gives the list back, as
   long as types are not empty, ids hold no NUL, and no event exceeds the limit.
   */
  lemma PrintedEventsParseBack(events: seq<Event>, limit: Option<int>)
    requires Printable(events, None, limit)
    ensures Parse(Fresh(limit), PrintAll(events)) == (events, true)
  {
    ParseIsConsume(Fresh(limit), PrintAll(events));
    FieldsOfPrintAll(events, true);
    ConsumeEvents(Fresh(limit).(firstLine := false), events);
  }

  // ------------------------------------------------------------------------
  // The standard's interpretation
  // ------------------------------------------------------------------------

  /** The buffers of section 9.2.6; the data buffer is one string, each line followed by a line feed. */
  datatype Buffers = Buffers(eventType: string, data: string, lastId: string, retry: Option<nat>)

  function Interpret(b: Buffers, f: Field): (Buffers, Option<Event>)
  {
    match f
    case Blank =>
      var cleared := b.(eventType := "", data := "");
      if b.data == "" then (cleared, None)
      else
        var data := if b.data[|b.data| - 1] == '\n' then b.data[..|b.data| - 1] else b.data;
        (cleared, Some(Event(if b.eventType != "" then b.eventType else "message", data, b.lastId, b.retry)))
    case EventName(v) => (b.(eventType := v), None)
    case Data(v) => (b.(data := b.data + v + "\n"), None)
    case Id(v) => (b.(lastId := v), None)
    case Retry(ms) => (b.(retry := Some(ms)), None)
    case Ignored => (b, None)
  }

  function Standard(b: Buffers, fields: seq<Field>): seq<Event>
    decreases |fields|
  {
    if fields == [] then [] else
    var (c, event) := Interpret(b, fields[0]);
    (if event.Some? then [event.value] else []) + Standard(c, fields[1..])
  }

  // How the standard reads a line, apart from the parser's own reading.

  /** A line up to its first colon, or all of it. */
  function NameOf(line: string): (name: string)
    ensures name <= line
  {
    if line == "" || line[0] == ':' then "" else [line[0]] + NameOf(line[1..])
  }

  /** What stands behind the first colon, without one space in front. */
  function ValueOf(line: string): string
  {
    var rest := line[|NameOf(line)|..];
    if rest == "" then "" else if rest[1..] != "" && rest[1] == ' ' then rest[2..] else rest[1..]
  }

  function ProcessField(b: Buffers, name: string, value: string): Buffers
  {
    match name
    case "event" => b.(eventType := value)
    case "data" => b.(data := b.data + value + "\n")
    case "id" => if '\0' in value then b else b.(lastId := value)
    case "retry" => if value != "" && IsDigits(value) then b.(retry := Some(DecimalValue(value))) else b
    case _ => b
  }

  function ProcessLine(b: Buffers, line: string): (Buffers, Option<Event>)
  {
    if line == "" then Interpret(b, Blank)
    else if line[0] == ':' then (b, None)
    else (ProcessField(b, NameOf(line), ValueOf(line)), None)
  }

  function ProcessLines(b: Buffers, lines: seq<string>): seq<Event>
    decreases |lines|
  {
    if lines == [] then [] else
    var (c, event) := ProcessLine(b, lines[0]);
    (if event.Some? then [event.value] else []) + ProcessLines(c, lines[1..])
  }

  /** The standard's events for a stream of lines, which may start with a byte order mark. */
  function StandardEvents(lines: seq<string>): seq<Event>
  {
    var marked := lines != [] && [BOM] <= lines[0];
    ProcessLines(Buffers("", "", "", None), if marked then [lines[0][1..]] + lines[1..] else lines)
  }

  lemma {:induction false} NameEndsAtColon(line: string)
    ensures |NameOf(line)| == ColonAt(line) && NameOf(line) == line[..ColonAt(line)]
  {
    if line != "" && line[0] != ':' {
      NameEndsAtColon(line[1..]);
    }
  }

  /** The parser reads every line as the standard does. */
  lemma ReadsAsStandard(b: Buffers, line: string)
    ensures ProcessLine(b, line) == Interpret(b, Classify(line))
  {
    NameEndsAtColon(line);
    if line != "" && line[0] != ':' {
      assert ValueOf(line) == FieldValue(line);
    }
  }

  lemma {:induction false} LinesAreFields(b: Buffers, lines: seq<string>)
    ensures ProcessLines(b, lines) == Standard(b, Fields(false, lines))
    decreases |lines|
  {
    if lines != [] {
      ReadsAsStandard(b, lines[0]);
      LinesAreFields(ProcessLine(b, lines[0]).0, lines[1..]);
    }
  }

  lemma StandardIsFields(lines: seq<string>)
    ensures StandardEvents(lines) == Standard(Buffers("", "", "", None), Fields(true, lines))
  {
    if lines != [] && [BOM] <= lines[0] {
      var unmarked := [lines[0][1..]] + lines[1..];
      assert unmarked[1..] == lines[1..];
      LinesAreFields(Buffers("", "", "", None), unmarked);
    } else {
      LinesAreFields(Buffers("", "", "", None), lines);
    }
  }

  /**
   Some event is dispatched under a type, other than "message", that an
   `event:` field set before an earlier blank line without data. `kind` is the
   type now set, `data` whether data has been collected, and `stale` whether
   the type was set before such a blank line.
   */
  predicate StaleType(fields: seq<Field>, kind: string, data: bool, stale: bool)
  {
    if fields == [] then false else
    match fields[0]
    case Blank =>
      if data then stale || StaleType(fields[1..], "", false, false)
      else StaleType(fields[1..], kind, false, kind != "" && kind != "message")
    case EventName(v) => StaleType(fields[1..], v, data, false)
    case Data(_) => StaleType(fields[1..], kind, true, stale)
    case Id(_) => StaleType(fields[1..], kind, data, stale)
    case Retry(_) => StaleType(fields[1..], kind, data, stale)
    case Ignored => StaleType(fields[1..], kind, data, stale)
  }

  /** Parser and buffers hold the same data, id and retry; the types agree, or the parser's is stale. */
  ghost predicate Related(p: Parser, b: Buffers, stale: bool)
  {
    && p.limit.None?
    && (p.data == [] <==> b.data == "")
    && (p.data != [] ==> b.data == Join(p.data) + "\n")
    && p.lastId == b.lastId && p.retry == b.retry
    && (stale ==> p.eventType != "" && p.eventType != "message")
    && (if stale then b.eventType == ""
        else p.eventType == b.eventType || (p.eventType == "message" && b.eventType == ""))
  }

  lemma RelationKept(p: Parser, b: Buffers, f: Field, stale: bool)
    requires Related(p, b, stale)
    ensures Step(p, f).1.Ok?
    ensures
      var q := Step(p, f).0;
      var c := Interpret(b, f).0;
      Related(q, c, match f
        case Blank => p.data == [] && p.eventType != "" && p.eventType != "message"
        case EventName(_) => false
        case _ => stale)
    ensures Step(p, f).1.value.Some? <==> Interpret(b, f).1.Some?
    ensures Step(p, f).1.value == Interpret(b, f).1 <==> !(f.Blank? && p.data != [] && stale)
  {
    if f.Data? && p.data != [] {
      JoinAppend(p.data, f.value);
    }
    if f.Blank? && p.data != [] {
      assert b.data[..|b.data| - 1] == Join(p.data);
    }
  }

  lemma {:induction false} AgreeUnlessStale(p: Parser, b: Buffers, fields: seq<Field>, stale: bool)
    requires Related(p, b, stale)
    ensures Consume(p, fields).0 == Standard(b, fields) <==> !StaleType(fields, p.eventType, p.data != [], stale)
    decreases |fields|
  {
    if fields != [] {
      var f := fields[0];
      RelationKept(p, b, f, stale);
      var (q, r) := Step(p, f);
      var (c, event) := Interpret(b, f);
      var next := match f
        case Blank => p.data == [] && p.eventType != "" && p.eventType != "message"
        case EventName(_) => false
        case _ => stale;
      AgreeUnlessStale(q, c, fields[1..], next);
      if event.Some? {
        assert Consume(p, fields).0 == [r.value.value] + Consume(q, fields[1..]).0;
        assert Standard(b, fields) == [event.value] + Standard(c, fields[1..]);
        ConsEqual(r.value.value, Consume(q, fields[1..]).0, event.value, Standard(c, fields[1..]));
      } else {
        assert Consume(p, fields).0 == Consume(q, fields[1..]).0;
        assert Standard(b, fields) == Standard(c, fields[1..]);
      }
    }
  }

  lemma ConsEqual(x: Event, xs: seq<Event>, y: Event, ys: seq<Event>)
    ensures [x] + xs == [y] + ys <==> x == y && xs == ys
  {
    assert ([x] + xs)[0] == x && ([x] + xs)[1..] == xs;
    assert ([y] + ys)[0] == y && ([y] + ys)[1..] == ys;
  }

  /**
   The parser yields the standard's events exactly when no event inherits a
   type left over from a block without data. The parser keeps such a type; the
   standard resets it.
   */
  lemma AgreesWithStandard(lines: seq<string>)
    ensures Parse(Fresh(None), lines).0 == StandardEvents(lines) <==> !StaleType(Fields(true, lines), "", false, false)
  {
    ParseIsConsume(Fresh(None), lines);
    StandardIsFields(lines);
    AgreeUnlessStale(Fresh(None).(firstLine := false), Buffers("", "", "", None), Fields(true, lines), false);
  }

  /** Every `event:` field has a `data:` field before the next blank line. */
  predicate DataFollowsType(fields: seq<Field>, open: bool)
  {
    if fields == [] then true else
    match fields[0]
    case Blank => !open && DataFollowsType(fields[1..], false)
    case EventName(_) => DataFollowsType(fields[1..], true)
    case Data(_) => DataFollowsType(fields[1..], false)
    case Id(_) => DataFollowsType(fields[1..], open)
    case Retry(_) => DataFollowsType(fields[1..], open)
    case Ignored => DataFollowsType(fields[1..], open)
  }

  lemma {:induction false} NoStaleType(fields: seq<Field>, kind: string, data: bool, open: bool)
    requires DataFollowsType(fields, open) && (kind != "" ==> data || open)
    ensures !StaleType(fields, kind, data, false)
    decreases |fields|
  {
    if fields != [] {
      match fields[0]
      case Blank => NoStaleType(fields[1..], if data then "" else kind, false, false);
      case EventName(v) => NoStaleType(fields[1..], v, data, true);
      case Data(_) => NoStaleType(fields[1..], kind, true, false);
      case _ => NoStaleType(fields[1..], kind, data, open);
    }
  }

  /** Where every `event:` line is followed by a `data:` line in its block, the standard's events come out. */
  lemma AgreesWhereDataFollowsType(lines: seq<string>)
    requires DataFollowsType(Fields(true, lines), false)
    ensures Parse(Fresh(None), lines).0 == StandardEvents(lines)
  {
    NoStaleType(Fields(true, lines), "", false, false);
    AgreesWithStandard(lines);
  }

  /** One data field and a blank line: an event of the parser. */
  lemma OneDataField(p: Parser, value: string)
    requires p.limit.None? && p.data == [] && p.eventType == ""
    ensures Consume(p, [Data(value)] + [Blank]).0 == [Event("message", value, p.lastId, p.retry)]
  {
    var q := Step(p, Data(value)).0;
    ConsumeOne(p, Data(value), [Blank]);
    assert q.data == [value] && Join([value]) == value;
    assert [Blank][1..] == [];
    ConsumeOne(q, Blank, []);
  }

  /** Two data fields and a blank line: an event of the standard. */
  lemma TwoDataFields(a: string, b: string)
    ensures Standard(Buffers("", "", "", None), [Data(a)] + ([Data(b)] + [Blank])) ==
      [Event("message", a + "\n" + b, "", None)]
  {
    var none := Buffers("", "", "", None);
    var one := Interpret(none, Data(a)).0;
    var two := Interpret(one, Data(b)).0;
    StandardOne(none, Data(a), [Data(b)] + [Blank]);
    StandardOne(one, Data(b), [Blank]);
    assert "" + a + "\n" == a + "\n" && two.data == a + "\n" + b + "\n";
    DispatchesData(two, a + "\n" + b);
  }

  lemma DispatchesData(b: Buffers, data: string)
    requires b.data == data + "\n" && b.eventType == ""
    ensures Standard(b, [Blank]) == [Event("message", data, b.lastId, b.retry)]
  {
    assert [Blank][1..] == [];
    assert b.data[..|b.data| - 1] == data;
  }

  lemma StandardOne(b: Buffers, f: Field, more: seq<Field>)
    ensures
      var (c, event) := Interpret(b, f);
      Standard(b, [f] + more) == (if event.Some? then [event.value] else []) + Standard(c, more)
  {
    assert ([f] + more)[1..] == more;
  }

  /** A type set before an empty block does leak into the next event. */
  lemma StaleTypeExample()
    ensures
      var lines := [FieldLine("event", "ping")] + ([""] + ([FieldLine("data", "x")] + [""]));
      Parse(Fresh(None), lines).0 != StandardEvents(lines)
  {
    var lines := [FieldLine("event", "ping")] + ([""] + ([FieldLine("data", "x")] + [""]));
    StaleTypeFields(lines);
    StaleTypeLeaks("ping", "x");
    AgreesWithStandard(lines);
  }

  lemma StaleTypeFields(lines: seq<string>)
    requires lines == [FieldLine("event", "ping")] + ([""] + ([FieldLine("data", "x")] + [""]))
    ensures Fields(true, lines) == [EventName("ping")] + ([Blank] + ([Data("x")] + [Blank]))
  {
    var last := [FieldLine("data", "x")] + [""];
    assert lines[0] == FieldLine("event", "ping") && lines[0][0] == 'e';
    assert StripBom(lines[0]) == lines[0];
    ClassifyPrinted("event", "ping");
    ClassifyPrinted("data", "x");
    FieldsOfOne("");
    FieldsOfOne(FieldLine("data", "x"));
    FieldsAppend([""], last);
    FieldsAppend([FieldLine("data", "x")], [""]);
    assert lines[1..] == [""] + last;
  }

  lemma StaleTypeLeaks(kind: string, data: string)
    requires kind != "" && kind != "message"
    ensures StaleType([EventName(kind)] + ([Blank] + ([Data(data)] + [Blank])), "", false, false)
  {
    var f2 := [Data(data)] + [Blank];
    var f1 := [Blank] + f2;
    assert ([EventName(kind)] + f1)[1..] == f1 && f1[1..] == f2 && f2[1..] == [Blank];
    assert StaleType(f2, kind, false, true);
  }
}
