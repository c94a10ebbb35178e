/**
 Rust text as its author means it: code, comments that nest, strings with
 escapes, raw strings. In whatever text such tokens are written, the brace
 matcher finds the brace that balances the braces among them.
 */
module RustTokens {
  import opened Common
  import opened BraceMatching

  /** A piece of a block comment. */
  datatype Part = Char(c: char) | Nested(parts: seq<Part>)

  /** A character of a string, or a backslash and any character. */
  datatype Item = Plain(c: char) | Escaped(c: char)

  datatype Token =
    | Open
    | Close
    | Text(c: char)
    | LineComment(words: string)
    | BlockComment(parts: seq<Part>)
    | StringOf(items: seq<Item>)
    | RawString(hashes: nat, body: string)

  // ------------------------------------------------------------------------
  // How tokens are written
  // ------------------------------------------------------------------------

  function Hashes(n: nat): (s: string)
    ensures |s| == n && forall i :: 0 <= i < n ==> s[i] == '#'
  {
    seq(n, i => '#')
  }

  function PartsText(parts: seq<Part>): string
    decreases parts
  {
    if parts == [] then "" else PartText(parts[0]) + PartsText(parts[1..])
  }

  function PartText(part: Part): string
    decreases part
  {
    match part
    case Char(c) => [c]
    case Nested(parts) => "/*" + (PartsText(parts) + "*/")
  }

  function ItemsText(items: seq<Item>): string
  {
    if items == [] then ""
    else (if items[0].Escaped? then ['\\', items[0].c] else [items[0].c]) + ItemsText(items[1..])
  }

  function TokenText(t: Token): string
  {
    match t
    case Open => "{"
    case Close => "}"
    case Text(c) => [c]
    case LineComment(words) => "//" + (words + "\n")
    case BlockComment(parts) => "/*" + (PartsText(parts) + "*/")
    case StringOf(items) => "\"" + (ItemsText(items) + "\"")
    case RawString(n, body) => "r" + (Hashes(n) + ("\"" + (body + ("\"" + Hashes(n)))))
  }

  /** One text behind the other. */
  function Joined<T>(write: T -> string, ts: seq<T>): string
  {
    if ts == [] then "" else write(ts[0]) + Joined(write, ts[1..])
  }

  function TokensText(ts: seq<Token>): string
  {
    Joined(TokenText, ts)
  }

  // ------------------------------------------------------------------------
  // Which tokens may stand together
  // ------------------------------------------------------------------------

  /** Neighbouring pieces of a comment do not make a delimiter between them. */
  predicate MayFollow(before: Part, part: Part)
  {
    match before
    case Char(c) =>
      && (c == '/' ==> part != Char('*'))
      && (c == '*' ==> part != Char('/') && !part.Nested?)
    case Nested(_) => true
  }

  predicate Separated(parts: seq<Part>)
    decreases parts
  {
    && (forall i :: 0 <= i < |parts| && parts[i].Nested? ==> Separated(parts[i].parts))
    && (forall i :: 0 < i < |parts| ==> MayFollow(parts[i - 1], parts[i]))
    && (parts != [] ==> parts[|parts| - 1] != Char('/'))
  }

  /** The token is what it is written as. */
  predicate Sound(t: Token)
  {
    match t
    case Text(c) => c != '"' && c != '{' && c != '}'
    case LineComment(words) => '\n' !in words
    case BlockComment(parts) => Separated(parts)
    case StringOf(items) => forall i :: 0 <= i < |items| && items[i].Plain? ==> items[i].c != '\\' && items[i].c != '"'
    case RawString(n, body) =>
      var closed := body + ("\"" + Hashes(n));
      forall k :: 0 <= k < |body| ==> !Closes(closed, k, n)
    case _ => true
  }

  /** The last of the code so far: a slash, or an `r` with any number of hashes behind it. */
  datatype Ending = Nothing | Slash | Prefix

  function EndingOf(before: Ending, t: Token): Ending
  {
    match t
    case Text(c) =>
      if c == '/' then Ending.Slash
      else if c == 'r' || (c == '#' && before.Prefix?) then Prefix
      else Nothing
    case _ => Nothing
  }

  /** The token does not turn what stands before it into something else. */
  predicate Fits(before: Ending, t: Token)
  {
    match t
    case Text(c) => before.Slash? ==> c != '/' && c != '*'
    case LineComment(_) => !before.Slash?
    case BlockComment(_) => !before.Slash?
    case StringOf(_) => !before.Prefix?
    case _ => true
  }

  predicate WellWritten(before: Ending, ts: seq<Token>)
    decreases |ts|
  {
    ts == [] || (Sound(ts[0]) && Fits(before, ts[0]) && WellWritten(EndingOf(before, ts[0]), ts[1..]))
  }

  function DepthAfter(depth: int, t: Token): int
  {
    if t.Open? then depth + 1 else if t.Close? then depth - 1 else depth
  }

  /** The depth behind the tokens, braces being counted among them alone. */
  function DepthBehind(depth: int, ts: seq<Token>): int
    decreases |ts|
  {
    if ts == [] then depth else DepthBehind(DepthAfter(depth, ts[0]), ts[1..])
  }

  // ------------------------------------------------------------------------
  // The lexer over each of them
  // ------------------------------------------------------------------------

  /** The text reads `s` at index `i`. */
  predicate At(text: string, i: nat, s: string)
  {
    i + |s| <= |text| && forall k :: 0 <= k < |s| ==> s[k] == text[i + k]
  }

  lemma AtSplit(text: string, i: nat, a: string, b: string)
    requires At(text, i, a + b)
    ensures At(text, i, a) && At(text, i + |a|, b)
  {
    assert forall k :: 0 <= k < |a| ==> (a + b)[k] == a[k];
    assert forall k :: 0 <= k < |b| ==> (a + b)[|a| + k] == b[k];
  }

  lemma AtChar(text: string, i: nat, s: string, k: nat)
    requires At(text, i, s) && k < |s|
    ensures i + k < |text| && text[i + k] == s[k]
  {
  }

  lemma AtHead(text: string, i: nat, s: string, c: char, rest: string)
    requires At(text, i, s) && s == [c] + rest
    ensures i < |text| && text[i] == c && At(text, i + 1, rest)
  {
    AtChar(text, i, s, 0);
    AtSplit(text, i, [c], rest);
  }

  lemma {:induction false} OverLine(text: string, i: nat, words: string, depth: nat)
    requires At(text, i, words + "\n") && '\n' !in words
    ensures Lex(text, i, Line, depth) == Lex(text, i + |words| + 1, Code, depth)
    decreases |words|
  {
    if words == "" {
      AtHead(text, i, words + "\n", '\n', "");
    } else {
      assert words[0] in words;
      AtHead(text, i, words + "\n", words[0], words[1..] + "\n");
      OverLine(text, i + 1, words[1..], depth);
    }
  }

  lemma {:induction false} OverString(text: string, i: nat, items: seq<Item>, depth: nat)
    requires At(text, i, ItemsText(items) + "\"") && Sound(StringOf(items))
    ensures Lex(text, i, Str, depth) == Lex(text, i + |ItemsText(items)| + 1, Code, depth)
    decreases |items|
  {
    if items == [] {
      AtHead(text, i, ItemsText(items) + "\"", '"', "");
    } else {
      var rest := items[1..];
      assert forall k :: 0 <= k < |rest| ==> rest[k] == items[k + 1];
      ItemFirst(items);
      OverItem(text, i, items[0], ItemsText(rest) + "\"", depth);
      OverString(text, i + if items[0].Escaped? then 2 else 1, rest, depth);
    }
  }

  lemma ItemFirst(items: seq<Item>)
    requires items != []
    ensures ItemsText(items) + "\"" ==
      (if items[0].Escaped? then ['\\', items[0].c] else [items[0].c]) + (ItemsText(items[1..]) + "\"")
    ensures |ItemsText(items)| == (if items[0].Escaped? then 2 else 1) + |ItemsText(items[1..])|
  {
  }

  lemma OverItem(text: string, i: nat, item: Item, rest: string, depth: nat)
    requires item.Plain? ==> item.c != '\\' && item.c != '"'
    requires At(text, i, (if item.Escaped? then ['\\', item.c] else [item.c]) + rest)
    ensures At(text, i + if item.Escaped? then 2 else 1, rest)
    ensures Lex(text, i, Str, depth) == Lex(text, i + if item.Escaped? then 2 else 1, Str, depth)
  {
    if item.Escaped? {
      AtHead(text, i, ['\\', item.c] + rest, '\\', [item.c] + rest);
      AtHead(text, i + 1, [item.c] + rest, item.c, rest);
      assert Lex(text, i, Str, depth) == Lex(text, i + 1, Escape, depth);
    } else {
      AtHead(text, i, [item.c] + rest, item.c, rest);
    }
  }

  lemma HashesFirst(n: nat)
    requires n > 0
    ensures Hashes(n) + "\"" == ['#'] + (Hashes(n - 1) + "\"")
  {
  }

  lemma {:induction false} OverHashes(text: string, i: nat, n: nat, seen: nat, depth: nat)
    requires At(text, i, Hashes(n) + "\"")
    ensures Lex(text, i, RawPrefix(seen), depth) == Lex(text, i + n + 1, Raw(seen + n), depth)
    decreases n
  {
    if n == 0 {
      AtHead(text, i, Hashes(n) + "\"", '"', "");
    } else {
      HashesFirst(n);
      AtHead(text, i, Hashes(n) + "\"", '#', Hashes(n - 1) + "\"");
      OverHashes(text, i + 1, n - 1, seen + 1, depth);
    }
  }

  lemma {:induction false} FirstCloser(text: string, i: nat, j: nat, n: nat)
    requires i <= j && Closes(text, j, n) && forall k :: i <= k < j ==> !Closes(text, k, n)
    ensures FindCloser(text, i, n) == Some(j)
    decreases j - i
  {
    if i < j {
      FirstCloser(text, i + 1, j, n);
    }
  }

  lemma SameCloser(text: string, i: nat, closed: string, k: nat, n: nat)
    requires At(text, i, closed) && k + n < |closed|
    ensures Closes(text, i + k, n) <==> Closes(closed, k, n)
  {
    if Closes(closed, k, n) {
      assert forall j :: i + k < j <= i + k + n ==> text[j] == closed[j - i];
    }
    if Closes(text, i + k, n) {
      assert forall j :: k < j <= k + n ==> closed[j] == text[i + j];
    }
  }

  lemma ClosedAtEnd(body: string, n: nat)
    ensures Closes(body + ("\"" + Hashes(n)), |body|, n)
  {
    var closer := "\"" + Hashes(n);
    assert forall k :: 0 < k <= n ==> closer[k] == Hashes(n)[k - 1];
    assert forall k :: |body| <= k <= |body| + n ==> (body + closer)[k] == closer[k - |body|];
  }

  lemma NoneBefore(text: string, i: nat, n: nat, body: string)
    requires At(text, i, body + ("\"" + Hashes(n))) && Sound(RawString(n, body))
    ensures forall k :: i <= k < i + |body| ==> !Closes(text, k, n)
  {
    var closed := body + ("\"" + Hashes(n));
    forall k | i <= k < i + |body|
      ensures !Closes(text, k, n)
    {
      SameCloser(text, i, closed, k - i, n);
    }
  }

  lemma CloserFound(text: string, i: nat, n: nat, body: string)
    requires At(text, i, body + ("\"" + Hashes(n))) && Sound(RawString(n, body))
    ensures FindCloser(text, i, n) == Some(i + |body|)
  {
    ClosedAtEnd(body, n);
    SameCloser(text, i, body + ("\"" + Hashes(n)), |body|, n);
    NoneBefore(text, i, n, body);
    FirstCloser(text, i, i + |body|, n);
  }

  lemma OverRaw(text: string, i: nat, n: nat, close: nat, depth: nat)
    requires FindCloser(text, i, n) == Some(close)
    ensures Lex(text, i, Raw(n), depth) == Lex(text, close + n + 1, Code, depth)
  {
    LexRaw(text, i, n, depth);
  }

  /** The lexer inside a comment, behind a character of it. */
  function Behind(c: char, nested: nat): Mode
  {
    if c == '/' then BlockSlash(nested) else if c == '*' then BlockStar(nested) else Block(nested)
  }

  /** The lexer stands in a comment where `parts` and its end can follow. */
  predicate MayRead(m: Mode, nested: nat, parts: seq<Part>)
  {
    || m == Block(nested)
    || (m == BlockSlash(nested) && parts != [] && parts[0] != Char('*'))
    || (m == BlockStar(nested) && (parts != [] ==> parts[0] != Char('/') && !parts[0].Nested?))
  }

  lemma EndOfComment(text: string, i: nat, m: Mode, nested: nat, depth: nat)
    requires nested > 0 && (m == Block(nested) || m == BlockStar(nested)) && At(text, i, "*/")
    ensures Lex(text, i, m, depth) == Lex(text, i + 2, if nested == 1 then Code else Block(nested - 1), depth)
  {
    AtChar(text, i, "*/", 0);
    AtChar(text, i, "*/", 1);
    assert Lex(text, i, m, depth) == Lex(text, i + 1, BlockStar(nested), depth);
  }

  lemma StartOfNested(text: string, i: nat, m: Mode, nested: nat, depth: nat)
    requires nested > 0 && (m == Block(nested) || m == BlockSlash(nested)) && At(text, i, "/*")
    ensures Lex(text, i, m, depth) == Lex(text, i + 2, Block(nested + 1), depth)
  {
    AtChar(text, i, "/*", 0);
    AtChar(text, i, "/*", 1);
    assert Lex(text, i, m, depth) == Lex(text, i + 1, BlockSlash(nested), depth);
  }

  lemma RestSeparated(parts: seq<Part>)
    requires parts != [] && Separated(parts)
    ensures Separated(parts[1..])
    ensures |parts| > 1 ==> MayFollow(parts[0], parts[1])
    ensures |parts| == 1 ==> parts[0] != Char('/')
  {
    var rest := parts[1..];
    assert forall i :: 0 <= i < |rest| ==> rest[i] == parts[i + 1];
    assert forall i :: 0 < i < |rest| ==> MayFollow(parts[i], parts[i + 1]);
  }

  lemma {:induction false} OverParts(text: string, i: nat, m: Mode, nested: nat, parts: seq<Part>, depth: nat)
    requires nested > 0 && Separated(parts) && MayRead(m, nested, parts) && At(text, i, PartsText(parts) + "*/")
    ensures Lex(text, i, m, depth) ==
      Lex(text, i + |PartsText(parts)| + 2, if nested == 1 then Code else Block(nested - 1), depth)
    decreases parts
  {
    if parts == [] {
      assert PartsText(parts) + "*/" == "*/";
      EndOfComment(text, i, m, nested, depth);
    } else {
      var first, rest := parts[0], parts[1..];
      RestSeparated(parts);
      PartFirst(parts);
      AtSplit(text, i, PartText(first), PartsText(rest) + "*/");
      if first.Char? {
        OverChar(text, i, m, nested, parts, depth);
        OverParts(text, i + 1, Behind(first.c, nested), nested, rest, depth);
      } else {
        OverNested(text, i, m, nested, first, depth);
        OverParts(text, i + |PartText(first)|, Block(nested), nested, rest, depth);
      }
    }
  }

  lemma PartFirst(parts: seq<Part>)
    requires parts != []
    ensures PartsText(parts) + "*/" == PartText(parts[0]) + (PartsText(parts[1..]) + "*/")
    ensures |PartsText(parts)| == |PartText(parts[0])| + |PartsText(parts[1..])|
  {
  }

  lemma OverChar(text: string, i: nat, m: Mode, nested: nat, parts: seq<Part>, depth: nat)
    requires nested > 0 && parts != [] && parts[0].Char? && MayRead(m, nested, parts)
    requires At(text, i, PartText(parts[0]))
    requires if |parts| > 1 then MayFollow(parts[0], parts[1]) else parts[0] != Char('/')
    ensures Lex(text, i, m, depth) == Lex(text, i + 1, Behind(parts[0].c, nested), depth)
    ensures MayRead(Behind(parts[0].c, nested), nested, parts[1..])
  {
    AtChar(text, i, PartText(parts[0]), 0);
  }

  lemma {:induction false} OverNested(text: string, i: nat, m: Mode, nested: nat, part: Part, depth: nat)
    requires nested > 0 && part.Nested? && Separated(part.parts) && (m == Block(nested) || m == BlockSlash(nested))
    requires At(text, i, PartText(part))
    ensures Lex(text, i, m, depth) == Lex(text, i + |PartText(part)|, Block(nested), depth)
    decreases part
  {
    AtSplit(text, i, "/*", PartsText(part.parts) + "*/");
    StartOfNested(text, i, m, nested, depth);
    OverParts(text, i + 2, Block(nested + 1), nested + 1, part.parts, depth);
  }

  // ------------------------------------------------------------------------
  // Whole tokens
  // ------------------------------------------------------------------------

  predicate StandsAt(ending: Ending, m: Mode)
  {
    match ending
    case Nothing => m.Code?
    case Slash => m.Slash?
    case Prefix => m.RawPrefix?
  }

  lemma OverComment(text: string, i: nat, m: Mode, t: Token, depth: nat)
    requires InCode(m) && !m.Slash? && (t.LineComment? || t.BlockComment?) && Sound(t) && At(text, i, TokenText(t))
    ensures Lex(text, i, m, depth) == Lex(text, i + |TokenText(t)|, Code, depth)
  {
    AtChar(text, i, TokenText(t), 0);
    AtChar(text, i, TokenText(t), 1);
    assert Lex(text, i, m, depth) == Lex(text, i + 1, Mode.Slash, depth);
    if t.LineComment? {
      AtSplit(text, i, "//", t.words + "\n");
      OverLine(text, i + 2, t.words, depth);
    } else {
      AtSplit(text, i, "/*", PartsText(t.parts) + "*/");
      OverParts(text, i + 2, Block(1), 1, t.parts, depth);
    }
  }

  lemma OverStringOf(text: string, i: nat, m: Mode, t: Token, depth: nat)
    requires InCode(m) && t.StringOf? && !m.RawPrefix? && Sound(t) && At(text, i, TokenText(t))
    ensures Lex(text, i, m, depth) == Lex(text, i + |TokenText(t)|, Code, depth)
  {
    AtChar(text, i, TokenText(t), 0);
    AtSplit(text, i, "\"", ItemsText(t.items) + "\"");
    OverString(text, i + 1, t.items, depth);
  }

  lemma RawParts(text: string, i: nat, n: nat, closed: string)
    requires At(text, i, "r" + (Hashes(n) + ("\"" + closed)))
    ensures i < |text| && text[i] == 'r' && At(text, i + 1, Hashes(n) + "\"") && At(text, i + 2 + n, closed)
  {
    AtSplit(text, i, "r", Hashes(n) + ("\"" + closed));
    AtChar(text, i, "r", 0);
    Regrouped(Hashes(n), "\"", closed);
    AtSplit(text, i + 1, Hashes(n) + "\"", closed);
  }

  lemma OverRawString(text: string, i: nat, m: Mode, n: nat, body: string, depth: nat)
    requires InCode(m) && Sound(RawString(n, body)) && At(text, i, TokenText(RawString(n, body)))
    ensures Lex(text, i, m, depth) == Lex(text, i + 3 + n + |body| + n, Code, depth)
  {
    RawParts(text, i, n, body + ("\"" + Hashes(n)));
    OverHashes(text, i + 1, n, 0, depth);
    CloserFound(text, i + 2 + n, n, body);
    OverRaw(text, i + 2 + n, n, i + 2 + n + |body|, depth);
  }

  lemma Regrouped(a: string, b: string, c: string)
    ensures a + (b + c) == (a + b) + c
  {
  }

  /** The matcher's lexer passes over a token, or ends on the brace that brings the depth to zero. */
  lemma OverToken(text: string, i: nat, before: Ending, m: Mode, t: Token, depth: nat) returns (n: Mode)
    requires depth > 0 && StandsAt(before, m) && Sound(t) && Fits(before, t) && At(text, i, TokenText(t))
    ensures StandsAt(EndingOf(before, t), n)
    ensures Lex(text, i, m, depth) ==
      if DepthAfter(depth, t) == 0 then Some(i) else Lex(text, i + |TokenText(t)|, n, DepthAfter(depth, t))
  {
    n := Code;
    if t.LineComment? || t.BlockComment? {
      OverComment(text, i, m, t, depth);
    } else if t.StringOf? {
      OverStringOf(text, i, m, t, depth);
    } else if t.RawString? {
      OverRawString(text, i, m, t.hashes, t.body, depth);
    } else {
      AtChar(text, i, TokenText(t), 0);
      n := After(m, text[i]);
    }
  }

  /** The depth stays positive behind each of the tokens. */
  predicate StaysOpen(depth: int, ts: seq<Token>)
    decreases |ts|
  {
    depth > 0 && (ts != [] ==> StaysOpen(DepthAfter(depth, ts[0]), ts[1..]))
  }

  lemma FirstWellWritten(before: Ending, ts: seq<Token>, depth: int)
    requires ts != [] && WellWritten(before, ts) && StaysOpen(depth, ts)
    ensures Sound(ts[0]) && Fits(before, ts[0]) && WellWritten(EndingOf(before, ts[0]), ts[1..])
    ensures depth > 0 && StaysOpen(DepthAfter(depth, ts[0]), ts[1..]) && DepthAfter(depth, ts[0]) > 0
    ensures DepthBehind(depth, ts) == DepthBehind(DepthAfter(depth, ts[0]), ts[1..])
  {
  }

  lemma JoinedAt<T>(text: string, i: nat, write: T -> string, ts: seq<T>)
    requires ts != [] && At(text, i, Joined(write, ts))
    ensures At(text, i, write(ts[0])) && At(text, i + |write(ts[0])|, Joined(write, ts[1..]))
    ensures |Joined(write, ts)| == |write(ts[0])| + |Joined(write, ts[1..])|
  {
    AtSplit(text, i, write(ts[0]), Joined(write, ts[1..]));
  }

  /** The first of the tokens leaves the brace open, and the others stand behind it. */
  lemma OverFirst(text: string, i: nat, before: Ending, m: Mode, ts: seq<Token>, depth: nat) returns (n: Mode)
    requires ts != [] && StandsAt(before, m) && WellWritten(before, ts) && StaysOpen(depth, ts)
    requires At(text, i, TokensText(ts))
    ensures
      var j, d := i + |TokenText(ts[0])|, DepthAfter(depth, ts[0]);
      && At(text, j, TokensText(ts[1..])) && StandsAt(EndingOf(before, ts[0]), n)
      && Lex(text, i, m, depth) == Lex(text, j, n, d)
      && |TokensText(ts)| == |TokenText(ts[0])| + |TokensText(ts[1..])|
  {
    FirstWellWritten(before, ts, depth);
    JoinedAt(text, i, TokenText, ts);
    n := OverToken(text, i, before, m, ts[0], depth);
  }

  lemma {:induction false} OverTokens(text: string, i: nat, before: Ending, m: Mode, ts: seq<Token>, depth: nat)
    returns (n: Mode)
    requires StandsAt(before, m) && WellWritten(before, ts) && StaysOpen(depth, ts) && At(text, i, TokensText(ts))
    ensures InCode(n) && DepthBehind(depth, ts) > 0
    ensures Lex(text, i, m, depth) == Lex(text, i + |TokensText(ts)|, n, DepthBehind(depth, ts))
    decreases |ts|
  {
    if ts == [] {
      n := m;
    } else {
      var next := OverFirst(text, i, before, m, ts, depth);
      FirstWellWritten(before, ts, depth);
      n := OverTokens(
        text, i + |TokenText(ts[0])|, EndingOf(before, ts[0]), next, ts[1..], DepthAfter(depth, ts[0]));
    }
  }

  /**
   Braces count where they are tokens and nowhere else: if behind an opening brace
   the text has tokens among which the braces balance, and a closing brace, the
   matcher finds that one, whatever the text before and behind; and if the text
   ends with braces left open, it finds none.
   */
  lemma MatcherBalancesTokens(text: string, open: nat, ts: seq<Token>)
    requires WellWritten(Nothing, ts) && StaysOpen(1, ts) && At(text, open + 1, TokensText(ts))
    ensures
      var end := open + 1 + |TokensText(ts)|;
      && (DepthBehind(1, ts) == 1 && end < |text| && text[end] == '}' ==> Lex(text, open + 1, Code, 1) == Some(end))
      && (end == |text| ==> Lex(text, open + 1, Code, 1).None?)
  {
    var n := OverTokens(text, open + 1, Nothing, Code, ts, 1);
    AtTheEnd(text, open + 1 + |TokensText(ts)|, n, DepthBehind(1, ts));
  }

  lemma AtTheEnd(text: string, end: nat, m: Mode, depth: nat)
    requires InCode(m) && end <= |text|
    ensures depth == 1 && end < |text| && text[end] == '}' ==> Lex(text, end, m, depth) == Some(end)
    ensures end == |text| ==> Lex(text, end, m, depth).None?
  {
  }
}
