/**
 Finding the brace that closes a Rust block. The matcher jumps over comments,
 strings and raw strings; a lexer that looks at one character at a time, and
 never ahead or back, says which brace it has to find. Neither knows character
 literals.
 */
module BraceMatching {
  import opened Common

  // ------------------------------------------------------------------------
  // The character-by-character lexer
  // ------------------------------------------------------------------------

  /**
   What the characters so far mean for the next one. In `Slash` and `RawPrefix`
   the last characters were code that may yet begin a comment or a raw string;
   in `BlockSlash`, `BlockStar` and `RawQuote` they may yet be a delimiter.
   */
  datatype Mode =
    | Code
    | Slash
    | RawPrefix(hashes: nat)
    | Line
    | Block(depth: nat)
    | BlockSlash(depth: nat)
    | BlockStar(depth: nat)
    | Str
    | Escape
    | Raw(hashes: nat)
    | RawQuote(hashes: nat, seen: nat)

  predicate InCode(m: Mode)
  {
    m.Code? || m.Slash? || m.RawPrefix?
  }

  function CodeChar(c: char): Mode
  {
    if c == '/' then Slash
    else if c == 'r' then RawPrefix(0)
    else if c == '"' then Str
    else Code
  }

  function After(m: Mode, c: char): Mode
  {
    match m
    case Code => CodeChar(c)
    case Slash => if c == '/' then Line else if c == '*' then Block(1) else CodeChar(c)
    case RawPrefix(h) => if c == '#' then RawPrefix(h + 1) else if c == '"' then Raw(h) else CodeChar(c)
    case Line => if c == '\n' then Code else Line
    case Block(d) => if c == '/' then BlockSlash(d) else if c == '*' then BlockStar(d) else Block(d)
    case BlockSlash(d) => if c == '*' then Block(d + 1) else if c == '/' then BlockSlash(d) else Block(d)
    case BlockStar(d) =>
      if c == '/' then (if d <= 1 then Code else Block(d - 1))
      else if c == '*' then BlockStar(d)
      else Block(d)
    case Str => if c == '\\' then Escape else if c == '"' then Code else Str
    case Escape => Str
    case Raw(h) => if c == '"' then (if h == 0 then Code else RawQuote(h, 0)) else Raw(h)
    case RawQuote(h, k) =>
      if c == '#' then (if k + 1 == h then Code else RawQuote(h, k + 1))
      else if c == '"' then RawQuote(h, 0)
      else Raw(h)
  }

  /** The index at which the brace depth first returns to zero, counting braces in code only. */
  function Lex(text: string, i: nat, m: Mode, depth: nat): Option<nat>
    decreases |text| - i
  {
    if i >= |text| then None else
    var c := text[i];
    if InCode(m) && c == '}' then
      if depth <= 1 then Some(i) else Lex(text, i + 1, After(m, c), depth - 1)
    else if InCode(m) && c == '{' then Lex(text, i + 1, After(m, c), depth + 1)
    else Lex(text, i + 1, After(m, c), depth)
  }

  // ------------------------------------------------------------------------
  // The jumping matcher
  // ------------------------------------------------------------------------

  predicate StartsWith(text: string, i: nat, a: char, b: char)
  {
    i + 1 < |text| && text[i] == a && text[i + 1] == b
  }

  function CountHashes(text: string, i: nat): (n: nat)
    ensures i <= |text| ==> i + n <= |text|
    decreases |text| - i
  {
    if i < |text| && text[i] == '#' then 1 + CountHashes(text, i + 1) else 0
  }

  /** The match of `r(#+)?"` at `i`: its number of hashes. */
  function RawOpener(text: string, i: nat): Option<nat>
  {
    if i < |text| && text[i] == 'r' then
      var n := CountHashes(text, i + 1);
      if i + 1 + n < |text| && text[i + 1 + n] == '"' then Some(n) else None
    else None
  }

  function FindNewline(text: string, i: nat): Option<nat>
    decreases |text| - i
  {
    if i >= |text| then None else if text[i] == '\n' then Some(i) else FindNewline(text, i + 1)
  }

  /** A quote followed by `hashes` hashes starts at `i`. */
  predicate Closes(text: string, i: nat, hashes: nat)
  {
    i + hashes < |text| && text[i] == '"' && forall k :: i < k <= i + hashes ==> text[k] == '#'
  }

  function FindCloser(text: string, i: nat, hashes: nat): (r: Option<nat>)
    ensures r.Some? ==> i <= r.value && r.value + hashes < |text|
    decreases |text| - i
  {
    if i >= |text| then None else if Closes(text, i, hashes) then Some(i) else FindCloser(text, i + 1, hashes)
  }

  function SkipLineComment(text: string, i: nat): (nat, bool)
  {
    match FindNewline(text, i)
    case None => (|text|, true)
    case Some(newline) => (newline + 1, false)
  }

  function SkipBlockComment(text: string, i: nat, depth: nat): (nat, nat)
    requires depth > 0
  {
    if StartsWith(text, i, '/', '*') then (i + 2, depth + 1)
    else if StartsWith(text, i, '*', '/') then (i + 2, depth - 1)
    else (i + 1, depth)
  }

  function SkipRawString(text: string, i: nat, hashes: nat): (nat, Option<nat>)
  {
    match FindCloser(text, i, hashes)
    case None => (|text|, Some(hashes))
    case Some(close) => (close + hashes + 1, None)
  }

  function SkipString(text: string, i: nat): (nat, bool)
    requires i < |text|
  {
    if text[i] == '\\' then (i + 2, true)
    else if text[i] == '"' then (i + 1, false)
    else (i + 1, true)
  }

  /** The mode that the matcher's variables stand for. */
  function ModeOf(inLine: bool, blockDepth: nat, raw: Option<nat>, inString: bool): Mode
  {
    if inLine then Line
    else if blockDepth > 0 then Block(blockDepth)
    else if raw.Some? then Raw(raw.value)
    else if inString then Str
    else Code
  }

  /**
   `_matching_brace`: the matcher returns the index the lexer finds, and fails
   exactly when the lexer never returns to depth zero.
   */
  method MatchingBrace(text: string, openIndex: nat) returns (r: Option<nat>)
    ensures r == Lex(text, openIndex + 1, Code, 1)
  {
    var depth: nat := 1;
    var index: nat := openIndex + 1;
    var blockDepth: nat := 0;
    var inLine, inString := false, false;
    var raw: Option<nat> := None;
    while index < |text|
      invariant depth > 0
      invariant inLine ==> blockDepth == 0
      invariant inLine || blockDepth > 0 ==> raw.None?
      invariant inLine || blockDepth > 0 || raw.Some? ==> !inString
      invariant Lex(text, index, ModeOf(inLine, blockDepth, raw, inString), depth) == Lex(text, openIndex + 1, Code, 1)
      decreases |text| - index
    {
      if inLine {
        LexLine(text, index, depth);
        FindNewlineForward(text, index);
        var (next, still) := SkipLineComment(text, index);
        index, inLine := next, still;
        continue;
      }
      if blockDepth > 0 {
        LexBlock(text, index, blockDepth, depth);
        var (next, nested) := SkipBlockComment(text, index, blockDepth);
        index, blockDepth := next, nested;
        continue;
      }
      if raw.Some? {
        LexRaw(text, index, raw.value, depth);
        var (next, closer) := SkipRawString(text, index, raw.value);
        index, raw := next, closer;
        continue;
      }
      if inString {
        LexString(text, index, depth);
        var (next, still) := SkipString(text, index);
        index, inString := next, still;
        continue;
      }
      if StartsWith(text, index, '/', '/') {
        inLine := true;
        index := index + 2;
        continue;
      }
      if StartsWith(text, index, '/', '*') {
        blockDepth := 1;
        index := index + 2;
        continue;
      }
      var opener := RawOpener(text, index);
      LexCode(text, index, depth);
      if opener.Some? {
        raw := opener;
        index := index + opener.value + 2;
        continue;
      }
      var character := text[index];
      if character == '"' {
        inString := true;
      } else if character == '{' {
        depth := depth + 1;
      } else if character == '}' {
        depth := depth - 1;
        if depth == 0 {
          return Some(index);
        }
      }
      index := index + 1;
    }
    r := None;
  }

  // ------------------------------------------------------------------------
  // Each jump is a run of the lexer
  // ------------------------------------------------------------------------

  lemma {:induction false} FindNewlineForward(text: string, i: nat)
    ensures FindNewline(text, i).Some? ==> i <= FindNewline(text, i).value < |text|
    decreases |text| - i
  {
    if i < |text| && text[i] != '\n' {
      FindNewlineForward(text, i + 1);
    }
  }

  lemma {:induction false} LexLine(text: string, i: nat, depth: nat)
    ensures
      var (next, still) := SkipLineComment(text, i);
      Lex(text, i, Line, depth) == if still then None else Lex(text, next, Code, depth)
    decreases |text| - i
  {
    if i < |text| && text[i] != '\n' {
      LexLine(text, i + 1, depth);
    }
  }

  /** After an `r` and hashes that lead to no quote, the lexer is back in plain code. */
  lemma {:induction false} LexAfterPrefix(text: string, i: nat, hashes: nat, depth: nat)
    requires
      var quote := i + CountHashes(text, i);
      quote < |text| ==> text[quote] != '"'
    ensures Lex(text, i, RawPrefix(hashes), depth) == Lex(text, i, Code, depth)
    decreases |text| - i
  {
    if i < |text| && text[i] == '#' {
      LexAfterPrefix(text, i + 1, hashes + 1, depth);
    }
  }

  lemma {:induction false} LexPrefix(text: string, i: nat, hashes: nat, depth: nat)
    requires
      var quote := i + CountHashes(text, i);
      quote < |text| && text[quote] == '"'
    ensures
      var n := CountHashes(text, i);
      Lex(text, i, RawPrefix(hashes), depth) == Lex(text, i + n + 1, Raw(hashes + n), depth)
    decreases |text| - i
  {
    if text[i] == '#' {
      LexPrefix(text, i + 1, hashes + 1, depth);
    }
  }

  /** One character of code that starts no comment. */
  lemma LexCode(text: string, i: nat, depth: nat)
    requires i < |text| && depth > 0
    requires !StartsWith(text, i, '/', '/') && !StartsWith(text, i, '/', '*')
    ensures Lex(text, i, Code, depth) ==
      match RawOpener(text, i)
      case Some(n) => Lex(text, i + n + 2, Raw(n), depth)
      case None =>
        if text[i] == '"' then Lex(text, i + 1, Str, depth)
        else if text[i] == '{' then Lex(text, i + 1, Code, depth + 1)
        else if text[i] != '}' then Lex(text, i + 1, Code, depth)
        else if depth == 1 then Some(i)
        else Lex(text, i + 1, Code, depth - 1)
  {
    if text[i] == '/' {
    } else if text[i] == 'r' {
      if RawOpener(text, i).Some? {
        LexPrefix(text, i + 1, 0, depth);
      } else {
        LexAfterPrefix(text, i + 1, 0, depth);
      }
    }
  }

  lemma LexString(text: string, i: nat, depth: nat)
    requires i < |text|
    ensures
      var (next, still) := SkipString(text, i);
      Lex(text, i, Str, depth) == Lex(text, next, if still then Str else Code, depth)
  {
    if text[i] == '\\' {
      assert Lex(text, i, Str, depth) == Lex(text, i + 1, Escape, depth);
    }
  }

  lemma LexBlock(text: string, i: nat, nested: nat, depth: nat)
    requires i < |text| && nested > 0
    ensures
      var (next, d) := SkipBlockComment(text, i, nested);
      Lex(text, i, Block(nested), depth) == Lex(text, next, if d > 0 then Block(d) else Code, depth)
  {
    if text[i] == '/' {
      assert Lex(text, i, Block(nested), depth) == Lex(text, i + 1, BlockSlash(nested), depth);
    } else if text[i] == '*' {
      assert Lex(text, i, Block(nested), depth) == Lex(text, i + 1, BlockStar(nested), depth);
    }
  }

  /** What the lexer does from the position where the closer was searched. */
  function AfterCloser(text: string, i: nat, hashes: nat, depth: nat): Option<nat>
  {
    match FindCloser(text, i, hashes)
    case None => None
    case Some(close) => Lex(text, close + hashes + 1, Code, depth)
  }

  lemma {:induction false} NoCloserBetween(text: string, i: nat, j: nat, hashes: nat)
    requires i <= j && forall k :: i <= k < j ==> !Closes(text, k, hashes)
    ensures FindCloser(text, i, hashes) == FindCloser(text, j, hashes)
    decreases j - i
  {
    if i < j {
      NoCloserBetween(text, i + 1, j, hashes);
    }
  }

  lemma {:induction false} LexRaw(text: string, i: nat, hashes: nat, depth: nat)
    ensures Lex(text, i, Raw(hashes), depth) == AfterCloser(text, i, hashes, depth)
    decreases |text| - i
  {
    if i < |text| {
      if text[i] != '"' {
        LexRaw(text, i + 1, hashes, depth);
      } else if hashes > 0 {
        LexRawQuote(text, i + 1, hashes, 0, depth);
      }
    }
  }

  /** A quote and `seen` hashes stand just before `i`. */
  lemma {:induction false} LexRawQuote(text: string, i: nat, hashes: nat, seen: nat, depth: nat)
    requires seen < hashes && seen + 1 <= i <= |text|
    requires text[i - 1 - seen] == '"' && forall k :: i - seen <= k < i ==> text[k] == '#'
    ensures Lex(text, i, RawQuote(hashes, seen), depth) == AfterCloser(text, i - 1 - seen, hashes, depth)
    decreases |text| - i
  {
    var quote := i - 1 - seen;
    if i == |text| {
      NoCloserBetween(text, quote, i, hashes);
    } else if text[i] == '#' {
      if seen + 1 < hashes {
        LexRawQuote(text, i + 1, hashes, seen + 1, depth);
      } else {
        assert Closes(text, quote, hashes);
      }
    } else {
      assert !Closes(text, quote, hashes);
      if text[i] == '"' {
        NoCloserBetween(text, quote, i, hashes);
        LexRawQuote(text, i + 1, hashes, 0, depth);
      } else {
        NoCloserBetween(text, quote, i + 1, hashes);
        LexRaw(text, i + 1, hashes, depth);
      }
    }
  }

  // ------------------------------------------------------------------------
  // What the lexer finds
  // ------------------------------------------------------------------------

  /** The mode before index `j`, reading from `start`. */
  function ModeAt(text: string, start: nat, j: nat): Mode
    requires start <= j <= |text|
    decreases j
  {
    if j == start then Code else After(ModeAt(text, start, j - 1), text[j - 1])
  }

  /** One, plus the braces opened in code before index `j`, less those closed. */
  function DepthAt(text: string, start: nat, j: nat): int
    requires start <= j <= |text|
    decreases j
  {
    if j == start then 1 else
    var before := DepthAt(text, start, j - 1);
    if !InCode(ModeAt(text, start, j - 1)) then before
    else if text[j - 1] == '{' then before + 1
    else if text[j - 1] == '}' then before - 1
    else before
  }

  /** The lexer as it stands before index `j`. */
  function LexAt(text: string, start: nat, j: nat): Option<nat>
    requires start <= j <= |text| && DepthAt(text, start, j) >= 0
  {
    Lex(text, j, ModeAt(text, start, j), DepthAt(text, start, j))
  }

  predicate PositiveThrough(text: string, start: nat, j: nat, end: nat)
    requires start <= j <= end <= |text|
  {
    forall k :: j <= k <= end ==> DepthAt(text, start, k) > 0
  }

  /** Where the depth first falls to zero behind `j`, or the end of the text. */
  lemma {:induction false} FirstBalance(text: string, start: nat, j: nat) returns (end: nat)
    requires start <= j <= |text| && DepthAt(text, start, j) > 0
    ensures j <= end <= |text| && PositiveThrough(text, start, j, end)
    ensures end < |text| ==> DepthAt(text, start, end + 1) <= 0
    decreases |text| - j
  {
    end := j;
    if j < |text| && DepthAt(text, start, j + 1) > 0 {
      end := FirstBalance(text, start, j + 1);
    }
  }

  /** The lexer runs on as long as the depth is positive. */
  lemma {:induction false} LexReaches(text: string, start: nat, j: nat, end: nat)
    requires start <= j <= end <= |text| && PositiveThrough(text, start, j, end)
    ensures LexAt(text, start, j) == LexAt(text, start, end)
    decreases end - j
  {
    if j < end {
      LexReaches(text, start, j + 1, end);
    }
  }

  lemma LexFromDepth(text: string, start: nat, j: nat) returns (end: nat)
    requires start <= j <= |text| && DepthAt(text, start, j) > 0
    ensures j <= end <= |text| && PositiveThrough(text, start, j, end)
    ensures LexAt(text, start, j) == if end == |text| then None else Some(end)
    ensures end < |text| ==>
      text[end] == '}' && InCode(ModeAt(text, start, end)) && DepthAt(text, start, end + 1) == 0
  {
    end := FirstBalance(text, start, j);
    LexReaches(text, start, j, end);
  }

  /**
   The brace found is the first at which as many braces have been closed as
   opened, in code; nothing is found exactly when that never happens.
   */
  lemma LexFindsFirstBalance(text: string, start: nat)
    requires start <= |text|
    ensures
      match Lex(text, start, Code, 1)
      case Some(p) =>
        && start <= p < |text| && text[p] == '}' && InCode(ModeAt(text, start, p))
        && DepthAt(text, start, p + 1) == 0
        && forall k :: start <= k <= p ==> DepthAt(text, start, k) > 0
      case None => forall k :: start <= k <= |text| ==> DepthAt(text, start, k) > 0
  {
    var end := LexFromDepth(text, start, start);
  }
}
