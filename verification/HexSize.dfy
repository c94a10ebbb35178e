/**
 Chunk sizes as Python's `int(text, 16)` reads them: which header lines announce
 which size, which announce none, and which are malformed.
 */
module HexSizes {
  import opened Common
  import opened Bytes
  import opened ChunkedCoding

  const UNDERSCORE: Byte := 95
  const SEMICOLON: Byte := 59

  type Nibble = n: int | 0 <= n < 16

  /** A digit as written: in capitals or not, behind an underscore or not. */
  datatype Digit = Digit(value: Nibble, capital: bool, underscored: bool)

  /** A sign, the prefix `0x`, `0X`, `0x_` or `0X_`, and digits. */
  datatype Numeral = Numeral(
    negative: bool, plus: bool, prefixed: bool, capitalX: bool, underscored: bool, digits: seq<Digit>)

  function Char(d: Digit): Byte
  {
    if d.value < 10 then 48 + d.value else if d.capital then 55 + d.value else 87 + d.value
  }

  function Written(digits: seq<Digit>): seq<Byte>
  {
    if digits == [] then [] else
    var n := |digits| - 1;
    Written(digits[..n]) + (if n > 0 && digits[n].underscored then [UNDERSCORE] else []) + [Char(digits[n])]
  }

  function ValueOf(digits: seq<Digit>): nat
  {
    if digits == [] then 0 else ValueOf(digits[..|digits| - 1]) * 16 + digits[|digits| - 1].value
  }

  function Sign(n: Numeral): seq<Byte>
  {
    if n.negative then [45] else if n.plus then [43] else []
  }

  function Prefix(n: Numeral): seq<Byte>
  {
    if n.prefixed then [48, if n.capitalX then 88 else 120] + (if n.underscored then [UNDERSCORE] else []) else []
  }

  function Text(n: Numeral): seq<Byte>
  {
    Sign(n) + (Prefix(n) + Written(n.digits))
  }

  function Size(n: Numeral): int
  {
    var value: int := ValueOf(n.digits);
    if n.negative then -value else value
  }

  // ------------------------------------------------------------------------
  // Digits
  // ------------------------------------------------------------------------

  lemma CharsAreDigits(d: Digit)
    ensures DigitValue(Char(d)) == Some(d.value)
    ensures !IsSpace(Char(d)) && Char(d) != UNDERSCORE && Char(d) != SEMICOLON
    ensures Char(d) != 43 && Char(d) != 45 && Char(d) != 88 && Char(d) != 120
  {
  }

  lemma DigitIsWritten(b: Byte, underscored: bool) returns (d: Digit)
    requires DigitValue(b).Some?
    ensures Char(d) == b && d.value == DigitValue(b).value && d.underscored == underscored
  {
    d := Digit(DigitValue(b).value, b < 97, underscored);
  }

  lemma {:induction false} WrittenParses(digits: seq<Digit>)
    requires digits != []
    ensures DigitsValue(Written(digits)) == Some(ValueOf(digits))
    ensures Written(digits) != [] && Written(digits)[|Written(digits)| - 1] == Char(digits[|digits| - 1])
  {
    var n := |digits| - 1;
    CharsAreDigits(digits[n]);
    if n > 0 {
      WrittenParses(digits[..n]);
      CharsAreDigits(digits[n - 1]);
      LastDigit(Written(digits[..n]), digits[n]);
    }
  }

  lemma LastDigit(front: seq<Byte>, d: Digit)
    requires front != [] && front[|front| - 1] != UNDERSCORE && DigitsValue(front).Some?
    ensures
      var s := front + (if d.underscored then [UNDERSCORE] else []) + [Char(d)];
      DigitsValue(s) == Some(DigitsValue(front).value * 16 + d.value)
  {
    CharsAreDigits(d);
    var s := front + (if d.underscored then [UNDERSCORE] else []) + [Char(d)];
    assert s[..|front|] == front;
    assert s[|s| - 1] == Char(d);
    assert s[|s| - 2] == if d.underscored then UNDERSCORE else front[|front| - 1];
  }

  lemma {:induction false} ParsedIsWritten(s: seq<Byte>) returns (digits: seq<Digit>)
    requires DigitsValue(s).Some?
    ensures digits != [] && Written(digits) == s && ValueOf(digits) == DigitsValue(s).value
  {
    if |s| == 1 {
      var d := DigitIsWritten(s[0], false);
      digits := [d];
      assert digits[..0] == [] && ValueOf([]) == 0 && Written([]) == [];
    } else {
      var underscored := s[|s| - 2] == UNDERSCORE;
      var front := if underscored then s[..|s| - 2] else s[..|s| - 1];
      var before := ParsedIsWritten(front);
      var d := DigitIsWritten(s[|s| - 1], underscored);
      digits := before + [d];
      WrittenExtends(before, d);
      SplitBehind(s, underscored);
    }
  }

  lemma WrittenExtends(digits: seq<Digit>, d: Digit)
    requires digits != []
    ensures Written(digits + [d]) == Written(digits) + (if d.underscored then [UNDERSCORE] else []) + [Char(d)]
    ensures ValueOf(digits + [d]) == ValueOf(digits) * 16 + d.value
  {
    assert (digits + [d])[..|digits|] == digits;
  }

  lemma SplitBehind(s: seq<Byte>, underscored: bool)
    requires |s| >= 2 && (underscored <==> s[|s| - 2] == UNDERSCORE)
    ensures
      var front := if underscored then s[..|s| - 2] else s[..|s| - 1];
      s == front + (if underscored then [UNDERSCORE] else []) + [s[|s| - 1]]
  {
  }

  // ------------------------------------------------------------------------
  // Numerals
  // ------------------------------------------------------------------------

  lemma {:induction false} FirstChar(digits: seq<Digit>)
    requires digits != []
    ensures Written(digits) != [] && Written(digits)[0] == Char(digits[0])
    ensures |Written(digits)| > 1 ==> Written(digits)[1] != 88 && Written(digits)[1] != 120
  {
    var n := |digits| - 1;
    CharsAreDigits(digits[n]);
    if n > 0 {
      FirstChar(digits[..n]);
    }
  }

  /** What is parsed behind the sign. */
  function Unsigned(body: seq<Byte>): Option<nat>
  {
    var prefixed := |body| >= 2 && body[0] == 48 && (body[1] == 120 || body[1] == 88);
    DigitsValue(
      if !prefixed then body else if |body| > 2 && body[2] == UNDERSCORE then body[3..] else body[2..])
  }

  lemma ParsesBehindSign(sign: seq<Byte>, body: seq<Byte>)
    requires sign == [] || sign == [43] || sign == [45]
    requires body != [] && body[0] != 43 && body[0] != 45
    ensures
      var value := Unsigned(body);
      ParseHex(sign + body) ==
        if value.None? then None else Some(if sign == [45] then -(value.value as int) else value.value)
  {
    SignTaken(sign, body);
  }

  lemma TextParses(n: Numeral)
    requires n.digits != []
    ensures ParseHex(Text(n)) == Some(Size(n))
  {
    var body := Prefix(n) + Written(n.digits);
    FirstChar(n.digits);
    CharsAreDigits(n.digits[0]);
    WrittenParses(n.digits);
    if n.prefixed {
      PrefixTaken(n);
    } else {
      assert body == Written(n.digits);
    }
    assert Unsigned(body) == Some(ValueOf(n.digits));
    ParsesBehindSign(Sign(n), body);
  }

  lemma SignTaken(sign: seq<Byte>, body: seq<Byte>)
    requires sign == [] || sign == [43] || sign == [45]
    requires body != [] && body[0] != 43 && body[0] != 45
    ensures
      var s := sign + body;
      (s != [] && (s[0] == 43 || s[0] == 45) <==> sign != []) && (if sign != [] then s[1..] else s) == body
  {
  }

  lemma PrefixTaken(n: Numeral)
    requires n.prefixed && n.digits != []
    ensures
      var body := Prefix(n) + Written(n.digits);
      && |body| > 2 && body[0] == 48 && (body[1] == 88 || body[1] == 120)
      && (body[2] == UNDERSCORE <==> n.underscored)
      && (if n.underscored then body[3..] else body[2..]) == Written(n.digits)
  {
    FirstChar(n.digits);
    CharsAreDigits(n.digits[0]);
  }

  /** The prefix of a number, as far as it has one. */
  lemma PrefixIsText(body: seq<Byte>) returns (n: Numeral, length: nat)
    ensures length <= |body| && !n.negative && !n.plus && n.digits == []
    ensures Prefix(n) == body[..length] && Unsigned(body) == DigitsValue(body[length..])
  {
    var prefixed := |body| >= 2 && body[0] == 48 && (body[1] == 120 || body[1] == 88);
    var underscored := prefixed && |body| > 2 && body[2] == UNDERSCORE;
    length := if underscored then 3 else if prefixed then 2 else 0;
    n := Numeral(false, false, prefixed, prefixed && body[1] == 88, underscored, []);
    assert body[0..] == body;
  }

  lemma UnsignedIsText(body: seq<Byte>) returns (n: Numeral)
    requires Unsigned(body).Some?
    ensures n.digits != [] && !n.negative && !n.plus
    ensures Prefix(n) + Written(n.digits) == body && ValueOf(n.digits) == Unsigned(body).value
  {
    var prefix, length := PrefixIsText(body);
    var digits := ParsedIsWritten(body[length..]);
    n := prefix.(digits := digits);
    assert Prefix(n) == Prefix(prefix);
    assert body == body[..length] + body[length..];
  }

  lemma ParsedIsText(s: seq<Byte>) returns (n: Numeral)
    requires ParseHex(s).Some?
    ensures n.digits != [] && Text(n) == s && Size(n) == ParseHex(s).value
  {
    var signed := s != [] && (s[0] == 43 || s[0] == 45);
    var body := if signed then s[1..] else s;
    var unsigned := UnsignedIsText(body);
    n := unsigned.(negative := signed && s[0] == 45, plus := signed);
    SameBody(n, unsigned);
    SignRead(s, n, body);
  }

  lemma SignRead(s: seq<Byte>, n: Numeral, body: seq<Byte>)
    requires s != [] && (s[0] == 43 || s[0] == 45) ==> s == [s[0]] + body && n.plus && (n.negative <==> s[0] == 45)
    requires !(s != [] && (s[0] == 43 || s[0] == 45)) ==> s == body && !n.plus && !n.negative
    ensures Sign(n) + body == s
  {
  }

  /** A sign changes nothing behind it. */
  lemma SameBody(n: Numeral, unsigned: Numeral)
    requires n == unsigned.(negative := n.negative, plus := n.plus)
    ensures Prefix(n) == Prefix(unsigned) && n.digits == unsigned.digits
  {
  }

  ghost predicate Numerates(s: seq<Byte>, z: int)
  {
    exists n: Numeral :: n.digits != [] && Text(n) == s && Size(n) == z
  }

  /** `int(s, 16)` is `z` if and only if `s` is a way to write `z`. */
  lemma ParsesExactlyNumerals(s: seq<Byte>, z: int)
    ensures ParseHex(s) == Some(z) <==> Numerates(s, z)
  {
    if ParseHex(s) == Some(z) {
      var n := ParsedIsText(s);
    }
    if Numerates(s, z) {
      var n: Numeral :| n.digits != [] && Text(n) == s && Size(n) == z;
      TextParses(n);
    }
  }

  // ------------------------------------------------------------------------
  // Header lines
  // ------------------------------------------------------------------------

  /** White space, `core`, white space, and perhaps a semicolon with anything behind it. */
  ghost predicate Encloses(line: seq<Byte>, core: seq<Byte>)
  {
    exists before, after, extension :: EnclosedBy(line, core, before, after, extension)
  }

  predicate EnclosedBy(
      line: seq<Byte>, core: seq<Byte>, before: seq<Byte>, after: seq<Byte>, extension: seq<Byte>)
  {
    && line == before + core + after + extension
    && AllSpace(before) && AllSpace(after) && SEMICOLON !in core
    && (extension == [] || extension[0] == SEMICOLON)
  }

  lemma {:induction false} CutAtSemicolon(s: seq<Byte>, extension: seq<Byte>)
    requires SEMICOLON !in s && (extension == [] || extension[0] == SEMICOLON)
    ensures BeforeSemicolon(s + extension) == s
  {
    if s == [] {
      assert s + extension == extension;
    } else {
      assert s[0] in s && (s + extension)[1..] == s[1..] + extension;
      CutAtSemicolon(s[1..], extension);
    }
  }

  lemma {:induction false} SemicolonSplits(line: seq<Byte>) returns (extension: seq<Byte>)
    ensures line == BeforeSemicolon(line) + extension && SEMICOLON !in BeforeSemicolon(line)
    ensures extension == [] || extension[0] == SEMICOLON
  {
    if line == [] || line[0] == SEMICOLON {
      extension := line;
    } else {
      extension := SemicolonSplits(line[1..]);
      assert line == [line[0]] + line[1..];
    }
  }

  lemma FieldIsEnclosed(line: seq<Byte>)
    ensures Encloses(line, SizeField(line))
  {
    var extension := SemicolonSplits(line);
    var text := BeforeSemicolon(line);
    var before, after := StripParts(text);
    var core := Strip(text);
    assert core == text[|before|..|before| + |core|];
    assert EnclosedBy(line, core, before, after, extension);
  }

  lemma EnclosedIsField(line: seq<Byte>, core: seq<Byte>)
    requires Encloses(line, core) && core != [] && !IsSpace(core[0]) && !IsSpace(core[|core| - 1])
    ensures SizeField(line) == core
  {
    var before, after, extension :| EnclosedBy(line, core, before, after, extension);
    NoSemicolonInSpace(before);
    NoSemicolonInSpace(after);
    CutAtSemicolon(before + core + after, extension);
    StripsTo(before, core, after);
  }

  lemma NoSemicolonInSpace(s: seq<Byte>)
    requires AllSpace(s)
    ensures SEMICOLON !in s
  {
  }

  lemma BlankIsNoField(line: seq<Byte>)
    requires Encloses(line, [])
    ensures SizeField(line) == []
  {
    var before, after, extension :| EnclosedBy(line, [], before, after, extension);
    var blank := before + after;
    SpacesJoin(before, after);
    assert before + [] + after == blank;
    NoSemicolonInSpace(blank);
    CutAtSemicolon(blank, extension);
    AllStripped(blank);
  }

  lemma {:induction false} AllStripped(s: seq<Byte>)
    requires AllSpace(s)
    ensures StripLeft(s) == []
  {
    if s != [] {
      AllStripped(s[1..]);
    }
  }

  lemma TextIsPlain(n: Numeral)
    requires n.digits != []
    ensures Text(n) != [] && !IsSpace(Text(n)[0]) && !IsSpace(Text(n)[|Text(n)| - 1])
  {
    FirstChar(n.digits);
    CharsAreDigits(n.digits[0]);
    WrittenParses(n.digits);
    CharsAreDigits(n.digits[|n.digits| - 1]);
    var body := Prefix(n) + Written(n.digits);
    assert body[|body| - 1] == Written(n.digits)[|Written(n.digits)| - 1];
    assert Text(n)[|Text(n)| - 1] == body[|body| - 1];
  }

  /**
   A header line announces `z` if and only if, between white space and in front of
   any extension, it writes `z` as a number in base 16: digits of either case, with
   single underscores between them, a prefix and a sign. It announces nothing if
   and only if it has only white space there.
   */
  lemma HeaderAnnouncesNumeral(line: seq<Byte>, z: int)
    ensures ReadHeader(line) == Announced(z) <==> exists s :: Encloses(line, s) && Numerates(s, z)
    ensures ReadHeader(line) == Missing <==> Encloses(line, [])
  {
    var field := SizeField(line);
    FieldIsEnclosed(line);
    ParsesExactlyNumerals(field, z);
    if s :| Encloses(line, s) && Numerates(s, z) {
      var n: Numeral :| n.digits != [] && Text(n) == s && Size(n) == z;
      TextIsPlain(n);
      EnclosedIsField(line, s);
      ParsesExactlyNumerals(s, z);
    }
    if Encloses(line, []) {
      BlankIsNoField(line);
    }
  }
}
