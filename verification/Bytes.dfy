/** Bytes, byte lines and the text encoding used on the wire. */
module Bytes {
  type Byte = b: int | 0 <= b < 256

  const LF: Byte := 10
  const CR: Byte := 13
  const CRLF: seq<Byte> := [13, 10]

  function Concat<T>(parts: seq<seq<T>>): seq<T>
  {
    if parts == [] then [] else parts[0] + Concat(parts[1..])
  }

  lemma {:induction false} ConcatAppend<T>(a: seq<seq<T>>, b: seq<seq<T>>)
    ensures Concat(a + b) == Concat(a) + Concat(b)
  {
    if a == [] {
      assert a + b == b;
    } else {
      assert (a + b)[1..] == a[1..] + b;
      ConcatAppend(a[1..], b);
    }
  }

  /** How many bytes `readline()` takes: through the first line feed, or everything before end of file. */
  function LineLength(s: seq<Byte>): (n: nat)
    ensures n <= |s| && (s != [] ==> n > 0)
  {
    if s == [] then 0 else if s[0] == LF then 1 else 1 + LineLength(s[1..])
  }

  function ReadLine(s: seq<Byte>): (line: seq<Byte>)
    ensures s != [] ==> line != []
  {
    s[..LineLength(s)]
  }

  /** A line has no line feed before its last byte, and only the end of the input leaves it without one. */
  lemma {:induction false} LineShape(s: seq<Byte>)
    ensures forall i :: 0 <= i < LineLength(s) - 1 ==> s[i] != LF
    ensures LineLength(s) < |s| ==> s[LineLength(s) - 1] == LF
    ensures LF !in s ==> LineLength(s) == |s|
  {
    if s != [] && s[0] != LF {
      LineShape(s[1..]);
      assert forall i :: 0 < i < |s| ==> s[i] == s[1..][i - 1];
    }
  }

  lemma {:induction false} LineLengthAt(s: seq<Byte>, n: nat)
    requires 0 < n <= |s| && s[n - 1] == LF && forall i :: 0 <= i < n - 1 ==> s[i] != LF
    ensures LineLength(s) == n
  {
    if n > 1 {
      LineLengthAt(s[1..], n - 1);
    }
  }

  /** White space of `str.strip()` on Latin-1 text. */
  predicate IsSpace(b: Byte)
  {
    9 <= b <= 13 || 28 <= b <= 32 || b == 0x85 || b == 0xA0
  }

  function StripLeft(s: seq<Byte>): seq<Byte>
  {
    if s != [] && IsSpace(s[0]) then StripLeft(s[1..]) else s
  }

  function StripRight(s: seq<Byte>): seq<Byte>
  {
    if s != [] && IsSpace(s[|s| - 1]) then StripRight(s[..|s| - 1]) else s
  }

  /** `strip()` */
  function Strip(s: seq<Byte>): seq<Byte>
  {
    StripRight(StripLeft(s))
  }

  predicate AllSpace(s: seq<Byte>)
  {
    forall i :: 0 <= i < |s| ==> IsSpace(s[i])
  }

  /** What is left of a text without the white space around it. */
  lemma {:induction false} StripParts(s: seq<Byte>) returns (before: seq<Byte>, after: seq<Byte>)
    ensures s == before + Strip(s) + after && AllSpace(before) && AllSpace(after)
    ensures Strip(s) != [] ==> !IsSpace(Strip(s)[0]) && !IsSpace(Strip(s)[|Strip(s)| - 1])
  {
    before := LeftPart(s);
    after := RightPart(StripLeft(s));
  }

  lemma {:induction false} LeftPart(s: seq<Byte>) returns (before: seq<Byte>)
    ensures s == before + StripLeft(s) && AllSpace(before)
    ensures StripLeft(s) != [] ==> !IsSpace(StripLeft(s)[0])
  {
    if s != [] && IsSpace(s[0]) {
      before := LeftPart(s[1..]);
      before := [s[0]] + before;
      assert s == [s[0]] + s[1..];
    } else {
      before := [];
    }
  }

  lemma {:induction false} RightPart(s: seq<Byte>) returns (after: seq<Byte>)
    ensures s == StripRight(s) + after && AllSpace(after)
    ensures StripRight(s) != [] ==> !IsSpace(StripRight(s)[|StripRight(s)| - 1])
  {
    if s != [] && IsSpace(s[|s| - 1]) {
      after := RightPart(s[..|s| - 1]);
      after := after + [s[|s| - 1]];
    } else {
      after := [];
    }
  }

  lemma {:induction false} StripsLeft(before: seq<Byte>, s: seq<Byte>)
    requires AllSpace(before) && s != [] && !IsSpace(s[0])
    ensures StripLeft(before + s) == s
  {
    if before == [] {
      assert before + s == s;
    } else {
      assert (before + s)[1..] == before[1..] + s;
      StripsLeft(before[1..], s);
    }
  }

  lemma {:induction false} StripsRight(s: seq<Byte>, after: seq<Byte>)
    requires AllSpace(after) && s != [] && !IsSpace(s[|s| - 1])
    ensures StripRight(s + after) == s
  {
    if after == [] {
      assert s + after == s;
    } else {
      assert (s + after)[..|s + after| - 1] == s + after[..|after| - 1];
      StripsRight(s, after[..|after| - 1]);
    }
  }

  lemma StripsTo(before: seq<Byte>, s: seq<Byte>, after: seq<Byte>)
    requires AllSpace(before) && AllSpace(after) && s != [] && !IsSpace(s[0]) && !IsSpace(s[|s| - 1])
    ensures Strip(before + s + after) == s
  {
    assert before + s + after == before + (s + after);
    StripsLeft(before, s + after);
    StripsRight(s, after);
  }

  lemma SpacesJoin(a: seq<Byte>, b: seq<Byte>)
    requires AllSpace(a) && AllSpace(b)
    ensures AllSpace(a + b)
  {
  }

  // ------------------------------------------------------------------------
  // UTF-8
  // ------------------------------------------------------------------------

  function Utf8Char(c: char): (r: seq<Byte>)
    ensures 1 <= |r| <= 4
    ensures LF in r <==> c == '\n'
  {
    var n := c as int;
    if n < 0x80 then [n]
    else if n < 0x800 then [0xC0 + n / 0x40, 0x80 + n % 0x40]
    else if n < 0x10000 then [0xE0 + n / 0x1000, 0x80 + n / 0x40 % 0x40, 0x80 + n % 0x40]
    else [0xF0 + n / 0x40000 % 0x08, 0x80 + n / 0x1000 % 0x40, 0x80 + n / 0x40 % 0x40, 0x80 + n % 0x40]
  }

  function Utf8(s: string): seq<Byte>
  {
    if s == "" then [] else Utf8Char(s[0]) + Utf8(s[1..])
  }

  lemma {:induction false} Utf8Append(a: string, b: string)
    ensures Utf8(a + b) == Utf8(a) + Utf8(b)
  {
    if a == "" {
      assert a + b == b;
    } else {
      assert (a + b)[1..] == a[1..] + b;
      Utf8Append(a[1..], b);
    }
  }

  lemma {:induction false} Utf8Newlines(s: string)
    ensures LF in Utf8(s) <==> '\n' in s
    ensures Utf8(s) == [] <==> s == ""
  {
    if s != "" {
      Utf8Newlines(s[1..]);
      assert s == [s[0]] + s[1..];
    }
  }
}
