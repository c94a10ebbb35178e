/**
 The durable session secret: any number of processes load one 32-byte key, or
 create it and publish it with a hard link. A link shares the inode with the
 temporary file, so what is linked must already be complete.
 */
module SessionSecret {
  import opened Common
  import opened Bytes

  const KEY_BYTES := 32
  const MAX_KEY_FILE_BYTES := 4096
  const PREFIX: seq<Byte> := [118, 49, 58]

  // ------------------------------------------------------------------------
  // URL-safe base64, section 5 of RFC 4648
  // ------------------------------------------------------------------------

  type Sextet = v: int | 0 <= v < 64

  const PAD: Byte := 61

  function Symbol(v: Sextet): Byte
  {
    if v < 26 then 65 + v
    else if v < 52 then 71 + v
    else if v < 62 then v - 4
    else if v == 62 then 45
    else 95
  }

  /** The alphabet's values; `+` and `/` are accepted beside `-` and `_`. */
  function Value(b: Byte): Option<Sextet>
  {
    if 65 <= b <= 90 then Some(b - 65)
    else if 97 <= b <= 122 then Some(b - 71)
    else if 48 <= b <= 57 then Some(b + 4)
    else if b == 45 || b == 43 then Some(62)
    else if b == 95 || b == 47 then Some(63)
    else None
  }

  function Group(b0: Byte, b1: Byte, b2: Byte): seq<Byte>
  {
    [Symbol(b0 / 4), Symbol(b0 % 4 * 16 + b1 / 16), Symbol(b1 % 16 * 4 + b2 / 64), Symbol(b2 % 64)]
  }

  function Encode64(s: seq<Byte>): seq<Byte>
  {
    if s == [] then []
    else if |s| == 1 then [Symbol(s[0] / 4), Symbol(s[0] % 4 * 16), PAD, PAD]
    else if |s| == 2 then
      [Symbol(s[0] / 4), Symbol(s[0] % 4 * 16 + s[1] / 16), Symbol(s[1] % 16 * 4), PAD]
    else
      Group(s[0], s[1], s[2]) + Encode64(s[3..])
  }

  /** Strict decoding: whole groups of four, padding only at the very end. None is an error. */
  function Decode64(t: seq<Byte>): Option<seq<Byte>>
  {
    if t == [] then Some([])
    else if |t| < 4 then None
    else
      var v0, v1, v2, v3 := Value(t[0]), Value(t[1]), Value(t[2]), Value(t[3]);
      if v0.None? || v1.None? then None
      else if t[2] == PAD then
        if |t| == 4 && t[3] == PAD then Some([v0.value * 4 + v1.value / 16]) else None
      else if v2.None? then None
      else if t[3] == PAD then
        if |t| == 4 then Some([v0.value * 4 + v1.value / 16, v1.value % 16 * 16 + v2.value / 4]) else None
      else if v3.None? then None
      else
        match Decode64(t[4..])
        case None => None
        case Some(rest) =>
          Some([v0.value * 4 + v1.value / 16, v1.value % 16 * 16 + v2.value / 4, v2.value % 4 * 64 + v3.value] + rest)
  }

  lemma ValueOfSymbol(v: Sextet)
    ensures Value(Symbol(v)) == Some(v) && Symbol(v) != PAD && Symbol(v) < 128 && !IsSpace(Symbol(v))
  {
  }

  predicate Plain(t: seq<Byte>)
  {
    forall i :: 0 <= i < |t| ==> t[i] < 128 && !IsSpace(t[i])
  }

  lemma GroupPlain(b0: Byte, b1: Byte, b2: Byte)
    ensures Plain(Group(b0, b1, b2))
  {
  }

  lemma TwoPlain(s: seq<Byte>)
    requires |s| == 2
    ensures Plain(Encode64(s))
  {
  }

  lemma OnePlain(s: seq<Byte>)
    requires |s| == 1
    ensures Plain(Encode64(s))
  {
  }

  lemma {:induction false} Encode64Plain(s: seq<Byte>)
    ensures Plain(Encode64(s))
  {
    if |s| > 2 {
      GroupPlain(s[0], s[1], s[2]);
      Encode64Plain(s[3..]);
    } else if |s| == 2 {
      TwoPlain(s);
    } else if |s| == 1 {
      OnePlain(s);
    }
  }

  lemma {:induction false} Encode64Length(s: seq<Byte>)
    ensures |Encode64(s)| == (|s| + 2) / 3 * 4
  {
    if |s| > 2 {
      Encode64Length(s[3..]);
    }
  }

  lemma SplitBits(b0: Byte, b1: Byte, b2: Byte)
    ensures b0 / 4 * 4 + (b0 % 4 * 16 + b1 / 16) / 16 == b0
    ensures (b0 % 4 * 16 + b1 / 16) % 16 * 16 + (b1 % 16 * 4 + b2 / 64) / 4 == b1
    ensures (b1 % 16 * 4 + b2 / 64) % 4 * 64 + b2 % 64 == b2
  {
  }

  /** What a whole group of four values decodes to. */
  lemma DecodeGroup(t: seq<Byte>, v0: Sextet, v1: Sextet, v2: Sextet, v3: Sextet)
    requires |t| >= 4 && t[2] != PAD && t[3] != PAD
    requires Value(t[0]) == Some(v0) && Value(t[1]) == Some(v1) && Value(t[2]) == Some(v2) && Value(t[3]) == Some(v3)
    requires Decode64(t[4..]).Some?
    ensures Decode64(t) == Some([v0 * 4 + v1 / 16, v1 % 16 * 16 + v2 / 4, v2 % 4 * 64 + v3] + Decode64(t[4..]).value)
  {
  }

  /** Four symbols carry three bytes. */
  lemma GroupRoundTrip(b0: Byte, b1: Byte, b2: Byte, rest: seq<Byte>)
    requires Decode64(rest).Some?
    ensures Decode64(Group(b0, b1, b2) + rest) == Some([b0, b1, b2] + Decode64(rest).value)
  {
    var v0, v1, v2, v3 := b0 / 4, b0 % 4 * 16 + b1 / 16, b1 % 16 * 4 + b2 / 64, b2 % 64;
    ValueOfSymbol(v0);
    ValueOfSymbol(v1);
    ValueOfSymbol(v2);
    ValueOfSymbol(v3);
    SplitBits(b0, b1, b2);
    var t := Group(b0, b1, b2) + rest;
    assert t[4..] == rest;
    DecodeGroup(t, v0, v1, v2, v3);
  }

  /** Two bytes, or one, end in padding. */
  lemma TailRoundTrip(b0: Byte, b1: Byte)
    ensures Decode64([Symbol(b0 / 4), Symbol(b0 % 4 * 16 + b1 / 16), Symbol(b1 % 16 * 4), PAD]) == Some([b0, b1])
    ensures Decode64([Symbol(b0 / 4), Symbol(b0 % 4 * 16), PAD, PAD]) == Some([b0])
  {
    ValueOfSymbol(b0 / 4);
    ValueOfSymbol(b0 % 4 * 16 + b1 / 16);
    ValueOfSymbol(b1 % 16 * 4);
    ValueOfSymbol(b0 % 4 * 16);
  }

  lemma {:induction false} Base64RoundTrip(s: seq<Byte>)
    ensures Decode64(Encode64(s)) == Some(s)
    decreases |s|
  {
    if |s| > 2 {
      var rest := s[3..];
      Base64RoundTrip(rest);
      GroupRoundTrip(s[0], s[1], s[2], Encode64(rest));
      assert s == [s[0], s[1], s[2]] + rest;
    } else if |s| == 2 {
      TailRoundTrip(s[0], s[1]);
      assert s == [s[0], s[1]];
    } else if |s| == 1 {
      TailRoundTrip(s[0], 0);
      assert s == [s[0]];
    }
  }

  // ------------------------------------------------------------------------
  // Which texts decode to what
  // ------------------------------------------------------------------------

  /** `n` bytes counting up from `first`. */
  function From(first: Byte, n: nat): (s: seq<Byte>)
    requires first + n <= 256
    ensures |s| == n && forall i :: 0 <= i < n ==> s[i] == first + i
  {
    seq(n, i requires 0 <= i < n => first + i)
  }

  /** The alphabet of table 2: capital letters, small letters, digits, minus and underscore. */
  function Alphabet(): (s: seq<Byte>)
    ensures |s| == 64
  {
    From(65, 26) + From(97, 26) + From(48, 10) + [45, 95]
  }

  lemma AlphabetInOrder(v: Sextet, b: Byte)
    ensures Symbol(v) == Alphabet()[v]
    ensures Value(b) == Some(v) <==> b == Alphabet()[v] || (b == 43 && v == 62) || (b == 47 && v == 63)
    ensures Value(b).None? <==> b !in Alphabet() && b != 43 && b != 47
  {
    assert Alphabet()[v] == if v < 26 then 65 + v else if v < 52 then 97 + (v - 26) else if v < 62 then 48 + (v - 52)
      else if v == 62 then 45 else 95;
    if Value(b).Some? {
      var w := Value(b).value;
      assert b == 43 || b == 47 || Alphabet()[w] == b;
    }
  }

  /** Four symbols are the 24 bits of three bytes. */
  predicate SameBits(v0: int, v1: int, v2: int, v3: int, b0: int, b1: int, b2: int)
  {
    v0 * 262144 + v1 * 4096 + v2 * 64 + v3 == b0 * 65536 + b1 * 256 + b2
  }

  /** Three symbols begin with the 16 bits of two bytes. */
  predicate SameTwo(v0: int, v1: int, v2: int, b0: int, b1: int)
  {
    (v0 * 4096 + v1 * 64 + v2) / 4 == b0 * 256 + b1
  }

  /** Two symbols begin with the 8 bits of a byte. */
  predicate SameOne(v0: int, v1: int, b0: int)
  {
    (v0 * 64 + v1) / 16 == b0
  }

  /** The text spells the bytes: group by group, and one or two bytes at the end are padded to four symbols. */
  predicate Spells(t: seq<Byte>, s: seq<Byte>)
    decreases |s|
  {
    if s == [] then t == []
    else if |t| < 4 || Value(t[0]).None? || Value(t[1]).None? then false
    else
      var v0, v1, v2, v3 := Value(t[0]).value, Value(t[1]).value, Value(t[2]), Value(t[3]);
      if |s| == 1 then t[2..] == [PAD, PAD] && SameOne(v0, v1, s[0])
      else if |s| == 2 then t[3..] == [PAD] && v2.Some? && SameTwo(v0, v1, v2.value, s[0], s[1])
      else v2.Some? && v3.Some? && SameBits(v0, v1, v2.value, v3.value, s[0], s[1], s[2]) && Spells(t[4..], s[3..])
  }

  lemma GroupBits(v0: Sextet, v1: Sextet, v2: Sextet, v3: Sextet, b0: Byte, b1: Byte, b2: Byte)
    ensures SameBits(v0, v1, v2, v3, b0, b1, b2) <==>
      b0 == v0 * 4 + v1 / 16 && b1 == v1 % 16 * 16 + v2 / 4 && b2 == v2 % 4 * 64 + v3
  {
    var h1, l1, h2, l2 := v1 / 16, v1 % 16, v2 / 4, v2 % 4;
    assert v1 == h1 * 16 + l1 && v2 == h2 * 4 + l2;
    SameDigits(v0 * 4 + h1, l1 * 16 + h2, l2 * 64 + v3, b0, b1, b2);
  }

  lemma SameDigits(a0: int, a1: int, a2: int, b0: Byte, b1: Byte, b2: Byte)
    requires 0 <= a1 < 256 && 0 <= a2 < 256
    ensures a0 * 65536 + a1 * 256 + a2 == b0 as int * 65536 + b1 as int * 256 + b2 as int <==> a0 == b0 && a1 == b1 && a2 == b2
  {
  }

  lemma TailBits(v0: Sextet, v1: Sextet, v2: Sextet, b0: Byte, b1: Byte)
    ensures SameTwo(v0, v1, v2, b0, b1) <==> b0 == v0 * 4 + v1 / 16 && b1 == v1 % 16 * 16 + v2 / 4
    ensures SameOne(v0, v1, b0) <==> b0 == v0 * 4 + v1 / 16
  {
  }

  lemma {:induction false} DecodesWhatSpells(t: seq<Byte>, s: seq<Byte>)
    ensures Decode64(t) == Some(s) <==> Spells(t, s)
    decreases |t|
  {
    if |t| >= 4 && Value(t[0]).Some? && Value(t[1]).Some? {
      if t[2] == PAD {
        PaddedTwice(t, s);
      } else if t[3] == PAD {
        PaddedOnce(t, s);
      } else if Value(t[2]).Some? && Value(t[3]).Some? {
        WholeGroup(t, s);
        if |s| >= 3 {
          DecodesWhatSpells(t[4..], s[3..]);
        }
      }
    }
  }

  lemma PaddedTwice(t: seq<Byte>, s: seq<Byte>)
    requires |t| >= 4 && Value(t[0]).Some? && Value(t[1]).Some? && t[2] == PAD
    ensures Decode64(t) == Some(s) <==> Spells(t, s)
  {
    if s != [] {
      TailBits(Value(t[0]).value, Value(t[1]).value, 0, s[0], 0);
      assert |s| == 1 ==> s == [s[0]];
      assert t[2..] == [PAD, PAD] <==> |t| == 4 && t[3] == PAD;
    }
  }

  lemma PaddedOnce(t: seq<Byte>, s: seq<Byte>)
    requires |t| >= 4 && Value(t[0]).Some? && Value(t[1]).Some? && t[2] != PAD && t[3] == PAD
    ensures Decode64(t) == Some(s) <==> Spells(t, s)
  {
    assert t[3..] == [PAD] <==> |t| == 4;
    if Value(t[2]).Some? {
      DecodeTwo(t, Value(t[0]).value, Value(t[1]).value, Value(t[2]).value);
      if |s| == 2 {
        TailBits(Value(t[0]).value, Value(t[1]).value, Value(t[2]).value, s[0], s[1]);
        assert s == [s[0], s[1]];
      }
    }
  }

  lemma DecodeTwo(t: seq<Byte>, v0: Sextet, v1: Sextet, v2: Sextet)
    requires |t| >= 4 && t[2] != PAD && t[3] == PAD
    requires Value(t[0]) == Some(v0) && Value(t[1]) == Some(v1) && Value(t[2]) == Some(v2)
    ensures Decode64(t).Some? <==> |t| == 4
    ensures |t| == 4 ==>
      |Decode64(t).value| == 2 && Decode64(t).value[0] == v0 * 4 + v1 / 16 && Decode64(t).value[1] == v1 % 16 * 16 + v2 / 4
  {
  }

  lemma WholeGroup(t: seq<Byte>, s: seq<Byte>)
    requires |t| >= 4 && t[2] != PAD && t[3] != PAD
    requires Value(t[0]).Some? && Value(t[1]).Some? && Value(t[2]).Some? && Value(t[3]).Some?
    ensures Decode64(t) == Some(s) <==>
      && |s| >= 3 && Decode64(t[4..]) == Some(s[3..])
      && SameBits(Value(t[0]).value, Value(t[1]).value, Value(t[2]).value, Value(t[3]).value, s[0], s[1], s[2])
  {
    var v0, v1, v2, v3 := Value(t[0]).value, Value(t[1]).value, Value(t[2]).value, Value(t[3]).value;
    if Decode64(t[4..]).Some? {
      DecodeGroup(t, v0, v1, v2, v3);
      FrontAndRest(Decode64(t).value, s);
      assert Decode64(t).value[3..] == Decode64(t[4..]).value;
    }
    if |s| >= 3 {
      GroupBits(v0, v1, v2, v3, s[0], s[1], s[2]);
    }
  }

  lemma FrontAndRest(a: seq<Byte>, b: seq<Byte>)
    requires |a| >= 3
    ensures a == b <==> |b| >= 3 && a[0] == b[0] && a[1] == b[1] && a[2] == b[2] && a[3..] == b[3..]
  {
    if |b| >= 3 && a[0] == b[0] && a[1] == b[1] && a[2] == b[2] && a[3..] == b[3..] {
      assert a == [a[0], a[1], a[2]] + a[3..] && b == [b[0], b[1], b[2]] + b[3..];
    }
  }

  // ------------------------------------------------------------------------
  // The key file
  // ------------------------------------------------------------------------

  datatype Failure = CannotOpen | TooLarge | NotAscii | UnknownFormat | BadKey

  function KeyFile(key: seq<Byte>): seq<Byte>
  {
    PREFIX + Encode64(key) + [LF]
  }

  function DecodeKey(value: seq<Byte>): Result<seq<Byte>, Failure>
  {
    match Decode64(Strip(value))
    case None => Err(BadKey)
    case Some(key) => if |key| != KEY_BYTES then Err(BadKey) else Ok(key)
  }

  /** What `_read_key_file` makes of a file's bytes. */
  function ReadKey(raw: seq<Byte>): Result<seq<Byte>, Failure>
  {
    if |raw| > MAX_KEY_FILE_BYTES then Err(TooLarge)
    else if exists b :: b in raw && b >= 128 then Err(NotAscii)
    else
      var text := Strip(raw);
      if PREFIX <= text then DecodeKey(text[3..]) else Err(UnknownFormat)
  }

  lemma StripInner(s: seq<Byte>)
    requires s != [] && !IsSpace(s[0]) && !IsSpace(s[|s| - 1])
    ensures Strip(s) == s && Strip(s + [LF]) == s
  {
    assert StripLeft(s + [LF]) == s + [LF];
    assert (s + [LF])[..|s|] == s;
  }

  lemma KeyFileShape(key: seq<Byte>)
    requires |key| == KEY_BYTES
    ensures |KeyFile(key)| == 48
    ensures forall b :: b in KeyFile(key) ==> b < 128
  {
    Encode64Plain(key);
    Encode64Length(key);
    var code := Encode64(key);
    assert |code| == 44;
    forall b | b in KeyFile(key)
      ensures b < 128
    {
      assert b in PREFIX || b in code || b == LF;
    }
  }

  lemma KeyFileStrips(key: seq<Byte>)
    requires |key| == KEY_BYTES
    ensures Strip(KeyFile(key)) == PREFIX + Encode64(key)
    ensures Strip(Encode64(key)) == Encode64(key)
  {
    var code := Encode64(key);
    Encode64Plain(key);
    Encode64Length(key);
    PrefixPlain(code);
    StripPlain(PREFIX + code);
    StripPlain(code);
  }

  lemma PrefixPlain(code: seq<Byte>)
    requires Plain(code)
    ensures Plain(PREFIX + code)
  {
  }

  lemma StripPlain(s: seq<Byte>)
    requires s != [] && Plain(s)
    ensures Strip(s) == s && Strip(s + [LF]) == s
  {
    StripInner(s);
  }

  /** A complete key file reads back as its key. */
  lemma KeyFileReadsBack(key: seq<Byte>)
    requires |key| == KEY_BYTES
    ensures ReadKey(KeyFile(key)) == Ok(key)
  {
    KeyFileShape(key);
    KeyFileStrips(key);
    Base64RoundTrip(key);
    assert (PREFIX + Encode64(key))[3..] == Encode64(key);
  }

  lemma {:induction false} SpellingIsPlain(t: seq<Byte>, s: seq<Byte>)
    requires Spells(t, s) && s != []
    ensures t != [] && !IsSpace(t[0]) && !IsSpace(t[|t| - 1])
    decreases |s|
  {
    if |s| == 1 {
      assert t[|t| - 1] == t[2..][1];
    } else if |s| == 2 {
      assert t[|t| - 1] == t[3..][0];
    } else if |s| > 3 {
      SpellingIsPlain(t[4..], s[3..]);
    }
  }

  /** A key file of any make: white space, the prefix, white space, a spelling of the key, white space. */
  ghost predicate HoldsKey(raw: seq<Byte>, key: seq<Byte>)
  {
    exists before, gap, code, after ::
      && raw == before + (PREFIX + gap + code) + after
      && AllSpace(before) && AllSpace(gap) && AllSpace(after)
      && Spells(code, key)
  }

  predicate Ascii(raw: seq<Byte>)
  {
    forall i :: 0 <= i < |raw| ==> raw[i] < 128
  }

  /** A file is read as a key if and only if it is small, ASCII, and holds a spelling of those 32 bytes. */
  lemma ReadsExactlyKeyFiles(raw: seq<Byte>, key: seq<Byte>)
    ensures ReadKey(raw) == Ok(key) <==> |raw| <= 4096 && Ascii(raw) && |key| == 32 && HoldsKey(raw, key)
    ensures ReadKey(raw) == Err(TooLarge) <==> |raw| > 4096
    ensures ReadKey(raw) == Err(NotAscii) <==> |raw| <= 4096 && !Ascii(raw)
  {
    if !Ascii(raw) {
      var i :| 0 <= i < |raw| && raw[i] >= 128;
      assert raw[i] in raw;
    }
    if ReadKey(raw) == Ok(key) {
      ReadHoldsKey(raw, key);
    }
    if |raw| <= 4096 && Ascii(raw) && |key| == 32 && HoldsKey(raw, key) {
      var before, gap, code, after :|
        && raw == before + (PREFIX + gap + code) + after
        && AllSpace(before) && AllSpace(gap) && AllSpace(after)
        && Spells(code, key);
      HeldKeyReads(before, gap, code, after, key);
    }
  }

  lemma ReadHoldsKey(raw: seq<Byte>, key: seq<Byte>)
    requires ReadKey(raw) == Ok(key)
    ensures |key| == 32 && HoldsKey(raw, key)
  {
    var text := Strip(raw);
    var before, after := StripParts(raw);
    var gap, space := StripParts(text[3..]);
    var code := Strip(text[3..]);
    DecodesWhatSpells(code, key);
    assert text == PREFIX + text[3..];
    Regrouped(before, PREFIX, gap, code, space, after);
    SpacesJoin(space, after);
    IsHeld(before, gap, code, space + after, key);
  }

  lemma IsHeld(before: seq<Byte>, gap: seq<Byte>, code: seq<Byte>, after: seq<Byte>, key: seq<Byte>)
    requires AllSpace(before) && AllSpace(gap) && AllSpace(after) && Spells(code, key)
    ensures HoldsKey(before + (PREFIX + gap + code) + after, key)
  {
  }

  lemma Regrouped(a: seq<Byte>, b: seq<Byte>, c: seq<Byte>, d: seq<Byte>, e: seq<Byte>, f: seq<Byte>)
    ensures a + (b + (c + d + e)) + f == a + (b + c + d) + (e + f)
  {
  }

  lemma HeldKeyReads(before: seq<Byte>, gap: seq<Byte>, code: seq<Byte>, after: seq<Byte>, key: seq<Byte>)
    requires AllSpace(before) && AllSpace(gap) && AllSpace(after) && Spells(code, key) && |key| == 32
    requires
      var raw := before + (PREFIX + gap + code) + after;
      |raw| <= 4096 && Ascii(raw)
    ensures ReadKey(before + (PREFIX + gap + code) + after) == Ok(key)
  {
    var text := PREFIX + gap + code;
    SpellingIsPlain(code, key);
    StripsTo(before, text, after);
    assert text[3..] == gap + code && PREFIX <= text;
    assert gap + code + [] == gap + code;
    StripsTo(gap, code, []);
    DecodesWhatSpells(code, key);
  }

  // ------------------------------------------------------------------------
  // One process on its own
  // ------------------------------------------------------------------------

  class SecretDirectory {
    var keyFile: Option<seq<Byte>>
    var temps: map<string, seq<Byte>>

    constructor (keyFile: Option<seq<Byte>>)
      ensures this.keyFile == keyFile && temps == map[]
    {
      this.keyFile, this.temps := keyFile, map[];
    }

    method ReadKeyFile() returns (r: Result<seq<Byte>, Failure>)
      ensures r == if keyFile.None? then Err(CannotOpen) else ReadKey(keyFile.value)
    {
      if keyFile.None? {
        return Err(CannotOpen);
      }
      return ReadKey(keyFile.value);
    }

    /** The partial-write loop: `accepted(n)` of the `n` bytes offered are taken each time. */
    method WriteTemp(temp: string, data: seq<Byte>, accepted: nat -> nat)
      requires temp in temps && temps[temp] == []
      requires forall n: nat :: n > 0 ==> 0 < accepted(n) <= n
      modifies this`temps
      ensures temps == old(temps)[temp := data]
    {
      var view := data;
      while view != []
        invariant temps.Keys == old(temps).Keys && temps == old(temps)[temp := temps[temp]]
        invariant temps[temp] + view == data
        decreases |view|
      {
        var written := accepted(|view|);
        temps := temps[temp := temps[temp] + view[..written]];
        view := view[written..];
      }
      assert temps[temp] + [] == temps[temp];
    }

    /**
     `load_or_create_admin_session_secret` undisturbed: it returns what the key
     file holds, creates that file only when there was none, and leaves no
     temporary file behind.
     */
    method LoadOrCreate(key: seq<Byte>, temp: string, accepted: nat -> nat) returns (r: Result<seq<Byte>, Failure>)
      requires |key| == KEY_BYTES && temp !in temps
      requires forall n: nat :: n > 0 ==> 0 < accepted(n) <= n
      modifies this
      ensures temps == old(temps)
      ensures keyFile.Some? && r == ReadKey(keyFile.value)
      ensures old(keyFile).Some? ==> keyFile == old(keyFile)
      ensures old(keyFile).None? ==> keyFile == Some(KeyFile(key)) && r == Ok(key)
    {
      if keyFile.Some? {
        r := ReadKeyFile();
        return;
      }
      temps := temps[temp := []];
      WriteTemp(temp, KeyFile(key), accepted);
      var published := false;
      if keyFile.None? {
        keyFile := Some(temps[temp]);
        published := true;
      }
      temps := temps - {temp};
      assert temps == old(temps);
      KeyFileReadsBack(key);
      if published {
        return Ok(key);
      }
      r := ReadKeyFile();
    }
  }

  // ------------------------------------------------------------------------
  // Any number of processes
  // ------------------------------------------------------------------------

  type Process = nat
  type Inode = nat

  datatype Phase =
    | Start
    | Opening
    | Reading(inode: Inode)
    | Creating
    | Writing(key: seq<Byte>, temp: string, inode: Inode, written: nat)
    | Linking(key: seq<Byte>, temp: string, inode: Inode)
    | Linked(key: seq<Byte>, temp: string)
    | Refused(temp: string)
    | Returned(key: seq<Byte>)
    | Stopped

  /** Files are inodes; the key path and the temporary paths are names for them. */
  datatype World = World(
    inodes: seq<seq<Byte>>,
    keyPath: Option<Inode>,
    temps: map<string, Inode>,
    phases: map<Process, Phase>)

  datatype Action =
    | Check(process: Process)
    | Open(process: Process)
    | Read(process: Process)
    | CreateTemp(process: Process, secret: seq<Byte>, name: string)
    | Write(process: Process, count: nat)
    | Sync(process: Process)
    | Link(process: Process)
    | Finish(process: Process)
    | Raise(process: Process)
    | Crash(process: Process)

  function PhaseOf(w: World, p: Process): Phase
  {
    if p in w.phases then w.phases[p] else Start
  }

  predicate Enabled(w: World, a: Action)
  {
    var phase := PhaseOf(w, a.process);
    match a
    case Check(_) => phase.Start?
    case Open(_) => phase.Opening?
    case Read(_) => phase.Reading? && phase.inode < |w.inodes|
    case CreateTemp(_, secret, _) => phase.Creating? && |secret| == KEY_BYTES
    case Write(_, count) =>
      phase.Writing? && phase.inode < |w.inodes| && phase.written + count <= |KeyFile(phase.key)|
    case Sync(_) => phase.Writing? && phase.written == |KeyFile(phase.key)|
    case Link(_) => phase.Linking?
    case Finish(_) => phase.Linked? || phase.Refused?
    case Raise(_) => !phase.Returned? && !phase.Stopped?
    case Crash(_) => !phase.Returned? && !phase.Stopped?
  }

  /**
   One system call. `Raise` is a system call failing: once the temporary file is
   complete its name is removed on the way out, before that it stays, as it does
   after a crash.
   */
  function Next(w: World, a: Action): World
    requires Enabled(w, a)
  {
    var p := a.process;
    var phase := PhaseOf(w, p);
    match a
    case Check(_) => w.(phases := w.phases[p := if w.keyPath.Some? then Opening else Creating])
    case Open(_) =>
      w.(phases := w.phases[p := if w.keyPath.Some? then Reading(w.keyPath.value) else Stopped])
    case Read(_) =>
      var r := ReadKey(w.inodes[phase.inode]);
      w.(phases := w.phases[p := if r.Ok? then Returned(r.value) else Stopped])
    case CreateTemp(_, secret, name) =>
      if name in w.temps then w.(phases := w.phases[p := Stopped])
      else
        World(w.inodes + [[]], w.keyPath, w.temps[name := |w.inodes|],
              w.phases[p := Writing(secret, name, |w.inodes|, 0)])
    case Write(_, count) =>
      var data := KeyFile(phase.key)[phase.written..phase.written + count];
      w.(inodes := w.inodes[phase.inode := w.inodes[phase.inode] + data],
         phases := w.phases[p := phase.(written := phase.written + count)])
    case Sync(_) => w.(phases := w.phases[p := Linking(phase.key, phase.temp, phase.inode)])
    case Link(_) =>
      if w.keyPath.Some? then w.(phases := w.phases[p := Refused(phase.temp)])
      else w.(keyPath := Some(phase.inode), phases := w.phases[p := Linked(phase.key, phase.temp)])
    case Finish(_) =>
      w.(temps := w.temps - {phase.temp},
         phases := w.phases[p := if phase.Linked? then Returned(phase.key) else Opening])
    case Raise(_) =>
      var named := phase.Linking? || phase.Linked? || phase.Refused?;
      w.(temps := if named then w.temps - {phase.temp} else w.temps, phases := w.phases[p := Stopped])
    case Crash(_) => w.(phases := w.phases[p := Stopped])
  }

  function Exec(w: World, actions: seq<Action>): Option<World>
    decreases |actions|
  {
    if actions == [] then Some(w)
    else if Enabled(w, actions[0]) then Exec(Next(w, actions[0]), actions[1..])
    else None
  }

  /** A directory with, perhaps, a key file in it. */
  function Initial(existing: Option<seq<Byte>>): World
  {
    match existing
    case None => World([], None, map[], map[])
    case Some(content) => World([content], Some(0), map[], map[])
  }

  ghost predicate Complete(content: seq<Byte>)
  {
    exists key: seq<Byte> :: |key| == KEY_BYTES && content == KeyFile(key)
  }

  /** What the phase of one process says about the files. */
  ghost predicate PhaseInv(w: World, p: Process)
  {
    match PhaseOf(w, p)
    case Reading(i) => w.keyPath == Some(i)
    case Writing(key, _, i, n) =>
      && |key| == KEY_BYTES && i < |w.inodes| && n <= |KeyFile(key)|
      && w.inodes[i] == KeyFile(key)[..n] && w.keyPath != Some(i)
    case Linking(key, _, i) =>
      |key| == KEY_BYTES && i < |w.inodes| && w.inodes[i] == KeyFile(key)
    case Linked(key, _) =>
      w.keyPath.Some? && w.keyPath.value < |w.inodes| && ReadKey(w.inodes[w.keyPath.value]) == Ok(key)
    case Returned(key) =>
      w.keyPath.Some? && w.keyPath.value < |w.inodes| && ReadKey(w.inodes[w.keyPath.value]) == Ok(key)
    case _ => true
  }

  /** No other process is writing the file that `p` writes or is about to publish. */
  ghost predicate Undisturbed(w: World, p: Process, q: Process)
  {
    var a, b := PhaseOf(w, p), PhaseOf(w, q);
    p != q && (a.Writing? || a.Linking?) && b.Writing? ==> a.inode != b.inode
  }

  ghost predicate Inv(w: World, existing: Option<seq<Byte>>)
  {
    && (w.keyPath.Some? ==> w.keyPath.value < |w.inodes|)
    && (w.keyPath.Some? && existing.Some? ==> w.inodes[w.keyPath.value] == existing.value)
    && (w.keyPath.Some? && existing.None? ==> Complete(w.inodes[w.keyPath.value]))
    && (existing.Some? ==> w.keyPath.Some?)
    && (forall p: Process :: PhaseInv(w, p))
    && (forall p: Process, q: Process :: Undisturbed(w, p, q))
  }

  /** A step changes one phase only, appends to one inode at most, and never renames the key file. */
  lemma StepIsLocal(w: World, a: Action, q: Process)
    requires Enabled(w, a) && q != a.process
    ensures PhaseOf(Next(w, a), q) == PhaseOf(w, q)
    ensures |w.inodes| <= |Next(w, a).inodes|
    ensures forall i :: 0 <= i < |w.inodes| && !(a.Write? && i == PhaseOf(w, a.process).inode) ==>
      Next(w, a).inodes[i] == w.inodes[i]
    ensures w.keyPath.Some? ==> Next(w, a).keyPath == w.keyPath
  {
  }

  lemma OwnPhaseKept(w: World, existing: Option<seq<Byte>>, a: Action)
    requires Inv(w, existing) && Enabled(w, a)
    ensures PhaseInv(Next(w, a), a.process)
  {
    assert PhaseInv(w, a.process);
    var phase := PhaseOf(w, a.process);
    if a.Write? {
      var k := KeyFile(phase.key);
      assert k[..phase.written] + k[phase.written..phase.written + a.count] == k[..phase.written + a.count];
    } else if a.Sync? {
      assert KeyFile(phase.key)[..phase.written] == KeyFile(phase.key);
    } else if a.Link? {
      KeyFileReadsBack(phase.key);
    }
  }

  lemma OtherPhaseKept(w: World, existing: Option<seq<Byte>>, a: Action, q: Process)
    requires Inv(w, existing) && Enabled(w, a) && q != a.process
    ensures PhaseInv(Next(w, a), q)
  {
    StepIsLocal(w, a, q);
    assert PhaseInv(w, q) && PhaseInv(w, a.process);
    assert Undisturbed(w, q, a.process) && Undisturbed(w, a.process, q);
  }

  lemma NextKeepsInv(w: World, existing: Option<seq<Byte>>, a: Action)
    requires Inv(w, existing) && Enabled(w, a)
    ensures Inv(Next(w, a), existing)
    ensures w.keyPath.Some? ==>
      Next(w, a).keyPath == w.keyPath && Next(w, a).inodes[w.keyPath.value] == w.inodes[w.keyPath.value]
  {
    var n := Next(w, a);
    assert PhaseInv(w, a.process);
    forall p: Process
      ensures PhaseInv(n, p)
    {
      if p == a.process {
        OwnPhaseKept(w, existing, a);
      } else {
        OtherPhaseKept(w, existing, a, p);
      }
    }
    forall p: Process, q: Process
      ensures Undisturbed(n, p, q)
    {
      assert Undisturbed(w, p, q) && Undisturbed(w, q, p);
      assert PhaseInv(w, p) && PhaseInv(w, q);
      if p != a.process {
        StepIsLocal(w, a, p);
      }
      if q != a.process {
        StepIsLocal(w, a, q);
      }
    }
  }

  lemma {:induction false} RunKeepsInv(w: World, existing: Option<seq<Byte>>, actions: seq<Action>)
    requires Inv(w, existing) && Exec(w, actions).Some?
    ensures
      var e := Exec(w, actions).value;
      && Inv(e, existing)
      && (w.keyPath.Some? ==>
            e.keyPath == w.keyPath && e.inodes[e.keyPath.value] == w.inodes[w.keyPath.value])
    decreases |actions|
  {
    if actions != [] {
      NextKeepsInv(w, existing, actions[0]);
      RunKeepsInv(Next(w, actions[0]), existing, actions[1..]);
    }
  }

  lemma InitialInv(existing: Option<seq<Byte>>)
    ensures Inv(Initial(existing), existing)
  {
  }

  /**
   In every interleaving of any number of processes, with failures and crashes
   anywhere: starting without a key file, the key path is absent or names a
   complete key file.
   */
  lemma KeyFileAbsentOrComplete(actions: seq<Action>)
    requires Exec(Initial(None), actions).Some?
    ensures
      var w := Exec(Initial(None), actions).value;
      w.keyPath.Some? ==> w.keyPath.value < |w.inodes| && Complete(w.inodes[w.keyPath.value])
  {
    InitialInv(None);
    RunKeepsInv(Initial(None), None, actions);
  }

  /** Once there is a key file, neither its name nor its content ever changes again. */
  lemma KeyFileNeverChanges(
      existing: Option<seq<Byte>>, before: seq<Action>, more: seq<Action>)
    requires Exec(Initial(existing), before).Some?
    requires Exec(Exec(Initial(existing), before).value, more).Some?
    requires Exec(Initial(existing), before).value.keyPath.Some?
    ensures
      var w := Exec(Initial(existing), before).value;
      var e := Exec(w, more).value;
      && e.keyPath == w.keyPath
      && w.keyPath.value < |w.inodes| && w.keyPath.value < |e.inodes|
      && e.inodes[w.keyPath.value] == w.inodes[w.keyPath.value]
      && (existing.Some? ==> w.inodes[w.keyPath.value] == existing.value)
  {
    InitialInv(existing);
    RunKeepsInv(Initial(existing), existing, before);
    RunKeepsInv(Exec(Initial(existing), before).value, existing, more);
  }

  lemma ReadKeyLength(raw: seq<Byte>)
    ensures ReadKey(raw).Ok? ==> |ReadKey(raw).value| == KEY_BYTES
  {
  }

  /** Every call that returns gives the same 32 bytes: those the key file holds. */
  lemma AllReturnOneKey(
      existing: Option<seq<Byte>>, actions: seq<Action>, p: Process, q: Process)
    requires Exec(Initial(existing), actions).Some?
    requires
      var w := Exec(Initial(existing), actions).value;
      PhaseOf(w, p).Returned? && PhaseOf(w, q).Returned?
    ensures
      var w := Exec(Initial(existing), actions).value;
      && PhaseOf(w, p).key == PhaseOf(w, q).key
      && |PhaseOf(w, p).key| == KEY_BYTES
      && w.keyPath.Some? && w.keyPath.value < |w.inodes|
      && ReadKey(w.inodes[w.keyPath.value]) == Ok(PhaseOf(w, p).key)
  {
    InitialInv(existing);
    RunKeepsInv(Initial(existing), existing, actions);
    var w := Exec(Initial(existing), actions).value;
    assert PhaseInv(w, p) && PhaseInv(w, q);
    ReadKeyLength(w.inodes[w.keyPath.value]);
  }

  // ------------------------------------------------------------------------
  // Calls that nothing disturbs
  // ------------------------------------------------------------------------

  lemma RunOfThree(w: World, a: Action, b: Action, c: Action)
    requires Enabled(w, a) && Enabled(Next(w, a), b) && Enabled(Next(Next(w, a), b), c)
    ensures Exec(w, [a, b, c]) == Some(Next(Next(Next(w, a), b), c))
  {
    assert [a, b, c][1..] == [b, c] && [b, c][1..] == [c] && [c][1..] == [];
    assert Exec(Next(Next(w, a), b), [c]) == Some(Next(Next(Next(w, a), b), c));
    assert Exec(Next(w, a), [b, c]) == Some(Next(Next(Next(w, a), b), c));
  }

  /** Where there is a key file that reads as a key, a call returns that key in three system calls. */
  lemma LoadingReturns(w: World, p: Process, key: seq<Byte>)
    requires PhaseOf(w, p).Start? && w.keyPath.Some? && w.keyPath.value < |w.inodes|
    requires ReadKey(w.inodes[w.keyPath.value]) == Ok(key)
    ensures
      var run := Exec(w, [Check(p), Open(p), Read(p)]);
      run.Some? && PhaseOf(run.value, p) == Returned(key) && run.value == w.(phases := run.value.phases)
  {
    RunOfThree(w, Check(p), Open(p), Read(p));
  }

  /** The first half of a creation: a complete temporary file. */
  lemma CreatingWrites(w: World, p: Process, secret: seq<Byte>, name: string)
    requires PhaseOf(w, p).Start? && w.keyPath.None? && name !in w.temps && |secret| == KEY_BYTES
    ensures
      var run := Exec(w, [Check(p), CreateTemp(p, secret, name), Write(p, 48)]);
      && run.Some?
      && run.value.inodes == w.inodes + [KeyFile(secret)] && run.value.keyPath.None?
      && run.value.temps == w.temps[name := |w.inodes|]
      && PhaseOf(run.value, p) == Writing(secret, name, |w.inodes|, 48)
  {
    KeyFileShape(secret);
    var w2 := Next(Next(w, Check(p)), CreateTemp(p, secret, name));
    assert w2.inodes == w.inodes + [[]];
    RunOfThree(w, Check(p), CreateTemp(p, secret, name), Write(p, 48));
    assert KeyFile(secret)[0..0 + 48] == KeyFile(secret) && [] + KeyFile(secret) == KeyFile(secret);
    assert Next(w2, Write(p, 48)).inodes == w.inodes + [KeyFile(secret)];
  }

  /** Where there is none, a call creates it with its own secret in six, returns that, and leaves no temporary file. */
  lemma CreatingReturns(w: World, p: Process, secret: seq<Byte>, name: string)
    requires PhaseOf(w, p).Start? && w.keyPath.None? && name !in w.temps && |secret| == KEY_BYTES
    ensures
      var written := Exec(w, [Check(p), CreateTemp(p, secret, name), Write(p, 48)]);
      && written.Some?
      && (var run := Exec(written.value, [Sync(p), Link(p), Finish(p)]);
          && run.Some? && PhaseOf(run.value, p) == Returned(secret)
          && run.value.keyPath == Some(|w.inodes|) && run.value.inodes == w.inodes + [KeyFile(secret)]
          && run.value.temps == w.temps)
  {
    CreatingWrites(w, p, secret, name);
    KeyFileShape(secret);
    var written := Exec(w, [Check(p), CreateTemp(p, secret, name), Write(p, 48)]).value;
    RunOfThree(written, Sync(p), Link(p), Finish(p));
  }
}
