/**
 The discarded trailer section of a chunked body: which ones the two readers
 get through, header line by header line.
 */
module TrailerSections {
  import opened Common
  import opened Bytes
  import opened ChunkedCoding
  import opened ServerBody

  /** Header lines, none of them taken for the empty line at the end. */
  ghost predicate HeaderLines(lines: seq<seq<Byte>>)
  {
    forall i :: 0 <= i < |lines| ==> IsLine(lines[i]) && !IsBlank(lines[i])
  }

  /** At most 100 header lines, and 64 KiB with the line that ends them. */
  predicate WithinBudget(count: nat, size: nat)
  {
    count <= 100 && size <= 65536
  }

  lemma FirstOf(line: seq<Byte>, rest: seq<Byte>)
    requires IsLine(line)
    ensures ReadLine(line + rest) == line && (line + rest)[|line|..] == rest && DropLine(line + rest) == rest
  {
    LineLengthAt(line + rest, |line|);
    DropLineIs(line + rest);
  }

  lemma Unfolded(lines: seq<seq<Byte>>, rest: seq<Byte>)
    requires lines != []
    ensures Concat(lines) + rest == lines[0] + (Concat(lines[1..]) + rest)
    ensures |Concat(lines)| == |lines[0]| + |Concat(lines[1..])|
  {
    Grouped(lines[0], Concat(lines[1..]), rest);
  }

  lemma Grouped(a: seq<Byte>, b: seq<Byte>, c: seq<Byte>)
    ensures a + b + c == a + (b + c)
  {
  }

  lemma ClientEnd(end: seq<Byte>, rest: seq<Byte>, count: nat, total: nat)
    requires end == CRLF || end == [LF]
    ensures SkipTrailer(end + rest, count, total) ==
      if total + |end| > 65536 then Failed(TrailerLimit) else Complete(rest)
  {
    FirstOf(end, rest);
  }

  lemma ClientLine(line: seq<Byte>, rest: seq<Byte>, count: nat, total: nat)
    requires IsLine(line) && !IsBlank(line)
    ensures SkipTrailer(line + rest, count, total) ==
      if total + |line| > 65536 || count >= 100 then Failed(TrailerLimit)
      else SkipTrailer(rest, count + 1, total + |line|)
  {
    FirstOf(line, rest);
  }

  lemma ServerLine(line: seq<Byte>, rest: seq<Byte>, count: nat, total: nat)
    requires IsLine(line)
    ensures ReadTrailer(line + rest, count, total) ==
      if total + |line| > 65536 then BadTrailer(TrailerLimit)
      else if IsBlank(line) then Body([], rest)
      else if count >= 100 then BadTrailer(TrailerLimit)
      else ReadTrailer(rest, count + 1, total + |line|)
  {
    FirstOf(line, rest);
  }

  /** What the client makes of a section of `n` header lines and `size` bytes that leaves `rest`. */
  predicate ClientReads(s: seq<Byte>, count: nat, total: nat, n: nat, size: nat, rest: seq<Byte>)
  {
    SkipTrailer(s, count, total) ==
      if WithinBudget(count + n, total + size) then Complete(rest) else Failed(TrailerLimit)
  }

  predicate ServerReads(s: seq<Byte>, count: nat, total: nat, n: nat, size: nat, rest: seq<Byte>)
  {
    ReadTrailer(s, count, total) ==
      if WithinBudget(count + n, total + size) then Body([], rest) else BadTrailer(TrailerLimit)
  }

  lemma ClientStep(line: seq<Byte>, more: seq<Byte>, count: nat, total: nat, n: nat, size: nat, rest: seq<Byte>)
    requires IsLine(line) && !IsBlank(line) && WithinBudget(count, total)
    requires WithinBudget(count + 1, total + |line|) ==> ClientReads(more, count + 1, total + |line|, n, size, rest)
    ensures ClientReads(line + more, count, total, n + 1, |line| + size, rest)
  {
    ClientLine(line, more, count, total);
  }

  lemma ServerStep(line: seq<Byte>, more: seq<Byte>, count: nat, total: nat, n: nat, size: nat, rest: seq<Byte>)
    requires IsLine(line) && !IsBlank(line) && WithinBudget(count, total)
    requires WithinBudget(count + 1, total + |line|) ==> ServerReads(more, count + 1, total + |line|, n, size, rest)
    ensures ServerReads(line + more, count, total, n + 1, |line| + size, rest)
  {
    ServerLine(line, more, count, total);
  }

  lemma {:induction false} ClientTrailer(lines: seq<seq<Byte>>, end: seq<Byte>, rest: seq<Byte>, count: nat, total: nat)
    requires HeaderLines(lines) && (end == CRLF || end == [LF]) && WithinBudget(count, total)
    ensures ClientReads(Concat(lines) + (end + rest), count, total, |lines|, |Concat(lines)| + |end|, rest)
    decreases |lines|
  {
    if lines == [] {
      assert [] + (end + rest) == end + rest;
      ClientEnd(end, rest, count, total);
    } else {
      Unfolded(lines, end + rest);
      var line, others := lines[0], lines[1..];
      if WithinBudget(count + 1, total + |line|) {
        ClientTrailer(others, end, rest, count + 1, total + |line|);
      }
      ClientStep(line, Concat(others) + (end + rest), count, total, |others|, |Concat(others)| + |end|, rest);
    }
  }

  lemma {:induction false} ServerTrailer(lines: seq<seq<Byte>>, end: seq<Byte>, rest: seq<Byte>, count: nat, total: nat)
    requires HeaderLines(lines) && IsLine(end) && IsBlank(end) && WithinBudget(count, total)
    ensures ServerReads(Concat(lines) + (end + rest), count, total, |lines|, |Concat(lines)| + |end|, rest)
    decreases |lines|
  {
    if lines == [] {
      assert [] + (end + rest) == end + rest;
      ServerLine(end, rest, count, total);
    } else {
      Unfolded(lines, end + rest);
      var line, others := lines[0], lines[1..];
      if WithinBudget(count + 1, total + |line|) {
        ServerTrailer(others, end, rest, count + 1, total + |line|);
      }
      ServerStep(line, Concat(others) + (end + rest), count, total, |others|, |Concat(others)| + |end|, rest);
    }
  }

  /**
   Whatever header lines a trailer section has, both readers get through it to
   exactly what follows, or refuse it, and refuse it if and only if it has more
   than 100 of them or more than 64 KiB.
   */
  lemma TrailersWithinBudget(lines: seq<seq<Byte>>, rest: seq<Byte>)
    requires HeaderLines(lines)
    ensures
      var section := Concat(lines) + (CRLF + rest);
      var fits := |lines| <= 100 && |Concat(lines)| + 2 <= 65536;
      && SkipTrailer(section, 0, 0) == (if fits then Complete(rest) else Failed(TrailerLimit))
      && ReadTrailer(section, 0, 0) == (if fits then Body([], rest) else BadTrailer(TrailerLimit))
  {
    ClientTrailer(lines, CRLF, rest, 0, 0);
    ServerTrailer(lines, CRLF, rest, 0, 0);
  }
}
