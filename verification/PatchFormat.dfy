/** The unified diff format of check-style.py, said without its writer or reader:
    what the written text looks like, and which lines the patterns match. */
module PatchFormat {
  import opened Options
  import opened Lists
  import opened PatchText

  // ------------------------------------------------------------------ numerals

  function DigitOf(c: char): nat {
    match c
    case '1' => 1
    case '2' => 2
    case '3' => 3
    case '4' => 4
    case '5' => 5
    case '6' => 6
    case '7' => 7
    case '8' => 8
    case '9' => 9
    case _ => 0
  }

  predicate IsNumeral(s: string) {
    s != [] && forall i | 0 <= i < |s| :: s[i] in "0123456789"
  }

  // Read from the left, each digit is added to ten times what is before it.
  function ValueOf(s: string): nat {
    if s == [] then 0 else 10 * ValueOf(s[..|s| - 1]) + DigitOf(s[|s| - 1])
  }

  lemma DigitsAre(c: char)
    ensures IsDigit(c) <==> c in "0123456789"
    ensures IsDigit(c) ==> DigitValue(c) == DigitOf(c)
  {
    if IsDigit(c) {
      assert "0123456789"[c as int - '0' as int] == c;
    }
  }

  lemma NumeralDigits(s: string)
    ensures IsNumeral(s) <==> s != [] && forall i | 0 <= i < |s| :: IsDigit(s[i])
  {
    forall i | 0 <= i < |s|
      ensures s[i] in "0123456789" <==> IsDigit(s[i])
    {
      DigitsAre(s[i]);
    }
  }

  lemma {:induction false} NumberIsValue(s: string)
    requires forall i | 0 <= i < |s| :: IsDigit(s[i])
    ensures Number(s) == ValueOf(s)
    decreases |s|
  {
    if s != [] {
      NumberIsValue(s[..|s| - 1]);
      DigitsAre(s[|s| - 1]);
    }
  }

  // A number is written as the numeral of that value, without leading zeros.
  lemma {:induction false} DecimalIs(n: nat)
    ensures IsNumeral(Decimal(n)) && ValueOf(Decimal(n)) == n
    ensures n > 0 ==> Decimal(n)[0] != '0'
    decreases n
  {
    NumeralDigits(Decimal(n));
    DecimalNumber(n);
    NumberIsValue(Decimal(n));
    if n >= 10 {
      DecimalIs(n / 10);
    }
  }

  // ------------------------------------------------------------- what is written

  ghost function OnSide(lines: seq<Line>, kind: Kind): set<nat> {
    set i: nat | i < |lines| && (lines[i].kind == kind || lines[i].kind.BOTH?)
  }

  lemma OneMoreOnSide(lines: seq<Line>, kind: Kind)
    requires lines != []
    ensures var n := |lines| - 1;
            |OnSide(lines, kind)| == |OnSide(lines[..n], kind)| + if lines[n].kind in {kind, BOTH} then 1 else 0
  {
    var n := |lines| - 1;
    assert OnSide(lines, kind) == OnSide(lines[..n], kind) + if lines[n].kind in {kind, BOTH} then {n} else {};
  }

  lemma {:induction false} SidesAre(lines: seq<Line>)
    ensures |SrcLines(lines)| == |OnSide(lines, SRC)| && |DstLines(lines)| == |OnSide(lines, DST)|
  {
    if lines != [] {
      SidesAre(lines[..|lines| - 1]);
      OneMoreOnSide(lines, SRC);
      OneMoreOnSide(lines, DST);
    }
  }

  // Source-side lines are the removed and the common ones, in order.
  lemma {:induction false} SidesInOrder(a: seq<Line>, b: seq<Line>)
    ensures SrcLines(a + b) == SrcLines(a) + SrcLines(b) && DstLines(a + b) == DstLines(a) + DstLines(b)
    decreases |b|
  {
    if b == [] {
      assert a + b == a;
    } else {
      var n := |b| - 1;
      SidesInOrder(a, b[..n]);
      assert (a + b)[..|a| + n] == a + b[..n] && (a + b)[|a| + n] == b[n];
    }
  }

  lemma OneLineSides(l: Line)
    ensures SrcLines([l]) == (if l.kind.SRC? || l.kind.BOTH? then [l] else [])
    ensures DstLines([l]) == (if l.kind.DST? || l.kind.BOTH? then [l] else [])
  {
    assert [l][..0] == [] && SrcLines([]) == [] && DstLines([]) == [];
  }

  ghost predicate FormatIs(s: string, n: int) {
    if n >= 0 then IsNumeral(s) && ValueOf(s) == n
    else s != [] && s[0] == '-' && IsNumeral(s[1..]) && ValueOf(s[1..]) == -n
  }

  lemma FormatOf(n: int)
    ensures FormatIs(Format(n), n)
  {
    if n >= 0 {
      DecimalIs(n);
    } else {
      DecimalIs(-n);
      assert Format(n)[1..] == Decimal(-n);
    }
  }

  // A chunk header names, after the minus, the source position and the number of
  // removed and common lines; after the plus, the destination position and the
  // number of added and common lines.
  lemma HeaderIs(c: Chunk) returns (srcPos: string, srcLen: string, dstPos: string, dstLen: string)
    ensures Header(c) == "@@ -" + srcPos + "," + srcLen + " +" + dstPos + "," + dstLen + " @@\n"
    ensures FormatIs(srcPos, c.srcPos) && FormatIs(dstPos, c.dstPos)
    ensures FormatIs(srcLen, |OnSide(c.lines, SRC)|) && FormatIs(dstLen, |OnSide(c.lines, DST)|)
  {
    SidesAre(c.lines);
    var m, n := |OnSide(c.lines, SRC)|, |OnSide(c.lines, DST)|;
    srcPos, srcLen, dstPos, dstLen := Format(c.srcPos), Format(m), Format(c.dstPos), Format(n);
    FormatOf(c.srcPos);
    FormatOf(m);
    FormatOf(c.dstPos);
    FormatOf(n);
    HeaderJoins(srcPos, srcLen, dstPos, dstLen);
  }

  lemma HeaderJoins(a: string, b: string, c: string, d: string)
    ensures "@@ -" + (a + ("," + (b + (" +" + (c + ("," + (d + " @@"))))))) + "\n"
         == "@@ -" + a + "," + b + " +" + c + "," + d + " @@\n"
  {
    assert " @@" + "\n" == " @@\n";
  }

  // One written line for each line of the chunk, marked by its kind.
  ghost predicate LineIs(text: string, l: Line) {
    match l.kind
    case SRC => text == "-" + l.text + "\n"
    case DST => text == "+" + l.text + "\n"
    case BOTH => text == " " + l.text + "\n"
    case Unset => false
  }

  lemma {:induction false} LinesAre(lines: seq<Line>)
    ensures WriteLines(lines).Ok? <==> forall i | 0 <= i < |lines| :: !lines[i].kind.Unset?
    ensures WriteLines(lines).Ok? ==>
              var written := WriteLines(lines).value;
              |written| == |lines| && forall i | 0 <= i < |lines| :: LineIs(written[i], lines[i])
  {
    if lines != [] {
      var n := |lines| - 1;
      LinesAre(lines[..n]);
      assert forall i | 0 <= i < n :: lines[..n][i] == lines[i];
      if forall i | 0 <= i < |lines| :: !lines[i].kind.Unset? {
        assert !lines[n].kind.Unset?;
      }
    }
  }

  // A patch is written as its two file lines and then its chunks, each as its
  // header and then its lines; it fails exactly on a line without a kind.
  ghost predicate ChunkIs(written: seq<string>, c: Chunk) {
    && |written| == 1 + |c.lines| && written[0] == Header(c)
    && forall i | 0 <= i < |c.lines| :: LineIs(written[i + 1], c.lines[i])
  }

  lemma ChunkWritten(c: Chunk)
    ensures WriteChunk(c).Ok? <==> forall i | 0 <= i < |c.lines| :: !c.lines[i].kind.Unset?
    ensures WriteChunk(c).Ok? ==> ChunkIs(WriteChunk(c).value, c)
  {
    LinesAre(c.lines);
  }

  lemma {:induction false} ChunksWritten(chunks: seq<Chunk>) returns (parts: seq<seq<string>>)
    requires WriteChunks(chunks).Ok?
    ensures ChunksAre(parts, chunks) && WriteChunks(chunks).value == Flatten(parts)
  {
    if chunks == [] {
      parts := [];
    } else {
      var init, last := chunks[..|chunks| - 1], chunks[|chunks| - 1];
      var before := ChunksWritten(init);
      ChunkWritten(last);
      FlattenAppend(before, WriteChunk(last).value);
      parts := before + [WriteChunk(last).value];
      OneMoreChunkIs(before, init, WriteChunk(last).value, last);
      assert chunks == init + [last];
    }
  }

  ghost predicate ChunksAre(parts: seq<seq<string>>, chunks: seq<Chunk>) {
    |parts| == |chunks| && forall i | 0 <= i < |chunks| :: ChunkIs(parts[i], chunks[i])
  }

  lemma OneMoreChunkIs(parts: seq<seq<string>>, chunks: seq<Chunk>, part: seq<string>, chunk: Chunk)
    requires ChunksAre(parts, chunks) && ChunkIs(part, chunk)
    ensures ChunksAre(parts + [part], chunks + [chunk])
  {
  }

  lemma PatchWritten(p: Patch) returns (parts: seq<seq<string>>)
    requires WritePatch(p).Ok?
    ensures ChunksAre(parts, p.chunks)
    ensures WritePatch(p).value == ["--- " + p.src + "\n", "+++ " + p.dst + "\n"] + Flatten(parts)
  {
    parts := ChunksWritten(p.chunks);
  }

  // ------------------------------------------------------- what the patterns match

  // ^prefix(.*)$, the dot standing for anything but a newline.
  ghost predicate Matches(line: string, prefix: string, rest: string) {
    '\n' !in rest && (line == prefix + rest || line == prefix + rest + "\n")
  }

  lemma RestIs(s: string, rest: string)
    ensures Rest(s) == Some(rest) <==> '\n' !in rest && (s == rest || s == rest + "\n")
  {
    if Rest(s) == Some(rest) {
      assert s == rest || s == rest + "\n";
    }
    if '\n' !in rest && s == rest + "\n" {
      assert s[..|s| - 1] == rest;
    }
    if '\n' !in rest && s == rest && rest != [] {
      assert s[|s| - 1] in rest;
    }
  }

  lemma AfterIs(line: string, prefix: string, rest: string)
    ensures After(line, prefix) == Some(rest) <==> Matches(line, prefix, rest)
  {
    if After(line, prefix) == Some(rest) {
      RestIs(line[|prefix|..], rest);
      assert line == prefix + line[|prefix|..];
    }
    if Matches(line, prefix, rest) {
      assert line[..|prefix|] == prefix;
      RestIs(line[|prefix|..], rest);
      assert line[|prefix|..] == rest || line[|prefix|..] == rest + "\n";
    }
  }

  // ([0-9]+) and the given text, which begins with no digit.
  lemma NumberThenIs(s: string, text: string, a: string, tail: string)
    requires text != [] && !IsDigit(text[0])
    requires IsNumeral(a) && s == a + text + tail
    ensures NumberThen(s, text) == Some((ValueOf(a), tail))
  {
    NumeralDigits(a);
    NumberIsValue(a);
    assert s == a + (text + tail);
    DigitsUpTo(a, text + tail);
    assert s[|a|..] == text + tail && s[..|a|] == a;
    assert (text + tail)[..|text|] == text && s[|a| + |text|..] == tail;
  }

  lemma {:induction false} DigitsUpTo(a: string, rest: string)
    requires forall i | 0 <= i < |a| :: IsDigit(a[i])
    requires rest != [] && !IsDigit(rest[0])
    ensures Digits(a + rest) == |a|
    decreases |a|
  {
    if a == [] {
      assert a + rest == rest;
    } else {
      assert (a + rest)[1..] == a[1..] + rest;
      DigitsUpTo(a[1..], rest);
    }
  }

  lemma NumberThenGives(s: string, text: string) returns (a: string)
    requires NumberThen(s, text).Some?
    ensures IsNumeral(a) && ValueOf(a) == NumberThen(s, text).value.0
    ensures s == a + text + NumberThen(s, text).value.1
  {
    var n := Digits(s);
    a := s[..n];
    NumeralDigits(a);
    NumberIsValue(a);
    assert s[n..][..|text|] == text;
    assert s == a + text + s[n + |text|..];
  }

  // ^@@ -([0-9]+),([0-9]+) \+([0-9]+),([0-9]+) @@
  ghost predicate HeaderMatches(line: string, srcPos: nat, srcLen: nat, dstPos: nat, dstLen: nat) {
    exists a, b, c, d, tail :: HeaderParts(line, a, b, c, d, tail)
      && ValueOf(a) == srcPos && ValueOf(b) == srcLen && ValueOf(c) == dstPos && ValueOf(d) == dstLen
  }

  ghost predicate HeaderParts(line: string, a: string, b: string, c: string, d: string, tail: string) {
    && IsNumeral(a) && IsNumeral(b) && IsNumeral(c) && IsNumeral(d)
    && line == "@@ -" + (a + "," + (b + " +" + (c + "," + (d + " @@" + tail))))
  }

  lemma PartsAreRead(line: string, a: string, b: string, c: string, d: string, tail: string)
    requires HeaderParts(line, a, b, c, d, tail)
    ensures ReadHeader(line) == Some((ValueOf(a), ValueOf(b), ValueOf(c), ValueOf(d)))
  {
    var s3 := d + " @@" + tail;
    var s2 := c + "," + s3;
    var s1 := b + " +" + s2;
    var s0 := a + "," + s1;
    assert line[..4] == "@@ -" && line[4..] == s0;
    NumberThenIs(s0, ",", a, s1);
    NumberThenIs(s1, " +", b, s2);
    NumberThenIs(s2, ",", c, s3);
    NumberThenIs(s3, " @@", d, tail);
  }

  lemma HeaderGives(line: string)
    requires ReadHeader(line).Some?
    ensures var (srcPos, srcLen, dstPos, dstLen) := ReadHeader(line).value;
            HeaderMatches(line, srcPos, srcLen, dstPos, dstLen)
  {
    var s0 := line[4..];
    assert line == "@@ -" + s0;
    var a := NumberThenGives(s0, ",");
    var s1 := NumberThen(s0, ",").value.1;
    var b := NumberThenGives(s1, " +");
    var s2 := NumberThen(s1, " +").value.1;
    var c := NumberThenGives(s2, ",");
    var s3 := NumberThen(s2, ",").value.1;
    var d := NumberThenGives(s3, " @@");
    var tail := NumberThen(s3, " @@").value.1;
    assert HeaderParts(line, a, b, c, d, tail);
  }

  // The reader finds the numbers of a chunk header exactly where the pattern has
  // them.
  lemma ReadHeaderIs(line: string, srcPos: nat, srcLen: nat, dstPos: nat, dstLen: nat)
    ensures ReadHeader(line) == Some((srcPos, srcLen, dstPos, dstLen)) <==>
              HeaderMatches(line, srcPos, srcLen, dstPos, dstLen)
  {
    if ReadHeader(line) == Some((srcPos, srcLen, dstPos, dstLen)) {
      HeaderGives(line);
    }
    if HeaderMatches(line, srcPos, srcLen, dstPos, dstLen) {
      var a, b, c, d, tail :| HeaderParts(line, a, b, c, d, tail)
        && ValueOf(a) == srcPos && ValueOf(b) == srcLen && ValueOf(c) == dstPos && ValueOf(d) == dstLen;
      PartsAreRead(line, a, b, c, d, tail);
    }
  }

  ghost predicate SomeHeader(line: string, srcPos: nat, dstPos: nat) {
    exists m: nat, n: nat :: HeaderMatches(line, srcPos, m, dstPos, n)
  }

  ghost predicate ContentIs(line: string, l: Line) {
    match l.kind
    case SRC => Matches(line, "-", l.text) && forall name :: !Matches(line, "--- ", name)
    case DST => Matches(line, "+", l.text) && forall name :: !Matches(line, "+++ ", name)
    case BOTH => Matches(line, " ", l.text)
    case Unset => false
  }

  // What a line is read as, pattern by pattern: the two file lines first, then
  // chunk headers, then content by its mark, and nothing else.
  ghost predicate ReadingIs(line: string, reading: Reading) {
    match reading
    case SrcFile(name) => Matches(line, "--- ", name)
    case DstFile(name) => Matches(line, "+++ ", name)
    case ChunkStart(srcPos, dstPos) => SomeHeader(line, srcPos, dstPos)
    case Content(l) => ContentIs(line, l)
    case NoMatch =>
      && (forall text :: !Matches(line, "-", text) && !Matches(line, "+", text) && !Matches(line, " ", text))
      && forall srcPos, dstPos :: !SomeHeader(line, srcPos, dstPos)
  }

  lemma ReadIs(line: string)
    ensures ReadingIs(line, Read(line))
  {
    AfterHere(line, "--- ");
    AfterHere(line, "+++ ");
    AfterHere(line, "-");
    AfterHere(line, "+");
    AfterHere(line, " ");
    HeaderHere(line);
  }

  lemma HeaderHere(line: string)
    ensures var header := ReadHeader(line);
            if header.Some? then SomeHeader(line, header.value.0, header.value.2)
            else forall srcPos, dstPos :: !SomeHeader(line, srcPos, dstPos)
  {
    if ReadHeader(line).Some? {
      HeaderGives(line);
    } else {
      forall p: nat, m: nat, q: nat, n: nat
        ensures !HeaderMatches(line, p, m, q, n)
      {
        ReadHeaderIs(line, p, m, q, n);
      }
    }
  }

  lemma AfterHere(line: string, prefix: string)
    ensures forall rest :: After(line, prefix) == Some(rest) <==> Matches(line, prefix, rest)
  {
    forall rest
      ensures After(line, prefix) == Some(rest) <==> Matches(line, prefix, rest)
    {
      AfterIs(line, prefix, rest);
    }
  }
}
