/** Unified diffs in check-style.py, as values: the text that is written, how
    each line of it is read back, and when the two fit together. */
module PatchText {
  import opened Options

  datatype Result<+T> = Ok(value: T) | Exception

  // The three kinds a line can be set to, and the kind it is created with.
  datatype Kind = Unset | SRC | DST | BOTH
  datatype Line = Line(kind: Kind, text: string)
  datatype Chunk = Chunk(srcPos: int, dstPos: int, lines: seq<Line>)
  datatype Patch = Patch(src: string, dst: string, chunks: seq<Chunk>)

  // ------------------------------------------------------------------ numbers

  predicate IsDigit(c: char) {
    '0' <= c <= '9'
  }

  function Digit(d: nat): char
    requires d < 10
  {
    '0' + d as char
  }

  function DigitValue(c: char): nat
    requires IsDigit(c)
  {
    c as int - '0' as int
  }

  // "%d" of a number that is not negative.
  function Decimal(n: nat): (s: string)
    ensures s != [] && forall i | 0 <= i < |s| :: IsDigit(s[i])
    decreases n
  {
    if n < 10 then [Digit(n)] else Decimal(n / 10) + [Digit(n % 10)]
  }

  function Format(n: int): string {
    if n < 0 then "-" + Decimal(-n) else Decimal(n)
  }

  // int(s) of a string of digits.
  function Number(s: string): nat
    requires forall i | 0 <= i < |s| :: IsDigit(s[i])
  {
    if s == [] then 0 else 10 * Number(s[..|s| - 1]) + DigitValue(s[|s| - 1])
  }

  lemma {:induction false} DecimalNumber(n: nat)
    ensures Number(Decimal(n)) == n
    decreases n
  {
    if n >= 10 {
      DecimalNumber(n / 10);
      assert Decimal(n)[..|Decimal(n)| - 1] == Decimal(n / 10);
    } else {
      assert [Digit(n)][..0] == [];
    }
  }

  // ------------------------------------------------------------------ writing

  function LinePrefix(kind: Kind): string {
    match kind
    case SRC => "-"
    case DST => "+"
    case _ => " "
  }

  // A line whose kind was never set cannot be written.
  function WriteLine(l: Line): Result<string> {
    if l.kind.Unset? then Exception else Ok(LinePrefix(l.kind) + l.text + "\n")
  }

  predicate IsSrc(l: Line) {
    l.kind.SRC? || l.kind.BOTH?
  }

  predicate IsDst(l: Line) {
    l.kind.DST? || l.kind.BOTH?
  }

  function SrcLines(lines: seq<Line>): seq<Line> {
    if lines == [] then []
    else SrcLines(lines[..|lines| - 1]) + if IsSrc(lines[|lines| - 1]) then [lines[|lines| - 1]] else []
  }

  function DstLines(lines: seq<Line>): seq<Line> {
    if lines == [] then []
    else DstLines(lines[..|lines| - 1]) + if IsDst(lines[|lines| - 1]) then [lines[|lines| - 1]] else []
  }

  function HeaderEnd(dstLen: nat): string {
    Decimal(dstLen) + " @@"
  }

  function HeaderDst(dstPos: int, dstLen: nat): string {
    Format(dstPos) + ("," + HeaderEnd(dstLen))
  }

  function HeaderSrcLen(srcLen: nat, dstPos: int, dstLen: nat): string {
    Decimal(srcLen) + (" +" + HeaderDst(dstPos, dstLen))
  }

  function HeaderSrc(srcPos: int, srcLen: nat, dstPos: int, dstLen: nat): string {
    Format(srcPos) + ("," + HeaderSrcLen(srcLen, dstPos, dstLen))
  }

  // "@@ -%d,%d +%d,%d @@"
  function HeaderText(srcPos: int, srcLen: nat, dstPos: int, dstLen: nat): string {
    "@@ -" + HeaderSrc(srcPos, srcLen, dstPos, dstLen)
  }

  function Header(c: Chunk): string {
    HeaderText(c.srcPos, |SrcLines(c.lines)|, c.dstPos, |DstLines(c.lines)|) + "\n"
  }

  function WriteLines(lines: seq<Line>): Result<seq<string>> {
    if lines == [] then Ok([])
    else
      match WriteLines(lines[..|lines| - 1])
      case Exception => Exception
      case Ok(written) =>
        match WriteLine(lines[|lines| - 1])
        case Exception => Exception
        case Ok(last) => Ok(written + [last])
  }

  function WriteChunk(c: Chunk): Result<seq<string>> {
    match WriteLines(c.lines)
    case Exception => Exception
    case Ok(written) => Ok([Header(c)] + written)
  }

  function WriteChunks(chunks: seq<Chunk>): Result<seq<string>> {
    if chunks == [] then Ok([])
    else
      match WriteChunks(chunks[..|chunks| - 1])
      case Exception => Exception
      case Ok(written) =>
        match WriteChunk(chunks[|chunks| - 1])
        case Exception => Exception
        case Ok(last) => Ok(written + last)
  }

  // The lines written for a patch, each as one string.
  function WritePatch(p: Patch): Result<seq<string>> {
    match WriteChunks(p.chunks)
    case Exception => Exception
    case Ok(written) => Ok(["--- " + p.src + "\n", "+++ " + p.dst + "\n"] + written)
  }

  function WriteSet(ps: seq<Patch>): Result<seq<string>> {
    if ps == [] then Ok([])
    else
      match WriteSet(ps[..|ps| - 1])
      case Exception => Exception
      case Ok(written) =>
        match WritePatch(ps[|ps| - 1])
        case Exception => Exception
        case Ok(last) => Ok(written + last)
  }

  // What a file holds once something was written to the end of it.
  function Appended(f: seq<string>, r: Result<seq<string>>): Result<seq<string>> {
    match r
    case Exception => Exception
    case Ok(written) => Ok(f + written)
  }

  // ------------------------------------------------------------------ reading

  predicate StartsWith(s: string, prefix: string) {
    |prefix| <= |s| && s[..|prefix|] == prefix
  }

  // What (.*)$ matches: the rest of the line up to one final newline.
  function Rest(s: string): Option<string> {
    var body := if s != [] && s[|s| - 1] == '\n' then s[..|s| - 1] else s;
    if '\n' in body then None else Some(body)
  }

  // ^prefix(.*)$
  function After(line: string, prefix: string): Option<string> {
    if StartsWith(line, prefix) then Rest(line[|prefix|..]) else None
  }

  // The length of the longest prefix of digits.
  function Digits(s: string): (n: nat)
    ensures n <= |s| && (forall i | 0 <= i < n :: IsDigit(s[i])) && (n < |s| ==> !IsDigit(s[n]))
  {
    if s == [] || !IsDigit(s[0]) then 0 else 1 + Digits(s[1..])
  }

  // A number and then the given text: the number and what follows.
  function NumberThen(s: string, text: string): Option<(nat, string)> {
    var n := Digits(s);
    if n > 0 && StartsWith(s[n..], text) then Some((Number(s[..n]), s[n + |text|..])) else None
  }

  // The four numbers of a chunk header; anything may follow the closing @@.
  function ReadHeader(line: string): Option<(nat, nat, nat, nat)> {
    if !StartsWith(line, "@@ -") then None
    else
      match NumberThen(line[4..], ",")
      case None => None
      case Some((srcPos, s1)) =>
        match NumberThen(s1, " +")
        case None => None
        case Some((srcLen, s2)) =>
          match NumberThen(s2, ",")
          case None => None
          case Some((dstPos, s3)) =>
            match NumberThen(s3, " @@")
            case None => None
            case Some((dstLen, _)) => Some((srcPos, srcLen, dstPos, dstLen))
  }

  // What the patterns make of a line, in the order in which they are tried.
  datatype Reading =
    | SrcFile(name: string)
    | DstFile(name: string)
    | ChunkStart(srcPos: nat, dstPos: nat)
    | Content(line: Line)
    | NoMatch

  function Read(line: string): Reading {
    var srcFile := After(line, "--- ");
    if srcFile.Some? then SrcFile(srcFile.value)
    else
      var dstFile := After(line, "+++ ");
      if dstFile.Some? then DstFile(dstFile.value)
      else
        var header := ReadHeader(line);
        if header.Some? then ChunkStart(header.value.0, header.value.2)
        else
          var src := After(line, "-");
          if src.Some? then Content(Line(SRC, src.value))
          else
            var dst := After(line, "+");
            if dst.Some? then Content(Line(DST, dst.value))
            else
              var both := After(line, " ");
              if both.Some? then Content(Line(BOTH, both.value)) else NoMatch
  }

  // The patches made so far, and where the chunk made last is: a new file
  // header changes the current patch but not the current chunk.
  datatype State = State(patches: seq<Patch>, current: Option<(nat, nat)>)

  predicate ValidState(st: State) {
    st.current.Some? ==>
      && st.current.value.0 < |st.patches|
      && st.current.value.1 < |st.patches[st.current.value.0].chunks|
  }

  function AppendLine(p: Patch, b: nat, l: Line): Patch
    requires b < |p.chunks|
  {
    p.(chunks := p.chunks[b := p.chunks[b].(lines := p.chunks[b].lines + [l])])
  }

  // What a reading does.  A name, a header or a content line that has no patch
  // or no chunk to go to is an exception too.
  function Apply(st: State, reading: Reading): (r: Result<State>)
    requires ValidState(st)
    ensures r.Ok? ==> ValidState(r.value)
  {
    var n := |st.patches|;
    match reading
    case SrcFile(name) => Ok(st.(patches := st.patches + [Patch(name, "", [])]))
    case DstFile(name) =>
      if n == 0 then Exception
      else Ok(st.(patches := st.patches[n - 1 := st.patches[n - 1].(dst := name)]))
    case ChunkStart(srcPos, dstPos) =>
      if n == 0 then Exception
      else
        var p := st.patches[n - 1];
        Ok(State(st.patches[n - 1 := p.(chunks := p.chunks + [Chunk(srcPos, dstPos, [])])], Some((n - 1, |p.chunks|))))
    case Content(l) =>
      if st.current.None? then Exception
      else
        var (a, b) := st.current.value;
        Ok(st.(patches := st.patches[a := AppendLine(st.patches[a], b, l)]))
    case NoMatch => Exception
  }

  // One turn of the reading loop.
  function ReadOne(st: State, line: string): (r: Result<State>)
    requires ValidState(st)
    ensures r.Ok? ==> ValidState(r.value)
  {
    Apply(st, Read(line))
  }

  function ReadAll(st: State, lines: seq<string>): (r: Result<State>)
    requires ValidState(st)
    ensures r.Ok? ==> ValidState(r.value)
    decreases |lines|
  {
    if lines == [] then Ok(st)
    else
      match ReadOne(st, lines[0])
      case Exception => Exception
      case Ok(next) => ReadAll(next, lines[1..])
  }

  const NOTHING := State([], None)

  function ParsePatchset(lines: seq<string>): Result<seq<Patch>> {
    match ReadAll(NOTHING, lines)
    case Exception => Exception
    case Ok(st) => Ok(st.patches)
  }
}
