/** Exactly when the unified diffs of check-style.py survive being written and
    read back. */
module PatchTheorems {
  import opened Options
  import opened PatchText

  // ------------------------------------------------------------- conditions

  // A line that prints as one line of text.
  predicate LineLike(l: Line) {
    !l.kind.Unset? && '\n' !in l.text
  }

  predicate ChunkLike(c: Chunk) {
    forall l | l in c.lines :: LineLike(l)
  }

  predicate PatchLike(p: Patch) {
    '\n' !in p.src && '\n' !in p.dst && forall c | c in p.chunks :: ChunkLike(c)
  }

  predicate SetLike(ps: seq<Patch>) {
    forall p | p in ps :: PatchLike(p)
  }

  // The written line cannot be mistaken for a file header.
  predicate CleanLine(l: Line) {
    !(l.kind.SRC? && StartsWith(l.text, "-- ")) && !(l.kind.DST? && StartsWith(l.text, "++ "))
  }

  predicate CleanLines(c: Chunk) {
    forall l | l in c.lines :: CleanLine(l)
  }

  predicate CleanChunk(c: Chunk) {
    c.srcPos >= 0 && c.dstPos >= 0 && CleanLines(c)
  }

  predicate CleanPatch(p: Patch) {
    forall c | c in p.chunks :: CleanChunk(c)
  }

  predicate Clean(ps: seq<Patch>) {
    forall p | p in ps :: CleanPatch(p)
  }

  // ------------------------------------------------------- single lines read

  lemma RestOf(body: string)
    requires '\n' !in body
    ensures Rest(body + "\n") == Some(body)
  {
    assert (body + "\n")[..|body|] == body;
  }

  lemma AfterPrefix(prefix: string, body: string)
    requires '\n' !in body
    ensures After(prefix + body + "\n", prefix) == Some(body)
  {
    var line := prefix + body + "\n";
    assert line[..|prefix|] == prefix && line[|prefix|..] == body + "\n";
    RestOf(body);
  }

  lemma ReadSrcFile(name: string)
    requires '\n' !in name
    ensures Read("--- " + name + "\n") == SrcFile(name)
  {
    AfterPrefix("--- ", name);
  }

  lemma ReadDstFile(name: string)
    requires '\n' !in name
    ensures Read("+++ " + name + "\n") == DstFile(name)
  {
    var line := "+++ " + name + "\n";
    assert line[0] == '+';
    AfterPrefix("+++ ", name);
    assert !StartsWith(line, "--- ") by {
      assert line[..4][0] == '+';
    }
  }

  // A longer prefix of a content line starts after its first character.
  lemma LongPrefixHasEnd(first: char, body: string, rest: string)
    requires |rest| > |body| && StartsWith([first] + body + "\n", [first] + rest)
    ensures '\n' in rest
  {
    var line, prefix := [first] + body + "\n", [first] + rest;
    assert rest[|body|] == line[..|prefix|][|body| + 1] == '\n';
  }

  lemma PrefixAfterFirst(first: char, body: string, rest: string)
    requires '\n' !in rest && '\n' !in body
    ensures StartsWith([first] + body + "\n", [first] + rest) <==> StartsWith(body, rest)
  {
    var line, prefix := [first] + body + "\n", [first] + rest;
    if StartsWith(body, rest) {
      assert line[..|prefix|] == [first] + body[..|rest|];
    }
    if StartsWith(line, prefix) {
      if |rest| > |body| {
        LongPrefixHasEnd(first, body, rest);
        assert false;
      }
      assert forall i | 0 <= i < |rest| :: line[i + 1] == prefix[i + 1] == rest[i];
      assert body[..|rest|] == rest;
    }
  }

  lemma OtherPrefix(line: string, prefix: string)
    requires line != [] && prefix != [] && line[0] != prefix[0]
    ensures !StartsWith(line, prefix) && After(line, prefix).None?
  {
    assert |prefix| <= |line| ==> line[..|prefix|][0] == line[0];
  }

  // A content line is read back as itself, or else as a file header.
  lemma ReadContent(l: Line)
    requires LineLike(l)
    ensures var line := LinePrefix(l.kind) + l.text + "\n";
            if CleanLine(l) then Read(line) == Content(l) else Read(line).SrcFile? || Read(line).DstFile?
  {
    var line := LinePrefix(l.kind) + l.text + "\n";
    AfterPrefix(LinePrefix(l.kind), l.text);
    OtherPrefix(line, "@@ -");
    match l.kind {
      case SRC =>
        assert "-" + "-- " == "--- ";
        PrefixAfterFirst('-', l.text, "-- ");
        OtherPrefix(line, "+++ ");
        HeaderOrNot(line, "--- ");
      case DST =>
        assert "+" + "++ " == "+++ ";
        PrefixAfterFirst('+', l.text, "++ ");
        OtherPrefix(line, "--- ");
        OtherPrefix(line, "-");
        HeaderOrNot(line, "+++ ");
      case BOTH =>
        OtherPrefix(line, "--- ");
        OtherPrefix(line, "+++ ");
        OtherPrefix(line, "-");
        OtherPrefix(line, "+");
    }
  }

  lemma HeaderOrNot(line: string, prefix: string)
    requires |prefix| <= 4 && '\n' !in prefix
    requires line != [] && line[|line| - 1] == '\n' && '\n' !in line[..|line| - 1]
    ensures After(line, prefix).Some? <==> StartsWith(line, prefix)
  {
    if StartsWith(line, prefix) {
      var n := |prefix|;
      assert n > 0 ==> prefix[n - 1] in prefix && line[n - 1] == line[..n][n - 1];
      var body := line[|prefix|..|line| - 1];
      assert line[|prefix|..] == body + "\n";
      assert forall c | c in body :: c in line[..|line| - 1];
      RestOf(body);
    }
  }

  // ---------------------------------------------------------- chunk headers

  lemma {:induction false} DigitsThen(s: string, rest: string)
    requires forall i | 0 <= i < |s| :: IsDigit(s[i])
    requires rest != [] && !IsDigit(rest[0])
    ensures Digits(s + rest) == |s|
    decreases |s|
  {
    if s == [] {
      assert s + rest == rest;
    } else {
      assert (s + rest)[1..] == s[1..] + rest;
      DigitsThen(s[1..], rest);
    }
  }

  lemma NumberRead(n: nat, text: string, rest: string)
    requires text != [] && !IsDigit(text[0])
    ensures NumberThen(Decimal(n) + (text + rest) + "\n", text) == Some((n, rest + "\n"))
  {
    var d, tail := Decimal(n), text + (rest + "\n");
    var s := d + (text + rest) + "\n";
    assert s == d + tail;
    DigitsThen(d, tail);
    DecimalNumber(n);
    assert s[..|d|] == d && s[|d|..] == tail;
    assert tail[..|text|] == text && s[|d| + |text|..] == rest + "\n";
  }

  lemma NoNumber(n: int, tail: string, text: string)
    requires n < 0
    ensures NumberThen(Format(n) + tail + "\n", text) == None
  {
    assert (Format(n) + tail + "\n")[0] == '-';
  }

  lemma DstRead(dstPos: int, dstLen: nat)
    ensures var first := NumberThen(HeaderDst(dstPos, dstLen) + "\n", ",");
            if dstPos < 0 then first == None
            else first == Some((dstPos as nat, HeaderEnd(dstLen) + "\n"))
    ensures NumberThen(HeaderEnd(dstLen) + "\n", " @@") == Some((dstLen, "\n"))
  {
    if dstPos < 0 {
      NoNumber(dstPos, "," + HeaderEnd(dstLen), ",");
    } else {
      NumberRead(dstPos, ",", HeaderEnd(dstLen));
    }
    NumberRead(dstLen, " @@", "");
    assert " @@" + "" == " @@" && "" + "\n" == "\n";
  }

  lemma SrcRead(srcPos: int, srcLen: nat, dstPos: int, dstLen: nat)
    ensures var first := NumberThen(HeaderSrc(srcPos, srcLen, dstPos, dstLen) + "\n", ",");
            if srcPos < 0 then first == None
            else first == Some((srcPos as nat, HeaderSrcLen(srcLen, dstPos, dstLen) + "\n"))
    ensures NumberThen(HeaderSrcLen(srcLen, dstPos, dstLen) + "\n", " +")
            == Some((srcLen, HeaderDst(dstPos, dstLen) + "\n"))
  {
    if srcPos < 0 {
      NoNumber(srcPos, "," + HeaderSrcLen(srcLen, dstPos, dstLen), ",");
    } else {
      NumberRead(srcPos, ",", HeaderSrcLen(srcLen, dstPos, dstLen));
    }
    NumberRead(srcLen, " +", HeaderDst(dstPos, dstLen));
  }

  // A written header gives back both positions and the numbers of source-side
  // and destination-side lines; a negative position makes it unreadable.
  lemma HeaderRoundTrip(c: Chunk)
    ensures ReadHeader(Header(c)) ==
              if c.srcPos >= 0 && c.dstPos >= 0
              then Some((c.srcPos as nat, |SrcLines(c.lines)|, c.dstPos as nat, |DstLines(c.lines)|))
              else None
  {
    var srcLen, dstLen := |SrcLines(c.lines)|, |DstLines(c.lines)|;
    var line, body := Header(c), HeaderSrc(c.srcPos, srcLen, c.dstPos, dstLen) + "\n";
    assert line == "@@ -" + body;
    assert line[..4] == "@@ -" && line[4..] == body;
    SrcRead(c.srcPos, srcLen, c.dstPos, dstLen);
    DstRead(c.dstPos, dstLen);
  }

  lemma ReadChunkStart(c: Chunk)
    ensures Read(Header(c)) == if c.srcPos >= 0 && c.dstPos >= 0 then ChunkStart(c.srcPos, c.dstPos) else NoMatch
  {
    var line := Header(c);
    assert line[0] == '@';
    OtherPrefix(line, "--- ");
    OtherPrefix(line, "+++ ");
    OtherPrefix(line, "-");
    OtherPrefix(line, "+");
    OtherPrefix(line, " ");
    HeaderRoundTrip(c);
  }

  // -------------------------------------------------------- reading it back

  lemma {:induction false} ReadAppend(st: State, ls: seq<string>, ms: seq<string>)
    requires ValidState(st)
    ensures ReadAll(st, ls + ms) == match ReadAll(st, ls) case Exception => Exception case Ok(mid) => ReadAll(mid, ms)
    decreases |ls|
  {
    if ls == [] {
      assert ls + ms == ms;
    } else {
      assert (ls + ms)[0] == ls[0] && (ls + ms)[1..] == ls[1..] + ms;
      match ReadOne(st, ls[0])
      case Exception =>
      case Ok(next) => ReadAppend(next, ls[1..], ms);
    }
  }

  lemma ReadSingle(st: State, line: string)
    requires ValidState(st)
    ensures ReadAll(st, [line]) == ReadOne(st, line)
  {
    match ReadOne(st, line)
    case Exception =>
    case Ok(next) => assert [line][1..] == [];
  }

  // The state after patches `done` and, in a last patch, some chunks, the last
  // of which is current.
  function InChunk(done: seq<Patch>, p: Patch): State
    requires p.chunks != []
  {
    State(done + [p], Some((|done|, |p.chunks| - 1)))
  }

  lemma {:induction false} LinesRead(done: seq<Patch>, p: Patch, c: Chunk, lines: seq<Line>)
    requires forall l | l in lines :: LineLike(l) && CleanLine(l)
    requires p.chunks != [] && p.chunks[|p.chunks| - 1] == c.(lines := [])
    ensures WriteLines(lines).Ok?
    ensures ReadAll(InChunk(done, p), WriteLines(lines).value)
         == Ok(InChunk(done, p.(chunks := p.chunks[|p.chunks| - 1 := c.(lines := lines)])))
  {
    if lines == [] {
      assert p.chunks[|p.chunks| - 1 := c.(lines := [])] == p.chunks;
    } else {
      var init, last := lines[..|lines| - 1], lines[|lines| - 1];
      assert forall l | l in init :: l in lines;
      assert last in lines;
      LinesRead(done, p, c, init);
      var mid := InChunk(done, p.(chunks := p.chunks[|p.chunks| - 1 := c.(lines := init)]));
      var written := LinePrefix(last.kind) + last.text + "\n";
      ReadAppend(InChunk(done, p), WriteLines(init).value, [written]);
      ReadSingle(mid, written);
      ReadContent(last);
      assert init + [last] == lines;
      LineAppended(done, p, c, init, last);
    }
  }

  lemma LineAppended(done: seq<Patch>, p: Patch, c: Chunk, init: seq<Line>, last: Line)
    requires p.chunks != []
    ensures var b := |p.chunks| - 1;
            var before := InChunk(done, p.(chunks := p.chunks[b := c.(lines := init)]));
            (before.(patches := before.patches[|done| := AppendLine(before.patches[|done|], b, last)])
             == InChunk(done, p.(chunks := p.chunks[b := c.(lines := init + [last])])))
  {
    var b := |p.chunks| - 1;
    var before := InChunk(done, p.(chunks := p.chunks[b := c.(lines := init)]));
    var after := InChunk(done, p.(chunks := p.chunks[b := c.(lines := init + [last])]));
    var q := AppendLine(before.patches[|done|], b, last);
    assert q.chunks == p.chunks[b := c.(lines := init + [last])];
    assert before.patches[|done| := q] == after.patches;
  }

  lemma ChunkRead(done: seq<Patch>, p: Patch, c: Chunk, current: Option<(nat, nat)>)
    requires CleanChunk(c) && ChunkLike(c)
    requires ValidState(State(done + [p], current))
    ensures WriteChunk(c).Ok?
    ensures ReadAll(State(done + [p], current), WriteChunk(c).value) == Ok(InChunk(done, p.(chunks := p.chunks + [c])))
  {
    var st := State(done + [p], current);
    var opened' := p.(chunks := p.chunks + [c.(lines := [])]);
    LinesRead(done, opened', c, c.lines);
    ReadChunkStart(c);
    ReadSingle(st, Header(c));
    assert st.patches[|done| := opened'] == done + [opened'];
    assert ReadOne(st, Header(c)) == Ok(InChunk(done, opened'));
    ReadAppend(st, [Header(c)], WriteLines(c.lines).value);
    assert opened'.chunks[|p.chunks| := c.(lines := c.lines)] == p.chunks + [c];
  }

  lemma {:induction false} ChunksRead(done: seq<Patch>, p: Patch, chunks: seq<Chunk>, current: Option<(nat, nat)>)
    requires p.chunks == [] && ValidState(State(done + [p], current))
    requires forall c | c in chunks :: CleanChunk(c) && ChunkLike(c)
    ensures WriteChunks(chunks).Ok?
    ensures var r := ReadAll(State(done + [p], current), WriteChunks(chunks).value);
            r.Ok? && r.value.patches == done + [p.(chunks := chunks)]
  {
    var start := State(done + [p], current);
    if chunks != [] {
      var init, last := chunks[..|chunks| - 1], chunks[|chunks| - 1];
      assert init + [last] == chunks;
      assert forall c | c in init :: c in chunks;
      assert last in chunks;
      ChunksRead(done, p, init, current);
      var so := WriteChunks(init).value;
      var mid := ReadAll(start, so).value;
      ChunkRead(done, p.(chunks := init), last, mid.current);
      ReadThen(start, so, mid, WriteChunk(last).value);
    }
  }

  lemma ReadThen(st: State, ls: seq<string>, mid: State, ms: seq<string>)
    requires ValidState(st) && ReadAll(st, ls) == Ok(mid)
    ensures ReadAll(st, ls + ms) == ReadAll(mid, ms)
  {
    ReadAppend(st, ls, ms);
  }

  lemma PatchRead(st: State, p: Patch)
    requires ValidState(st) && PatchLike(p) && CleanPatch(p)
    ensures WritePatch(p).Ok?
    ensures var r := ReadAll(st, WritePatch(p).value); r.Ok? && r.value.patches == st.patches + [p]
  {
    var named := Patch(p.src, "", []);
    var both := Patch(p.src, p.dst, []);
    var st1, st2 := State(st.patches + [named], st.current), State(st.patches + [both], st.current);
    var l1, l2 := "--- " + p.src + "\n", "+++ " + p.dst + "\n";
    ReadSrcFile(p.src);
    ReadDstFile(p.dst);
    ReadSingle(st, l1);
    ReadSingle(st1, l2);
    assert st1.patches[|st.patches| := both] == st2.patches;
    ReadAppend(st, [l1], [l2]);
    assert [l1] + [l2] == [l1, l2];
    ChunksRead(st.patches, both, p.chunks, st.current);
    ReadAppend(st, [l1, l2], WriteChunks(p.chunks).value);
  }

  lemma {:induction false} SetRead(ps: seq<Patch>)
    requires SetLike(ps) && Clean(ps)
    ensures WriteSet(ps).Ok?
    ensures var r := ReadAll(NOTHING, WriteSet(ps).value); r.Ok? && r.value.patches == ps
  {
    if ps != [] {
      var init, last := ps[..|ps| - 1], ps[|ps| - 1];
      assert init + [last] == ps;
      assert forall p | p in init :: p in ps;
      assert last in ps;
      SetRead(init);
      var so := WriteSet(init).value;
      var mid := ReadAll(NOTHING, so).value;
      PatchRead(mid, last);
      ReadThen(NOTHING, so, mid, WritePatch(last).value);
    }
  }

  // --------------------------------------------- and when it does not come back

  function LineCount(chunks: seq<Chunk>): nat {
    if chunks == [] then 0 else LineCount(chunks[..|chunks| - 1]) + |chunks[|chunks| - 1].lines|
  }

  function TotalLines(ps: seq<Patch>): nat {
    if ps == [] then 0 else TotalLines(ps[..|ps| - 1]) + LineCount(ps[|ps| - 1].chunks)
  }

  lemma {:induction false} LineCountUpdate(chunks: seq<Chunk>, b: nat, c: Chunk)
    requires b < |chunks|
    ensures LineCount(chunks[b := c]) == LineCount(chunks) - |chunks[b].lines| + |c.lines|
  {
    var n := |chunks| - 1;
    if b < n {
      LineCountUpdate(chunks[..n], b, c);
      assert chunks[b := c][..n] == chunks[..n][b := c];
    } else {
      assert chunks[b := c][..n] == chunks[..n];
    }
  }

  lemma {:induction false} TotalLinesUpdate(ps: seq<Patch>, a: nat, p: Patch)
    requires a < |ps|
    ensures TotalLines(ps[a := p]) == TotalLines(ps) - LineCount(ps[a].chunks) + LineCount(p.chunks)
  {
    var n := |ps| - 1;
    if a < n {
      TotalLinesUpdate(ps[..n], a, p);
      assert ps[a := p][..n] == ps[..n][a := p];
    } else {
      assert ps[a := p][..n] == ps[..n];
    }
  }

  function ContentLines(lines: seq<string>): nat
    decreases |lines|
  {
    if lines == [] then 0 else (if Read(lines[0]).Content? then 1 else 0) + ContentLines(lines[1..])
  }

  lemma ReadOneCounts(st: State, line: string)
    requires ValidState(st) && ReadOne(st, line).Ok?
    ensures TotalLines(ReadOne(st, line).value.patches) == TotalLines(st.patches) + if Read(line).Content? then 1 else 0
  {
    var n := |st.patches|;
    match Read(line)
    case SrcFile(name) =>
      var more := st.patches + [Patch(name, "", [])];
      assert more[..n] == st.patches;
    case DstFile(name) =>
      TotalLinesUpdate(st.patches, n - 1, st.patches[n - 1].(dst := name));
    case ChunkStart(srcPos, dstPos) =>
      var p := st.patches[n - 1];
      var more := p.chunks + [Chunk(srcPos, dstPos, [])];
      assert more[..|p.chunks|] == p.chunks;
      TotalLinesUpdate(st.patches, n - 1, p.(chunks := more));
    case Content(l) =>
      var (a, b) := st.current.value;
      var p := st.patches[a];
      LineCountUpdate(p.chunks, b, p.chunks[b].(lines := p.chunks[b].lines + [l]));
      TotalLinesUpdate(st.patches, a, AppendLine(p, b, l));
    case NoMatch =>
  }

  // Reading makes one line per content line, wherever it puts it.
  lemma {:induction false} ReadAllCounts(st: State, lines: seq<string>)
    requires ValidState(st) && ReadAll(st, lines).Ok?
    ensures TotalLines(ReadAll(st, lines).value.patches) == TotalLines(st.patches) + ContentLines(lines)
    decreases |lines|
  {
    if lines != [] {
      ReadOneCounts(st, lines[0]);
      ReadAllCounts(ReadOne(st, lines[0]).value, lines[1..]);
    }
  }

  lemma {:induction false} ContentAppend(ls: seq<string>, ms: seq<string>)
    ensures ContentLines(ls + ms) == ContentLines(ls) + ContentLines(ms)
    decreases |ls|
  {
    if ls == [] {
      assert ls + ms == ms;
    } else {
      assert (ls + ms)[0] == ls[0] && (ls + ms)[1..] == ls[1..] + ms;
      ContentAppend(ls[1..], ms);
    }
  }

  lemma ContentOne(line: string)
    ensures ContentLines([line]) == if Read(line).Content? then 1 else 0
  {
    assert [line][1..] == [];
  }

  lemma LineContent(init: seq<Line>, last: Line)
    requires WriteLines(init).Ok? && LineLike(last)
    ensures WriteLines(init + [last]).Ok?
    ensures ContentLines(WriteLines(init + [last]).value)
         == ContentLines(WriteLines(init).value) + if CleanLine(last) then 1 else 0
  {
    var written := LinePrefix(last.kind) + last.text + "\n";
    assert (init + [last])[..|init|] == init;
    ContentAppend(WriteLines(init).value, [written]);
    ContentOne(written);
    ReadContent(last);
  }

  lemma {:induction false} LinesContent(lines: seq<Line>)
    requires forall l | l in lines :: LineLike(l)
    ensures WriteLines(lines).Ok?
    ensures ContentLines(WriteLines(lines).value) <= |lines|
    ensures ContentLines(WriteLines(lines).value) == |lines| ==> forall l | l in lines :: CleanLine(l)
  {
    if lines != [] {
      var init, last := lines[..|lines| - 1], lines[|lines| - 1];
      assert last in lines && forall l | l in init :: l in lines;
      LinesContent(init);
      LineContent(init, last);
      assert lines == init + [last];
    }
  }

  lemma ChunkContent(c: Chunk)
    requires ChunkLike(c)
    ensures WriteChunk(c).Ok?
    ensures ContentLines(WriteChunk(c).value) <= |c.lines|
    ensures ContentLines(WriteChunk(c).value) == |c.lines| ==> CleanLines(c)
  {
    LinesContent(c.lines);
    ReadChunkStart(c);
    ContentOne(Header(c));
    ContentAppend([Header(c)], WriteLines(c.lines).value);
  }

  lemma {:induction false} ChunksContent(chunks: seq<Chunk>)
    requires forall c | c in chunks :: ChunkLike(c)
    ensures WriteChunks(chunks).Ok?
    ensures ContentLines(WriteChunks(chunks).value) <= LineCount(chunks)
    ensures ContentLines(WriteChunks(chunks).value) == LineCount(chunks) ==> forall c | c in chunks :: CleanLines(c)
  {
    if chunks != [] {
      var init, last := chunks[..|chunks| - 1], chunks[|chunks| - 1];
      assert forall c | c in init :: c in chunks;
      assert last in chunks;
      ChunksContent(init);
      ChunkContent(last);
      ContentAppend(WriteChunks(init).value, WriteChunk(last).value);
      assert forall c | c in chunks :: c in init || c == last;
    }
  }

  lemma {:induction false} SetContent(ps: seq<Patch>)
    requires SetLike(ps)
    ensures WriteSet(ps).Ok?
    ensures ContentLines(WriteSet(ps).value) <= TotalLines(ps)
    ensures ContentLines(WriteSet(ps).value) == TotalLines(ps) ==>
              forall p | p in ps :: forall c | c in p.chunks :: CleanLines(c)
  {
    if ps != [] {
      var init, last := ps[..|ps| - 1], ps[|ps| - 1];
      assert forall p | p in init :: p in ps;
      assert last in ps;
      SetContent(init);
      ChunksContent(last.chunks);
      var l1, l2 := "--- " + last.src + "\n", "+++ " + last.dst + "\n";
      ReadSrcFile(last.src);
      ReadDstFile(last.dst);
      ContentOne(l1);
      ContentOne(l2);
      ContentAppend([l1], [l2]);
      assert [l1] + [l2] == [l1, l2];
      ContentAppend([l1, l2], WriteChunks(last.chunks).value);
      ContentAppend(WriteSet(init).value, WritePatch(last).value);
      assert forall p | p in ps :: p in init || p == last;
    }
  }

  lemma {:induction false} UnreadableStops(st: State, lines: seq<string>, bad: string)
    requires ValidState(st) && bad in lines && Read(bad) == NoMatch
    ensures ReadAll(st, lines) == Exception
    decreases |lines|
  {
    if lines[0] != bad {
      assert bad in lines[1..];
      match ReadOne(st, lines[0])
      case Exception =>
      case Ok(next) => UnreadableStops(next, lines[1..], bad);
    }
  }

  lemma {:induction false} HeaderWritten(chunks: seq<Chunk>, c: Chunk)
    requires WriteChunks(chunks).Ok? && c in chunks
    ensures Header(c) in WriteChunks(chunks).value
  {
    var init, last := chunks[..|chunks| - 1], chunks[|chunks| - 1];
    if c == last {
      assert WriteChunk(last).value[0] == Header(c);
    } else {
      assert c in init;
      HeaderWritten(init, c);
    }
  }

  lemma {:induction false} HeaderWrittenInSet(ps: seq<Patch>, p: Patch, c: Chunk)
    requires WriteSet(ps).Ok? && p in ps && c in p.chunks
    ensures Header(c) in WriteSet(ps).value
  {
    var init, last := ps[..|ps| - 1], ps[|ps| - 1];
    if p == last {
      HeaderWritten(last.chunks, c);
      assert Header(c) in WritePatch(last).value;
    } else {
      assert p in init;
      HeaderWrittenInSet(init, p, c);
    }
  }

  // A patch set made of printable lines is written without exception, and is
  // read back as itself if, and only if, no position is negative, no removed
  // line starts with "-- " and no added line starts with "++ ".
  lemma PatchSetRoundTrip(ps: seq<Patch>)
    requires SetLike(ps)
    ensures WriteSet(ps).Ok?
    ensures ParsePatchset(WriteSet(ps).value) == Ok(ps) <==> Clean(ps)
  {
    SetContent(ps);
    var written := WriteSet(ps).value;
    if Clean(ps) {
      SetRead(ps);
    }
    if ParsePatchset(written) == Ok(ps) {
      ReadAllCounts(NOTHING, written);
      forall p, c | p in ps && c in p.chunks
        ensures CleanChunk(c)
      {
        if c.srcPos < 0 || c.dstPos < 0 {
          HeaderWrittenInSet(ps, p, c);
          ReadChunkStart(c);
          UnreadableStops(NOTHING, written, Header(c));
          assert false;
        }
      }
    }
  }

  // ----------------------------------------------------------- as one text

  function Concat(lines: seq<string>): string
    decreases |lines|
  {
    if lines == [] then "" else lines[0] + Concat(lines[1..])
  }

  function LineEnd(text: string): (n: nat)
    ensures n <= |text| && '\n' !in text[..n] && (n < |text| ==> text[n] == '\n')
  {
    if text == [] || text[0] == '\n' then 0
    else
      var n := LineEnd(text[1..]);
      assert text[..n + 1] == [text[0]] + text[1..][..n];
      n + 1
  }

  // The lines a file yields, each with its newline.
  function FileLines(text: string): seq<string>
    decreases |text|
  {
    if text == [] then []
    else
      var n := LineEnd(text);
      if n == |text| then [text] else [text[..n + 1]] + FileLines(text[n + 1..])
  }

  predicate OneLine(line: string) {
    line != [] && line[|line| - 1] == '\n' && '\n' !in line[..|line| - 1]
  }

  lemma {:induction false} FileLinesOfConcat(lines: seq<string>)
    requires forall l | l in lines :: OneLine(l)
    ensures FileLines(Concat(lines)) == lines
    decreases |lines|
  {
    if lines != [] {
      var first, rest := lines[0], lines[1..];
      var text := Concat(lines);
      assert first in lines && forall l | l in rest :: l in lines;
      FileLinesOfConcat(rest);
      var n := |first| - 1;
      assert text[..n] == first[..n] && text[n] == '\n';
      LineEndIs(text, n);
      assert text[..n + 1] == first && text[n + 1..] == Concat(rest);
      assert lines == [first] + rest;
    }
  }

  lemma {:induction false} LineEndIs(text: string, n: nat)
    requires n < |text| && text[n] == '\n' && '\n' !in text[..n]
    ensures LineEnd(text) == n
  {
    if n > 0 {
      assert text[0] in text[..n];
      assert text[1..][..n - 1] == text[..n][1..];
      LineEndIs(text[1..], n - 1);
    }
  }

  lemma HeaderIsLine(c: Chunk)
    ensures OneLine(Header(c))
  {
    var srcLen, dstLen := |SrcLines(c.lines)|, |DstLines(c.lines)|;
    assert '\n' !in HeaderEnd(dstLen);
    assert '\n' !in HeaderDst(c.dstPos, dstLen);
    assert '\n' !in HeaderSrcLen(srcLen, c.dstPos, dstLen);
    assert '\n' !in HeaderSrc(c.srcPos, srcLen, c.dstPos, dstLen);
    var text := HeaderText(c.srcPos, srcLen, c.dstPos, dstLen);
    assert '\n' !in text;
    assert (text + "\n")[..|text|] == text;
  }

  lemma BodyIsLine(prefix: string, body: string)
    requires '\n' !in prefix && '\n' !in body
    ensures OneLine(prefix + body + "\n")
  {
    assert (prefix + body + "\n")[..|prefix + body|] == prefix + body;
  }

  lemma {:induction false} WrittenLinesAreLines(lines: seq<Line>)
    requires forall l | l in lines :: LineLike(l)
    requires WriteLines(lines).Ok?
    ensures forall l | l in WriteLines(lines).value :: OneLine(l)
  {
    if lines != [] {
      var init, last := lines[..|lines| - 1], lines[|lines| - 1];
      assert forall l | l in init :: l in lines;
      assert last in lines;
      WrittenLinesAreLines(init);
      BodyIsLine(LinePrefix(last.kind), last.text);
    }
  }

  lemma {:induction false} WrittenChunksAreLines(chunks: seq<Chunk>)
    requires forall c | c in chunks :: ChunkLike(c)
    requires WriteChunks(chunks).Ok?
    ensures forall l | l in WriteChunks(chunks).value :: OneLine(l)
  {
    if chunks != [] {
      var init, last := chunks[..|chunks| - 1], chunks[|chunks| - 1];
      assert forall c | c in init :: c in chunks;
      assert last in chunks;
      WrittenChunksAreLines(init);
      WrittenLinesAreLines(last.lines);
      HeaderIsLine(last);
    }
  }

  lemma {:induction false} WrittenSetIsLines(ps: seq<Patch>)
    requires SetLike(ps) && WriteSet(ps).Ok?
    ensures forall l | l in WriteSet(ps).value :: OneLine(l)
  {
    if ps != [] {
      var init, last := ps[..|ps| - 1], ps[|ps| - 1];
      assert forall p | p in init :: p in ps;
      assert last in ps;
      WrittenSetIsLines(init);
      WrittenChunksAreLines(last.chunks);
      BodyIsLine("--- ", last.src);
      BodyIsLine("+++ ", last.dst);
    }
  }

  // The same for the text as a whole, read line by line from a file.
  lemma PatchTextRoundTrip(ps: seq<Patch>)
    requires SetLike(ps)
    ensures WriteSet(ps).Ok?
    ensures ParsePatchset(FileLines(Concat(WriteSet(ps).value))) == Ok(ps) <==> Clean(ps)
  {
    PatchSetRoundTrip(ps);
    WrittenSetIsLines(ps);
    FileLinesOfConcat(WriteSet(ps).value);
  }

  // Source-side and destination-side lines together count context lines twice.
  lemma {:induction false} SidesCount(lines: seq<Line>)
    requires forall l | l in lines :: !l.kind.Unset?
    ensures |SrcLines(lines)| + |DstLines(lines)| == |lines| + Both(lines)
  {
    if lines != [] {
      assert forall l | l in lines[..|lines| - 1] :: l in lines;
      assert lines[|lines| - 1] in lines;
      SidesCount(lines[..|lines| - 1]);
    }
  }

  function Both(lines: seq<Line>): nat {
    if lines == [] then 0 else Both(lines[..|lines| - 1]) + if lines[|lines| - 1].kind.BOTH? then 1 else 0
  }
}
