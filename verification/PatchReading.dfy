/** What `parse_patchset` of check-style.py makes of the lines it has matched: which
    reading becomes which part of which patch. */
module PatchReading {
  import opened Options
  import opened Lists
  import opened PatchText

  // ----------------------------------------------------- counting the readings

  // How many file headers have been read.
  function Files(rs: seq<Reading>): nat {
    if rs == [] then 0 else Files(rs[..|rs| - 1]) + if rs[|rs| - 1].SrcFile? then 1 else 0
  }

  function Chunks(rs: seq<Reading>): nat {
    if rs == [] then 0 else Chunks(rs[..|rs| - 1]) + if rs[|rs| - 1].ChunkStart? then 1 else 0
  }

  // How many chunk headers since the last file header.
  function ChunksSince(rs: seq<Reading>): nat {
    if rs == [] || rs[|rs| - 1].SrcFile? then 0
    else ChunksSince(rs[..|rs| - 1]) + if rs[|rs| - 1].ChunkStart? then 1 else 0
  }

  // The last destination name since the last file header.
  function NameSince(rs: seq<Reading>): string {
    if rs == [] || rs[|rs| - 1].SrcFile? then ""
    else if rs[|rs| - 1].DstFile? then rs[|rs| - 1].name
    else NameSince(rs[..|rs| - 1])
  }

  // The content lines since the last chunk header, past file headers too.
  function LinesSince(rs: seq<Reading>): seq<Line> {
    if rs == [] || rs[|rs| - 1].ChunkStart? then []
    else LinesSince(rs[..|rs| - 1]) + if rs[|rs| - 1].Content? then [rs[|rs| - 1].line] else []
  }

  ghost predicate NoFile(rs: seq<Reading>, i: int, e: int) {
    forall k | i < k < e && 0 <= k < |rs| :: !rs[k].SrcFile?
  }

  ghost predicate NoChunk(rs: seq<Reading>, i: int, e: int) {
    forall k | i < k < e && 0 <= k < |rs| :: !rs[k].ChunkStart?
  }

  // The file header at i is followed by the next one at e, or by the end.
  ghost predicate FileSpan(rs: seq<Reading>, i: int, e: int) {
    0 <= i < e <= |rs| && rs[i].SrcFile? && NoFile(rs, i, e) && (e == |rs| || rs[e].SrcFile?)
  }

  ghost predicate ChunkSpan(rs: seq<Reading>, i: int, e: int) {
    0 <= i < e <= |rs| && rs[i].ChunkStart? && NoChunk(rs, i, e) && (e == |rs| || rs[e].ChunkStart?)
  }

  // ------------------------------------------------------------ what it becomes

  // The chunks of all patches, one patch after the other.
  function AllChunks(ps: seq<Patch>): seq<Chunk> {
    if ps == [] then [] else AllChunks(ps[..|ps| - 1]) + ps[|ps| - 1].chunks
  }

  // Each file header makes a patch of its name, with the last destination name
  // and as many chunks as there are chunk headers up to the next file header.
  ghost predicate FileMakes(rs: seq<Reading>, ps: seq<Patch>, i: int, e: int)
    requires FileSpan(rs, i, e)
  {
    var a := Files(rs[..i]);
    && a < |ps| && ps[a].src == rs[i].name && ps[a].dst == NameSince(rs[..e])
    && |ps[a].chunks| == ChunksSince(rs[..e])
  }

  // Each chunk header makes the next chunk, with all content lines up to the next
  // chunk header, even past file headers.
  ghost predicate ChunkMakes(rs: seq<Reading>, cs: seq<Chunk>, i: int, e: int)
    requires ChunkSpan(rs, i, e)
  {
    var j := Chunks(rs[..i]);
    j < |cs| && cs[j] == Chunk(rs[i].srcPos, rs[i].dstPos, LinesSince(rs[..e]))
  }

  ghost predicate FilesMake(rs: seq<Reading>, ps: seq<Patch>) {
    |ps| == Files(rs) && forall i, e | FileSpan(rs, i, e) :: FileMakes(rs, ps, i, e)
  }

  ghost predicate ChunksMake(rs: seq<Reading>, cs: seq<Chunk>) {
    |cs| == Chunks(rs) && forall i, e | ChunkSpan(rs, i, e) :: ChunkMakes(rs, cs, i, e)
  }

  // A destination name or a chunk header needs a file header before it, a content
  // line a chunk header, and every line must match.
  ghost predicate AcceptableAt(rs: seq<Reading>, i: nat)
    requires i < |rs|
  {
    match rs[i]
    case SrcFile(_) => true
    case DstFile(_) => Files(rs[..i]) > 0
    case ChunkStart(_, _) => Files(rs[..i]) > 0
    case Content(_) => Chunks(rs[..i]) > 0
    case NoMatch => false
  }

  ghost predicate AllAcceptable(rs: seq<Reading>) {
    forall i | 0 <= i < |rs| :: AcceptableAt(rs, i)
  }

  // ------------------------------------------------------------ one more reading

  lemma OneMoreCounts(rs: seq<Reading>, r: Reading)
    ensures Files(rs + [r]) == Files(rs) + (if r.SrcFile? then 1 else 0)
    ensures Chunks(rs + [r]) == Chunks(rs) + (if r.ChunkStart? then 1 else 0)
    ensures ChunksSince(rs + [r]) == (if r.SrcFile? then 0 else ChunksSince(rs) + if r.ChunkStart? then 1 else 0)
    ensures NameSince(rs + [r]) == (if r.SrcFile? then "" else if r.DstFile? then r.name else NameSince(rs))
    ensures LinesSince(rs + [r]) == (if r.ChunkStart? then [] else LinesSince(rs) + if r.Content? then [r.line] else [])
  {
    assert (rs + [r])[..|rs|] == rs;
  }

  // The spans of the longer list: those that were closed, and the last one.
  lemma FileSpanMore(rs: seq<Reading>, r: Reading, i: int, e: int)
    requires FileSpan(rs + [r], i, e)
    ensures e <= |rs| ==> FileSpan(rs, i, e) && (e == |rs| ==> r.SrcFile?)
    ensures e == |rs| + 1 ==> if i == |rs| then r.SrcFile? else FileSpan(rs, i, |rs|) && !r.SrcFile?
  {
    var longer := rs + [r];
    assert forall k | 0 <= k < |rs| :: longer[k] == rs[k];
    assert longer[|rs|] == r;
  }

  lemma ChunkSpanMore(rs: seq<Reading>, r: Reading, i: int, e: int)
    requires ChunkSpan(rs + [r], i, e)
    ensures e <= |rs| ==> ChunkSpan(rs, i, e) && (e == |rs| ==> r.ChunkStart?)
    ensures e == |rs| + 1 ==> if i == |rs| then r.ChunkStart? else ChunkSpan(rs, i, |rs|) && !r.ChunkStart?
  {
    var longer := rs + [r];
    assert forall k | 0 <= k < |rs| :: longer[k] == rs[k];
    assert longer[|rs|] == r;
  }

  lemma {:induction false} CountsGrow(rs: seq<Reading>, i: nat, e: nat)
    requires i <= e <= |rs|
    ensures Files(rs[..i]) <= Files(rs[..e]) && Chunks(rs[..i]) <= Chunks(rs[..e])
    ensures (forall k | i <= k < e :: !rs[k].SrcFile?) ==> Files(rs[..i]) == Files(rs[..e])
    ensures (forall k | i <= k < e :: !rs[k].ChunkStart?) ==> Chunks(rs[..i]) == Chunks(rs[..e])
    decreases e
  {
    if i < e {
      CountsGrow(rs, i, e - 1);
      assert rs[..e][..e - 1] == rs[..e - 1];
    }
  }

  // The place of the header that opens the last span, or an earlier one.
  lemma FilePlace(rs: seq<Reading>, i: nat, e: nat)
    requires i < e <= |rs| && FileSpan(rs, i, e)
    ensures if e == |rs| then Files(rs[..i]) == Files(rs) - 1 else Files(rs[..i]) < Files(rs) - 1
  {
    SliceMore(rs, i);
    OneMoreCounts(rs[..i], rs[i]);
    CountsGrow(rs, i + 1, e);
    assert rs[..|rs|] == rs;
    if e < |rs| {
      SliceMore(rs, e);
      OneMoreCounts(rs[..e], rs[e]);
      CountsGrow(rs, e + 1, |rs|);
    }
  }

  lemma ChunkPlace(rs: seq<Reading>, i: nat, e: nat)
    requires i < e <= |rs| && ChunkSpan(rs, i, e)
    ensures if e == |rs| then Chunks(rs[..i]) == Chunks(rs) - 1 else Chunks(rs[..i]) < Chunks(rs) - 1
  {
    SliceMore(rs, i);
    OneMoreCounts(rs[..i], rs[i]);
    CountsGrow(rs, i + 1, e);
    assert rs[..|rs|] == rs;
    if e < |rs| {
      SliceMore(rs, e);
      OneMoreCounts(rs[..e], rs[e]);
      CountsGrow(rs, e + 1, |rs|);
    }
  }

  // What a reading does to the list of patches: the last one may change, and a
  // file header adds one.
  ghost predicate PatchesStep(ps: seq<Patch>, r: Reading, ps': seq<Patch>) {
    && |ps'| == |ps| + (if r.SrcFile? then 1 else 0)
    && (forall a | 0 <= a < |ps| && (a < |ps| - 1 || r.SrcFile?) :: SameFile(ps[a], ps'[a]))
    && (r.SrcFile? ==> ps'[|ps|] == Patch(r.name, "", []))
    && (!r.SrcFile? && |ps| > 0 ==>
          var last, last' := ps[|ps| - 1], ps'[|ps| - 1];
          && last'.src == last.src && last'.dst == (if r.DstFile? then r.name else last.dst)
          && |last'.chunks| == |last.chunks| + if r.ChunkStart? then 1 else 0)
  }

  ghost predicate SameFile(p: Patch, p': Patch) {
    p'.src == p.src && p'.dst == p.dst && |p'.chunks| == |p.chunks|
  }

  lemma FilesMakeMore(rs: seq<Reading>, r: Reading, ps: seq<Patch>, ps': seq<Patch>)
    requires FilesMake(rs, ps) && PatchesStep(ps, r, ps')
    ensures FilesMake(rs + [r], ps')
  {
    OneMoreCounts(rs, r);
    forall i, e | FileSpan(rs + [r], i, e)
      ensures FileMakes(rs + [r], ps', i, e)
    {
      FileMakesMore(rs, r, ps, ps', i, e);
    }
  }

  lemma FileMakesMore(rs: seq<Reading>, r: Reading, ps: seq<Patch>, ps': seq<Patch>, i: int, e: int)
    requires FilesMake(rs, ps) && PatchesStep(ps, r, ps') && FileSpan(rs + [r], i, e)
    ensures FileMakes(rs + [r], ps', i, e)
  {
    var longer := rs + [r];
    FileSpanMore(rs, r, i, e);
    OneMoreCounts(rs, r);
    assert longer[..|rs| + 1] == longer && longer[..i] == rs[..i] && rs[..|rs|] == rs;
    if e <= |rs| {
      assert FileMakes(rs, ps, i, e) && longer[..e] == rs[..e];
      FilePlace(rs, i, e);
    } else if i < |rs| {
      assert FileMakes(rs, ps, i, |rs|);
      FilePlace(rs, i, |rs|);
    }
  }

  // What it does to the list of all chunks: a chunk header adds one, a content
  // line goes to the last one.
  ghost predicate ChunksStep(cs: seq<Chunk>, r: Reading, cs': seq<Chunk>) {
    match r
    case ChunkStart(p, q) => cs' == cs + [Chunk(p, q, [])]
    case Content(l) => cs != [] && cs' == cs[|cs| - 1 := WithLine(cs[|cs| - 1], l)]
    case _ => cs' == cs
  }

  function WithLine(c: Chunk, l: Line): Chunk {
    c.(lines := c.lines + [l])
  }

  lemma ChunksMakeMore(rs: seq<Reading>, r: Reading, cs: seq<Chunk>, cs': seq<Chunk>)
    requires ChunksMake(rs, cs) && ChunksStep(cs, r, cs')
    ensures ChunksMake(rs + [r], cs')
  {
    OneMoreCounts(rs, r);
    forall i, e | ChunkSpan(rs + [r], i, e)
      ensures ChunkMakes(rs + [r], cs', i, e)
    {
      ChunkMakesMore(rs, r, cs, cs', i, e);
    }
  }

  lemma ChunkMakesMore(rs: seq<Reading>, r: Reading, cs: seq<Chunk>, cs': seq<Chunk>, i: int, e: int)
    requires ChunksMake(rs, cs) && ChunksStep(cs, r, cs') && ChunkSpan(rs + [r], i, e)
    ensures ChunkMakes(rs + [r], cs', i, e)
  {
    var longer := rs + [r];
    ChunkSpanMore(rs, r, i, e);
    OneMoreCounts(rs, r);
    assert longer[..|rs| + 1] == longer && longer[..i] == rs[..i] && rs[..|rs|] == rs;
    if e <= |rs| {
      assert ChunkMakes(rs, cs, i, e) && longer[..e] == rs[..e];
      ChunkPlace(rs, i, e);
    } else if i < |rs| {
      assert ChunkMakes(rs, cs, i, |rs|);
      ChunkPlace(rs, i, |rs|);
    }
  }

  // ------------------------------------------------------------ the whole list

  // The chunk last started is the last of all chunks.
  ghost predicate CurrentIsLast(st: State) {
    match st.current
    case None => AllChunks(st.patches) == []
    case Some((a, b)) =>
      && a < |st.patches| && b < |st.patches[a].chunks| && b == |st.patches[a].chunks| - 1
      && forall k | a < k < |st.patches| :: st.patches[k].chunks == []
  }

  lemma {:induction false} NoChunksAfter(ps: seq<Patch>, a: nat)
    requires a < |ps| && forall k | a < k < |ps| :: ps[k].chunks == []
    ensures AllChunks(ps) == AllChunks(ps[..a]) + ps[a].chunks
    decreases |ps|
  {
    if a < |ps| - 1 {
      var init := ps[..|ps| - 1];
      NoChunksAfter(init, a);
      assert init[..a] == ps[..a];
    }
  }

  lemma ContentStep(st: State, l: Line)
    requires ValidState(st) && CurrentIsLast(st) && st.current.Some?
    ensures var st' := Apply(st, Content(l)).value;
            && ChunksStep(AllChunks(st.patches), Content(l), AllChunks(st'.patches))
            && PatchesStep(st.patches, Content(l), st'.patches) && CurrentIsLast(st')
  {
    var st' := Apply(st, Content(l)).value;
    var (a, b) := st.current.value;
    NoChunksAfter(st.patches, a);
    NoChunksAfter(st'.patches, a);
    assert st'.patches[..a] == st.patches[..a];
    assert st'.patches[a].chunks == st.patches[a].chunks[b := WithLine(st.patches[a].chunks[b], l)];
  }

  lemma OtherStep(st: State, r: Reading)
    requires ValidState(st) && CurrentIsLast(st) && Apply(st, r).Ok? && !r.Content?
    ensures var st' := Apply(st, r).value;
            && ChunksStep(AllChunks(st.patches), r, AllChunks(st'.patches))
            && PatchesStep(st.patches, r, st'.patches) && CurrentIsLast(st')
  {
    var ps, st' := st.patches, Apply(st, r).value;
    var n := |ps|;
    if r.SrcFile? {
      assert st'.patches[..n] == ps;
    } else {
      assert st'.patches[..n - 1] == ps[..n - 1];
    }
  }

  function Readings(lines: seq<string>): seq<Reading> {
    seq(|lines|, i requires 0 <= i < |lines| => Read(lines[i]))
  }

  ghost predicate Described(rs: seq<Reading>, st: State) {
    && ValidState(st) && CurrentIsLast(st)
    && FilesMake(rs, st.patches) && ChunksMake(rs, AllChunks(st.patches))
  }

  lemma DescribedStep(rs: seq<Reading>, r: Reading, st: State)
    requires Described(rs, st)
    ensures Apply(st, r).Ok? <==> AcceptableAt(rs + [r], |rs|)
    ensures Apply(st, r).Ok? ==> Described(rs + [r], Apply(st, r).value)
  {
    assert (rs + [r])[..|rs|] == rs;
    CurrentIffChunks(st);
    if Apply(st, r).Ok? {
      if r.Content? {
        ContentStep(st, r.line);
      } else {
        OtherStep(st, r);
      }
      FilesMakeMore(rs, r, st.patches, Apply(st, r).value.patches);
      ChunksMakeMore(rs, r, AllChunks(st.patches), AllChunks(Apply(st, r).value.patches));
    }
  }

  lemma CurrentIffChunks(st: State)
    requires CurrentIsLast(st)
    ensures st.current.Some? <==> AllChunks(st.patches) != []
  {
    if st.current.Some? {
      NoChunksAfter(st.patches, st.current.value.0);
    }
  }

  lemma {:induction false} ReadAllDescribed(lines: seq<string>)
    ensures ReadAll(NOTHING, lines).Ok? <==> AllAcceptable(Readings(lines))
    ensures ReadAll(NOTHING, lines).Ok? ==> Described(Readings(lines), ReadAll(NOTHING, lines).value)
    decreases |lines|
  {
    if lines != [] {
      var init, last := lines[..|lines| - 1], lines[|lines| - 1];
      ReadAllDescribed(init);
      ReadLast(NOTHING, init, last);
      var rs := Readings(init);
      assert lines == init + [last];
      assert Readings(lines) == rs + [Read(last)];
      AcceptableMore(rs, Read(last));
      if ReadAll(NOTHING, init).Ok? {
        DescribedStep(rs, Read(last), ReadAll(NOTHING, init).value);
      }
    }
  }

  lemma AcceptableMore(rs: seq<Reading>, r: Reading)
    ensures AllAcceptable(rs + [r]) <==> AllAcceptable(rs) && AcceptableAt(rs + [r], |rs|)
  {
    var longer := rs + [r];
    forall i | 0 <= i < |rs|
      ensures AcceptableAt(longer, i) <==> AcceptableAt(rs, i)
    {
      assert longer[i] == rs[i] && longer[..i] == rs[..i];
    }
    if AllAcceptable(longer) {
      assert AcceptableAt(longer, |rs|);
      assert forall i | 0 <= i < |rs| :: AcceptableAt(longer, i);
    }
  }

  lemma {:induction false} ReadLast(st: State, lines: seq<string>, last: string)
    requires ValidState(st)
    ensures ReadAll(st, lines + [last])
         == if ReadAll(st, lines).Ok? then ReadOne(ReadAll(st, lines).value, last) else Exception
    decreases |lines|
  {
    if lines == [] {
      assert [last][1..] == [];
    } else {
      assert (lines + [last])[0] == lines[0] && (lines + [last])[1..] == lines[1..] + [last];
      if ReadOne(st, lines[0]).Ok? {
        ReadLast(ReadOne(st, lines[0]).value, lines[1..], last);
      }
    }
  }

  // What is accepted, and what it becomes: each file header a patch, each chunk
  // header a chunk of the patch it stands in, each content line a line of the
  // chunk last started.
  lemma ParsedIs(lines: seq<string>)
    ensures ParsePatchset(lines).Ok? <==> AllAcceptable(Readings(lines))
    ensures ParsePatchset(lines).Ok? ==>
              var ps := ParsePatchset(lines).value;
              FilesMake(Readings(lines), ps) && ChunksMake(Readings(lines), AllChunks(ps))
  {
    ReadAllDescribed(lines);
  }
}
