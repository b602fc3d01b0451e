/** The classes PatchChunk and Patch of check-style.py and `parse_patchset`,
    which builds them while it reads. */
module PatchSet {
  import opened Lists
  import T = PatchText

  class PatchChunk {
    const srcPos: int
    const dstPos: int
    var lines: seq<T.Line>

    constructor (srcPos: int, dstPos: int)
      ensures this.srcPos == srcPos && this.dstPos == dstPos && lines == []
    {
      this.srcPos, this.dstPos := srcPos, dstPos;
      lines := [];
    }

    // What the chunk stands for.
    function Value(): T.Chunk
      reads this
    {
      T.Chunk(srcPos, dstPos, lines)
    }

    method AddLine(line: T.Line)
      modifies this
      ensures lines == old(lines) + [line]
    {
      lines := lines + [line];
    }

    method Src() returns (src: seq<T.Line>)
      ensures src == T.SrcLines(lines)
    {
      src := [];
      for i := 0 to |lines|
        invariant src == T.SrcLines(lines[..i])
      {
        if T.IsSrc(lines[i]) {
          src := src + [lines[i]];
        }
        assert lines[..i + 1][..i] == lines[..i];
      }
      assert lines[..|lines|] == lines;
    }

    method Dst() returns (dst: seq<T.Line>)
      ensures dst == T.DstLines(lines)
    {
      dst := [];
      for i := 0 to |lines|
        invariant dst == T.DstLines(lines[..i])
      {
        if T.IsDst(lines[i]) {
          dst := dst + [lines[i]];
        }
        assert lines[..i + 1][..i] == lines[..i];
      }
      assert lines[..|lines|] == lines;
    }

    // Append the chunk to the file, line by line.
    method Write(f: seq<string>) returns (r: T.Result<seq<string>>)
      ensures r == T.Appended(f, T.WriteChunk(Value()))
    {
      var src := Src();
      var dst := Dst();
      var out := f + [T.HeaderText(srcPos, |src|, dstPos, |dst|) + "\n"];
      ghost var withHeader := out;
      assert withHeader + [] == withHeader;
      for i := 0 to |lines|
        invariant T.Ok(out) == T.Appended(withHeader, T.WriteLines(lines[..i]))
      {
        match T.WriteLine(lines[i]) {
          case Exception =>
            UnwritableLine(lines, i);
            return T.Exception;
          case Ok(text) =>
            OneMoreLine(lines, i);
            AppendedTwice(withHeader, T.WriteLines(lines[..i]).value, [text]);
            out := out + [text];
        }
      }
      assert lines[..|lines|] == lines;
      HeaderFirst(f, Value());
      return T.Ok(out);
    }
  }

  lemma OneMoreLine(lines: seq<T.Line>, i: nat)
    requires i < |lines| && T.WriteLines(lines[..i]).Ok? && T.WriteLine(lines[i]).Ok?
    ensures T.WriteLines(lines[..i + 1]) == T.Ok(T.WriteLines(lines[..i]).value + [T.WriteLine(lines[i]).value])
  {
    assert lines[..i + 1][..i] == lines[..i];
  }

  lemma HeaderFirst(f: seq<string>, c: T.Chunk)
    ensures T.Appended(f, T.WriteChunk(c)) == T.Appended(f + [T.Header(c)], T.WriteLines(c.lines))
  {
    if T.WriteLines(c.lines).Ok? {
      assert f + ([T.Header(c)] + T.WriteLines(c.lines).value) == f + [T.Header(c)] + T.WriteLines(c.lines).value;
    }
  }

  lemma {:induction false} UnwritableLine(lines: seq<T.Line>, i: nat)
    requires i < |lines| && T.WriteLine(lines[i]).Exception?
    ensures T.WriteLines(lines).Exception?
    decreases |lines|
  {
    if i < |lines| - 1 {
      UnwritableLine(lines[..|lines| - 1], i);
    }
  }

  class Patch {
    var src: string
    var dst: string
    var chunks: seq<PatchChunk>

    constructor ()
      ensures src == "" && dst == "" && chunks == []
    {
      src, dst, chunks := "", "", [];
    }

    method AddChunk(chunk: PatchChunk)
      modifies this
      ensures chunks == old(chunks) + [chunk] && src == old(src) && dst == old(dst)
    {
      chunks := chunks + [chunk];
    }

    method SetSrc(name: string)
      modifies this`src
      ensures src == name
    {
      src := name;
    }

    method SetDst(name: string)
      modifies this`dst
      ensures dst == name
    {
      dst := name;
    }

    // The patch stands for the value v.
    ghost predicate Shows(v: T.Patch)
      reads this, chunks
    {
      && src == v.src && dst == v.dst && |chunks| == |v.chunks|
      && forall i | 0 <= i < |chunks| :: chunks[i].Value() == v.chunks[i]
    }

    // The two file lines, then the chunks.
    method Write(f: seq<string>, ghost v: T.Patch) returns (r: T.Result<seq<string>>)
      requires Shows(v)
      ensures r == T.Appended(f, T.WritePatch(v))
    {
      r := WriteChunks(f + ["--- " + src + "\n", "+++ " + dst + "\n"], v);
      NamesFirst(f, v);
    }

    // The loop over the chunks.
    method WriteChunks(f: seq<string>, ghost v: T.Patch) returns (r: T.Result<seq<string>>)
      requires Shows(v)
      ensures r == T.Appended(f, T.WriteChunks(v.chunks))
    {
      var out := f;
      assert out + [] == out;
      for i := 0 to |chunks|
        invariant T.Ok(out) == T.Appended(f, T.WriteChunks(v.chunks[..i]))
      {
        var more := chunks[i].Write(out);
        if more.Exception? {
          UnwritableChunk(v.chunks, i);
          return T.Exception;
        }
        OneMoreChunk(f, out, v.chunks, i);
        out := more.value;
      }
      assert v.chunks[..|v.chunks|] == v.chunks;
      return T.Ok(out);
    }
  }

  // A file to which `before` and then `more` were written.
  lemma AppendedTwice(f: seq<string>, before: seq<string>, more: seq<string>)
    ensures T.Appended(f, T.Ok(before + more)) == T.Appended(f + before, T.Ok(more))
  {
    assert f + (before + more) == f + before + more;
  }

  lemma OneMoreChunk(f: seq<string>, out: seq<string>, chunks: seq<T.Chunk>, i: nat)
    requires i < |chunks| && T.Ok(out) == T.Appended(f, T.WriteChunks(chunks[..i])) && T.WriteChunk(chunks[i]).Ok?
    ensures T.Appended(f, T.WriteChunks(chunks[..i + 1])) == T.Appended(out, T.WriteChunk(chunks[i]))
  {
    LastChunk(chunks[..i], chunks[i]);
    AppendedTwice(f, T.WriteChunks(chunks[..i]).value, T.WriteChunk(chunks[i]).value);
    SliceMore(chunks, i);
  }

  lemma LastChunk(init: seq<T.Chunk>, last: T.Chunk)
    requires T.WriteChunks(init).Ok? && T.WriteChunk(last).Ok?
    ensures T.WriteChunks(init + [last]) == T.Ok(T.WriteChunks(init).value + T.WriteChunk(last).value)
  {
    assert (init + [last])[..|init|] == init;
  }

  lemma NamesFirst(f: seq<string>, v: T.Patch)
    ensures T.Appended(f, T.WritePatch(v))
         == T.Appended(f + ["--- " + v.src + "\n", "+++ " + v.dst + "\n"], T.WriteChunks(v.chunks))
  {
    var names := ["--- " + v.src + "\n", "+++ " + v.dst + "\n"];
    if T.WriteChunks(v.chunks).Ok? {
      assert f + (names + T.WriteChunks(v.chunks).value) == f + names + T.WriteChunks(v.chunks).value;
    }
  }

  lemma {:induction false} UnwritableChunk(chunks: seq<T.Chunk>, i: nat)
    requires i < |chunks| && T.WriteChunk(chunks[i]).Exception?
    ensures T.WriteChunks(chunks).Exception?
    decreases |chunks|
  {
    if i < |chunks| - 1 {
      UnwritableChunk(chunks[..|chunks| - 1], i);
    }
  }

  // ------------------------------------------------------------------ parsing

  ghost function ChunkLists(patchset: seq<Patch>): (lists: seq<seq<PatchChunk>>)
    reads patchset
    ensures |lists| == |patchset| && forall i | 0 <= i < |lists| :: lists[i] == patchset[i].chunks
  {
    if patchset == [] then [] else ChunkLists(patchset[..|patchset| - 1]) + [patchset[|patchset| - 1].chunks]
  }

  // The chunks stand for those of the values, and all are in `owned`.
  ghost predicate ListsShow(lists: seq<seq<PatchChunk>>, owned: set<PatchChunk>, values: seq<T.Patch>)
    reads owned
  {
    && |lists| == |values|
    && (forall i | 0 <= i < |lists| :: |lists[i]| == |values[i].chunks|)
    && (forall i, a | 0 <= i < |lists| && 0 <= a < |lists[i]| ::
          lists[i][a] in owned && lists[i][a].Value() == values[i].chunks[a])
  }

  // The patches stand for the values, and all their chunks are in `owned`.
  ghost predicate AllShow(patchset: seq<Patch>, owned: set<PatchChunk>, values: seq<T.Patch>)
    reads patchset, owned
  {
    && |patchset| == |values|
    && (forall i | 0 <= i < |patchset| :: patchset[i].src == values[i].src && patchset[i].dst == values[i].dst)
    && ListsShow(ChunkLists(patchset), owned, values)
  }

  // No patch and no chunk occurs at two places.
  ghost predicate Unshared(patchset: seq<Patch>)
    reads patchset
  {
    (forall i, j | 0 <= i < j < |patchset| :: patchset[i] != patchset[j]) && UnsharedLists(ChunkLists(patchset))
  }

  ghost predicate UnsharedLists(before: seq<seq<PatchChunk>>) {
    && (forall i, a, b | 0 <= i < |before| && 0 <= a < b < |before[i]| :: before[i][a] != before[i][b])
    && (forall i, j, a, b | 0 <= i < j < |before| && 0 <= a < |before[i]| && 0 <= b < |before[j]| ::
       before[i][a] != before[j][b])
  }

  // The current chunk is where the state says it is.
  ghost predicate AtCurrent(patchset: seq<Patch>, currentChunk: PatchChunk?, st: T.State)
    reads patchset
  {
    match st.current
    case None => currentChunk == null
    case Some((a, b)) => a < |patchset| && b < |patchset[a].chunks| && patchset[a].chunks[b] == currentChunk
  }

  ghost predicate Built(patchset: seq<Patch>, owned: set<PatchChunk>, currentChunk: PatchChunk?, st: T.State)
    reads patchset, owned
  {
    && AllShow(patchset, owned, st.patches)
    && Unshared(patchset)
    && AtCurrent(patchset, currentChunk, st)
    && T.ValidState(st)
  }

  // A content line goes to the current chunk and shows nowhere else.
  method AddContent(patchset: seq<Patch>, ghost owned: set<PatchChunk>, currentChunk: PatchChunk, l: T.Line,
                    ghost st: T.State)
    requires Built(patchset, owned, currentChunk, st)
    modifies currentChunk
    ensures currentChunk in owned
    ensures T.Apply(st, T.Content(l)).Ok? && Built(patchset, owned, currentChunk, T.Apply(st, T.Content(l)).value)
  {
    currentChunk.AddLine(l);
  }

  lemma ShowOneMore(patchset: seq<Patch>, owned: set<PatchChunk>, values: seq<T.Patch>, p: Patch, v: T.Patch)
    requires AllShow(patchset, owned, values)
    requires p.src == v.src && p.dst == v.dst && p.chunks == [] && v.chunks == []
    ensures AllShow(patchset + [p], owned, values + [v])
  {
  }

  lemma EachShows(patchset: seq<Patch>, owned: set<PatchChunk>, values: seq<T.Patch>)
    requires AllShow(patchset, owned, values)
    ensures |patchset| == |values| && forall i | 0 <= i < |patchset| :: patchset[i].Shows(values[i])
  {
  }

  lemma UnsharedOneMore(patchset: seq<Patch>, p: Patch)
    requires Unshared(patchset) && p !in patchset && p.chunks == []
    ensures Unshared(patchset + [p])
  {
    assert ChunkLists(patchset + [p]) == ChunkLists(patchset) + [[]];
  }

  lemma CurrentStays(patchset: seq<Patch>, currentChunk: PatchChunk?, st: T.State, p: Patch, v: T.Patch)
    requires AtCurrent(patchset, currentChunk, st) && T.ValidState(st)
    ensures var st' := st.(patches := st.patches + [v]);
            AtCurrent(patchset + [p], currentChunk, st') && T.ValidState(st')
  {
  }

  method StartPatch(patchset: seq<Patch>, ghost owned: set<PatchChunk>, ghost currentChunk: PatchChunk?, name: string,
                    ghost st: T.State)
    returns (p: Patch)
    requires Built(patchset, owned, currentChunk, st)
    ensures fresh(p)
    ensures T.Apply(st, T.SrcFile(name)).Ok?
            && Built(patchset + [p], owned, currentChunk, T.Apply(st, T.SrcFile(name)).value)
  {
    p := new Patch();
    p.SetSrc(name);
    assert AllShow(patchset, owned, st.patches) && Unshared(patchset) && AtCurrent(patchset, currentChunk, st);
    ShowOneMore(patchset, owned, st.patches, p, T.Patch(name, "", []));
    UnsharedOneMore(patchset, p);
    CurrentStays(patchset, currentChunk, st, p, T.Patch(name, "", []));
  }

  method NameTarget(patchset: seq<Patch>, ghost owned: set<PatchChunk>, ghost currentChunk: PatchChunk?, name: string,
                    ghost st: T.State)
    requires Built(patchset, owned, currentChunk, st) && patchset != []
    modifies patchset[|patchset| - 1]
    ensures T.Apply(st, T.DstFile(name)).Ok? && Built(patchset, owned, currentChunk, T.Apply(st, T.DstFile(name)).value)
  {
    patchset[|patchset| - 1].SetDst(name);
  }

  function LastWith<X>(lists: seq<seq<X>>, x: X): seq<seq<X>>
    requires lists != []
  {
    lists[|lists| - 1 := lists[|lists| - 1] + [x]]
  }

  lemma NewChunkFits(lists: seq<seq<PatchChunk>>, owned: set<PatchChunk>, values: seq<T.Patch>, c: PatchChunk)
    requires lists != [] && c !in owned
    requires ListsShow(lists, owned, values) && UnsharedLists(lists)
    ensures UnsharedLists(LastWith(lists, c))
    ensures ListsShow(LastWith(lists, c), owned + {c}, WithChunk(values, c.Value()))
  {
  }

  // The values, with a chunk added to the last one.
  function WithChunk(values: seq<T.Patch>, c: T.Chunk): seq<T.Patch>
    requires values != []
  {
    var last := values[|values| - 1];
    values[|values| - 1 := last.(chunks := last.chunks + [c])]
  }

  method StartChunk(patchset: seq<Patch>, ghost owned: set<PatchChunk>, ghost currentChunk: PatchChunk?, srcPos: nat,
                    dstPos: nat, ghost st: T.State)
    returns (c: PatchChunk)
    requires Built(patchset, owned, currentChunk, st) && patchset != []
    modifies patchset[|patchset| - 1]
    ensures fresh(c)
    ensures var started := T.Apply(st, T.ChunkStart(srcPos, dstPos));
            started.Ok? && Built(patchset, owned + {c}, c, started.value)
  {
    ghost var before := ChunkLists(patchset);
    c := new PatchChunk(srcPos, dstPos);
    patchset[|patchset| - 1].AddChunk(c);
    NewChunkFits(before, owned, st.patches, c);
    assert ChunkLists(patchset) == LastWith(before, c);
  }

  // One turn of the loop.  A line with no patch or no chunk to go to fails on
  // None or on an unset variable, as an unmatched line fails.
  method TakeReading(patchsetBefore: seq<Patch>, ghost ownedBefore: set<PatchChunk>, currentBefore: PatchChunk?,
                     reading: T.Reading, ghost st: T.State)
    returns (ok: bool, patchset: seq<Patch>, ghost owned: set<PatchChunk>, currentChunk: PatchChunk?)
    requires Built(patchsetBefore, ownedBefore, currentBefore, st)
    modifies patchsetBefore, ownedBefore
    ensures ok <==> T.Apply(st, reading).Ok?
    ensures ok ==> Built(patchset, owned, currentChunk, T.Apply(st, reading).value)
    ensures patchsetBefore <= patchset && forall i | |patchsetBefore| <= i < |patchset| :: fresh(patchset[i])
    ensures fresh(owned - ownedBefore)
  {
    ok, patchset, owned, currentChunk := true, patchsetBefore, ownedBefore, currentBefore;
    match reading {
      case SrcFile(name) =>
        var p := StartPatch(patchset, owned, currentChunk, name, st);
        patchset := patchset + [p];
      case DstFile(name) =>
        if patchset == [] {
          ok := false;
        } else {
          NameTarget(patchset, owned, currentChunk, name, st);
        }
      case ChunkStart(srcPos, dstPos) =>
        if patchset == [] {
          ok := false;
        } else {
          currentChunk := StartChunk(patchset, owned, currentChunk, srcPos, dstPos, st);
          owned := owned + {currentChunk};
        }
      case Content(l) =>
        if currentChunk == null {
          ok := false;
        } else {
          AddContent(patchset, owned, currentChunk, l, st);
        }
      case NoMatch =>
        ok := false;
    }
  }

  lemma ReadNext(st: T.State, lines: seq<string>, n: nat)
    requires T.ValidState(st) && n < |lines|
    ensures var next := T.ReadOne(st, lines[n]);
            T.ReadAll(st, lines[n..]) == if next.Ok? then T.ReadAll(next.value, lines[n + 1..]) else T.Exception
  {
    assert lines[n..][0] == lines[n] && lines[n..][1..] == lines[n + 1..];
  }

  // The loop over the lines.
  method ReadPatches(generator: seq<string>)
    returns (ok: bool, patchset: seq<Patch>, ghost owned: set<PatchChunk>, ghost st: T.State)
    ensures ok <==> T.ReadAll(T.NOTHING, generator).Ok?
    ensures ok ==> T.ReadAll(T.NOTHING, generator) == T.Ok(st)
    ensures ok ==> AllShow(patchset, owned, st.patches) && Unshared(patchset)
    ensures forall i | 0 <= i < |patchset| :: fresh(patchset[i])
    ensures fresh(owned)
  {
    patchset, owned, st := [], {}, T.NOTHING;
    var currentChunk: PatchChunk? := null;
    for n := 0 to |generator|
      invariant Built(patchset, owned, currentChunk, st)
      invariant forall i | 0 <= i < |patchset| :: fresh(patchset[i])
      invariant fresh(owned)
      invariant T.ReadAll(T.NOTHING, generator) == T.ReadAll(st, generator[n..])
    {
      ReadNext(st, generator, n);
      ghost var next := T.ReadOne(st, generator[n]);
      ok, patchset, owned, currentChunk := TakeReading(patchset, owned, currentChunk, T.Read(generator[n]), st);
      if !ok {
        return false, [], {}, st;
      }
      st := next.value;
    }
    ok := true;
  }

  method ParsePatchset(generator: seq<string>) returns (r: T.Result<seq<Patch>>, ghost owned: set<PatchChunk>)
    ensures r.Ok? <==> T.ParsePatchset(generator).Ok?
    ensures r.Ok? ==> AllShow(r.value, owned, T.ParsePatchset(generator).value) && Unshared(r.value)
    ensures r.Ok? ==> forall i | 0 <= i < |r.value| :: r.value[i].Shows(T.ParsePatchset(generator).value[i])
    ensures r.Ok? ==> forall i | 0 <= i < |r.value| :: fresh(r.value[i])
    ensures fresh(owned)
  {
    var ok, patchset;
    ghost var st;
    ok, patchset, owned, st := ReadPatches(generator);
    if !ok {
      return T.Exception, owned;
    }
    EachShows(patchset, owned, st.patches);
    r := T.Ok(patchset);
  }
}
