/** What a caller of `StaticInformation::Gather` finds in the output: the order
    of the entries, and exactly when they are unique and sorted. */
module GatherResults {
  import opened Lists
  import opened TypeGather

  // ------------------------------------------------------ the order of entries

  // The order in which a depth-first search tries walks.
  predicate Before(v: seq<nat>, w: seq<nat>) {
    w != [] && (v == [] || v[0] < w[0] || (v[0] == w[0] && Before(v[1..], w[1..])))
  }

  ghost predicate InOrder(walks: seq<seq<nat>>) {
    forall i, j | 0 <= i < j < |walks| :: Before(walks[i], walks[j])
  }

  lemma JoinInOrder(a: seq<seq<nat>>, b: seq<seq<nat>>)
    requires InOrder(a) && InOrder(b) && forall v, w | v in a && w in b :: Before(v, w)
    ensures InOrder(a + b)
  {
    var all := a + b;
    forall i, j | 0 <= i < j < |all|
      ensures Before(all[i], all[j])
    {
      if i < |a| <= j {
        assert all[i] in a && all[j] in b;
      }
    }
  }

  lemma PrefixedInOrder(k: nat, walks: seq<seq<nat>>)
    requires InOrder(walks)
    ensures InOrder(Prefixed(k, walks))
  {
    var p := Prefixed(k, walks);
    forall i, j | 0 <= i < j < |p|
      ensures Before(p[i], p[j])
    {
      assert p[i][1..] == walks[i] && p[j][1..] == walks[j];
    }
  }

  lemma {:induction false} WalksInOrder(r: Registry, aggregates: Aggregates, tid: TypeId, stack: seq<TypeId>)
    requires Closed(r, aggregates) && tid in r.universe
    ensures InOrder(Walks(r, aggregates, tid, stack))
    decreases r.universe - Elements(stack), 1, 0
  {
    if tid !in stack {
      EdgesInside(r, aggregates, tid);
      var edges := OutEdges(r, aggregates, tid);
      WalksViaInOrder(r, aggregates, tid, edges, stack);
      JoinInOrder([[]], WalksVia(r, aggregates, tid, edges, stack));
    }
  }

  lemma {:induction false} WalksViaInOrder(r: Registry, aggregates: Aggregates, tid: TypeId, edges: seq<Edge>,
                                           stack: seq<TypeId>)
    requires Closed(r, aggregates) && tid in r.universe && tid !in stack
    requires forall i | 0 <= i < |edges| :: edges[i].target in r.universe
    ensures InOrder(WalksVia(r, aggregates, tid, edges, stack))
    ensures forall w | w in WalksVia(r, aggregates, tid, edges, stack) :: w != [] && w[0] < |edges|
    decreases r.universe - Elements(stack), 0, |edges|
  {
    if edges != [] {
      var last := |edges| - 1;
      assert tid in Elements(stack + [tid]) && Elements(stack) <= Elements(stack + [tid]);
      var below := Walks(r, aggregates, edges[last].target, stack + [tid]);
      WalksViaInOrder(r, aggregates, tid, edges[..last], stack);
      WalksInOrder(r, aggregates, edges[last].target, stack + [tid]);
      PrefixedInOrder(last, below);
      JoinInOrder(WalksVia(r, aggregates, tid, edges[..last], stack), Prefixed(last, below));
    }
  }

  // The entries come in depth-first order of their walks.
  lemma GatheredInOrder(r: Registry, aggregates: Aggregates, root: TypeId) returns (walks: seq<seq<nat>>)
    requires Closed(r, aggregates) && root in r.universe
    ensures InOrder(walks) && forall w :: w in walks <==> Path(r, aggregates, root, [], w)
    ensures Matches(r, aggregates, root, [], walks, Gathered(r, aggregates, root, [], []))
  {
    walks := Walks(r, aggregates, root, []);
    WalksAreAll(r, aggregates, root, []);
    WalksInOrder(r, aggregates, root, []);
    GatheredMatches(r, aggregates, root, [], []);
  }

  // ------------------------------------------------------ unique and sorted

  // No two walks lead to the same type under the same text.
  ghost predicate Unambiguous(r: Registry, aggregates: Aggregates, root: TypeId) {
    forall v, w | Path(r, aggregates, root, [], v) && Path(r, aggregates, root, [], w) && Before(v, w) ::
      EntryOf(r, aggregates, root, [], v) != EntryOf(r, aggregates, root, [], w)
  }

  ghost predicate SortedBy(entries: seq<Entry>, atMost: (Entry, Entry) -> bool) {
    forall i, j | 0 <= i < j < |entries| :: atMost(entries[i], entries[j])
  }

  ghost predicate WalksSortedBy(r: Registry, aggregates: Aggregates, root: TypeId, atMost: (Entry, Entry) -> bool) {
    forall v, w | Path(r, aggregates, root, [], v) && Path(r, aggregates, root, [], w) && Before(v, w) ::
      atMost(EntryOf(r, aggregates, root, [], v), EntryOf(r, aggregates, root, [], w))
  }

  // The output is in any given order exactly when the registry has its walks in
  // that order already: nothing sorts it.
  lemma SortedOnlyByWalks(r: Registry, aggregates: Aggregates, root: TypeId, atMost: (Entry, Entry) -> bool)
    requires Closed(r, aggregates) && root in r.universe
    ensures SortedBy(Gathered(r, aggregates, root, [], []), atMost) <==> WalksSortedBy(r, aggregates, root, atMost)
  {
    var entries := Gathered(r, aggregates, root, [], []);
    var walks := GatheredInOrder(r, aggregates, root);
    if SortedBy(entries, atMost) {
      forall v, w | Path(r, aggregates, root, [], v) && Path(r, aggregates, root, [], w) && Before(v, w)
        ensures atMost(EntryOf(r, aggregates, root, [], v), EntryOf(r, aggregates, root, [], w))
      {
        var i, j := PlacesInOrder(walks, v, w);
        assert atMost(entries[i], entries[j]);
      }
    }
    if WalksSortedBy(r, aggregates, root, atMost) {
      forall i, j | 0 <= i < j < |entries|
        ensures atMost(entries[i], entries[j])
      {
        assert walks[i] in walks && walks[j] in walks && Before(walks[i], walks[j]);
      }
    }
  }

  lemma {:induction false} BeforeIsStrict(v: seq<nat>, w: seq<nat>)
    ensures !(Before(v, w) && Before(w, v)) && !Before(v, v)
    decreases |v|
  {
    if v != [] {
      BeforeIsStrict(v[1..], v[1..]);
      if w != [] {
        BeforeIsStrict(v[1..], w[1..]);
      }
    }
  }

  lemma PlacesInOrder(walks: seq<seq<nat>>, v: seq<nat>, w: seq<nat>) returns (i: nat, j: nat)
    requires InOrder(walks) && v in walks && w in walks && Before(v, w)
    ensures i < j < |walks| && walks[i] == v && walks[j] == w
  {
    i :| 0 <= i < |walks| && walks[i] == v;
    j :| 0 <= j < |walks| && walks[j] == w;
    BeforeIsStrict(v, w);
    assert j < i ==> Before(w, v);
  }

  // The output is free of repetitions exactly when no two walks from the root
  // agree in type and text: nothing removes them.
  lemma UniqueIfUnambiguous(r: Registry, aggregates: Aggregates, root: TypeId)
    requires Closed(r, aggregates) && root in r.universe
    ensures Distinct(Gathered(r, aggregates, root, [], [])) <==> Unambiguous(r, aggregates, root)
  {
    var differ := (a: Entry, b: Entry) => a != b;
    SortedOnlyByWalks(r, aggregates, root, differ);
    assert SortedBy(Gathered(r, aggregates, root, [], []), differ) <==> Distinct(Gathered(r, aggregates, root, [], []));
    assert WalksSortedBy(r, aggregates, root, differ) <==> Unambiguous(r, aggregates, root);
  }

  // --------------------------------------------- registries that repeat entries

  ghost function LastType(r: Registry, aggregates: Aggregates, tid: TypeId, w: seq<nat>): TypeId
    requires ValidWalk(r, aggregates, tid, w)
  {
    var visited := Visited(r, aggregates, tid, w);
    visited[|visited| - 1]
  }

  // One more step at the end of a walk.
  ghost predicate StepsOn(r: Registry, aggregates: Aggregates, tid: TypeId, w: seq<nat>, k: nat, e: Edge) {
    && ValidWalk(r, aggregates, tid, w) && ValidWalk(r, aggregates, tid, w + [k])
    && Visited(r, aggregates, tid, w + [k]) == Visited(r, aggregates, tid, w) + [e.target]
    && WalkLabels(r, aggregates, tid, w + [k]) == WalkLabels(r, aggregates, tid, w) + [e.text]
  }

  lemma FirstStepThen(r: Registry, aggregates: Aggregates, tid: TypeId, w: seq<nat>, k: nat, e: Edge)
    requires w != [] && w[0] < |OutEdges(r, aggregates, tid)|
    requires StepsOn(r, aggregates, OutEdges(r, aggregates, tid)[w[0]].target, w[1..], k, e)
    ensures StepsOn(r, aggregates, tid, w, k, e)
  {
    var next := OutEdges(r, aggregates, tid)[w[0]];
    var longer := w + [k];
    assert longer[0] == w[0] && longer[1..] == w[1..] + [k];
    assert Visited(r, aggregates, tid, longer) == [tid] + Visited(r, aggregates, next.target, longer[1..]);
    assert WalkLabels(r, aggregates, tid, longer) == [next.text] + WalkLabels(r, aggregates, next.target, longer[1..]);
  }

  lemma {:induction false} OneStepMore(r: Registry, aggregates: Aggregates, tid: TypeId, w: seq<nat>, k: nat)
    requires ValidWalk(r, aggregates, tid, w)
    requires k < |OutEdges(r, aggregates, LastType(r, aggregates, tid, w))|
    ensures StepsOn(r, aggregates, tid, w, k, OutEdges(r, aggregates, LastType(r, aggregates, tid, w))[k])
    decreases |w|
  {
    if w == [] {
      assert [k][1..] == [] && w + [k] == [k];
    } else {
      var next := OutEdges(r, aggregates, tid)[w[0]].target;
      assert LastType(r, aggregates, next, w[1..]) == LastType(r, aggregates, tid, w);
      OneStepMore(r, aggregates, next, w[1..], k);
      FirstStepThen(r, aggregates, tid, w, k, OutEdges(r, aggregates, LastType(r, aggregates, tid, w))[k]);
    }
  }

  lemma {:induction false} BeforeAtLast(w: seq<nat>, i: nat, j: nat)
    requires i < j
    ensures Before(w + [i], w + [j])
    decreases |w|
  {
    if w == [] {
      assert w + [i] == [i] && w + [j] == [j];
    } else {
      BeforeAtLast(w[1..], i, j);
      assert (w + [i])[1..] == w[1..] + [i] && (w + [j])[1..] == w[1..] + [j];
    }
  }

  lemma StepIsPath(r: Registry, aggregates: Aggregates, root: TypeId, w: seq<nat>, k: nat, e: Edge)
    requires Path(r, aggregates, root, [], w) && StepsOn(r, aggregates, root, w, k, e)
    requires e.target !in Visited(r, aggregates, root, w)
    ensures Path(r, aggregates, root, [], w + [k])
    ensures EntryOf(r, aggregates, root, [], w + [k])
         == (e.target, PathText([] + (WalkLabels(r, aggregates, root, w) + [e.text])))
  {
  }

  // Two equal steps out of the last type of a walk, to a type not yet on it,
  // give two equal entries.
  lemma EqualStepsRepeat(r: Registry, aggregates: Aggregates, root: TypeId, w: seq<nat>, i: nat, j: nat)
    requires Closed(r, aggregates) && root in r.universe && Path(r, aggregates, root, [], w)
    requires var edges := OutEdges(r, aggregates, LastType(r, aggregates, root, w));
             i < j < |edges| && edges[i] == edges[j] && edges[i].target !in Visited(r, aggregates, root, w)
    ensures !Distinct(Gathered(r, aggregates, root, [], []))
  {
    var e := OutEdges(r, aggregates, LastType(r, aggregates, root, w))[i];
    OneStepMore(r, aggregates, root, w, i);
    OneStepMore(r, aggregates, root, w, j);
    StepIsPath(r, aggregates, root, w, i, e);
    StepIsPath(r, aggregates, root, w, j, e);
    BeforeAtLast(w, i, j);
    UniqueIfUnambiguous(r, aggregates, root);
  }

  lemma {:induction false} AggregateAt(r: Registry, tid: TypeId, aggregates: Aggregates, i: nat)
    requires i < |aggregates| && (aggregates[i].0 == tid || aggregates[i].1 == tid)
    ensures var k := |AggregateEdges(r, tid, aggregates[..i])|;
            && k < |AggregateEdges(r, tid, aggregates)|
            && AggregateEdges(r, tid, aggregates)[k] == AggregateEdge(r, tid, aggregates[i])[0]
    decreases |aggregates|
  {
    var init := aggregates[..|aggregates| - 1];
    if i < |init| {
      AggregateAt(r, tid, init, i);
      assert init[..i] == aggregates[..i];
    }
  }

  lemma {:induction false} MoreAggregates(r: Registry, tid: TypeId, aggregates: Aggregates, i: nat, j: nat)
    requires i < j <= |aggregates| && (aggregates[i].0 == tid || aggregates[i].1 == tid)
    ensures |AggregateEdges(r, tid, aggregates[..i])| < |AggregateEdges(r, tid, aggregates[..j])|
    decreases j
  {
    assert aggregates[..j][..j - 1] == aggregates[..j - 1];
    if i < j - 1 {
      MoreAggregates(r, tid, aggregates, i, j - 1);
    }
  }

  // Where the step along the i-th aggregation comes among the steps of a type.
  ghost function StepIndex(r: Registry, aggregates: Aggregates, tid: TypeId, i: nat): nat
    requires i <= |aggregates|
  {
    |AttributeEdges(r, r.attributes(tid))| + |ChildEdges(r, tid, r.registered)|
    + |AggregateEdges(r, tid, aggregates[..i])|
  }

  lemma StepIndexIs(r: Registry, aggregates: Aggregates, tid: TypeId, i: nat)
    requires i < |aggregates| && (aggregates[i].0 == tid || aggregates[i].1 == tid)
    ensures var k := StepIndex(r, aggregates, tid, i);
            && k < |OutEdges(r, aggregates, tid)|
            && OutEdges(r, aggregates, tid)[k] == AggregateEdge(r, tid, aggregates[i])[0]
  {
    AggregateAt(r, tid, aggregates, i);
  }

  // The same two types recorded twice as aggregates, as the tables of the
  // source have it: the entries below one of them are repeated.
  lemma RecordedTwiceRepeats(r: Registry, aggregates: Aggregates, root: TypeId, other: TypeId, i: nat, j: nat)
    requires Closed(r, aggregates) && root in r.universe && other != root
    requires i < j < |aggregates| && aggregates[i] == (root, other) && aggregates[j] == (root, other)
    ensures !Distinct(Gathered(r, aggregates, root, [], []))
  {
    StepIndexIs(r, aggregates, root, i);
    StepIndexIs(r, aggregates, root, j);
    MoreAggregates(r, root, aggregates, i, j);
    assert Visited(r, aggregates, root, []) == [root];
    EqualStepsRepeat(r, aggregates, root, [], StepIndex(r, aggregates, root, i), StepIndex(r, aggregates, root, j));
  }

  // ------------------------------------------ registries that repeat no entry

  // Read up to the next slash, no label of the type is another one, or begins
  // another one.
  ghost predicate ClearLabels(edges: seq<Edge>) {
    forall i, j | 0 <= i < |edges| && 0 <= j < |edges| && i != j :: !(edges[i].text + "/" <= edges[j].text + "/")
  }

  ghost predicate AllClear(r: Registry, aggregates: Aggregates) {
    forall tid | tid in r.universe :: ClearLabels(OutEdges(r, aggregates, tid))
  }

  lemma {:induction false} PathTextFirst(first: string, rest: seq<string>)
    ensures PathText([first] + rest) == "/" + first + PathText(rest)
    decreases |rest|
  {
    if rest == [] {
      assert [first] + rest == [first] && [first][..0] == [];
      assert PathText([first]) == PathText([]) + "/" + first;
    } else {
      var init, last := rest[..|rest| - 1], rest[|rest| - 1];
      PathTextFirst(first, init);
      assert ([first] + rest)[..|rest|] == [first] + init;
    }
  }

  predicate AtSlash(text: string) {
    text == "" || text[0] == '/'
  }

  // Two labels, each up to the next slash or the end, at the start of one text.
  lemma LabelsOfText(a: string, x: string, b: string, y: string)
    requires a + x == b + y && AtSlash(x) && AtSlash(y) && |a| <= |b|
    ensures a + "/" <= b + "/" && (a == b ==> x == y)
  {
    assert a == (a + x)[..|a|] == (b + y)[..|a|] == b[..|a|];
    if |a| == |b| {
      assert x == (a + x)[|a|..] && y == (b + y)[|b|..];
    } else {
      assert (a + x)[|a|] == x[0] && (b + y)[|a|] == b[|a|];
    }
  }

  lemma TextAtSlash(labels: seq<string>)
    ensures AtSlash(PathText(labels)) && (PathText(labels) == "" ==> labels == [])
  {
    if labels != [] {
      PathTextFirst(labels[0], labels[1..]);
      assert labels == [labels[0]] + labels[1..];
    }
  }

  lemma {:induction false} TextGivesWalk(r: Registry, aggregates: Aggregates, tid: TypeId, v: seq<nat>, w: seq<nat>)
    requires Closed(r, aggregates) && AllClear(r, aggregates) && tid in r.universe
    requires ValidWalk(r, aggregates, tid, v) && ValidWalk(r, aggregates, tid, w)
    requires PathText(WalkLabels(r, aggregates, tid, v)) == PathText(WalkLabels(r, aggregates, tid, w))
    ensures v == w
    decreases |v|
  {
    TextAtSlash(WalkLabels(r, aggregates, tid, v));
    TextAtSlash(WalkLabels(r, aggregates, tid, w));
    if v != [] && w != [] {
      var edges := OutEdges(r, aggregates, tid);
      EdgesInside(r, aggregates, tid);
      var a, b := edges[v[0]], edges[w[0]];
      var below, below' := WalkLabels(r, aggregates, a.target, v[1..]), WalkLabels(r, aggregates, b.target, w[1..]);
      PathTextFirst(a.text, below);
      PathTextFirst(b.text, below');
      SameFirstStep(edges, v[0], w[0], PathText(below), PathText(below'));
      assert PathText(below) == PathText(below') && v[0] == w[0] by {
        TextAtSlash(below);
        TextAtSlash(below');
      }
      TextGivesWalk(r, aggregates, a.target, v[1..], w[1..]);
      assert v == [v[0]] + v[1..] && w == [w[0]] + w[1..];
    }
  }

  lemma SameFirstStep(edges: seq<Edge>, i: nat, j: nat, x: string, y: string)
    requires ClearLabels(edges) && i < |edges| && j < |edges|
    requires "/" + edges[i].text + x == "/" + edges[j].text + y
    ensures AtSlash(x) && AtSlash(y) ==> i == j && x == y
  {
    var a, b := edges[i].text, edges[j].text;
    assert a + x == ("/" + a + x)[1..] == ("/" + b + y)[1..] == b + y;
    if AtSlash(x) && AtSlash(y) {
      if |a| <= |b| {
        LabelsOfText(a, x, b, y);
      } else {
        LabelsOfText(b, y, a, x);
      }
    }
  }

  // With clear labels every entry is unique.
  lemma ClearLabelsAreUnique(r: Registry, aggregates: Aggregates, root: TypeId)
    requires Closed(r, aggregates) && root in r.universe && AllClear(r, aggregates)
    ensures Distinct(Gathered(r, aggregates, root, [], []))
  {
    forall v, w | Path(r, aggregates, root, [], v) && Path(r, aggregates, root, [], w) && Before(v, w)
      ensures EntryOf(r, aggregates, root, [], v) != EntryOf(r, aggregates, root, [], w)
    {
      BeforeIsStrict(v, v);
      var lv, lw := WalkLabels(r, aggregates, root, v), WalkLabels(r, aggregates, root, w);
      assert [] + lv == lv && [] + lw == lw;
      if PathText(lv) == PathText(lw) {
        TextGivesWalk(r, aggregates, root, v, w);
        assert false;
      }
    }
    UniqueIfUnambiguous(r, aggregates, root);
  }
}
