/** `StaticInformation` of print-introspected-doxygen.cc: the search for every
    configuration path through the graph of types. */
module TypeGather {
  import opened Lists

  type TypeId(==, !new)

  // What the introspection reads of one attribute: its checker is a pointer, a
  // container of pointers, or something else.
  datatype Attribute =
    | PointerTo(name: string, pointee: TypeId)
    | ContainerOf(name: string, item: TypeId)
    | Plain(name: string)

  // The TypeId registry, as far as the search reads it.
  datatype Registry = Registry(
    universe: set<TypeId>,
    attributes: TypeId -> seq<Attribute>,
    registered: seq<TypeId>,
    isChildOf: (TypeId, TypeId) -> bool,
    name: TypeId -> string,
    objectType: TypeId)

  type Aggregates = seq<(TypeId, TypeId)>

  // ------------------------------------------------------- the graph of types

  // A step of a path: the label it adds and the type it leads to.
  datatype Edge = Edge(text: string, target: TypeId)

  function AttributeEdge(r: Registry, a: Attribute): seq<Edge> {
    match a
    case PointerTo(name, pointee) => if pointee == r.objectType then [] else [Edge(name, pointee)]
    case ContainerOf(name, item) => [Edge(name + "/[i]", item)]
    case Plain(_) => []
  }

  function ChildEdge(r: Registry, tid: TypeId, child: TypeId): seq<Edge> {
    if r.isChildOf(child, tid) then [Edge("$" + r.name(child), child)] else []
  }

  // The second test wins when both ends are tid.
  function AggregateEdge(r: Registry, tid: TypeId, pair: (TypeId, TypeId)): seq<Edge> {
    if pair.1 == tid then [Edge("$" + r.name(pair.0), pair.0)]
    else if pair.0 == tid then [Edge("$" + r.name(pair.1), pair.1)]
    else []
  }

  function AttributeEdges(r: Registry, attributes: seq<Attribute>): seq<Edge> {
    if attributes == [] then []
    else AttributeEdges(r, attributes[..|attributes| - 1]) + AttributeEdge(r, attributes[|attributes| - 1])
  }

  function ChildEdges(r: Registry, tid: TypeId, types: seq<TypeId>): seq<Edge> {
    if types == [] then []
    else ChildEdges(r, tid, types[..|types| - 1]) + ChildEdge(r, tid, types[|types| - 1])
  }

  function AggregateEdges(r: Registry, tid: TypeId, aggregates: Aggregates): seq<Edge> {
    if aggregates == [] then []
    else AggregateEdges(r, tid, aggregates[..|aggregates| - 1]) + AggregateEdge(r, tid, aggregates[|aggregates| - 1])
  }

  // All steps out of a type, in the order they are tried.
  function OutEdges(r: Registry, aggregates: Aggregates, tid: TypeId): seq<Edge> {
    AttributeEdges(r, r.attributes(tid)) + ChildEdges(r, tid, r.registered) + AggregateEdges(r, tid, aggregates)
  }

  // Every type that can be met belongs to the finite universe.
  ghost predicate Closed(r: Registry, aggregates: Aggregates) {
    && (forall tid, i | tid in r.universe && 0 <= i < |r.attributes(tid)| ::
          match r.attributes(tid)[i]
          case PointerTo(_, pointee) => pointee in r.universe
          case ContainerOf(_, item) => item in r.universe
          case Plain(_) => true)
    && (forall i | 0 <= i < |r.registered| :: r.registered[i] in r.universe)
    && (forall i | 0 <= i < |aggregates| :: aggregates[i].0 in r.universe && aggregates[i].1 in r.universe)
  }

  // ------------------------------------------------------------ specification

  type Entry = (TypeId, string)

  // "/" before every label.
  function PathText(labels: seq<string>): string {
    if labels == [] then "" else PathText(labels[..|labels| - 1]) + "/" + labels[|labels| - 1]
  }

  // The entries DoGather appends for tid, under the given stacks.
  function Gathered(r: Registry, aggregates: Aggregates, tid: TypeId, stack: seq<TypeId>,
                    labels: seq<string>): seq<Entry>
    requires Closed(r, aggregates) && tid in r.universe
    decreases r.universe - Elements(stack), 1, 0
  {
    if tid in stack then []
    else
      EdgesInside(r, aggregates, tid);
      [(tid, PathText(labels))] + GatheredVia(r, aggregates, tid, OutEdges(r, aggregates, tid), stack, labels)
  }

  // ... along the given steps out of tid.
  function GatheredVia(r: Registry, aggregates: Aggregates, tid: TypeId, edges: seq<Edge>, stack: seq<TypeId>,
                       labels: seq<string>): seq<Entry>
    requires Closed(r, aggregates) && tid in r.universe && tid !in stack
    requires forall i | 0 <= i < |edges| :: edges[i].target in r.universe
    decreases r.universe - Elements(stack), 0, |edges|
  {
    if edges == [] then []
    else
      var last := edges[|edges| - 1];
      assert tid in Elements(stack + [tid]) && Elements(stack) <= Elements(stack + [tid]);
      GatheredVia(r, aggregates, tid, edges[..|edges| - 1], stack, labels)
      + Gathered(r, aggregates, last.target, stack + [tid], labels + [last.text])
  }

  lemma {:induction false} AttributeEdgesInside(r: Registry, attributes: seq<Attribute>)
    requires forall i | 0 <= i < |attributes| ::
               match attributes[i]
               case PointerTo(_, pointee) => pointee in r.universe
               case ContainerOf(_, item) => item in r.universe
               case Plain(_) => true
    ensures forall i | 0 <= i < |AttributeEdges(r, attributes)| :: AttributeEdges(r, attributes)[i].target in r.universe
  {
    if attributes != [] {
      AttributeEdgesInside(r, attributes[..|attributes| - 1]);
    }
  }

  lemma {:induction false} ChildEdgesInside(r: Registry, tid: TypeId, types: seq<TypeId>)
    requires forall i | 0 <= i < |types| :: types[i] in r.universe
    ensures forall i | 0 <= i < |ChildEdges(r, tid, types)| :: ChildEdges(r, tid, types)[i].target in r.universe
  {
    if types != [] {
      ChildEdgesInside(r, tid, types[..|types| - 1]);
    }
  }

  lemma {:induction false} AggregateEdgesInside(r: Registry, tid: TypeId, aggregates: Aggregates)
    requires forall i | 0 <= i < |aggregates| :: aggregates[i].0 in r.universe && aggregates[i].1 in r.universe
    ensures forall i | 0 <= i < |AggregateEdges(r, tid, aggregates)| ::
            AggregateEdges(r, tid, aggregates)[i].target in r.universe
  {
    if aggregates != [] {
      AggregateEdgesInside(r, tid, aggregates[..|aggregates| - 1]);
    }
  }

  // One more step tried appends what is found below it.
  lemma ViaOneMore(r: Registry, aggregates: Aggregates, tid: TypeId, edges: seq<Edge>, edge: Edge, stack: seq<TypeId>,
                   labels: seq<string>)
    requires Closed(r, aggregates) && tid in r.universe && tid !in stack
    requires edge.target in r.universe && forall i | 0 <= i < |edges| :: edges[i].target in r.universe
    ensures GatheredVia(r, aggregates, tid, edges + [edge], stack, labels)
         == GatheredVia(r, aggregates, tid, edges, stack, labels)
            + Gathered(r, aggregates, edge.target, stack + [tid], labels + [edge.text])
  {
    assert (edges + [edge])[..|edges|] == edges;
  }

  lemma EdgesInside(r: Registry, aggregates: Aggregates, tid: TypeId)
    requires Closed(r, aggregates) && tid in r.universe
    ensures forall i | 0 <= i < |OutEdges(r, aggregates, tid)| :: OutEdges(r, aggregates, tid)[i].target in r.universe
  {
    AttributeEdgesInside(r, r.attributes(tid));
    ChildEdgesInside(r, tid, r.registered);
    AggregateEdgesInside(r, tid, aggregates);
  }

  // ------------------------------------------------------------------- walks

  // A walk is given by the index of the step taken at each type; two steps with
  // the same label and target are different walks.
  ghost predicate ValidWalk(r: Registry, aggregates: Aggregates, tid: TypeId, walk: seq<nat>)
    decreases |walk|
  {
    walk == [] ||
    (walk[0] < |OutEdges(r, aggregates, tid)|
     && ValidWalk(r, aggregates, OutEdges(r, aggregates, tid)[walk[0]].target, walk[1..]))
  }

  // The types met on a walk, the first included.
  ghost function Visited(r: Registry, aggregates: Aggregates, tid: TypeId, walk: seq<nat>): seq<TypeId>
    requires ValidWalk(r, aggregates, tid, walk)
    decreases |walk|
  {
    [tid] + if walk == [] then [] else Visited(r, aggregates, OutEdges(r, aggregates, tid)[walk[0]].target, walk[1..])
  }

  ghost function WalkLabels(r: Registry, aggregates: Aggregates, tid: TypeId, walk: seq<nat>): seq<string>
    requires ValidWalk(r, aggregates, tid, walk)
    decreases |walk|
  {
    if walk == [] then []
    else
      var e := OutEdges(r, aggregates, tid)[walk[0]];
      [e.text] + WalkLabels(r, aggregates, e.target, walk[1..])
  }

  // No type occurs twice, and none is on the stack.
  ghost predicate NoRepeat(stack: seq<TypeId>, types: seq<TypeId>) {
    Distinct(types) && forall t | t in types :: t !in stack
  }

  ghost predicate Path(r: Registry, aggregates: Aggregates, tid: TypeId, stack: seq<TypeId>, walk: seq<nat>) {
    ValidWalk(r, aggregates, tid, walk) && NoRepeat(stack, Visited(r, aggregates, tid, walk))
  }

  ghost function EntryOf(r: Registry, aggregates: Aggregates, tid: TypeId, labels: seq<string>, walk: seq<nat>): Entry
    requires ValidWalk(r, aggregates, tid, walk)
  {
    var visited := Visited(r, aggregates, tid, walk);
    (visited[|visited| - 1], PathText(labels + WalkLabels(r, aggregates, tid, walk)))
  }

  // The walks in the order in which the search makes them.
  ghost function Walks(r: Registry, aggregates: Aggregates, tid: TypeId, stack: seq<TypeId>): seq<seq<nat>>
    requires Closed(r, aggregates) && tid in r.universe
    decreases r.universe - Elements(stack), 1, 0
  {
    if tid in stack then []
    else
      EdgesInside(r, aggregates, tid);
      [[]] + WalksVia(r, aggregates, tid, OutEdges(r, aggregates, tid), stack)
  }

  ghost function WalksVia(r: Registry, aggregates: Aggregates, tid: TypeId, edges: seq<Edge>,
                          stack: seq<TypeId>): seq<seq<nat>>
    requires Closed(r, aggregates) && tid in r.universe && tid !in stack
    requires forall i | 0 <= i < |edges| :: edges[i].target in r.universe
    decreases r.universe - Elements(stack), 0, |edges|
  {
    if edges == [] then []
    else
      var last := |edges| - 1;
      assert tid in Elements(stack + [tid]) && Elements(stack) <= Elements(stack + [tid]);
      WalksVia(r, aggregates, tid, edges[..last], stack)
      + Prefixed(last, Walks(r, aggregates, edges[last].target, stack + [tid]))
  }

  function Prefixed(k: nat, walks: seq<seq<nat>>): (p: seq<seq<nat>>)
    ensures |p| == |walks| && forall i | 0 <= i < |walks| :: p[i] == [k] + walks[i]
  {
    seq(|walks|, i requires 0 <= i < |walks| => [k] + walks[i])
  }

  lemma PrefixedIs(k: nat, walks: seq<seq<nat>>, w: seq<nat>)
    ensures w in Prefixed(k, walks) <==> w != [] && w[0] == k && w[1..] in walks
  {
    if w in Prefixed(k, walks) {
      var i :| 0 <= i < |walks| && Prefixed(k, walks)[i] == w;
      assert w[1..] == walks[i];
    }
    if w != [] && w[0] == k && w[1..] in walks {
      var i :| 0 <= i < |walks| && walks[i] == w[1..];
      assert Prefixed(k, walks)[i] == w;
    }
  }

  // Stepping from tid to the rest of a walk.
  lemma PathStep(r: Registry, aggregates: Aggregates, tid: TypeId, stack: seq<TypeId>, walk: seq<nat>)
    requires walk != []
    ensures Path(r, aggregates, tid, stack, walk) <==>
              && tid !in stack && walk[0] < |OutEdges(r, aggregates, tid)|
              && Path(r, aggregates, OutEdges(r, aggregates, tid)[walk[0]].target, stack + [tid], walk[1..])
  {
    if ValidWalk(r, aggregates, tid, walk) {
      var rest := Visited(r, aggregates, OutEdges(r, aggregates, tid)[walk[0]].target, walk[1..]);
      assert Visited(r, aggregates, tid, walk) == [tid] + rest;
      NoRepeatStep(stack, tid, rest);
    }
  }

  lemma NoRepeatStep(stack: seq<TypeId>, tid: TypeId, rest: seq<TypeId>)
    ensures NoRepeat(stack, [tid] + rest) <==> tid !in stack && NoRepeat(stack + [tid], rest)
  {
    var all := [tid] + rest;
    assert all[0] == tid && forall i | 0 <= i < |rest| :: all[i + 1] == rest[i];
    if NoRepeat(stack, all) {
      forall i | 0 <= i < |rest|
        ensures rest[i] != tid && rest[i] !in stack
      {
        assert all[i + 1] in all && all[0] != all[i + 1];
      }
      assert tid in all;
    }
    if tid !in stack && NoRepeat(stack + [tid], rest) {
      forall i | 0 < i < |all|
        ensures all[i] == rest[i - 1] && all[i] != tid && all[i] !in stack
      {
        assert rest[i - 1] in rest;
      }
    }
  }

  // The enumerated walks are exactly the walks that repeat no type, each once.
  lemma {:induction false} WalksAreAll(r: Registry, aggregates: Aggregates, tid: TypeId, stack: seq<TypeId>)
    requires Closed(r, aggregates) && tid in r.universe
    ensures forall w :: w in Walks(r, aggregates, tid, stack) <==> Path(r, aggregates, tid, stack, w)
    ensures Distinct(Walks(r, aggregates, tid, stack))
    decreases r.universe - Elements(stack), 1, 0
  {
    var walks := Walks(r, aggregates, tid, stack);
    if tid in stack {
      forall w
        ensures !Path(r, aggregates, tid, stack, w)
      {
        if ValidWalk(r, aggregates, tid, w) {
          assert Visited(r, aggregates, tid, w)[0] == tid;
        }
      }
    } else {
      EdgesInside(r, aggregates, tid);
      var edges := OutEdges(r, aggregates, tid);
      var via := WalksVia(r, aggregates, tid, edges, stack);
      WalksViaAreAll(r, aggregates, tid, edges, stack);
      assert edges == OutEdges(r, aggregates, tid)[..|edges|];
      forall w
        ensures w in walks <==> Path(r, aggregates, tid, stack, w)
      {
        if w == [] {
          assert walks[0] == w;
          assert Visited(r, aggregates, tid, w) == [tid];
        } else {
          assert w in walks <==> w in via;
          PathStep(r, aggregates, tid, stack, w);
        }
      }
      assert [] !in via;
    }
  }

  // A walk whose first step is among `edges`, taken as the first steps of tid.
  ghost predicate PathVia(r: Registry, aggregates: Aggregates, tid: TypeId, edges: seq<Edge>, stack: seq<TypeId>,
                          w: seq<nat>) {
    w != [] && w[0] < |edges| && Path(r, aggregates, edges[w[0]].target, stack + [tid], w[1..])
  }

  // The last of the steps, or one before it.
  lemma PathViaSplit(r: Registry, aggregates: Aggregates, tid: TypeId, edges: seq<Edge>, stack: seq<TypeId>,
                     below: seq<seq<nat>>, w: seq<nat>)
    requires edges != []
    requires forall v :: v in below <==> Path(r, aggregates, edges[|edges| - 1].target, stack + [tid], v)
    ensures PathVia(r, aggregates, tid, edges, stack, w) <==>
              PathVia(r, aggregates, tid, edges[..|edges| - 1], stack, w) || w in Prefixed(|edges| - 1, below)
    ensures !(PathVia(r, aggregates, tid, edges[..|edges| - 1], stack, w) && w in Prefixed(|edges| - 1, below))
  {
    PrefixedIs(|edges| - 1, below, w);
  }

  lemma {:induction false} WalksViaAreAll(r: Registry, aggregates: Aggregates, tid: TypeId, edges: seq<Edge>,
                                          stack: seq<TypeId>)
    requires Closed(r, aggregates) && tid in r.universe && tid !in stack
    requires forall i | 0 <= i < |edges| :: edges[i].target in r.universe
    ensures forall w ::
              w in WalksVia(r, aggregates, tid, edges, stack) <==> PathVia(r, aggregates, tid, edges, stack, w)
    ensures Distinct(WalksVia(r, aggregates, tid, edges, stack))
    decreases r.universe - Elements(stack), 0, |edges|
  {
    if edges != [] {
      var last := |edges| - 1;
      var init, target := edges[..last], edges[last].target;
      assert tid in Elements(stack + [tid]) && Elements(stack) <= Elements(stack + [tid]);
      WalksViaAreAll(r, aggregates, tid, init, stack);
      WalksAreAll(r, aggregates, target, stack + [tid]);
      var before := WalksVia(r, aggregates, tid, init, stack);
      var below := Walks(r, aggregates, target, stack + [tid]);
      forall w
        ensures w in before + Prefixed(last, below) <==> PathVia(r, aggregates, tid, edges, stack, w)
        ensures !(w in before && w in Prefixed(last, below))
      {
        PathViaSplit(r, aggregates, tid, edges, stack, below, w);
      }
      PrefixedDistinct(last, below);
      JoinDistinct(before, Prefixed(last, below));
    }
  }

  lemma PrefixedDistinct(k: nat, walks: seq<seq<nat>>)
    requires Distinct(walks)
    ensures Distinct(Prefixed(k, walks))
  {
    var p := Prefixed(k, walks);
    forall i, j | 0 <= i < j < |p|
      ensures p[i] != p[j]
    {
      assert p[i][1..] == walks[i] && p[j][1..] == walks[j];
    }
  }

  // ------------------------------------------- one entry for each such walk

  ghost predicate Matches(r: Registry, aggregates: Aggregates, tid: TypeId, labels: seq<string>, walks: seq<seq<nat>>,
                          entries: seq<Entry>) {
    && |walks| == |entries|
    && forall i | 0 <= i < |walks| :: EntryFor(r, aggregates, tid, labels, walks[i], entries[i])
  }

  ghost predicate EntryFor(r: Registry, aggregates: Aggregates, tid: TypeId, labels: seq<string>, walk: seq<nat>,
                           entry: Entry) {
    ValidWalk(r, aggregates, tid, walk) && entry == EntryOf(r, aggregates, tid, labels, walk)
  }

  lemma EntryStep(r: Registry, aggregates: Aggregates, tid: TypeId, labels: seq<string>, k: nat, walk: seq<nat>)
    requires k < |OutEdges(r, aggregates, tid)|
    requires ValidWalk(r, aggregates, OutEdges(r, aggregates, tid)[k].target, walk)
    ensures var e := OutEdges(r, aggregates, tid)[k];
            && ValidWalk(r, aggregates, tid, [k] + walk)
            && EntryOf(r, aggregates, tid, labels, [k] + walk)
               == EntryOf(r, aggregates, e.target, labels + [e.text], walk)
  {
    var e := OutEdges(r, aggregates, tid)[k];
    var longer := [k] + walk;
    assert longer[0] == k && longer[1..] == walk;
    assert Visited(r, aggregates, tid, longer) == [tid] + Visited(r, aggregates, e.target, walk);
    assert WalkLabels(r, aggregates, tid, longer) == [e.text] + WalkLabels(r, aggregates, e.target, walk);
    assert labels + ([e.text] + WalkLabels(r, aggregates, e.target, walk))
        == labels + [e.text] + WalkLabels(r, aggregates, e.target, walk);
  }

  lemma {:induction false} GatheredMatches(r: Registry, aggregates: Aggregates, tid: TypeId, stack: seq<TypeId>,
                                           labels: seq<string>)
    requires Closed(r, aggregates) && tid in r.universe
    ensures Matches(r, aggregates, tid, labels, Walks(r, aggregates, tid, stack),
            Gathered(r, aggregates, tid, stack, labels))
    decreases r.universe - Elements(stack), 1, 0
  {
    if tid !in stack {
      EdgesInside(r, aggregates, tid);
      var edges := OutEdges(r, aggregates, tid);
      ViaMatches(r, aggregates, tid, edges, stack, labels);
      assert labels + WalkLabels(r, aggregates, tid, []) == labels;
    }
  }

  lemma JoinMatches(r: Registry, aggregates: Aggregates, tid: TypeId, labels: seq<string>,
                    walks: seq<seq<nat>>, entries: seq<Entry>, walks': seq<seq<nat>>, entries': seq<Entry>)
    requires Matches(r, aggregates, tid, labels, walks, entries)
    requires Matches(r, aggregates, tid, labels, walks', entries')
    ensures Matches(r, aggregates, tid, labels, walks + walks', entries + entries')
  {
    forall i | 0 <= i < |walks + walks'|
      ensures EntryFor(r, aggregates, tid, labels, (walks + walks')[i], (entries + entries')[i])
    {
      if i < |walks| {
        assert EntryFor(r, aggregates, tid, labels, walks[i], entries[i]);
      } else {
        assert EntryFor(r, aggregates, tid, labels, walks'[i - |walks|], entries'[i - |walks|]);
      }
    }
  }

  // Entries found below step k, seen from above it.
  lemma PrefixedMatches(r: Registry, aggregates: Aggregates, tid: TypeId, labels: seq<string>, k: nat,
                        walks: seq<seq<nat>>, entries: seq<Entry>)
    requires k < |OutEdges(r, aggregates, tid)|
    requires var e := OutEdges(r, aggregates, tid)[k];
            Matches(r, aggregates, e.target, labels + [e.text], walks, entries)
    ensures Matches(r, aggregates, tid, labels, Prefixed(k, walks), entries)
  {
    var p := Prefixed(k, walks);
    forall i | 0 <= i < |p|
      ensures EntryFor(r, aggregates, tid, labels, p[i], entries[i])
    {
      var e := OutEdges(r, aggregates, tid)[k];
      assert EntryFor(r, aggregates, e.target, labels + [e.text], walks[i], entries[i]);
      EntryStep(r, aggregates, tid, labels, k, walks[i]);
    }
  }

  lemma {:induction false} ViaMatches(r: Registry, aggregates: Aggregates, tid: TypeId, edges: seq<Edge>,
                                      stack: seq<TypeId>, labels: seq<string>)
    requires Closed(r, aggregates) && tid in r.universe && tid !in stack
    requires edges <= OutEdges(r, aggregates, tid)
    requires forall i | 0 <= i < |edges| :: edges[i].target in r.universe
    ensures Matches(r, aggregates, tid, labels, WalksVia(r, aggregates, tid, edges, stack),
            GatheredVia(r, aggregates, tid, edges, stack, labels))
    decreases r.universe - Elements(stack), 0, |edges|
  {
    if edges != [] {
      var k := |edges| - 1;
      var init, e := edges[..k], edges[k];
      assert e == OutEdges(r, aggregates, tid)[k];
      assert tid in Elements(stack + [tid]) && Elements(stack) <= Elements(stack + [tid]);
      ViaMatches(r, aggregates, tid, init, stack, labels);
      GatheredMatches(r, aggregates, e.target, stack + [tid], labels + [e.text]);
      StepMatches(r, aggregates, tid, k, labels,
                  WalksVia(r, aggregates, tid, init, stack), GatheredVia(r, aggregates, tid, init, stack, labels),
                  Walks(r, aggregates, e.target, stack + [tid]),
                  Gathered(r, aggregates, e.target, stack + [tid], labels + [e.text]));
    }
  }

  lemma StepMatches(r: Registry, aggregates: Aggregates, tid: TypeId, k: nat, labels: seq<string>,
                    walks: seq<seq<nat>>, entries: seq<Entry>, below: seq<seq<nat>>, found: seq<Entry>)
    requires k < |OutEdges(r, aggregates, tid)|
    requires Matches(r, aggregates, tid, labels, walks, entries)
    requires var e := OutEdges(r, aggregates, tid)[k]; Matches(r, aggregates, e.target, labels + [e.text], below, found)
    ensures Matches(r, aggregates, tid, labels, walks + Prefixed(k, below), entries + found)
  {
    PrefixedMatches(r, aggregates, tid, labels, k, below, found);
    JoinMatches(r, aggregates, tid, labels, walks, entries, Prefixed(k, below), found);
  }

  // The search from a root: its output can be listed against all walks from the
  // root that repeat no type, each walk once, and each entry is the last type
  // of its walk with the text of the walk's labels.
  lemma GatheredIsAllPaths(r: Registry, aggregates: Aggregates, root: TypeId) returns (walks: seq<seq<nat>>)
    requires Closed(r, aggregates) && root in r.universe
    ensures Distinct(walks) && forall w :: w in walks <==> Path(r, aggregates, root, [], w)
    ensures Matches(r, aggregates, root, [], walks, Gathered(r, aggregates, root, [], []))
  {
    walks := Walks(r, aggregates, root, []);
    WalksAreAll(r, aggregates, root, []);
    GatheredMatches(r, aggregates, root, [], []);
  }

  // The path texts recorded for one type.
  function PathsOf(output: seq<Entry>, tid: TypeId): seq<string> {
    if output == [] then []
    else
      var last := output[|output| - 1];
      PathsOf(output[..|output| - 1], tid) + if last.0 == tid then [last.1] else []
  }

  lemma {:induction false} PathsOfIs(output: seq<Entry>, tid: TypeId, text: string)
    ensures text in PathsOf(output, tid) <==> (tid, text) in output
  {
    if output != [] {
      PathsOfIs(output[..|output| - 1], tid, text);
      assert output == output[..|output| - 1] + [output[|output| - 1]];
    }
  }

  // In recording order, once for each entry of the type.
  lemma {:induction false} PathsOfInOrder(output: seq<Entry>, more: seq<Entry>, tid: TypeId)
    ensures PathsOf(output + more, tid) == PathsOf(output, tid) + PathsOf(more, tid)
    decreases |more|
  {
    if more == [] {
      assert output + more == output;
    } else {
      var n := |more| - 1;
      PathsOfInOrder(output, more[..n], tid);
      assert (output + more)[..|output| + n] == output + more[..n];
    }
  }

  lemma PathsOfOne(e: Entry, tid: TypeId)
    ensures PathsOf([e], tid) == if e.0 == tid then [e.1] else []
  {
    assert [e][..0] == [] && PathsOf([], tid) == [];
  }

  // What Get answers after one Gather from a root.
  lemma GetIsReachingPaths(r: Registry, aggregates: Aggregates, root: TypeId, tid: TypeId, text: string)
    requires Closed(r, aggregates) && root in r.universe
    ensures text in PathsOf(Gathered(r, aggregates, root, [], []), tid) <==>
              exists w :: Path(r, aggregates, root, [], w) && EntryOf(r, aggregates, root, [], w) == (tid, text)
  {
    var output := Gathered(r, aggregates, root, [], []);
    var walks := GatheredIsAllPaths(r, aggregates, root);
    PathsOfIs(output, tid, text);
    if (tid, text) in output {
      var i :| 0 <= i < |output| && output[i] == (tid, text);
      assert walks[i] in walks;
    }
    if w :| Path(r, aggregates, root, [], w) && EntryOf(r, aggregates, root, [], w) == (tid, text) {
      assert w in walks;
      var i :| 0 <= i < |walks| && walks[i] == w;
      assert output[i] == (tid, text);
    }
  }
}
