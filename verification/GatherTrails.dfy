/** What `StaticInformation` of print-introspected-doxygen.cc records, said about
    the registry alone: which steps leave a type, and which sequences of steps
    become entries. */
module GatherTrails {
  import opened Lists
  import opened TypeGather
  import opened GatherResults

  // -------------------------------------------------------------------- steps

  // The p-th of all attributes, registered types and aggregates is a step out of
  // tid: a pointer to anything but the Object type, a container, a child, or an
  // aggregate from either side.
  ghost predicate StepAt(r: Registry, aggregates: Aggregates, tid: TypeId, p: int, text: string, next: TypeId) {
    var a, c := |r.attributes(tid)|, |r.registered|;
    if 0 <= p < a then
      || (exists name :: r.attributes(tid)[p] == PointerTo(name, next) && next != r.objectType && text == name)
      || (exists name :: r.attributes(tid)[p] == ContainerOf(name, next) && text == name + "/[i]")
    else if a <= p < a + c then
      r.registered[p - a] == next && r.isChildOf(next, tid) && text == "$" + r.name(next)
    else
      a + c <= p < a + c + |aggregates|
      && (aggregates[p - a - c] == (tid, next) || aggregates[p - a - c] == (next, tid))
      && text == "$" + r.name(next)
  }

  ghost predicate StepTo(r: Registry, aggregates: Aggregates, tid: TypeId, text: string, next: TypeId) {
    exists p :: StepAt(r, aggregates, tid, p, text, next)
  }

  // Places in order, all of a range.
  ghost predicate InRange(places: seq<int>, from: int, to: int) {
    && (forall k | 0 <= k < |places| :: from <= places[k] < to)
    && (forall k, l | 0 <= k < l < |places| :: places[k] < places[l])
  }

  ghost predicate StepsFrom(r: Registry, aggregates: Aggregates, tid: TypeId, edges: seq<Edge>, places: seq<int>) {
    |places| == |edges|
    && forall k | 0 <= k < |places| :: StepAt(r, aggregates, tid, places[k], edges[k].text, edges[k].target)
  }

  ghost predicate AllSteps(r: Registry, aggregates: Aggregates, tid: TypeId, places: seq<int>, from: int, to: int) {
    forall p, text, next | from <= p < to && StepAt(r, aggregates, tid, p, text, next) :: p in places
  }

  // The places from which the edges come, in order, and none left out: every
  // place gives one edge if it is a step, and none if it is not.
  ghost predicate Sources(r: Registry, aggregates: Aggregates, tid: TypeId, edges: seq<Edge>, places: seq<int>,
                          from: int, to: int) {
    && InRange(places, from, to)
    && StepsFrom(r, aggregates, tid, edges, places)
    && AllSteps(r, aggregates, tid, places, from, to)
  }

  // A place that gives no edge, or one.
  lemma OneMorePlace(r: Registry, aggregates: Aggregates, tid: TypeId, edges: seq<Edge>, places: seq<int>,
                     from: int, p: int, more: seq<Edge>)
    returns (longer: seq<int>)
    requires Sources(r, aggregates, tid, edges, places, from, p) && from <= p && |more| <= 1
    requires more != [] ==> StepAt(r, aggregates, tid, p, more[0].text, more[0].target)
    requires more == [] ==> forall text, next :: !StepAt(r, aggregates, tid, p, text, next)
    ensures Sources(r, aggregates, tid, edges + more, longer, from, p + 1)
  {
    longer := if more == [] then places else places + [p];
    if more == [] {
      assert edges + more == edges;
    }
    forall q, text, next | from <= q < p + 1 && StepAt(r, aggregates, tid, q, text, next)
      ensures q in longer
    {
      if q < p {
        assert q in places;
      } else {
        assert longer[|places|] == p;
      }
    }
  }

  lemma {:induction false} AttributeSources(r: Registry, aggregates: Aggregates, tid: TypeId, n: nat)
    returns (places: seq<int>)
    requires n <= |r.attributes(tid)|
    ensures Sources(r, aggregates, tid, AttributeEdges(r, r.attributes(tid)[..n]), places, 0, n)
  {
    if n == 0 {
      places := [];
    } else {
      var shorter := AttributeSources(r, aggregates, tid, n - 1);
      var attributes := r.attributes(tid);
      assert attributes[..n][..n - 1] == attributes[..n - 1];
      var more := AttributeEdge(r, attributes[n - 1]);
      AttributeStep(r, aggregates, tid, n - 1);
      places := OneMorePlace(r, aggregates, tid, AttributeEdges(r, attributes[..n - 1]), shorter, 0, n - 1, more);
    }
  }

  lemma AttributeStep(r: Registry, aggregates: Aggregates, tid: TypeId, p: nat)
    requires p < |r.attributes(tid)|
    ensures var more := AttributeEdge(r, r.attributes(tid)[p]);
            && |more| <= 1
            && (more != [] ==> StepAt(r, aggregates, tid, p, more[0].text, more[0].target))
            && (more == [] ==> forall text, next :: !StepAt(r, aggregates, tid, p, text, next))
  {
  }

  lemma {:induction false} ChildSources(r: Registry, aggregates: Aggregates, tid: TypeId, n: nat)
    returns (places: seq<int>)
    requires n <= |r.registered|
    ensures var a := |r.attributes(tid)|;
            Sources(r, aggregates, tid, ChildEdges(r, tid, r.registered[..n]), places, a, a + n)
  {
    if n == 0 {
      places := [];
    } else {
      var a := |r.attributes(tid)|;
      var shorter := ChildSources(r, aggregates, tid, n - 1);
      assert r.registered[..n][..n - 1] == r.registered[..n - 1];
      var more := ChildEdge(r, tid, r.registered[n - 1]);
      var edges := ChildEdges(r, tid, r.registered[..n - 1]);
      places := OneMorePlace(r, aggregates, tid, edges, shorter, a, a + n - 1, more);
    }
  }

  lemma {:induction false} AggregateSources(r: Registry, aggregates: Aggregates, tid: TypeId, n: nat)
    returns (places: seq<int>)
    requires n <= |aggregates|
    ensures var b := |r.attributes(tid)| + |r.registered|;
            Sources(r, aggregates, tid, AggregateEdges(r, tid, aggregates[..n]), places, b, b + n)
  {
    if n == 0 {
      places := [];
    } else {
      var b := |r.attributes(tid)| + |r.registered|;
      var shorter := AggregateSources(r, aggregates, tid, n - 1);
      assert aggregates[..n][..n - 1] == aggregates[..n - 1];
      var more := AggregateEdge(r, tid, aggregates[n - 1]);
      AggregateStep(r, aggregates, tid, n - 1);
      var edges := AggregateEdges(r, tid, aggregates[..n - 1]);
      places := OneMorePlace(r, aggregates, tid, edges, shorter, b, b + n - 1, more);
    }
  }

  lemma AggregateStep(r: Registry, aggregates: Aggregates, tid: TypeId, q: nat)
    requires q < |aggregates|
    ensures var more := AggregateEdge(r, tid, aggregates[q]);
            var p := |r.attributes(tid)| + |r.registered| + q;
            && |more| <= 1
            && (more != [] ==> StepAt(r, aggregates, tid, p, more[0].text, more[0].target))
            && (more == [] ==> forall text, next :: !StepAt(r, aggregates, tid, p, text, next))
  {
  }

  lemma JoinRanges(p1: seq<int>, p2: seq<int>, from: int, middle: int, to: int)
    requires from <= middle <= to && InRange(p1, from, middle) && InRange(p2, middle, to)
    ensures InRange(p1 + p2, from, to)
  {
    var all := p1 + p2;
    assert forall k | 0 <= k < |all| :: all[k] == if k < |p1| then p1[k] else p2[k - |p1|];
  }

  lemma JoinSteps(r: Registry, aggregates: Aggregates, tid: TypeId, e1: seq<Edge>, p1: seq<int>, e2: seq<Edge>,
                  p2: seq<int>)
    requires StepsFrom(r, aggregates, tid, e1, p1) && StepsFrom(r, aggregates, tid, e2, p2)
    ensures StepsFrom(r, aggregates, tid, e1 + e2, p1 + p2)
  {
    var edges, places := e1 + e2, p1 + p2;
    forall k | 0 <= k < |places|
      ensures StepAt(r, aggregates, tid, places[k], edges[k].text, edges[k].target)
    {
      if k < |p1| {
        assert places[k] == p1[k] && edges[k] == e1[k];
      } else {
        assert places[k] == p2[k - |p1|] && edges[k] == e2[k - |p1|];
      }
    }
  }

  lemma JoinSources(r: Registry, aggregates: Aggregates, tid: TypeId, e1: seq<Edge>, p1: seq<int>, e2: seq<Edge>,
                    p2: seq<int>, from: int, middle: int, to: int)
    requires from <= middle <= to
    requires Sources(r, aggregates, tid, e1, p1, from, middle) && Sources(r, aggregates, tid, e2, p2, middle, to)
    ensures Sources(r, aggregates, tid, e1 + e2, p1 + p2, from, to)
  {
    JoinRanges(p1, p2, from, middle, to);
    JoinSteps(r, aggregates, tid, e1, p1, e2, p2);
    forall p, text, next | from <= p < to && StepAt(r, aggregates, tid, p, text, next)
      ensures p in p1 + p2
    {
      if p < middle {
        assert p in p1;
      } else {
        assert p in p2;
      }
    }
  }

  // The search tries the steps of a type in this order, each once: attributes,
  // then children, then aggregates, as they are registered.
  lemma OutEdgesAreSteps(r: Registry, aggregates: Aggregates, tid: TypeId) returns (places: seq<int>)
    ensures Sources(r, aggregates, tid, OutEdges(r, aggregates, tid), places, 0,
                    |r.attributes(tid)| + |r.registered| + |aggregates|)
  {
    var attributes := r.attributes(tid);
    var a := |attributes|;
    var b := a + |r.registered|;
    var p1 := AttributeSources(r, aggregates, tid, a);
    var p2 := ChildSources(r, aggregates, tid, |r.registered|);
    var p3 := AggregateSources(r, aggregates, tid, |aggregates|);
    assert attributes[..a] == attributes && r.registered[..|r.registered|] == r.registered;
    assert aggregates[..|aggregates|] == aggregates;
    var e1, e2 := AttributeEdges(r, attributes), ChildEdges(r, tid, r.registered);
    JoinSources(r, aggregates, tid, e1, p1, e2, p2, 0, a, b);
    JoinSources(r, aggregates, tid, e1 + e2, p1 + p2, AggregateEdges(r, tid, aggregates), p3, 0, b, b + |aggregates|);
    places := p1 + p2 + p3;
  }

  // What a place is a step to, apart from a type aggregated with itself.
  lemma OneStepEach(r: Registry, aggregates: Aggregates, tid: TypeId, p: int, text: string, next: TypeId, text': string,
                    next': TypeId)
    requires StepAt(r, aggregates, tid, p, text, next) && StepAt(r, aggregates, tid, p, text', next')
    ensures text == text' && next == next'
  {
  }

  lemma EdgeIffStep(r: Registry, aggregates: Aggregates, tid: TypeId, text: string, next: TypeId)
    ensures Edge(text, next) in OutEdges(r, aggregates, tid) <==> StepTo(r, aggregates, tid, text, next)
  {
    var edges := OutEdges(r, aggregates, tid);
    var places := OutEdgesAreSteps(r, aggregates, tid);
    if Edge(text, next) in edges {
      var k :| 0 <= k < |edges| && edges[k] == Edge(text, next);
      assert StepAt(r, aggregates, tid, places[k], text, next);
    }
    if p :| StepAt(r, aggregates, tid, p, text, next) {
      assert p in places;
      var k :| 0 <= k < |places| && places[k] == p;
      OneStepEach(r, aggregates, tid, p, text, next, edges[k].text, edges[k].target);
      assert edges[k] == Edge(text, next);
    }
  }

  // ------------------------------------------------------------------- trails

  // Steps one after the other: the label of each and the type it leads to.
  type Trail = seq<(string, TypeId)>

  function Reached(root: TypeId, trail: Trail): TypeId {
    if trail == [] then root else trail[|trail| - 1].1
  }

  function TrailText(trail: Trail): string {
    if trail == [] then "" else TrailText(trail[..|trail| - 1]) + "/" + trail[|trail| - 1].0
  }

  // No type is met twice, the root included.
  ghost predicate NewTypes(root: TypeId, trail: Trail) {
    && (forall i | 0 <= i < |trail| :: trail[i].1 != root)
    && (forall i, j | 0 <= i < j < |trail| :: trail[i].1 != trail[j].1)
  }

  ghost predicate AllAreSteps(r: Registry, aggregates: Aggregates, root: TypeId, trail: Trail) {
    forall i | 0 <= i < |trail| :: StepTo(r, aggregates, Reached(root, trail[..i]), trail[i].0, trail[i].1)
  }

  ghost predicate IsTrail(r: Registry, aggregates: Aggregates, root: TypeId, trail: Trail) {
    AllAreSteps(r, aggregates, root, trail) && NewTypes(root, trail)
  }

  lemma OneMoreStep(r: Registry, aggregates: Aggregates, root: TypeId, init: Trail, last: (string, TypeId))
    ensures AllAreSteps(r, aggregates, root, init + [last]) <==>
              AllAreSteps(r, aggregates, root, init) && StepTo(r, aggregates, Reached(root, init), last.0, last.1)
  {
    var trail := init + [last];
    assert trail[..|init|] == init && trail[|init|] == last;
    assert forall i | 0 <= i < |init| :: trail[..i] == init[..i] && trail[i] == init[i];
  }

  // The walk, given by the number of each step, that takes the steps of the trail.
  ghost predicate Follows(r: Registry, aggregates: Aggregates, root: TypeId, walk: seq<nat>, trail: Trail) {
    && ValidWalk(r, aggregates, root, walk) && |Visited(r, aggregates, root, walk)| == |trail| + 1
    && |WalkLabels(r, aggregates, root, walk)| == |trail|
    && Visited(r, aggregates, root, walk)[0] == root
    && forall i | 0 <= i < |trail| ::
         && Visited(r, aggregates, root, walk)[i + 1] == trail[i].1
         && WalkLabels(r, aggregates, root, walk)[i] == trail[i].0
  }

  lemma FollowsLast(r: Registry, aggregates: Aggregates, root: TypeId, walk: seq<nat>, trail: Trail)
    requires Follows(r, aggregates, root, walk, trail)
    ensures LastType(r, aggregates, root, walk) == Reached(root, trail)
  {
  }

  lemma OneStepOn(r: Registry, aggregates: Aggregates, root: TypeId, walk: seq<nat>, trail: Trail, k: nat, e: Edge)
    requires Follows(r, aggregates, root, walk, trail) && StepsOn(r, aggregates, root, walk, k, e)
    ensures Follows(r, aggregates, root, walk + [k], trail + [(e.text, e.target)])
  {
  }

  // One step more, on the trail and on the walk.
  lemma TrailStep(r: Registry, aggregates: Aggregates, root: TypeId, walk: seq<nat>, trail: Trail, text: string,
                  next: TypeId) returns (k: nat)
    requires Follows(r, aggregates, root, walk, trail)
    requires StepTo(r, aggregates, Reached(root, trail), text, next)
    ensures Follows(r, aggregates, root, walk + [k], trail + [(text, next)])
  {
    FollowsLast(r, aggregates, root, walk, trail);
    EdgeIffStep(r, aggregates, Reached(root, trail), text, next);
    var edges := OutEdges(r, aggregates, Reached(root, trail));
    k :| 0 <= k < |edges| && edges[k] == Edge(text, next);
    OneStepMore(r, aggregates, root, walk, k);
    OneStepOn(r, aggregates, root, walk, trail, k, edges[k]);
  }

  lemma {:induction false} TrailIsWalk(r: Registry, aggregates: Aggregates, root: TypeId, trail: Trail)
    returns (walk: seq<nat>)
    requires AllAreSteps(r, aggregates, root, trail)
    ensures Follows(r, aggregates, root, walk, trail)
    decreases |trail|
  {
    if trail == [] {
      walk := [];
    } else {
      var init, last := trail[..|trail| - 1], trail[|trail| - 1];
      assert trail == init + [last];
      OneMoreStep(r, aggregates, root, init, last);
      var shorter := TrailIsWalk(r, aggregates, root, init);
      var k := TrailStep(r, aggregates, root, shorter, init, last.0, last.1);
      walk := shorter + [k];
      assert (last.0, last.1) == last;
    }
  }

  lemma ValidPrefix(r: Registry, aggregates: Aggregates, tid: TypeId, walk: seq<nat>)
    requires ValidWalk(r, aggregates, tid, walk) && walk != []
    ensures ValidWalk(r, aggregates, tid, walk[..|walk| - 1])
    ensures walk[|walk| - 1] < |OutEdges(r, aggregates, LastType(r, aggregates, tid, walk[..|walk| - 1]))|
    decreases |walk|
  {
    if |walk| > 1 {
      var next := OutEdges(r, aggregates, tid)[walk[0]].target;
      ValidPrefix(r, aggregates, next, walk[1..]);
      assert walk[1..][..|walk| - 2] == walk[..|walk| - 1][1..];
    }
  }

  lemma WalkStep(r: Registry, aggregates: Aggregates, root: TypeId, walk: seq<nat>, trail: Trail, k: nat)
    returns (last: (string, TypeId))
    requires Follows(r, aggregates, root, walk, trail)
    requires k < |OutEdges(r, aggregates, LastType(r, aggregates, root, walk))|
    ensures Follows(r, aggregates, root, walk + [k], trail + [last])
    ensures StepTo(r, aggregates, Reached(root, trail), last.0, last.1)
  {
    FollowsLast(r, aggregates, root, walk, trail);
    var e := OutEdges(r, aggregates, Reached(root, trail))[k];
    EdgeIffStep(r, aggregates, Reached(root, trail), e.text, e.target);
    OneStepMore(r, aggregates, root, walk, k);
    OneStepOn(r, aggregates, root, walk, trail, k, e);
    last := (e.text, e.target);
    assert Edge(e.text, e.target) == e;
  }

  lemma {:induction false} WalkIsTrail(r: Registry, aggregates: Aggregates, root: TypeId, walk: seq<nat>)
    returns (trail: Trail)
    requires ValidWalk(r, aggregates, root, walk)
    ensures Follows(r, aggregates, root, walk, trail) && AllAreSteps(r, aggregates, root, trail)
    decreases |walk|
  {
    if walk == [] {
      trail := [];
    } else {
      var n := |walk| - 1;
      ValidPrefix(r, aggregates, root, walk);
      var shorter := WalkIsTrail(r, aggregates, root, walk[..n]);
      var last := WalkStep(r, aggregates, root, walk[..n], shorter, walk[n]);
      OneMoreStep(r, aggregates, root, shorter, last);
      assert walk == walk[..n] + [walk[n]];
      trail := shorter + [last];
    }
  }

  lemma NewIffPath(r: Registry, aggregates: Aggregates, root: TypeId, walk: seq<nat>, trail: Trail)
    requires Follows(r, aggregates, root, walk, trail)
    ensures NewTypes(root, trail) <==> Path(r, aggregates, root, [], walk)
  {
    var visited := Visited(r, aggregates, root, walk);
    assert forall i | 0 <= i < |visited| :: visited[i] == if i == 0 then root else trail[i - 1].1;
    if NewTypes(root, trail) {
      assert Distinct(visited);
    }
    if Distinct(visited) {
      forall i, j | 0 <= i < j < |trail|
        ensures trail[i].1 != trail[j].1
      {
        assert visited[i + 1] != visited[j + 1];
      }
      forall i | 0 <= i < |trail|
        ensures trail[i].1 != root
      {
        assert visited[0] != visited[i + 1];
      }
    }
  }

  lemma {:induction false} TextOfLabels(labels: seq<string>, trail: Trail)
    requires |labels| == |trail| && forall i | 0 <= i < |trail| :: labels[i] == trail[i].0
    ensures PathText(labels) == TrailText(trail)
  {
    if labels != [] {
      var n := |labels| - 1;
      assert forall i | 0 <= i < n :: labels[..n][i] == trail[..n][i].0;
      TextOfLabels(labels[..n], trail[..n]);
    }
  }

  lemma EntryOfTrail(r: Registry, aggregates: Aggregates, root: TypeId, walk: seq<nat>, trail: Trail)
    requires Follows(r, aggregates, root, walk, trail)
    ensures EntryOf(r, aggregates, root, [], walk) == (Reached(root, trail), TrailText(trail))
  {
    var labels := WalkLabels(r, aggregates, root, walk);
    FollowsLast(r, aggregates, root, walk, trail);
    assert [] + labels == labels;
    TextOfLabels(labels, trail);
  }

  lemma EntriesOfWalks(r: Registry, aggregates: Aggregates, root: TypeId, e: Entry)
    requires Closed(r, aggregates) && root in r.universe
    ensures e in Gathered(r, aggregates, root, [], [])
       <==> exists w :: Path(r, aggregates, root, [], w) && EntryOf(r, aggregates, root, [], w) == e
  {
    GetIsReachingPaths(r, aggregates, root, e.0, e.1);
    PathsOfIs(Gathered(r, aggregates, root, [], []), e.0, e.1);
  }

  // The entries recorded from a root are exactly those of the trails from it:
  // the type reached, with a slash before the label of each step.
  lemma GatheredAreTrails(r: Registry, aggregates: Aggregates, root: TypeId, e: Entry)
    requires Closed(r, aggregates) && root in r.universe
    ensures e in Gathered(r, aggregates, root, [], [])
       <==> exists trail :: IsTrail(r, aggregates, root, trail) && e == (Reached(root, trail), TrailText(trail))
  {
    EntriesOfWalks(r, aggregates, root, e);
    if e in Gathered(r, aggregates, root, [], []) {
      var w :| Path(r, aggregates, root, [], w) && EntryOf(r, aggregates, root, [], w) == e;
      var trail := WalkIsTrail(r, aggregates, root, w);
      NewIffPath(r, aggregates, root, w, trail);
      EntryOfTrail(r, aggregates, root, w, trail);
      assert IsTrail(r, aggregates, root, trail);
    }
    if trail :| IsTrail(r, aggregates, root, trail) && e == (Reached(root, trail), TrailText(trail)) {
      var w := TrailIsWalk(r, aggregates, root, trail);
      NewIffPath(r, aggregates, root, w, trail);
      EntryOfTrail(r, aggregates, root, w, trail);
    }
  }

  // One step further: whatever leaves the type a trail reaches, to a type that is
  // not on it, is recorded under the text of the trail and the label.
  lemma StepsAreRecorded(r: Registry, aggregates: Aggregates, root: TypeId, trail: Trail, text: string, next: TypeId)
    requires Closed(r, aggregates) && root in r.universe && IsTrail(r, aggregates, root, trail)
    requires StepTo(r, aggregates, Reached(root, trail), text, next)
    requires next != root && forall i | 0 <= i < |trail| :: trail[i].1 != next
    ensures (next, TrailText(trail) + "/" + text) in Gathered(r, aggregates, root, [], [])
  {
    var longer := trail + [(text, next)];
    OneMoreStep(r, aggregates, root, trail, (text, next));
    OneMoreText(root, trail, (text, next));
    OneMoreNew(root, trail, (text, next));
    assert IsTrail(r, aggregates, root, longer);
    GatheredAreTrails(r, aggregates, root, (next, TrailText(longer)));
  }

  lemma OneMoreText(root: TypeId, trail: Trail, last: (string, TypeId))
    ensures TrailText(trail + [last]) == TrailText(trail) + "/" + last.0
    ensures Reached(root, trail + [last]) == last.1
  {
    assert (trail + [last])[..|trail|] == trail;
  }

  lemma OneMoreNew(root: TypeId, trail: Trail, last: (string, TypeId))
    requires NewTypes(root, trail) && last.1 != root && forall i | 0 <= i < |trail| :: trail[i].1 != last.1
    ensures NewTypes(root, trail + [last])
  {
    var longer := trail + [last];
    assert forall i | 0 <= i < |longer| :: longer[i] == if i < |trail| then trail[i] else last;
  }
}
