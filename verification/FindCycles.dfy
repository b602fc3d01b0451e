/** `find_cycles` of topsort.py: a stack of partial paths is expanded until it is
    empty; a child already on the path closes a cycle. */
module FindCycles {
  import opened Lists
  import opened Graphs
  import opened Rotation

  // A path under construction: it starts at the chosen node and repeats none.
  ghost predicate PathFrom(g: Children, start: Item, p: seq<Item>) {
    Walk(g, p) && p[0] == start && Distinct(p)
  }

  // Python's path.index(child).
  function IndexOf(p: seq<Item>, x: Item): (i: nat)
    requires x in p
    ensures i < |p| && p[i] == x && x !in p[..i]
  {
    if p[0] == x then 0 else
      assert x in p[1..];
      var i := IndexOf(p[1..], x);
      assert p[..i + 1] == [p[0]] + p[1..][..i];
      i + 1
  }

  ghost predicate Found(cycles: seq<seq<Item>>, c: seq<Item>) {
    exists i | 0 <= i < |cycles| :: IsRotation(cycles[i], c)
  }

  // Every list is an elementary cycle and no two are rotations of each other.
  ghost predicate Listing(g: Children, cycles: seq<seq<Item>>) {
    && (forall i | 0 <= i < |cycles| :: ElementaryCycle(g, cycles[i]))
    && (forall i, j | 0 <= i < j < |cycles| :: !IsRotation(cycles[i], cycles[j]))
  }

  // Every elementary cycle is listed.
  ghost predicate Complete(g: Children, cycles: seq<seq<Item>>) {
    forall c | ElementaryCycle(g, c) :: Found(cycles, c)
  }

  // Every cycle that can be reached from `start` is listed.
  ghost predicate Covers(g: Children, start: Item, cycles: seq<seq<Item>>) {
    forall c | ElementaryCycle(g, c) && Reach(g, start, c[0]) :: Found(cycles, c)
  }

  // The cycle that `child` closes on path p is listed.
  ghost predicate Closed(p: seq<Item>, child: Item, cycles: seq<seq<Item>>) {
    child in p ==> Found(cycles, p[IndexOf(p, child)..])
  }

  // Everything the last node of p closes is listed.
  ghost predicate Explored(g: Children, p: seq<Item>, cycles: seq<seq<Item>>)
    requires p != []
  {
    forall child | Edge(g, p[|p| - 1], child) :: Closed(p, child, cycles)
  }

  ghost predicate OnStack(paths: seq<seq<Item>>, q: seq<Item>) {
    exists i | 0 <= i < |paths| :: paths[i] <= q
  }

  // Each path from `start` is explored or has a prefix on the stack.
  ghost predicate Pending(g: Children, start: Item, paths: seq<seq<Item>>, cycles: seq<seq<Item>>) {
    forall q | PathFrom(g, start, q) :: Explored(g, q, cycles) || OnStack(paths, q)
  }

  // ------------------------------------------------- termination of the stack

  // k * w, by addition.
  function Times(k: nat, w: nat): nat {
    if k == 0 then 0 else Times(k - 1, w) + w
  }

  function Pow(b: nat, e: nat): nat {
    if e == 0 then 1 else Times(b, Pow(b, e - 1))
  }

  lemma {:induction false} PowPositive(b: nat, e: nat)
    requires b > 0
    ensures Pow(b, e) > 0
  {
    if e > 0 {
      PowPositive(b, e - 1);
    }
  }

  function PathWeight(length: nat, n: nat, d: nat): nat {
    Pow(d + 1, if length <= n then n - length else 0)
  }

  // The sum of (d + 1) ^ (n - length) over the stacked paths.
  function Weight(paths: seq<seq<Item>>, n: nat, d: nat): nat {
    if paths == [] then 0
    else Weight(paths[..|paths| - 1], n, d) + PathWeight(|paths[|paths| - 1]|, n, d)
  }

  lemma WeightPush(paths: seq<seq<Item>>, p: seq<Item>, n: nat, d: nat)
    ensures Weight(paths + [p], n, d) == Weight(paths, n, d) + PathWeight(|p|, n, d)
  {
    assert (paths + [p])[..|paths|] == paths;
  }

  // The paths pushed for the children of a path's last node.
  function Extensions(path: seq<Item>, children: seq<Item>): seq<seq<Item>> {
    if children == [] then []
    else
      var child := children[|children| - 1];
      Extensions(path, children[..|children| - 1]) + if child in path then [] else [path + [child]]
  }

  function Nodes(g: Children): set<Item> {
    g.Keys + set p, x | p in g && x in g[p] :: x
  }

  ghost predicate FanWithin(g: Children, d: nat) {
    forall p | p in g :: |g[p]| <= d
  }

  lemma {:induction false} SomeFan(g: Children) returns (d: nat)
    ensures FanWithin(g, d)
    decreases |g|
  {
    if g.Keys == {} {
      d := 0;
    } else {
      var p :| p in g;
      assert (g - {p}).Keys == g.Keys - {p};
      var d' := SomeFan(g - {p});
      assert forall q | q in g && q != p :: q in g - {p};
      d := if |g[p]| > d' then |g[p]| else d';
    }
  }

  lemma {:induction false} ExtensionsWeight(path: seq<Item>, children: seq<Item>, paths: seq<seq<Item>>, n: nat, d: nat)
    ensures Weight(paths + Extensions(path, children), n, d)
         <= Weight(paths, n, d) + Times(|children|, PathWeight(|path| + 1, n, d))
  {
    if children == [] {
      assert paths + Extensions(path, children) == paths;
    } else {
      var init, child := children[..|children| - 1], children[|children| - 1];
      ExtensionsWeight(path, init, paths, n, d);
      var before := paths + Extensions(path, init);
      if child in path {
        assert paths + Extensions(path, children) == before;
      } else {
        WeightPush(before, path + [child], n, d);
        assert paths + Extensions(path, children) == before + [path + [child]];
      }
    }
  }

  lemma {:induction false} FewerIsLighter(k: nat, d: nat, w: nat)
    requires k <= d
    ensures Times(k, w) <= Times(d, w)
    decreases d
  {
    if k < d {
      FewerIsLighter(k, d - 1, w);
    }
  }

  // At most d paths of the next length weigh less than one of this length.
  lemma ChildrenLighter(length: nat, n: nat, d: nat, k: nat)
    requires length < n && k <= d
    ensures Times(k, PathWeight(length + 1, n, d)) < PathWeight(length, n, d)
  {
    PowPositive(d + 1, n - length - 1);
    FewerIsLighter(k, d, PathWeight(length + 1, n, d));
  }

  // Replacing a popped path by its extensions makes the stack lighter.
  lemma PopPushIsLighter(g: Children, path: seq<Item>, paths: seq<seq<Item>>, n: nat, d: nat)
    requires path != [] && Distinct(path) && FanWithin(g, d) && n == |Nodes(g)|
    requires forall x | x in path :: x in Nodes(g)
    ensures Weight(paths, n, d) < Weight(paths + [path], n, d)
    ensures Weight(paths + Pushed(g, path), n, d) < Weight(paths + [path], n, d)
  {
    DistinctBounded(path, Nodes(g));
    WeightPush(paths, path, n, d);
    PowPositive(d + 1, n - |path|);
    var last := path[|path| - 1];
    if last in g && |path| < n {
      ExtensionsWeight(path, g[last], paths, n, d);
      ChildrenLighter(|path|, n, d, |g[last]|);
    } else {
      if last in g {
        assert forall x | x in g[last] :: x in Nodes(g);
        FullPathHasNoExtension(path, g[last]);
      }
      assert paths + Pushed(g, path) == paths;
    }
  }

  lemma {:induction false} FullPathHasNoExtension(path: seq<Item>, children: seq<Item>)
    requires forall x | x in children :: x in path
    ensures Extensions(path, children) == []
  {
    if children != [] {
      FullPathHasNoExtension(path, children[..|children| - 1]);
    }
  }

  // ------------------------------------------------------- nothing is missed

  ghost predicate OneLonger(path: seq<Item>, p: seq<Item>) {
    |p| == |path| + 1 && p[..|path|] == path && p[|path|] !in path
  }

  lemma {:induction false} ExtensionIs(path: seq<Item>, children: seq<Item>, p: seq<Item>)
    ensures p in Extensions(path, children) <==> OneLonger(path, p) && p[|path|] in children
  {
    if children != [] {
      var init, child := children[..|children| - 1], children[|children| - 1];
      ExtensionIs(path, init, p);
      assert children == init + [child];
      if OneLonger(path, p) {
        assert p == path + [p[|path|]];
      }
    }
  }

  // What is pushed after a path was popped.
  function Pushed(g: Children, path: seq<Item>): seq<seq<Item>>
    requires path != []
  {
    var last := path[|path| - 1];
    if last in g then Extensions(path, g[last]) else []
  }

  // The next node of a longer path gives a pushed path.
  lemma NextIsPushed(g: Children, path: seq<Item>, q: seq<Item>)
    requires path != [] && path <= q && path != q && Walk(g, q) && Distinct(q)
    ensures q[..|path| + 1] in Pushed(g, path)
  {
    var k := |path|;
    assert Edge(g, q[k - 1], q[k]);
    assert q[..k + 1][..k] == path;
    ExtensionIs(path, g[path[k - 1]], q[..k + 1]);
  }

  lemma OnStackMore(paths: seq<seq<Item>>, pushed: seq<seq<Item>>, p: seq<Item>, q: seq<Item>)
    requires p in paths + pushed && p <= q
    ensures OnStack(paths + pushed, q)
  {
    var i :| 0 <= i < |paths + pushed| && (paths + pushed)[i] == p;
  }

  // A stacked path that is not explored yet still has its next step stacked.
  lemma PrefixStaysStacked(g: Children, paths: seq<seq<Item>>, path: seq<Item>, q: seq<Item>)
    requires Walk(g, q) && Distinct(q) && OnStack(paths + [path], q) && path != [] && q != path
    ensures OnStack(paths + Pushed(g, path), q)
  {
    var i :| 0 <= i < |paths + [path]| && (paths + [path])[i] <= q;
    if i < |paths| {
      OnStackMore(paths, Pushed(g, path), paths[i], q);
    } else {
      NextIsPushed(g, path, q);
      OnStackMore(paths, Pushed(g, path), q[..|path| + 1], q);
    }
  }

  // Popping a path and pushing its extensions leaves every path accounted for.
  lemma PendingStep(g: Children, start: Item, paths: seq<seq<Item>>, path: seq<Item>, cycles: seq<seq<Item>>,
                    cycles': seq<seq<Item>>)
    requires Pending(g, start, paths + [path], cycles) && cycles <= cycles' && path != []
    requires Explored(g, path, cycles')
    ensures Pending(g, start, paths + Pushed(g, path), cycles')
  {
    forall q | PathFrom(g, start, q)
      ensures Explored(g, q, cycles') || OnStack(paths + Pushed(g, path), q)
    {
      if Explored(g, q, cycles) {
        StaysExplored(g, q, cycles, cycles');
      } else if q != path {
        PrefixStaysStacked(g, paths, path, q);
      }
    }
  }

  lemma StaysClosed(p: seq<Item>, child: Item, cycles: seq<seq<Item>>, cycles': seq<seq<Item>>)
    requires Closed(p, child, cycles) && cycles <= cycles'
    ensures Closed(p, child, cycles')
  {
    if child in p {
      var c := p[IndexOf(p, child)..];
      var i :| 0 <= i < |cycles| && IsRotation(cycles[i], c);
      assert IsRotation(cycles'[i], c);
    }
  }

  lemma StaysExplored(g: Children, q: seq<Item>, cycles: seq<seq<Item>>, cycles': seq<seq<Item>>)
    requires q != [] && Explored(g, q, cycles) && cycles <= cycles'
    ensures Explored(g, q, cycles')
  {
    forall child | Edge(g, q[|q| - 1], child)
      ensures Closed(q, child, cycles')
    {
      StaysClosed(q, child, cycles, cycles');
    }
  }

  lemma RotatedCycle(g: Children, c: seq<Item>, m: nat)
    requires ElementaryCycle(g, c) && m < |c|
    ensures ElementaryCycle(g, Rotate(c, m))
  {
    var r := Rotate(c, m);
    forall i | 0 <= i < |r| - 1
      ensures Edge(g, r[i], r[i + 1])
    {
      var k := if m + i < |c| then m + i else m + i - |c|;
      assert r[i] == c[k];
    }
  }

  lemma DistinctJoin(p: seq<Item>, r: seq<Item>)
    requires Distinct(p) && Distinct(r) && p != [] && r != [] && p[|p| - 1] == r[0]
    requires forall k | 0 <= k < |p| - 1 :: p[k] !in r
    ensures Distinct(p + r[1..])
    ensures (p + r[1..])[|p| - 1..] == r
  {
    var q := p + r[1..];
    assert q == p[..|p| - 1] + r;
  }

  // The path that leads to cycle c and then once around it.
  lemma PathAround(g: Children, start: Item, c: seq<Item>) returns (q: seq<Item>, k: nat)
    requires ElementaryCycle(g, c) && Reach(g, start, c[0])
    ensures PathFrom(g, start, q) && k < |q|
    ensures ElementaryCycle(g, q[k..]) && IsRotation(q[k..], c)
  {
    var w :| WalkBetween(g, w, start, c[0]);
    assert w[|w| - 1] in Elements(c);
    var hit := FirstHit(w, Elements(c));
    var p := Shortcut(g, w[..hit + 1], Elements(c));
    var m :| 0 <= m < |c| && c[m] == w[hit];
    var r := Rotate(c, m);
    RotatedCycle(g, c, m);
    assert IsRotation(c, r);
    RotationSymmetric(c, r);
    assert forall x | x in r :: x in Elements(c);
    JoinWalks(g, p, r, start, w[hit], r[|r| - 1]);
    DistinctJoin(p, r);
    q, k := p + r[1..], |p| - 1;
  }

  lemma {:induction false} FirstHit(w: seq<Item>, s: set<Item>) returns (hit: nat)
    requires exists i | 0 <= i < |w| :: w[i] in s
    ensures hit < |w| && w[hit] in s
    ensures forall k | 0 <= k < hit :: w[k] !in s
  {
    if w[0] in s {
      hit := 0;
    } else {
      var h := FirstHit(w[1..], s);
      hit := h + 1;
    }
  }

  // Once every path from `start` is explored, every cycle in reach is listed.
  lemma AllExploredCovers(g: Children, start: Item, cycles: seq<seq<Item>>)
    requires Pending(g, start, [], cycles)
    ensures Covers(g, start, cycles)
  {
    forall c | ElementaryCycle(g, c) && Reach(g, start, c[0])
      ensures Found(cycles, c)
    {
      var q, k := PathAround(g, start, c);
      var child := q[k];
      assert Explored(g, q, cycles);
      assert Edge(g, q[|q| - 1], child);
      assert Closed(q, child, cycles);
      assert IndexOf(q, child) == k;
      var i :| 0 <= i < |cycles| && IsRotation(cycles[i], q[k..]);
      RotationTransitive(cycles[i], q[k..], c);
    }
  }

  lemma CoversMore(g: Children, start: Item, cycles: seq<seq<Item>>, cycles': seq<seq<Item>>)
    requires Covers(g, start, cycles) && cycles <= cycles'
    ensures Covers(g, start, cycles')
  {
    forall c | ElementaryCycle(g, c) && Reach(g, start, c[0])
      ensures Found(cycles', c)
    {
      var i :| 0 <= i < |cycles| && IsRotation(cycles[i], c);
      assert IsRotation(cycles'[i], c);
    }
  }

  // A node reached from a covered one is covered: skipping it loses nothing.
  lemma CoversDownstream(g: Children, start: Item, v: Item, cycles: seq<seq<Item>>)
    requires Covers(g, start, cycles) && Reach(g, start, v)
    ensures Covers(g, v, cycles)
  {
    forall c | ElementaryCycle(g, c) && Reach(g, v, c[0])
      ensures Found(cycles, c)
    {
      ReachTransitive(g, start, v, c[0]);
    }
  }

  // ------------------------------------------------------------ the algorithm

  method IsDuplicate(g: Children, cycles: seq<seq<Item>>, cycle: seq<Item>) returns (isDup: bool)
    requires Listing(g, cycles) && cycle != []
    ensures isDup <==> Found(cycles, cycle)
  {
    isDup := false;
    for i := 0 to |cycles|
      invariant forall k | 0 <= k < i :: !IsRotation(cycles[k], cycle)
    {
      var answer := IsRotated(cycles[i], cycle);
      if answer.value {
        return true;
      }
    }
  }

  lemma SuffixIsCycle(g: Children, path: seq<Item>, i: nat)
    requires Walk(g, path) && Distinct(path) && i < |path|
    requires Edge(g, path[|path| - 1], path[i])
    ensures ElementaryCycle(g, path[i..])
  {
  }

  lemma ListingGrows(g: Children, cycles: seq<seq<Item>>, cycle: seq<Item>)
    requires Listing(g, cycles) && ElementaryCycle(g, cycle) && !Found(cycles, cycle)
    ensures Listing(g, cycles + [cycle])
  {
    var longer := cycles + [cycle];
    forall i, j | 0 <= i < j < |longer|
      ensures !IsRotation(longer[i], longer[j])
    {
      assert longer[i] == cycles[i];
    }
  }

  // `child` is on the path: list the cycle it closes unless it is a duplicate.
  method RecordCycle(g: Children, path: seq<Item>, child: Item, cyclesBefore: seq<seq<Item>>)
    returns (cycles: seq<seq<Item>>)
    requires Listing(g, cyclesBefore) && Walk(g, path) && Distinct(path)
    requires child in path && Edge(g, path[|path| - 1], child)
    ensures Listing(g, cycles) && cyclesBefore <= cycles
    ensures Closed(path, child, cycles)
  {
    var cycle := path[IndexOf(path, child)..];
    SuffixIsCycle(g, path, IndexOf(path, child));
    var isDup := IsDuplicate(g, cyclesBefore, cycle);
    cycles := cyclesBefore;
    if !isDup {
      cycles := cycles + [cycle];
      assert cycle == Rotate(cycle, 0) && cycles[|cyclesBefore|] == cycle;
      ListingGrows(g, cyclesBefore, cycle);
    }
  }

  ghost predicate ClosedAll(path: seq<Item>, children: seq<Item>, cycles: seq<seq<Item>>) {
    forall k | 0 <= k < |children| :: Closed(path, children[k], cycles)
  }

  lemma StaysClosedAll(path: seq<Item>, children: seq<Item>, cycles: seq<seq<Item>>, cycles': seq<seq<Item>>)
    requires ClosedAll(path, children, cycles) && cycles <= cycles'
    ensures ClosedAll(path, children, cycles')
  {
    forall k | 0 <= k < |children|
      ensures Closed(path, children[k], cycles')
    {
      StaysClosed(path, children[k], cycles, cycles');
    }
  }

  // The children loop, for a popped path whose last node is a key.
  method Expand(g: Children, path: seq<Item>, children: seq<Item>,
                cyclesBefore: seq<seq<Item>>, pathsBefore: seq<seq<Item>>, visitedBefore: set<Item>)
    returns (cycles: seq<seq<Item>>, paths: seq<seq<Item>>, visited: set<Item>)
    requires Listing(g, cyclesBefore) && Walk(g, path) && Distinct(path)
    requires path[|path| - 1] in g && children == g[path[|path| - 1]]
    ensures Listing(g, cycles) && cyclesBefore <= cycles
    ensures ClosedAll(path, children, cycles)
    ensures paths == pathsBefore + Extensions(path, children)
    ensures forall v :: v in visited <==> v in visitedBefore || (v in children && v !in path)
  {
    cycles, paths, visited := cyclesBefore, pathsBefore, visitedBefore;
    for j := 0 to |children|
      invariant Listing(g, cycles) && cyclesBefore <= cycles
      invariant ClosedAll(path, children[..j], cycles)
      invariant paths == pathsBefore + Extensions(path, children[..j])
      invariant forall v :: v in visited <==> v in visitedBefore || (v in children[..j] && v !in path)
    {
      var child := children[j];
      assert children[..j + 1] == children[..j] + [child];
      if child in path {
        ghost var cyclesSoFar := cycles;
        cycles := RecordCycle(g, path, child, cycles);
        StaysClosedAll(path, children[..j], cyclesSoFar, cycles);
      } else {
        paths := paths + [path + [child]];
        visited := visited + {child};
      }
    }
    assert children[..|children|] == children;
  }

  ghost predicate StackFrom(g: Children, start: Item, paths: seq<seq<Item>>) {
    forall p | p in paths :: PathFrom(g, start, p) && forall x | x in p :: x in Nodes(g)
  }

  lemma ExtendPath(g: Children, start: Item, path: seq<Item>, longer: seq<Item>)
    requires PathFrom(g, start, path) && forall x | x in path :: x in Nodes(g)
    requires OneLonger(path, longer) && Edge(g, path[|path| - 1], longer[|path|])
    ensures PathFrom(g, start, longer) && forall x | x in longer :: x in Nodes(g)
  {
    assert longer == path + [longer[|path|]];
  }

  lemma StackFromStep(g: Children, start: Item, paths: seq<seq<Item>>, path: seq<Item>)
    requires StackFrom(g, start, paths + [path])
    ensures PathFrom(g, start, path)
    ensures StackFrom(g, start, paths) && StackFrom(g, start, paths + Pushed(g, path))
  {
    assert path in paths + [path];
    forall p | p in paths
      ensures PathFrom(g, start, p) && forall x | x in p :: x in Nodes(g)
    {
      assert p in paths + [path];
    }
    var last := path[|path| - 1];
    forall p | p in Pushed(g, path)
      ensures PathFrom(g, start, p) && forall x | x in p :: x in Nodes(g)
    {
      ExtensionIs(path, g[last], p);
      ExtendPath(g, start, path, p);
    }
  }

  lemma ReachedByPath(g: Children, start: Item, path: seq<Item>, v: Item)
    requires PathFrom(g, start, path) && Edge(g, path[|path| - 1], v)
    ensures Reach(g, start, v)
  {
    assert WalkBetween(g, path + [v], start, v);
  }

  // The stack loop for one start node.
  method ExploreFrom(g: Children, start: Item, cyclesBefore: seq<seq<Item>>, visitedBefore: set<Item>)
    returns (cycles: seq<seq<Item>>, visited: set<Item>)
    requires start in g && Listing(g, cyclesBefore)
    ensures Listing(g, cycles) && cyclesBefore <= cycles
    ensures Covers(g, start, cycles)
    ensures visitedBefore <= visited
    ensures forall v | v in visited - visitedBefore :: Reach(g, start, v)
  {
    cycles, visited := cyclesBefore, visitedBefore;
    ghost var n := |Nodes(g)|;
    ghost var d := SomeFan(g);
    var paths := [[start]];
    assert forall q | PathFrom(g, start, q) :: paths[0] <= q;
    while paths != []
      invariant Listing(g, cycles) && cyclesBefore <= cycles
      invariant StackFrom(g, start, paths)
      invariant Pending(g, start, paths, cycles)
      invariant visitedBefore <= visited
      invariant forall v | v in visited - visitedBefore :: Reach(g, start, v)
      decreases Weight(paths, n, d)
    {
      ghost var cyclesSoFar, visitedSoFar := cycles, visited;
      var path := paths[|paths| - 1];
      var rest := paths[..|paths| - 1];
      assert paths == rest + [path];
      StackFromStep(g, start, rest, path);
      PopPushIsLighter(g, path, rest, n, d);
      var node := path[|path| - 1];
      if node in g {
        cycles, paths, visited := Expand(g, path, g[node], cycles, rest, visited);
        forall v | v in visited - visitedSoFar
          ensures Reach(g, start, v)
        {
          ReachedByPath(g, start, path, v);
        }
      } else {
        paths := rest;
        assert paths == rest + Pushed(g, path);
      }
      PendingStep(g, start, rest, path, cyclesSoFar, cycles);
    }
    AllExploredCovers(g, start, cycles);
  }

  // The lists yielded are exactly the elementary cycles, each once up to
  // rotation, whatever the order in which the keys are taken.
  method FindCycles(g: Children) returns (cycles: seq<seq<Item>>)
    ensures Listing(g, cycles)
    ensures Complete(g, cycles)
  {
    cycles := [];
    var visitedNodes: set<Item> := {};
    var unseen := g.Keys;
    while unseen != {}
      invariant Listing(g, cycles)
      invariant unseen <= g.Keys
      invariant forall s | s in g.Keys - unseen :: Covers(g, s, cycles)
      invariant forall v | v in visitedNodes :: Covers(g, v, cycles)
      decreases unseen
    {
      var parent :| parent in unseen;
      unseen := unseen - {parent};
      if parent in visitedNodes {
        continue;
      }
      ghost var cyclesSoFar, visitedSoFar := cycles, visitedNodes;
      cycles, visitedNodes := ExploreFrom(g, parent, cycles, visitedNodes);
      forall s | Covers(g, s, cyclesSoFar)
        ensures Covers(g, s, cycles)
      {
        CoversMore(g, s, cyclesSoFar, cycles);
      }
      forall v | v in visitedNodes - visitedSoFar
        ensures Covers(g, v, cycles)
      {
        CoversDownstream(g, parent, v, cycles);
      }
    }
    forall c | ElementaryCycle(g, c)
      ensures Found(cycles, c)
    {
      assert c[0] in g by {
        assert |c| == 1 || Edge(g, c[0], c[1]);
      }
      assert WalkBetween(g, [c[0]], c[0], c[0]);
      assert Covers(g, c[0], cycles);
    }
  }

  // The listing is empty exactly when the graph has no directed cycle.
  lemma ListingEmptyIffAcyclic(g: Children, cycles: seq<seq<Item>>)
    requires Listing(g, cycles)
    requires Complete(g, cycles)
    ensures cycles == [] <==> !Cyclic(g)
  {
    CyclicMeansElementaryCycle(g);
    if cycles != [] {
      assert ElementaryCycle(g, cycles[0]);
    }
  }
}
