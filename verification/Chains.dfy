/** How far a node is from the nodes without parents, measured by the chains of
    edges that end in it, and which nodes no dependency sort can ever reach. */
module Chains {
  import opened Lists
  import opened Graphs

  // The edges of g stay inside `nodes`.
  ghost predicate GraphOn(g: Children, nodes: set<Item>) {
    g.Keys <= nodes && forall p, c | Edge(g, p, c) :: c in nodes
  }

  // Some chain of k edges ends in x.
  ghost predicate ChainTo(g: Children, k: nat, x: Item) {
    exists w :: Walk(g, w) && |w| == k + 1 && w[k] == x
  }

  // The longest chain that ends in x has exactly k edges.
  ghost predicate LongestChain(g: Children, k: nat, x: Item) {
    ChainTo(g, k, x) && forall j: nat | j > k :: !ChainTo(g, j, x)
  }

  lemma ChainToSelf(g: Children, x: Item)
    ensures ChainTo(g, 0, x)
  {
    assert Walk(g, [x]);
  }

  lemma ChainExtend(g: Children, k: nat, p: Item, x: Item)
    requires ChainTo(g, k, p) && Edge(g, p, x)
    ensures ChainTo(g, k + 1, x)
  {
    var w :| Walk(g, w) && |w| == k + 1 && w[k] == p;
    assert Walk(g, w + [x]);
  }

  lemma ChainParent(g: Children, k: nat, x: Item) returns (p: Item)
    requires ChainTo(g, k + 1, x)
    ensures ChainTo(g, k, p) && Edge(g, p, x)
  {
    var w :| Walk(g, w) && |w| == k + 2 && w[k + 1] == x;
    p := w[k];
    assert Edge(g, w[k], w[k + 1]);
    assert Walk(g, w[..k + 1]);
  }

  lemma ChainSuffix(g: Children, k: nat, j: nat, x: Item)
    requires ChainTo(g, k, x) && j <= k
    ensures ChainTo(g, j, x)
  {
    var w :| Walk(g, w) && |w| == k + 1 && w[k] == x;
    var s := w[k - j..];
    forall i | 0 <= i < |s| - 1
      ensures Edge(g, s[i], s[i + 1])
    {
      assert s[i] == w[k - j + i];
    }
  }

  lemma LongestChainIs(g: Children, k: nat, x: Item)
    ensures LongestChain(g, k, x) <==> ChainTo(g, k, x) && !ChainTo(g, k + 1, x)
  {
    if ChainTo(g, k, x) && !ChainTo(g, k + 1, x) {
      forall j: nat | j > k
        ensures !ChainTo(g, j, x)
      {
        if ChainTo(g, j, x) {
          ChainSuffix(g, j, k + 1, x);
        }
      }
    }
  }

  // ------------------------------------------------- long chains and cycles

  lemma ChainInside(g: Children, nodes: set<Item>, w: seq<Item>)
    requires GraphOn(g, nodes) && Walk(g, w) && |w| > 1
    ensures forall x | x in w :: x in nodes
  {
    forall i | 0 <= i < |w|
      ensures w[i] in nodes
    {
      assert if i == 0 then Edge(g, w[0], w[1]) else Edge(g, w[i - 1], w[i]);
    }
  }

  // A chain with as many edges as there are nodes passes through a cycle.
  lemma LongChainMeansCycle(g: Children, nodes: set<Item>, k: nat, x: Item)
    requires GraphOn(g, nodes) && k >= |nodes| && x in nodes && ChainTo(g, k, x)
    ensures DownstreamOfCycle(g, x)
  {
    var w :| Walk(g, w) && |w| == k + 1 && w[k] == x;
    assert nodes != {};
    ChainInside(g, nodes, w);
    var i, j := Pigeonhole(w, nodes);
    assert Edge(g, w[j - 1], w[j]);
    var c := ClosedWalkHasCycle(g, w[i..j]);
    ReachAlong(g, w, j - 1, k);
    ReachTransitive(g, c[0], w[j - 1], x);
  }

  lemma {:induction false} CycleHasLongChains(g: Children, c: seq<Item>, k: nat, i: nat)
    requires ClosedWalk(g, c) && i < |c|
    ensures ChainTo(g, k, c[i])
    decreases k
  {
    if k == 0 {
      ChainToSelf(g, c[i]);
    } else {
      var p := if i == 0 then |c| - 1 else i - 1;
      CycleHasLongChains(g, c, k - 1, p);
      ChainExtend(g, k - 1, c[p], c[i]);
    }
  }

  lemma {:induction false} ChainAlong(g: Children, w: seq<Item>, k: nat)
    requires Walk(g, w) && ChainTo(g, k, w[0])
    ensures ChainTo(g, k + |w| - 1, w[|w| - 1])
    decreases |w|
  {
    if |w| > 1 {
      var init := w[..|w| - 1];
      ChainAlong(g, init, k);
      assert Edge(g, w[|w| - 2], w[|w| - 1]);
      ChainExtend(g, k + |w| - 2, w[|w| - 2], w[|w| - 1]);
    }
  }

  lemma DownstreamHasLongChains(g: Children, k: nat, x: Item)
    requires DownstreamOfCycle(g, x)
    ensures ChainTo(g, k, x)
  {
    var c, w :| ElementaryCycle(g, c) && WalkBetween(g, w, c[0], x);
    CycleHasLongChains(g, c, k, 0);
    ChainAlong(g, w, k);
    ChainSuffix(g, k + |w| - 1, k, x);
  }

  lemma DownstreamIsNode(g: Children, nodes: set<Item>, x: Item)
    requires GraphOn(g, nodes) && DownstreamOfCycle(g, x)
    ensures x in nodes
  {
    DownstreamHasLongChains(g, 1, x);
    var p := ChainParent(g, 0, x);
  }

  function Successors(g: Children, s: set<Item>): set<Item> {
    set p, x | p in s && p in g && x in g[p] :: x
  }

  // A set whose nodes each have a parent in the set, outside of which chains are
  // short, is exactly what lies downstream of the cycles.
  lemma StuckIsDownstream(g: Children, nodes: set<Item>, left: set<Item>, bound: nat)
    requires GraphOn(g, nodes) && left <= nodes
    requires left <= Successors(g, left)
    requires forall x | x in nodes - left :: !ChainTo(g, bound, x)
    ensures forall x :: x in left <==> DownstreamOfCycle(g, x)
  {
    forall x
      ensures x in left <==> DownstreamOfCycle(g, x)
    {
      if x in left {
        ChainsInside(g, left, |nodes|, x);
        LongChainMeansCycle(g, nodes, |nodes|, x);
      } else if DownstreamOfCycle(g, x) {
        DownstreamIsNode(g, nodes, x);
        DownstreamHasLongChains(g, bound, x);
      }
    }
  }

  lemma {:induction false} ChainsInside(g: Children, left: set<Item>, k: nat, x: Item)
    requires left <= Successors(g, left)
    requires x in left
    ensures ChainTo(g, k, x)
    decreases k
  {
    if k == 0 {
      ChainToSelf(g, x);
    } else {
      var p :| p in left && Edge(g, p, x);
      ChainsInside(g, left, k - 1, p);
      ChainExtend(g, k - 1, p, x);
    }
  }

  lemma CyclicIffSomethingDownstream(g: Children)
    ensures Cyclic(g) <==> exists x :: DownstreamOfCycle(g, x)
  {
    CyclicMeansElementaryCycle(g);
    if Cyclic(g) {
      var c :| ElementaryCycle(g, c);
      assert WalkBetween(g, [c[0]], c[0], c[0]);
      assert DownstreamOfCycle(g, c[0]);
    }
  }
}
