/** How the two sorts and the cycle finder of topsort.py agree with each other. */
module SortTheorems {
  import opened Lists
  import opened Graphs
  import opened Bookkeeping
  import opened Chains
  import opened Topsort
  import opened TopsortLevels
  import opened FindCycles

  // --------------------------------------------- the order promised for pairs

  // In a returned list, every pair's parent comes strictly before its child.
  lemma PairsInOrder(pairs: seq<Pair>, answer: seq<Item>)
    requires TopologicalOrder(Adjacency(pairs), Mentioned(pairs), answer)
    ensures forall e | e in pairs :: exists i, j | 0 <= i < j < |answer| :: answer[i] == e.0 && answer[j] == e.1
  {
    forall e | e in pairs
      ensures exists i, j | 0 <= i < j < |answer| :: answer[i] == e.0 && answer[j] == e.1
    {
      AdjacencyEdges(pairs);
      assert (e.0, e.1) in pairs && Edge(Adjacency(pairs), e.0, e.1);
      assert e.1 in Elements(answer);
      var j :| 0 <= j < |answer| && answer[j] == e.1;
      assert e.0 in answer[..j];
      var i :| 0 <= i < j && answer[i] == e.0;
    }
  }

  // ------------------------------------ the flat list is the levels in order

  ghost predicate Union(levels: seq<seq<Item>>, answer: seq<Item>) {
    forall x :: x in answer <==> exists k | 0 <= k < |levels| :: x in levels[k]
  }

  // The list cut into pieces that rearrange the levels one by one.
  ghost predicate CutInto(answer: seq<Item>, levels: seq<seq<Item>>, blocks: seq<seq<Item>>) {
    && |blocks| == |levels|
    && Flatten(blocks) == answer
    && forall k | 0 <= k < |blocks| :: Rearranges(blocks[k], levels[k])
  }

  ghost predicate Rearranges(s: seq<Item>, t: seq<Item>) {
    multiset(s) == multiset(t)
  }

  lemma CutCons(block: seq<Item>, level: seq<Item>, answer: seq<Item>, levels: seq<seq<Item>>, blocks: seq<seq<Item>>)
    requires Rearranges(block, level) && CutInto(answer, levels, blocks)
    ensures CutInto(block + answer, [level] + levels, [block] + blocks)
  {
    assert ([block] + blocks)[1..] == blocks;
  }

  lemma {:induction false} DistinctMultiset<T>(s: seq<T>, x: T)
    requires Distinct(s)
    ensures multiset(s)[x] == if x in s then 1 else 0
  {
    if s != [] {
      var init, last := s[..|s| - 1], s[|s| - 1];
      DistinctMultiset(init, x);
      assert s == init + [last];
    }
  }

  lemma SameElementsSameMultiset<T>(s: seq<T>, t: seq<T>)
    requires Distinct(s) && Distinct(t) && forall x :: x in s <==> x in t
    ensures multiset(s) == multiset(t)
  {
    forall x
      ensures multiset(s)[x] == multiset(t)[x]
    {
      DistinctMultiset(s, x);
      DistinctMultiset(t, x);
    }
  }

  // The first index at which the depth exceeds k.
  lemma {:induction false} NextCut(depth: seq<nat>, k: nat, off: nat) returns (cut: nat)
    requires off <= |depth|
    requires forall a, b | 0 <= a <= b < |depth| :: depth[a] <= depth[b]
    ensures off <= cut <= |depth|
    ensures forall b | off <= b < cut :: depth[b] <= k
    ensures forall b | cut <= b < |depth| :: depth[b] > k
    decreases |depth| - off
  {
    if off == |depth| || depth[off] > k {
      cut := off;
    } else {
      cut := NextCut(depth, k, off + 1);
    }
  }

  // Cutting at a change of depth gives a piece that rearranges one level.
  lemma LevelBlock(g: Children, nodes: set<Item>, answer: seq<Item>, depth: seq<nat>, levels: seq<seq<Item>>, k: nat,
                   off: nat, cut: nat)
    requires Levels(g, nodes, levels) && Union(levels, answer) && Distinct(answer) && Depths(g, answer, depth)
    requires k < |levels| && off <= cut <= |answer|
    requires forall b | 0 <= b < off :: depth[b] < k
    requires forall b | off <= b < cut :: depth[b] == k
    requires forall b | cut <= b < |answer| :: depth[b] > k
    ensures Rearranges(answer[off..cut], levels[k])
  {
    var block := answer[off..cut];
    forall x
      ensures x in block <==> x in levels[k]
    {
      if x in block {
        var b :| off <= b < cut && answer[b] == x;
        assert x in answer && LongestChain(g, depth[b], x);
        var j :| 0 <= j < |levels| && x in levels[j];
        assert LongestChain(g, j, x);
      }
      if x in levels[k] {
        assert x in answer;
        var b :| 0 <= b < |answer| && answer[b] == x;
        assert LongestChain(g, depth[b], x) && LongestChain(g, k, x);
        assert block[b - off] == x;
      }
    }
    SameElementsSameMultiset(block, levels[k]);
  }

  lemma {:induction false} CutFrom(g: Children, nodes: set<Item>, answer: seq<Item>, depth: seq<nat>,
                                   levels: seq<seq<Item>>, k: nat, off: nat)
    returns (blocks: seq<seq<Item>>)
    requires Levels(g, nodes, levels) && Union(levels, answer) && Distinct(answer) && Depths(g, answer, depth)
    requires k <= |levels| && off <= |answer|
    requires forall b | 0 <= b < off :: depth[b] < k
    requires forall b | off <= b < |answer| :: depth[b] >= k
    ensures CutInto(answer[off..], levels[k..], blocks)
    decreases |levels| - k
  {
    if k == |levels| {
      blocks := [];
      if off < |answer| {
        NothingDeeper(g, nodes, answer, depth, levels, off);
        assert false;
      }
    } else {
      var cut := NextCut(depth, k, off);
      LevelBlock(g, nodes, answer, depth, levels, k, off, cut);
      var rest := CutFrom(g, nodes, answer, depth, levels, k + 1, cut);
      blocks := [answer[off..cut]] + rest;
      CutCons(answer[off..cut], levels[k], answer[cut..], levels[k + 1..], rest);
      assert answer[off..] == answer[off..cut] + answer[cut..];
      assert levels[k..] == [levels[k]] + levels[k + 1..];
    }
  }

  lemma NothingDeeper(g: Children, nodes: set<Item>, answer: seq<Item>, depth: seq<nat>, levels: seq<seq<Item>>, b: nat)
    requires Levels(g, nodes, levels) && Union(levels, answer) && Depths(g, answer, depth) && b < |answer|
    ensures depth[b] < |levels|
  {
    assert answer[b] in answer;
    var j :| 0 <= j < |levels| && answer[b] in levels[j];
    assert LongestChain(g, j, answer[b]) && LongestChain(g, depth[b], answer[b]);
  }

  // The flat answer is the levels one after the other, each rearranged.
  lemma FlatIsLevels(g: Children, nodes: set<Item>, answer: seq<Item>, levels: seq<seq<Item>>)
    requires Distinct(answer) && LevelByLevel(g, answer)
    requires Levels(g, nodes, levels) && Union(levels, answer)
    ensures exists blocks :: CutInto(answer, levels, blocks)
  {
    var depth :| Depths(g, answer, depth);
    var blocks := CutFrom(g, nodes, answer, depth, levels, 0, 0);
    assert answer[0..] == answer && levels[0..] == levels;
    assert CutInto(answer, levels, blocks);
  }

  lemma UnionOfPlaced(g: Children, nodes: set<Item>, answer: seq<Item>, levels: seq<seq<Item>>, left: set<Item>)
    requires Levels(g, nodes, levels) && AllPlaced(nodes, levels, left)
    requires Elements(answer) == nodes - left
    requires forall x | x in left :: DownstreamOfCycle(g, x)
    ensures Union(levels, answer)
  {
    forall x
      ensures x in answer <==> exists k | 0 <= k < |levels| :: x in levels[k]
    {
      assert x in answer <==> x in Elements(answer);
      if k :| 0 <= k < |levels| && x in levels[k] {
        assert LongestChain(g, k, x);
        if x in left {
          DownstreamHasLongChains(g, k + 1, x);
          assert false;
        }
      }
    }
  }

  // On an acyclic pair list both sorts give the same levels.
  lemma SortsAgree(pairs: seq<Pair>, answer: seq<Item>, levels: seq<seq<Item>>)
    requires TopologicalOrder(Adjacency(pairs), Mentioned(pairs), answer)
    requires Levels(Adjacency(pairs), Mentioned(pairs), levels) && AllPlaced(Mentioned(pairs), levels, {})
    ensures exists blocks :: CutInto(answer, levels, blocks)
  {
    UnionOfPlaced(Adjacency(pairs), Mentioned(pairs), answer, levels, {});
    FlatIsLevels(Adjacency(pairs), Mentioned(pairs), answer, levels);
  }

  // --------------------------------------------------------- when a sort fails

  // Both sorts give up with the same dictionaries, having placed the same
  // nodes, level by level.
  lemma SortsFailAlike(pairs: seq<Pair>, partial: seq<Item>, numParents: map<Item, int>, children: Children,
                       levels: seq<seq<Item>>, numParents': map<Item, int>, children': Children)
    requires StuckAt(Adjacency(pairs), Mentioned(pairs), partial, numParents, children)
    requires LevelsStuckAt(Adjacency(pairs), Mentioned(pairs), numParents', children')
    requires Levels(Adjacency(pairs), Mentioned(pairs), levels)
    requires AllPlaced(Mentioned(pairs), levels, numParents'.Keys)
    ensures numParents == numParents' && children == children'
    ensures exists blocks :: CutInto(partial, levels, blocks)
  {
    var g, nodes := Adjacency(pairs), Mentioned(pairs);
    SameLeftOver(g, nodes, partial, numParents, children, numParents', children');
    UnionOfPlaced(g, nodes, partial, levels, numParents'.Keys);
    FlatIsLevels(g, nodes, partial, levels);
  }

  lemma SameLeftOver(g: Children, nodes: set<Item>, partial: seq<Item>, numParents: map<Item, int>, children: Children,
                     numParents': map<Item, int>, children': Children)
    requires StuckAt(g, nodes, partial, numParents, children)
    requires LevelsStuckAt(g, nodes, numParents', children')
    ensures numParents == numParents' && children == children'
    ensures Elements(partial) == nodes - numParents'.Keys
    ensures LevelsStuckAt(g, nodes, numParents, children)
  {
    assert numParents.Keys == numParents'.Keys;
    assert nodes - numParents.Keys == Elements(partial);
  }

  lemma StuckIsLevelsStuck(g: Children, nodes: set<Item>, partial: seq<Item>, numParents: map<Item, int>,
                           children: Children)
    requires StuckAt(g, nodes, partial, numParents, children)
    ensures LevelsStuckAt(g, nodes, numParents, children)
  {
    assert nodes - numParents.Keys == Elements(partial);
  }

  lemma OnCycleIsDownstream(g: Children, c: seq<Item>, i: nat)
    requires ElementaryCycle(g, c) && i < |c|
    ensures DownstreamOfCycle(g, c[i])
  {
    assert WalkBetween(g, c[..i + 1], c[0], c[i]);
  }

  // No cycle is lost: the leftover children have the cycles of the whole graph.
  lemma LeftOverKeepsCycles(g: Children, nodes: set<Item>, numParents: map<Item, int>, children: Children, c: seq<Item>)
    requires LevelsStuckAt(g, nodes, numParents, children)
    ensures ElementaryCycle(children, c) <==> ElementaryCycle(g, c)
  {
    if ElementaryCycle(g, c) {
      forall i | 0 <= i < |c|
        ensures c[i] in numParents
      {
        OnCycleIsDownstream(g, c, i);
      }
      assert forall i, x | 0 <= i < |c| && Edge(g, c[i], x) :: Edge(children, c[i], x);
    }
    if ElementaryCycle(children, c) {
      assert forall a, b | Edge(children, a, b) :: Edge(g, a, b);
    }
  }

  lemma ListingTransfers(g: Children, h: Children, cycles: seq<seq<Item>>)
    requires forall c :: ElementaryCycle(h, c) <==> ElementaryCycle(g, c)
    requires Listing(h, cycles) && Complete(h, cycles)
    ensures Listing(g, cycles) && Complete(g, cycles)
  {
    forall i | 0 <= i < |cycles|
      ensures ElementaryCycle(g, cycles[i])
    {
      assert ElementaryCycle(h, cycles[i]);
    }
  }

  // Running the cycle finder on what a failed sort leaves lists the cycles of
  // the whole graph, and there is at least one.
  lemma DiagnosisIsComplete(g: Children, nodes: set<Item>, partial: seq<Item>, numParents: map<Item, int>,
                            children: Children, cycles: seq<seq<Item>>)
    requires Cyclic(g) && StuckAt(g, nodes, partial, numParents, children)
    requires Listing(children, cycles) && Complete(children, cycles)
    ensures Listing(g, cycles) && Complete(g, cycles)
    ensures cycles != []
  {
    forall c
      ensures ElementaryCycle(children, c) <==> ElementaryCycle(g, c)
    {
      StuckIsLevelsStuck(g, nodes, partial, numParents, children);
      LeftOverKeepsCycles(g, nodes, numParents, children, c);
    }
    ListingTransfers(g, children, cycles);
    ListingEmptyIffAcyclic(g, cycles);
  }

  // What a failed sort leaves: each leftover node has a leftover parent.
  lemma LeftOverParent(g: Children, nodes: set<Item>, numParents: map<Item, int>, children: Children, x: Item)
    requires GraphOn(g, nodes) && LevelsStuckAt(g, nodes, numParents, children) && x in numParents
    ensures exists p :: p in numParents && Edge(children, p, x)
  {
    DownstreamHasLongChains(g, |nodes| + 1, x);
    var p := ChainParent(g, |nodes|, x);
    LongChainMeansCycle(g, nodes, |nodes|, p);
    assert p in numParents && Edge(children, p, x);
  }

  lemma LeftOverEdges(g: Children, nodes: set<Item>, numParents: map<Item, int>, children: Children, x: Item)
    requires LevelsStuckAt(g, nodes, numParents, children) && x in numParents
    ensures forall c :: Edge(children, x, c) <==> Edge(g, x, c)
  {
    assert x !in nodes - numParents.Keys;
  }

  ghost predicate HasChild(g: Children, x: Item) {
    exists c :: Edge(g, x, c)
  }

  // The comment in the source says it is a child each leftover node has.  That
  // is so exactly when no node on or downstream of a cycle is without children
  // in the graph the sort was given.
  lemma LeftOverChildren(g: Children, nodes: set<Item>, numParents: map<Item, int>, children: Children)
    requires LevelsStuckAt(g, nodes, numParents, children)
    ensures (forall x | x in numParents :: HasChild(children, x))
            <==> (forall x | DownstreamOfCycle(g, x) :: HasChild(g, x))
  {
    forall x | x in numParents
      ensures HasChild(children, x) <==> HasChild(g, x)
    {
      LeftOverEdges(g, nodes, numParents, children, x);
    }
  }

  // It need not be so: the sort fails on the pairs (a, a), (a, b), and the node
  // b is left over and has no child.
  lemma LeftOverWithoutChild(a: Item, b: Item, partial: seq<Item>, numParents: map<Item, int>, children: Children)
    requires a != b
    ensures Cyclic(Adjacency([(a, a), (a, b)])) && Mentioned([(a, a), (a, b)]) == {a, b}
    ensures StuckAt(Adjacency([(a, a), (a, b)]), {a, b}, partial, numParents, children) ==>
              b in numParents && !HasChild(children, b)
  {
    var pairs := [(a, a), (a, b)];
    var g := Adjacency(pairs);
    SelfLoopAndChild(a, b);
    if StuckAt(g, {a, b}, partial, numParents, children) {
      StuckIsLevelsStuck(g, {a, b}, partial, numParents, children);
      LeftOverEdges(g, {a, b}, numParents, children, b);
    }
  }

  lemma SelfLoopAndChild(a: Item, b: Item)
    requires a != b
    ensures var g := Adjacency([(a, a), (a, b)]); Cyclic(g) && DownstreamOfCycle(g, b) && !HasChild(g, b)
    ensures Mentioned([(a, a), (a, b)]) == {a, b}
  {
    var pairs := [(a, a), (a, b)];
    var g := Adjacency(pairs);
    AdjacencyEdges(pairs);
    assert pairs[0] == (a, a) && pairs[1] == (a, b);
    assert Edge(g, a, a) && Edge(g, a, b);
    assert ElementaryCycle(g, [a]) && WalkBetween(g, [a, b], a, b);
    assert DownstreamOfCycle(g, b) by {
      assert [a][0] == a;
    }
    CyclicIffSomethingDownstream(g);
    assert forall c :: (b, c) !in pairs;
    assert Mentioned(pairs) == {a, b};
  }
}
