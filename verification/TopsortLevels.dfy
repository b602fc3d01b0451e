/** `topsort_levels` and `topsort_levels_core` of topsort.py: the same sort, one
    dependency level at a time. */
module TopsortLevels {
  import opened Lists
  import opened Graphs
  import opened Bookkeeping
  import opened Chains
  import opened Topsort
  import opened LevelCounts

  // How the generator ends after its last level.
  datatype Ending =
    | StopIteration
    | LevelCycleError(numParents: map<Item, int>, children: Children)
    | KeyError

  // Level k holds, once each, the nodes whose longest chain has k edges.
  ghost predicate Levels(g: Children, nodes: set<Item>, levels: seq<seq<Item>>) {
    forall k: nat | k < |levels| ::
      && levels[k] != []
      && Distinct(levels[k])
      && forall x :: x in levels[k] <==> x in nodes && LongestChain(g, k, x)
  }

  // The nodes at which a chain of at least k edges ends.
  ghost predicate DeeperThan(g: Children, nodes: set<Item>, k: nat, s: set<Item>) {
    forall x :: x in s <==> x in nodes && ChainTo(g, k, x)
  }

  // -------------------------------------------------------- one level peeled

  // Among the nodes with a chain of k edges, those without a parent left are
  // the ones with no longer chain.
  lemma ParentlessIsLevel(g: Children, nodes: set<Item>, k: nat, numParents: map<Item, int>, children: Children,
                          x: Item)
    requires GraphOn(g, nodes) && DeeperThan(g, nodes, k, numParents.Keys)
    requires Consistent(numParents, children) && children == g - (nodes - numParents.Keys)
    requires x in numParents
    ensures numParents[x] == 0 <==> !ChainTo(g, k + 1, x)
  {
    CountZero(numParents, children, x);
    if p :| Edge(children, p, x) {
      ChainExtend(g, k, p, x);
    } else if ChainTo(g, k + 1, x) {
      var p := ChainParent(g, k, x);
      assert Edge(children, p, x);
    }
  }

  lemma LevelPeeled(g: Children, nodes: set<Item>, k: nat, numParents: map<Item, int>, children: Children,
                    level: seq<Item>)
    requires GraphOn(g, nodes) && DeeperThan(g, nodes, k, numParents.Keys)
    requires Consistent(numParents, children) && children == g - (nodes - numParents.Keys)
    requires forall x :: x in level <==> x in numParents && numParents[x] == 0
    ensures forall x :: x in level <==> x in nodes && LongestChain(g, k, x)
    ensures DeeperThan(g, nodes, k + 1, numParents.Keys - Elements(level))
  {
    forall x
      ensures x in level <==> x in nodes && LongestChain(g, k, x)
      ensures x in numParents.Keys - Elements(level) <==> x in nodes && ChainTo(g, k + 1, x)
    {
      LongestChainIs(g, k, x);
      if x in numParents {
        ParentlessIsLevel(g, nodes, k, numParents, children, x);
      } else if ChainTo(g, k + 1, x) {
        ChainSuffix(g, k + 1, k, x);
      }
    }
  }

  // When a level comes out empty, what is left lies downstream of the cycles.
  lemma NoLevelLeft(g: Children, nodes: set<Item>, k: nat, left: set<Item>)
    requires GraphOn(g, nodes) && DeeperThan(g, nodes, k, left) && DeeperThan(g, nodes, k + 1, left)
    ensures forall x :: x in left <==> DownstreamOfCycle(g, x)
    ensures left != {} <==> Cyclic(g)
  {
    forall x | x in left
      ensures x in Successors(g, left)
    {
      var p := ChainParent(g, k, x);
      assert p in g && x in g[p];
    }
    StuckIsDownstream(g, nodes, left, k);
    CyclicIffSomethingDownstream(g);
  }

  // ------------------------------------------------------------ the algorithm

  // Some node of `left` has no level: the keys still waiting when the levels
  // run out, with the dictionaries as they are then.
  ghost predicate LevelsStuckAt(g: Children, nodes: set<Item>, numParents: map<Item, int>, children: Children) {
    && (forall x :: x in numParents <==> DownstreamOfCycle(g, x))
    && numParents.Keys <= nodes
    && children == g - (nodes - numParents.Keys)
    && Consistent(numParents, children)
  }

  // Every node has a level unless it is left over.
  ghost predicate AllPlaced(nodes: set<Item>, levels: seq<seq<Item>>, left: set<Item>) {
    forall x | x in nodes - left :: exists k | 0 <= k < |levels| :: x in levels[k]
  }

  // Level k holds, once each, the nodes whose count is zero after the levels
  // before it were taken off.
  ghost predicate Yielded(numParents: map<Item, int>, children: Children, levels: seq<seq<Item>>) {
    forall k | 0 <= k < |levels| :: YieldedAt(numParents, children, levels, k)
  }

  ghost predicate YieldedAt(numParents: map<Item, int>, children: Children, levels: seq<seq<Item>>, k: nat)
    requires k < |levels|
  {
    var left := Remaining(numParents, children, Flatten(levels[..k]));
    && levels[k] != [] && Distinct(levels[k])
    && forall x :: x in levels[k] <==> x in left && left[x] == 0
  }

  // Taking level k off fails on a key that is not there.
  ghost predicate FailsAt(numParents: map<Item, int>, children: Children, levels: seq<seq<Item>>, k: nat)
    requires k < |levels|
  {
    !Knocks(Remaining(numParents, children, Flatten(levels[..k])), children - Elements(Flatten(levels[..k])), levels[k])
  }

  // How it ends, for any dictionaries.
  ghost predicate EndsAs(numParents: map<Item, int>, children: Children, levels: seq<seq<Item>>, ending: Ending) {
    var left := Remaining(numParents, children, Flatten(levels));
    match ending
    case StopIteration => left == map[]
    case LevelCycleError(numParents', children') =>
      && numParents' == left != map[] && (forall x | x in left :: left[x] != 0)
      && children' == children - Elements(Flatten(levels))
    case KeyError => levels != [] && FailsAt(numParents, children, levels, |levels| - 1)
  }

  // The generator: the levels it yields, in order, and how it ends.
  method LevelsCore(numParentsArg: map<Item, int>, childrenArg: Children)
    returns (levels: seq<seq<Item>>, ending: Ending)
    ensures Yielded(numParentsArg, childrenArg, levels) && EndsAs(numParentsArg, childrenArg, levels, ending)
    ensures ending.KeyError? <==> exists k | 0 <= k < |levels| :: FailsAt(numParentsArg, childrenArg, levels, k)
    ensures Consistent(numParentsArg, childrenArg) ==> LongestChains(childrenArg, numParentsArg.Keys, levels, ending)
  {
    ghost var good := Consistent(numParentsArg, childrenArg);
    var numParents, children := numParentsArg, childrenArg;
    levels := [];
    FirstRound(numParentsArg, childrenArg);
    while true
      invariant Yielded(numParentsArg, childrenArg, levels)
      invariant numParents == Remaining(numParentsArg, childrenArg, Flatten(levels))
      invariant children == childrenArg - Elements(Flatten(levels))
      invariant forall k | 0 <= k < |levels| :: !FailsAt(numParentsArg, childrenArg, levels, k)
      invariant good ==> PeeledAgreeing(childrenArg, numParentsArg.Keys, levels, numParents, children)
      decreases numParents.Keys
    {
      var levelParents := Parentless(numParents);
      if levelParents == [] {
        break;
      }
      OneMoreLevel(numParentsArg, childrenArg, levels, levelParents);
      if good {
        NextRound(childrenArg, numParentsArg.Keys, levels, levelParents, numParents, children);
      }
      assert levelParents[0] in numParents;
      levels := levels + [levelParents];
      var ok;
      ok, numParents, children := RemoveLevel(numParents, children, levelParents);
      if !ok {
        return levels, KeyError;
      }
    }
    if numParents.Keys != {} {
      ending := LevelCycleError(numParents, children);
    } else {
      ending := StopIteration;
    }
    if good {
      LastRound(childrenArg, numParentsArg.Keys, levels, numParents, children, ending);
    }
  }

  // With counts that agree with the lists: the levels by longest chain, and an
  // error exactly on cyclic graphs.
  ghost predicate LongestChains(g: Children, nodes: set<Item>, levels: seq<seq<Item>>, ending: Ending) {
    && Levels(g, nodes, levels)
    && !ending.KeyError?
    && (ending.LevelCycleError? <==> Cyclic(g))
    && (ending.StopIteration? ==> AllPlaced(nodes, levels, {}))
    && (ending.LevelCycleError? ==>
          && LevelsStuckAt(g, nodes, ending.numParents, ending.children)
          && AllPlaced(nodes, levels, ending.numParents.Keys))
  }

  lemma FirstRound(numParents: map<Item, int>, children: Children)
    ensures Remaining(numParents, children, Flatten([])) == numParents
    ensures children - Elements<Item>(Flatten([])) == children
    ensures Consistent(numParents, children) ==> PeeledAgreeing(children, numParents.Keys, [], numParents, children)
  {
    FirstPeel(children, numParents.Keys);
  }

  // A level is added to those yielded; taking it off is a step on from there.
  lemma OneMoreLevel(numParents: map<Item, int>, children: Children, levels: seq<seq<Item>>, level: seq<Item>)
    requires Yielded(numParents, children, levels)
    requires forall k | 0 <= k < |levels| :: !FailsAt(numParents, children, levels, k)
    requires level != [] && Distinct(level)
    requires var left := Remaining(numParents, children, Flatten(levels));
             forall x :: x in level <==> x in left && left[x] == 0
    ensures var done, longer := Flatten(levels), levels + [level];
            && Yielded(numParents, children, longer)
            && Flatten(longer) == done + level
            && Remaining(Remaining(numParents, children, done), children - Elements(done), level)
               == Remaining(numParents, children, Flatten(longer))
            && children - Elements(done) - Elements(level) == children - Elements(Flatten(longer))
            && (forall k | 0 <= k < |levels| :: !FailsAt(numParents, children, longer, k))
            && (FailsAt(numParents, children, longer, |levels|)
                <==> !Knocks(Remaining(numParents, children, done), children - Elements(done), level))
  {
    var done, longer := Flatten(levels), levels + [level];
    FlattenAppend(levels, level);
    RemainingJoin(numParents, children, done, level);
    assert longer[..|levels|] == levels;
    forall k | 0 <= k < |longer|
      ensures YieldedAt(numParents, children, longer, k)
      ensures k < |levels| ==> !FailsAt(numParents, children, longer, k)
    {
      if k < |levels| {
        assert longer[..k] == levels[..k];
        assert YieldedAt(numParents, children, levels, k) && !FailsAt(numParents, children, levels, k);
      }
    }
  }

  // The state between two levels, when counts and lists agree.
  ghost predicate PeeledAgreeing(g: Children, nodes: set<Item>, levels: seq<seq<Item>>, numParents: map<Item, int>,
                                 children: Children) {
    Consistent(numParents, children) && Peeled(g, nodes, levels, numParents.Keys, children)
  }

  lemma NextRound(g: Children, nodes: set<Item>, levels: seq<seq<Item>>, level: seq<Item>, numParents: map<Item, int>,
                  children: Children)
    requires GraphOn(g, nodes) && PeeledAgreeing(g, nodes, levels, numParents, children)
    requires level != [] && Distinct(level)
    requires forall x :: x in level <==> x in numParents && numParents[x] == 0
    ensures PeeledAgreeing(g, nodes, levels + [level], Remaining(numParents, children, level),
            children - Elements(level))
    ensures Knocks(numParents, children, level)
  {
    LevelPeeled(g, nodes, |levels|, numParents, children, level);
    NextPeel(g, nodes, levels, level, numParents.Keys, children);
    LevelKeepsConsistent(numParents, children, level);
    ConsistentKnocks(numParents, children, level);
    assert Remaining(numParents, children, level).Keys == numParents.Keys - Elements(level);
  }

  lemma LastRound(g: Children, nodes: set<Item>, levels: seq<seq<Item>>, numParents: map<Item, int>,
                  children: Children, ending: Ending)
    requires GraphOn(g, nodes) && PeeledAgreeing(g, nodes, levels, numParents, children)
    requires forall x | x in numParents :: numParents[x] != 0
    requires ending == if numParents.Keys != {} then LevelCycleError(numParents, children) else StopIteration
    ensures LongestChains(g, nodes, levels, ending)
  {
    NothingPeeled(g, nodes, |levels|, numParents, children);
    NoLevelLeft(g, nodes, |levels|, numParents.Keys);
  }

  lemma NothingPeeled(g: Children, nodes: set<Item>, k: nat, numParents: map<Item, int>, children: Children)
    requires GraphOn(g, nodes) && DeeperThan(g, nodes, k, numParents.Keys)
    requires Consistent(numParents, children) && children == g - (nodes - numParents.Keys)
    requires forall x | x in numParents :: numParents[x] != 0
    ensures DeeperThan(g, nodes, k + 1, numParents.Keys)
  {
    LevelPeeled(g, nodes, k, numParents, children, []);
    assert numParents.Keys - Elements([]) == numParents.Keys;
  }

  // The state between two levels.
  ghost predicate Peeled(g: Children, nodes: set<Item>, levels: seq<seq<Item>>, left: set<Item>, children: Children) {
    && left <= nodes
    && children == g - (nodes - left)
    && DeeperThan(g, nodes, |levels|, left)
    && Levels(g, nodes, levels)
    && AllPlaced(nodes, levels, left)
  }

  lemma FirstPeel(g: Children, nodes: set<Item>)
    ensures Peeled(g, nodes, [], nodes, g)
  {
    forall x | x in nodes
      ensures ChainTo(g, 0, x)
    {
      ChainToSelf(g, x);
    }
    assert g - (nodes - nodes) == g;
  }

  lemma NextPeel(g: Children, nodes: set<Item>, levels: seq<seq<Item>>, level: seq<Item>, left: set<Item>,
                 children: Children)
    requires Peeled(g, nodes, levels, left, children)
    requires level != [] && Distinct(level)
    requires forall x :: x in level <==> x in nodes && LongestChain(g, |levels|, x)
    requires DeeperThan(g, nodes, |levels| + 1, left - Elements(level))
    ensures Peeled(g, nodes, levels + [level], left - Elements(level), children - Elements(level))
  {
    PlacedMore(nodes, levels, level, left);
    LevelsMore(g, nodes, levels, level);
    forall x | x in level
      ensures x in left
    {
      assert ChainTo(g, |levels|, x);
    }
    assert nodes - (left - Elements(level)) == (nodes - left) + Elements(level);
    assert g - (nodes - left) - Elements(level) == g - ((nodes - left) + Elements(level));
  }

  lemma PlacedMore(nodes: set<Item>, levels: seq<seq<Item>>, level: seq<Item>, left: set<Item>)
    requires AllPlaced(nodes, levels, left)
    ensures AllPlaced(nodes, levels + [level], left - Elements(level))
  {
    var longer := levels + [level];
    forall x | x in nodes - (left - Elements(level))
      ensures exists k | 0 <= k < |longer| :: x in longer[k]
    {
      if x in level {
        assert x in longer[|levels|];
      } else {
        assert x in nodes - left;
        var k :| 0 <= k < |levels| && x in levels[k];
        assert x in longer[k];
      }
    }
  }

  lemma LevelsMore(g: Children, nodes: set<Item>, levels: seq<seq<Item>>, level: seq<Item>)
    requires Levels(g, nodes, levels) && level != [] && Distinct(level)
    requires forall x :: x in level <==> x in nodes && LongestChain(g, |levels|, x)
    ensures Levels(g, nodes, levels + [level])
  {
  }

  // topsort_levels: the dictionaries made from a pair list agree.
  method LevelsOfPairs(pairs: seq<Pair>) returns (levels: seq<seq<Item>>, ending: Ending)
    ensures LongestChains(Adjacency(pairs), Mentioned(pairs), levels, ending)
  {
    var numParents, children := Tabulate(pairs);
    levels, ending := LevelsCore(numParents, children);
  }
}
