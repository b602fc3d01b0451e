/** The two dictionaries both sorts of topsort.py keep: `num_parents`, the count
    of parents still in the way of each node, and `children`. */
module Bookkeeping {
  import opened Graphs

  type Pair = (Item, Item)   // (parent, child)

  function Mentioned(pairs: seq<Pair>): set<Item> {
    (set e | e in pairs :: e.0) + (set e | e in pairs :: e.1)
  }

  // ------------------------------------------- how often a node is listed

  // The places (parent, index) at which c is listed as a child.
  ghost function Slots(children: Children, c: Item): set<(Item, nat)> {
    set p, j: nat | p in children && j < |children[p]| && children[p][j] == c :: (p, j)
  }

  // How often c occurs in kids[k..].
  function Listed(kids: seq<Item>, k: nat, c: Item): nat
    requires k <= |kids|
    decreases |kids| - k
  {
    if k == |kids| then 0 else (if kids[k] == c then 1 else 0) + Listed(kids, k + 1, c)
  }

  ghost function SlotsIn(p: Item, kids: seq<Item>, k: nat, c: Item): set<(Item, nat)> {
    set j: nat | k <= j < |kids| && kids[j] == c :: (p, j)
  }

  lemma {:induction false} SlotsInCount(p: Item, kids: seq<Item>, k: nat, c: Item)
    requires k <= |kids|
    ensures |SlotsIn(p, kids, k, c)| == Listed(kids, k, c)
    decreases |kids| - k
  {
    if k < |kids| {
      SlotsInCount(p, kids, k + 1, c);
      if kids[k] == c {
        assert SlotsIn(p, kids, k, c) == SlotsIn(p, kids, k + 1, c) + {(p, k)};
      } else {
        assert SlotsIn(p, kids, k, c) == SlotsIn(p, kids, k + 1, c);
      }
    }
  }

  lemma {:induction false} ListedAppend(kids: seq<Item>, k: nat, last: Item, c: Item)
    requires k <= |kids|
    ensures Listed(kids + [last], k, c) == Listed(kids, k, c) + (if last == c then 1 else 0)
    decreases |kids| - k
  {
    if k < |kids| {
      ListedAppend(kids, k + 1, last, c);
    }
  }

  // Deleting a parent frees exactly the slots in its own list.
  lemma SlotsWithout(children: Children, p: Item, c: Item)
    requires p in children
    ensures |Slots(children, c)| == |Slots(children - {p}, c)| + Listed(children[p], 0, c)
  {
    var left, mine := Slots(children - {p}, c), SlotsIn(p, children[p], 0, c);
    SlotsInCount(p, children[p], 0, c);
    assert Slots(children, c) == left + mine;
    assert left !! mine;
  }

  lemma NoSlots(children: Children, c: Item)
    ensures |Slots(children, c)| == 0 <==> forall p :: !Edge(children, p, c)
  {
    if p :| Edge(children, p, c) {
      var j :| 0 <= j < |children[p]| && children[p][j] == c;
      assert (p, j) in Slots(children, c);
    } else if slot :| slot in Slots(children, c) {
      assert Edge(children, slot.0, c);
    }
  }

  ghost function Counts(nodes: set<Item>, children: Children): map<Item, int> {
    map c | c in nodes :: |Slots(children, c)|
  }

  // What the two dictionaries promise each other: every parent and every
  // listed child is counted, and the count is the number of slots.
  ghost predicate Consistent(numParents: map<Item, int>, children: Children) {
    && children.Keys <= numParents.Keys
    && (forall p, c | Edge(children, p, c) :: c in numParents)
    && numParents == Counts(numParents.Keys, children)
  }

  lemma CountZero(numParents: map<Item, int>, children: Children, c: Item)
    requires Consistent(numParents, children) && c in numParents
    ensures numParents[c] >= 0
    ensures numParents[c] == 0 <==> forall p :: !Edge(children, p, c)
  {
    NoSlots(children, c);
  }

  // --------------------------------------------------- knocking down counts

  function ChildrenOf(children: Children, p: Item): seq<Item> {
    if p in children then children[p] else []
  }

  // Taking one off per entry of kids[k..] turns the counts into `target`.
  ghost predicate KnocksTo(numParents: map<Item, int>, kids: seq<Item>, k: nat, target: map<Item, int>)
    requires k <= |kids|
  {
    && numParents.Keys == target.Keys
    && (forall j | 0 <= j < |kids| :: kids[j] in numParents)
    && (forall c | c in numParents :: target[c] >= 0 && numParents[c] == target[c] + Listed(kids, k, c))
  }

  // Deleting an unhindered parent: nothing lists it, so the counts of its
  // children can be brought up to date.
  lemma DeleteParent(numParents: map<Item, int>, children: Children, p: Item)
    requires Consistent(numParents, children) && p in numParents && numParents[p] == 0
    ensures var target := Counts(numParents.Keys - {p}, children - {p});
            Consistent(target, children - {p}) && KnocksTo(numParents - {p}, ChildrenOf(children, p), 0, target)
  {
    CountZero(numParents, children, p);
    forall q, c | Edge(children, q, c)
      ensures c in numParents.Keys - {p}
    {
    }
    forall q, c | Edge(children - {p}, q, c)
      ensures c in numParents.Keys - {p}
    {
      assert Edge(children, q, c);
    }
    forall j | 0 <= j < |ChildrenOf(children, p)|
      ensures ChildrenOf(children, p)[j] in numParents.Keys - {p}
    {
      assert Edge(children, p, children[p][j]);
    }
    if p in children {
      forall c | c in numParents.Keys - {p}
        ensures |Slots(children, c)| == |Slots(children - {p}, c)| + Listed(children[p], 0, c)
      {
        SlotsWithout(children, p, c);
      }
    } else {
      assert children - {p} == children;
    }
  }

  lemma KnockOne(numParents: map<Item, int>, kids: seq<Item>, k: nat, target: map<Item, int>)
    requires k < |kids| && KnocksTo(numParents, kids, k, target)
    ensures kids[k] in numParents && numParents[kids[k]] > 0
    ensures KnocksTo(numParents[kids[k] := numParents[kids[k]] - 1], kids, k + 1, target)
  {
  }

  lemma AllKnocked(numParents: map<Item, int>, kids: seq<Item>, target: map<Item, int>)
    requires KnocksTo(numParents, kids, |kids|, target)
    ensures numParents == target
  {
  }

  // ------------------------------------------------ reading the pair list

  function AddPair(children: Children, e: Pair): Children {
    children[e.0 := (if e.0 in children then children[e.0] else []) + [e.1]]
  }

  // The adjacency lists of a pair list: each child is appended to its parent's
  // list, in pair order, repeats included.
  function Adjacency(pairs: seq<Pair>): Children {
    if pairs == [] then map[]
    else AddPair(Adjacency(pairs[..|pairs| - 1]), pairs[|pairs| - 1])
  }

  lemma {:induction false} AdjacencyEdges(pairs: seq<Pair>)
    ensures forall a, b :: Edge(Adjacency(pairs), a, b) <==> (a, b) in pairs
    ensures Adjacency(pairs).Keys <= Mentioned(pairs)
  {
    if pairs != [] {
      var init, e := pairs[..|pairs| - 1], pairs[|pairs| - 1];
      AdjacencyEdges(init);
      assert pairs == init + [e];
      assert Mentioned(init) <= Mentioned(pairs);
      assert e in pairs;
    }
  }

  // x is listed at place u of kids, and at no later one.
  ghost predicate LastSlot(kids: seq<Item>, x: Item, u: int) {
    0 <= u < |kids| && kids[u] == x && forall k | u < k < |kids| :: kids[k] != x
  }

  // The pair (p, x) is given at place m, and at no later one.
  ghost predicate LastPair(pairs: seq<Pair>, p: Item, x: Item, m: int) {
    0 <= m < |pairs| && pairs[m] == (p, x) && forall k | m < k < |pairs| :: pairs[k] != (p, x)
  }

  lemma {:induction false} LastSlotExists(kids: seq<Item>, x: Item) returns (u: nat)
    requires x in kids
    ensures LastSlot(kids, x, u)
  {
    var n := |kids| - 1;
    if kids[n] == x {
      u := n;
    } else {
      u := LastSlotExists(kids[..n], x);
    }
  }

  // A parent's children are listed in the order of its pairs.
  lemma {:induction false} SlotsFollowPairs(pairs: seq<Pair>, p: Item, x: Item, y: Item, u: int, v: int, m: int, n: int)
    requires var kids := ChildrenOf(Adjacency(pairs), p); LastSlot(kids, x, u) && LastSlot(kids, y, v)
    requires LastPair(pairs, p, x, m) && LastPair(pairs, p, y, n)
    ensures u < v <==> m < n
  {
    var last := |pairs| - 1;
    var init, e := pairs[..last], pairs[last];
    var kids := ChildrenOf(Adjacency(pairs), p);
    if e.0 == p {
      var shorter := ChildrenOf(Adjacency(init), p);
      assert kids == shorter + [e.1] && forall k | 0 <= k < |shorter| :: shorter[k] == kids[k];
      assert kids[|shorter|] == e.1 && pairs[last] == (p, e.1);
      if e.1 != x && e.1 != y {
        SlotsFollowPairs(init, p, x, y, u, v, m, n);
      }
    } else {
      SlotsFollowPairs(init, p, x, y, u, v, m, n);
    }
  }

  lemma SlotsOfAddPair(children: Children, e: Pair, c: Item)
    ensures |Slots(AddPair(children, e), c)| == |Slots(children, c)| + (if c == e.1 then 1 else 0)
  {
    var p, after := e.0, AddPair(children, e);
    SlotsWithout(after, p, c);
    ListedAppend(ChildrenOf(children, p), 0, e.1, c);
    if p in children {
      SlotsWithout(children, p, c);
      assert after - {p} == children - {p};
    } else {
      assert after - {p} == children;
    }
  }

  lemma OneMorePair(pairs: seq<Pair>, k: nat)
    requires k < |pairs|
    ensures Adjacency(pairs[..k + 1]) == AddPair(Adjacency(pairs[..k]), pairs[k])
    ensures Mentioned(pairs[..k + 1]) == Mentioned(pairs[..k]) + {pairs[k].0, pairs[k].1}
  {
    var shorter, longer := pairs[..k], pairs[..k + 1];
    assert longer == shorter + [pairs[k]];
    assert longer[..|longer| - 1] == shorter;
  }

  // One (parent, child) pair: both become keys of num_parents, the child's
  // count goes up and the parent gains a child.
  method AddOne(numParentsBefore: map<Item, int>, childrenBefore: Children, e: Pair)
    returns (numParents: map<Item, int>, children: Children)
    requires Consistent(numParentsBefore, childrenBefore)
    ensures numParents.Keys == numParentsBefore.Keys + {e.0, e.1}
    ensures children == AddPair(childrenBefore, e)
    ensures Consistent(numParents, children)
  {
    var (parent, child) := e;
    numParents := numParentsBefore;
    if parent !in numParents {
      numParents := numParents[parent := 0];
    }
    if child !in numParents {
      numParents := numParents[child := 0];
    }
    numParents := numParents[child := numParents[child] + 1];
    children := childrenBefore[parent := (if parent in childrenBefore then childrenBefore[parent] else []) + [child]];
    AddPairConsistent(numParentsBefore, childrenBefore, e, numParents);
  }

  // The loop that fills both dictionaries from (parent, child) pairs.
  method Tabulate(pairs: seq<Pair>) returns (numParents: map<Item, int>, children: Children)
    ensures numParents.Keys == Mentioned(pairs)
    ensures children == Adjacency(pairs)
    ensures Consistent(numParents, children)
  {
    numParents, children := map[], map[];
    for k := 0 to |pairs|
      invariant numParents.Keys == Mentioned(pairs[..k])
      invariant children == Adjacency(pairs[..k])
      invariant Consistent(numParents, children)
    {
      OneMorePair(pairs, k);
      numParents, children := AddOne(numParents, children, pairs[k]);
    }
    assert pairs[..|pairs|] == pairs;
  }

  lemma AddPairConsistent(numParents: map<Item, int>, children: Children, e: Pair, after: map<Item, int>)
    requires Consistent(numParents, children)
    requires after.Keys == numParents.Keys + {e.0, e.1}
    requires forall c | c in after ::
      after[c] == (if c in numParents then numParents[c] else 0) + (if c == e.1 then 1 else 0)
    ensures Consistent(after, AddPair(children, e))
  {
    forall c | c in after
      ensures after[c] == |Slots(AddPair(children, e), c)|
    {
      SlotsOfAddPair(children, e, c);
      if c !in numParents {
        assert forall p :: !Edge(children, p, c);
        NoSlots(children, c);
      }
    }
    forall p, c | Edge(AddPair(children, e), p, c)
      ensures c in after
    {
      assert Edge(children, p, c) || c == e.1;
    }
  }
}
