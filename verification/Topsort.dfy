/** `topsort` of topsort.py: a queue-driven sort whose answer list is extended
    while it is being walked. */
module Topsort {
  import opened Lists
  import opened Graphs
  import opened Bookkeeping
  import opened Chains

  // The list returned, or what CycleError carries.
  datatype Outcome =
    | Sorted(answer: seq<Item>)
    | CycleError(partial: seq<Item>, numParents: map<Item, int>, children: Children)

  // ---------------------------------------------------------- specification

  // Every parent of a listed node is listed before it.
  ghost predicate ParentsFirst(g: Children, answer: seq<Item>) {
    forall k, p | 0 <= k < |answer| && Edge(g, p, answer[k]) :: p in answer[..k]
  }

  // depth[b] is the length of the longest chain that ends in answer[b], and
  // the depths never go down along the list.
  ghost predicate Depths(g: Children, answer: seq<Item>, depth: seq<nat>) {
    && |depth| == |answer|
    && (forall b | 0 <= b < |answer| :: LongestChain(g, depth[b], answer[b]))
    && (forall a, b | 0 <= a <= b < |depth| :: depth[a] <= depth[b])
  }

  ghost predicate LevelByLevel(g: Children, answer: seq<Item>) {
    exists depth :: Depths(g, answer, depth)
  }

  // answer[i] is the parent of x that comes last.
  ghost predicate LastParentAt(g: Children, answer: seq<Item>, x: Item, i: int) {
    0 <= i < |answer| && Edge(g, answer[i], x) && forall p | Edge(g, p, x) :: p in answer[..i + 1]
  }

  ghost predicate NoParent(g: Children, x: Item) {
    forall p :: !Edge(g, p, x)
  }

  // Nodes without parents come first.
  ghost predicate RootsFirst(g: Children, answer: seq<Item>) {
    forall a, b | 0 <= a < |answer| && 0 <= b < |answer| && NoParent(g, answer[a]) && !NoParent(g, answer[b]) :: a < b
  }

  // The others come in the order of their last parents ...
  ghost predicate ByLastParent(g: Children, answer: seq<Item>) {
    forall a, b, i, j | 0 <= a < |answer| && 0 <= b < |answer|
                        && LastParentAt(g, answer, answer[a], i) && LastParentAt(g, answer, answer[b], j) && i < j ::
      a < b
  }

  // ... and those of one last parent in the order in which it lists them last.
  ghost predicate ByLastSlot(g: Children, answer: seq<Item>) {
    forall a, b, i, u, v | 0 <= a < |answer| && 0 <= b < |answer|
                           && LastParentAt(g, answer, answer[a], i) && LastParentAt(g, answer, answer[b], i)
                           && LastSlot(ChildrenOf(g, answer[i]), answer[a], u)
                           && LastSlot(ChildrenOf(g, answer[i]), answer[b], v) && u < v ::
      a < b
  }

  // The latter, read off the pair list: by the last pair that names both.
  ghost predicate ByLastPair(pairs: seq<Pair>, answer: seq<Item>) {
    var g := Adjacency(pairs);
    forall a, b, i, m, n | 0 <= a < |answer| && 0 <= b < |answer|
                           && LastParentAt(g, answer, answer[a], i) && LastParentAt(g, answer, answer[b], i)
                           && LastPair(pairs, answer[i], answer[a], m) && LastPair(pairs, answer[i], answer[b], n)
                           && m < n ::
      a < b
  }

  ghost predicate QueueOrder(g: Children, answer: seq<Item>) {
    RootsFirst(g, answer) && ByLastParent(g, answer) && ByLastSlot(g, answer)
  }

  // The two dictionaries once the nodes of `done` were handled and deleted.
  ghost predicate Without(g: Children, nodes: set<Item>, done: set<Item>, numParents: map<Item, int>,
                          children: Children) {
    && numParents.Keys == nodes - done
    && children == g - done
    && Consistent(numParents, children)
  }

  // ------------------------------------------------------- the loop invariant

  ghost predicate Waiting(answer: seq<Item>, i: nat, numParents: map<Item, int>)
    requires i <= |answer|
  {
    forall x :: x in answer[i..] <==> x in numParents && numParents[x] == 0
  }

  // The nodes of answer[..i] are handled; the rest of answer is the queue.
  ghost predicate Handled(nodes: set<Item>, answer: seq<Item>, i: nat, numParents: map<Item, int>) {
    && i <= |answer|
    && Distinct(answer)
    && numParents.Keys == nodes - Elements(answer[..i])
    && (forall c | c in numParents :: numParents[c] >= 0)
    && Waiting(answer, i, numParents)
    && (forall x | x in answer :: x in nodes)
  }

  // Parents come first, and were all handled when their child was queued.
  ghost predicate ParentsHandled(g: Children, answer: seq<Item>, i: nat)
    requires i <= |answer|
  {
    && ParentsFirst(g, answer)
    && forall k, p | 0 <= k < |answer| && Edge(g, p, answer[k]) :: p in answer[..i]
  }

  // No queued node is more than one level below the next one to be handled.
  ghost predicate OneLevelAhead(depth: seq<nat>, i: nat) {
    i < |depth| ==> forall b | 0 <= b < |depth| :: depth[b] <= depth[i] + 1
  }

  // The nodes queued while answer[i] is handled: those whose last parent it is.
  ghost predicate Freed(g: Children, answer: seq<Item>, i: nat, freed: seq<Item>)
    requires i < |answer|
  {
    forall c | c in freed ::
      c !in answer && Edge(g, answer[i], c) && forall p | Edge(g, p, c) :: p in answer[..i + 1]
  }

  // A count that drops to zero when p goes: p was the only parent left.
  lemma LastParent(numParents: map<Item, int>, children: Children, p: Item, numParents': map<Item, int>, c: Item)
    requires Consistent(numParents, children) && Consistent(numParents', children - {p})
    requires c in numParents && c in numParents' && numParents'[c] == 0 && numParents[c] != 0
    ensures Edge(children, p, c) && forall q | Edge(children, q, c) :: q == p
  {
    CountZero(numParents, children, c);
    CountZero(numParents', children - {p}, c);
    forall q | Edge(children, q, c)
      ensures q == p
    {
      assert !Edge(children - {p}, q, c);
    }
  }

  // The nodes whose count drops to zero when answer[i] is handled are freed.
  lemma FreedNodes(g: Children, answer: seq<Item>, i: nat,
                   numParents: map<Item, int>, children: Children,
                   freed: seq<Item>, numParents': map<Item, int>)
    requires i < |answer| && children == g - Elements(answer[..i])
    requires Consistent(numParents, children) && Consistent(numParents', children - {answer[i]})
    requires forall c | c in freed :: c in numParents && c in numParents' && numParents'[c] == 0 && numParents[c] != 0
    requires forall c | c in freed :: c !in answer
    ensures Freed(g, answer, i, freed)
  {
    assert answer[..i + 1] == answer[..i] + [answer[i]];
    forall c | c in freed
      ensures c !in answer && Edge(g, answer[i], c) && forall q | Edge(g, q, c) :: q in answer[..i + 1]
    {
      LastParent(numParents, children, answer[i], numParents', c);
      forall q | Edge(g, q, c)
        ensures q in answer[..i + 1]
      {
        assert q in Elements(answer[..i]) || Edge(children, q, c);
      }
    }
  }

  // No freed node was in the answer before: its count was not zero.
  lemma FreedAreNew(nodes: set<Item>, answer: seq<Item>, i: nat, numParents: map<Item, int>, freed: seq<Item>)
    requires Handled(nodes, answer, i, numParents)
    requires forall c | c in freed :: c in numParents && numParents[c] != 0
    ensures forall c | c in freed :: c !in answer
  {
    assert answer == answer[..i] + answer[i..];
    forall c | c in freed
      ensures c !in answer
    {
      assert c !in Elements(answer[..i]);
      assert c !in answer[i..];
    }
  }

  // The queue loses the node handled and gains the freed ones.
  lemma WaitingStep(answer: seq<Item>, i: nat, numParents: map<Item, int>, freed: seq<Item>,
                    numParents': map<Item, int>)
    requires i < |answer| && Distinct(answer) && Waiting(answer, i, numParents)
    requires numParents'.Keys == numParents.Keys - {answer[i]}
    requires forall c | c in numParents' :: 0 <= numParents'[c] <= numParents[c]
    requires forall c :: c in freed <==> c in numParents' && numParents'[c] == 0 && numParents[c] != 0
    ensures Waiting(answer + freed, i + 1, numParents')
  {
    var p, longer := answer[i], answer + freed;
    assert longer[i + 1..] == answer[i + 1..] + freed;
    assert answer[i..] == [p] + answer[i + 1..];
    assert p !in answer[i + 1..];
  }

  lemma HandledStep(nodes: set<Item>, answer: seq<Item>, i: nat, numParents: map<Item, int>,
                    freed: seq<Item>, numParents': map<Item, int>)
    requires Handled(nodes, answer, i, numParents) && i < |answer|
    requires numParents'.Keys == numParents.Keys - {answer[i]}
    requires forall c | c in numParents' :: 0 <= numParents'[c]
    requires Distinct(freed)
    requires forall c :: c in freed <==> c in numParents' && numParents'[c] == 0 && numParents[c] != 0
    requires forall c | c in numParents' :: numParents'[c] <= numParents[c]
    ensures forall c | c in freed :: c !in answer
    ensures Handled(nodes, answer + freed, i + 1, numParents')
  {
    OneMoreHandled(map[], answer, i, freed);
    FreedAreNew(nodes, answer, i, numParents, freed);
    WaitingStep(answer, i, numParents, freed, numParents');
    JoinDistinct(answer, freed);
  }

  lemma ParentsStep(g: Children, answer: seq<Item>, i: nat, freed: seq<Item>)
    requires i < |answer| && ParentsHandled(g, answer, i) && Freed(g, answer, i, freed)
    ensures ParentsHandled(g, answer + freed, i + 1)
  {
    var longer := answer + freed;
    assert longer[..i + 1] == answer[..i + 1] && answer[..i + 1] == answer[..i] + [answer[i]];
    forall k, p | 0 <= k < |longer| && Edge(g, p, longer[k])
      ensures p in longer[..k] && p in longer[..i + 1]
    {
      if k < |answer| {
        assert longer[..k] == answer[..k];
      } else {
        assert longer[k] in freed;
        assert longer[..k] == longer[..i + 1] + longer[i + 1..k];
      }
    }
  }

  // A freed node is one level below the node that freed it.
  lemma FreedDepth(g: Children, answer: seq<Item>, depth: seq<nat>, i: nat, c: Item)
    requires Depths(g, answer, depth) && i < |answer|
    requires Edge(g, answer[i], c) && forall p | Edge(g, p, c) :: p in answer[..i + 1]
    ensures LongestChain(g, depth[i] + 1, c)
  {
    ChainExtend(g, depth[i], answer[i], c);
    forall p | Edge(g, p, c)
      ensures !ChainTo(g, depth[i] + 1, p)
    {
      var a :| 0 <= a < i + 1 && answer[a] == p;
      assert LongestChain(g, depth[a], answer[a]);
    }
    NoLongerChain(g, depth[i] + 1, c);
    LongestChainIs(g, depth[i] + 1, c);
  }

  lemma NoLongerChain(g: Children, k: nat, c: Item)
    requires forall p | Edge(g, p, c) :: !ChainTo(g, k, p)
    ensures !ChainTo(g, k + 1, c)
  {
    if ChainTo(g, k + 1, c) {
      var p := ChainParent(g, k, c);
      assert false;
    }
  }

  function FreedDepths(depth: seq<nat>, i: nat, freed: seq<Item>): seq<nat>
    requires i < |depth|
  {
    depth + seq(|freed|, _ => depth[i] + 1)
  }

  lemma DepthsStep(g: Children, answer: seq<Item>, depth: seq<nat>, i: nat, freed: seq<Item>)
    requires Depths(g, answer, depth) && i < |answer| && OneLevelAhead(depth, i)
    requires Freed(g, answer, i, freed)
    ensures Depths(g, answer + freed, FreedDepths(depth, i, freed))
    ensures OneLevelAhead(FreedDepths(depth, i, freed), i + 1)
  {
    var longer := answer + freed;
    var longerDepth := FreedDepths(depth, i, freed);
    forall b | 0 <= b < |longer|
      ensures LongestChain(g, longerDepth[b], longer[b])
    {
      if b >= |answer| {
        assert longer[b] in freed;
        FreedDepth(g, answer, depth, i, longer[b]);
      }
    }
  }

  // ------------------------------------------------- the order of the queue

  // Freed nodes are queued in the order in which kids lists them last.
  ghost predicate FreedInOrder(kids: seq<Item>, freed: seq<Item>) {
    forall a, b, u, v | 0 <= a < |freed| && 0 <= b < |freed|
                        && LastSlot(kids, freed[a], u) && LastSlot(kids, freed[b], v) && u < v ::
      a < b
  }

  // A queued node keeps its last parent, whatever is queued behind it.
  lemma SameLastParent(g: Children, answer: seq<Item>, freed: seq<Item>, x: Item, j: int)
    requires 0 <= j < |answer|
    ensures LastParentAt(g, answer + freed, x, j) <==> LastParentAt(g, answer, x, j)
  {
    assert (answer + freed)[..j + 1] == answer[..j + 1];
  }

  lemma LastParentIsOne(g: Children, answer: seq<Item>, x: Item, i: int, j: int)
    requires Distinct(answer) && LastParentAt(g, answer, x, i) && LastParentAt(g, answer, x, j)
    ensures i == j
  {
    assert answer[i] in answer[..j + 1] && answer[j] in answer[..i + 1];
  }

  // The last parent of a node queued before answer[i] is handled was handled
  // before; that of a node freed then is answer[i].
  lemma OldLastParent(g: Children, answer: seq<Item>, i: nat, freed: seq<Item>, a: nat, j: int)
    requires i < |answer| && Distinct(answer + freed) && ParentsHandled(g, answer, i)
    requires a < |answer| && LastParentAt(g, answer + freed, answer[a], j)
    ensures j < i && LastParentAt(g, answer, answer[a], j)
  {
    var p := (answer + freed)[j];
    assert p in answer[..i];
    var m :| 0 <= m < i && answer[m] == p;
    assert (answer + freed)[m] == p;
    SameLastParent(g, answer, freed, answer[a], j);
  }

  lemma NewLastParent(g: Children, answer: seq<Item>, i: nat, freed: seq<Item>, c: Item, j: int)
    requires i < |answer| && Distinct(answer + freed) && Freed(g, answer, i, freed)
    requires c in freed && LastParentAt(g, answer + freed, c, j)
    ensures j == i
  {
    SameLastParent(g, answer, freed, c, i);
    LastParentIsOne(g, answer + freed, c, i, j);
  }

  lemma LastParentOf(g: Children, answer: seq<Item>, i: nat, freed: seq<Item>, a: nat, j: int)
    requires i < |answer| && Distinct(answer + freed) && ParentsHandled(g, answer, i) && Freed(g, answer, i, freed)
    requires a < |answer + freed| && LastParentAt(g, answer + freed, (answer + freed)[a], j)
    ensures if a < |answer| then j < i && LastParentAt(g, answer, answer[a], j) else j == i
  {
    if a < |answer| {
      OldLastParent(g, answer, i, freed, a, j);
    } else {
      NewLastParent(g, answer, i, freed, (answer + freed)[a], j);
    }
  }

  lemma RootsStep(g: Children, answer: seq<Item>, i: nat, freed: seq<Item>)
    requires i < |answer| && RootsFirst(g, answer) && Freed(g, answer, i, freed)
    ensures RootsFirst(g, answer + freed)
  {
    var longer := answer + freed;
    forall a | |answer| <= a < |longer|
      ensures !NoParent(g, longer[a])
    {
      assert longer[a] in freed;
    }
  }

  lemma ByLastParentStep(g: Children, answer: seq<Item>, i: nat, freed: seq<Item>)
    requires i < |answer| && Distinct(answer + freed) && ParentsHandled(g, answer, i) && Freed(g, answer, i, freed)
    requires ByLastParent(g, answer)
    ensures ByLastParent(g, answer + freed)
  {
    var longer := answer + freed;
    forall a, b, k, l | 0 <= a < |longer| && 0 <= b < |longer|
                        && LastParentAt(g, longer, longer[a], k) && LastParentAt(g, longer, longer[b], l) && k < l
      ensures a < b
    {
      LastParentOf(g, answer, i, freed, a, k);
      LastParentOf(g, answer, i, freed, b, l);
    }
  }

  lemma ByLastSlotStep(g: Children, answer: seq<Item>, i: nat, freed: seq<Item>)
    requires i < |answer| && Distinct(answer + freed) && ParentsHandled(g, answer, i) && Freed(g, answer, i, freed)
    requires ByLastSlot(g, answer) && FreedInOrder(ChildrenOf(g, answer[i]), freed)
    ensures ByLastSlot(g, answer + freed)
  {
    var longer := answer + freed;
    forall a, b, k, u, v | 0 <= a < |longer| && 0 <= b < |longer|
                           && LastParentAt(g, longer, longer[a], k) && LastParentAt(g, longer, longer[b], k)
                           && LastSlot(ChildrenOf(g, longer[k]), longer[a], u)
                           && LastSlot(ChildrenOf(g, longer[k]), longer[b], v) && u < v
      ensures a < b
    {
      LastParentOf(g, answer, i, freed, a, k);
      LastParentOf(g, answer, i, freed, b, k);
      if a >= |answer| {
        assert longer[a] == freed[a - |answer|] && longer[b] == freed[b - |answer|];
      }
    }
  }

  lemma QueueStep(g: Children, answer: seq<Item>, i: nat, freed: seq<Item>)
    requires i < |answer| && Distinct(answer + freed) && ParentsHandled(g, answer, i) && Freed(g, answer, i, freed)
    requires QueueOrder(g, answer) && FreedInOrder(ChildrenOf(g, answer[i]), freed)
    ensures QueueOrder(g, answer + freed)
  {
    RootsStep(g, answer, i, freed);
    ByLastParentStep(g, answer, i, freed);
    ByLastSlotStep(g, answer, i, freed);
  }

  // Two answers that list the same nodes and begin with the same nodes without
  // parents.
  ghost predicate SameStart(g: Children, answer: seq<Item>, other: seq<Item>) {
    && Distinct(answer) && ParentsFirst(g, answer) && QueueOrder(g, answer)
    && Distinct(other) && ParentsFirst(g, other) && QueueOrder(g, other)
    && Elements(answer) == Elements(other)
    && (forall a | 0 <= a < |answer| && NoParent(g, answer[a]) :: a < |other| && other[a] == answer[a])
    && (forall a | 0 <= a < |other| && NoParent(g, other[a]) :: a < |answer| && other[a] == answer[a])
  }

  // They are the same: the queue order fixes the rest.
  lemma OrderFixesAnswer(g: Children, answer: seq<Item>, other: seq<Item>)
    requires SameStart(g, answer, other)
    ensures answer == other
  {
    DistinctSize(answer);
    DistinctSize(other);
    CommonPrefix(g, answer, other, |answer|);
    assert answer == answer[..|answer|] == other[..|answer|] == other;
  }

  lemma {:induction false} CommonPrefix(g: Children, answer: seq<Item>, other: seq<Item>, k: nat)
    requires SameStart(g, answer, other) && k <= |answer| == |other|
    ensures answer[..k] == other[..k]
  {
    if k > 0 {
      CommonPrefix(g, answer, other, k - 1);
      NextIsFixed(g, answer, other, k - 1);
      SliceMore(answer, k - 1);
      SliceMore(other, k - 1);
    }
  }

  // Where a node that is not in the common beginning stands.
  lemma PlaceAfter(answer: seq<Item>, other: seq<Item>, k: nat, x: Item) returns (b: nat)
    requires Elements(answer) == Elements(other) && Distinct(answer)
    requires k < |answer| == |other| && answer[..k] == other[..k] && answer[k] == x && other[k] != x
    ensures k < b < |other| && other[b] == x
  {
    assert x in Elements(other);
    b :| 0 <= b < |other| && other[b] == x;
    forall m | 0 <= m < k
      ensures other[m] != x
    {
      assert other[m] == other[..k][m] == answer[..k][m] == answer[m];
    }
  }

  // What puts the node at place a before the one at place b.
  lemma PutBefore(g: Children, answer: seq<Item>, a: nat, b: nat, i: int, j: int, u: int, v: int)
    requires QueueOrder(g, answer) && a < |answer| && b < |answer|
    requires LastParentAt(g, answer, answer[a], i) && LastParentAt(g, answer, answer[b], j)
    requires i < j || (i == j && LastSlot(ChildrenOf(g, answer[i]), answer[a], u)
                       && LastSlot(ChildrenOf(g, answer[i]), answer[b], v) && u < v)
    ensures a < b
  {
  }

  lemma NextIsFixed(g: Children, answer: seq<Item>, other: seq<Item>, k: nat)
    requires SameStart(g, answer, other) && k < |answer| == |other| && answer[..k] == other[..k]
    ensures answer[k] == other[k]
  {
    var x, y := answer[k], other[k];
    if x != y {
      var b := PlaceAfter(answer, other, k, x);
      var a := PlaceAfter(other, answer, k, y);
      var i, u := LastPlace(g, answer, other, k);
      var j, v := LastPlace(g, other, answer, k);
      if i < j || (i == j && u < v) {
        PutBefore(g, other, b, k, i, j, u, v);
        assert false;
      } else {
        PutBefore(g, answer, a, k, j, i, v, u);
        assert false;
      }
    }
  }

  // What decides the place of the node after the common beginning, seen from
  // both answers.
  lemma LastPlace(g: Children, answer: seq<Item>, other: seq<Item>, k: nat) returns (i: nat, u: nat)
    requires k < |answer| == |other| && answer[..k] == other[..k]
    requires ParentsFirst(g, answer) && !NoParent(g, answer[k])
    ensures i < k && answer[i] == other[i]
    ensures LastParentAt(g, answer, answer[k], i) && LastParentAt(g, other, answer[k], i)
    ensures LastSlot(ChildrenOf(g, answer[i]), answer[k], u)
  {
    i := LastParentExists(g, answer, k);
    SamePrefix(g, answer, other, k, answer[k], i);
    assert answer[i] == answer[..k][i] == other[..k][i] == other[i];
    u := LastSlotExists(ChildrenOf(g, answer[i]), answer[k]);
  }

  lemma SamePrefix(g: Children, answer: seq<Item>, other: seq<Item>, k: nat, x: Item, i: nat)
    requires k <= |answer| && k <= |other| && answer[..k] == other[..k] && i < k
    requires LastParentAt(g, answer, x, i)
    ensures LastParentAt(g, other, x, i)
  {
    assert answer[i] == answer[..k][i] == other[..k][i] == other[i];
    assert answer[..i + 1] == answer[..k][..i + 1] == other[..k][..i + 1] == other[..i + 1];
  }

  lemma LastParentExists(g: Children, answer: seq<Item>, k: nat) returns (i: nat)
    requires k < |answer| && ParentsFirst(g, answer) && !NoParent(g, answer[k])
    ensures i < k && LastParentAt(g, answer, answer[k], i)
  {
    var p :| Edge(g, p, answer[k]);
    assert p in answer[..k];
    i :| 0 <= i < k && Edge(g, answer[i], answer[k]);
    i := LatestParent(g, answer, answer[k], i, k);
    forall q | Edge(g, q, answer[k])
      ensures q in answer[..i + 1]
    {
      var m :| 0 <= m < k && answer[m] == q;
      assert answer[..i + 1][m] == q;
    }
  }

  lemma {:induction false} LatestParent(g: Children, answer: seq<Item>, x: Item, i: nat, k: nat) returns (last: nat)
    requires i < k <= |answer| && Edge(g, answer[i], x)
    ensures i <= last < k && Edge(g, answer[last], x) && forall m | last < m < k :: !Edge(g, answer[m], x)
    decreases k - i
  {
    if j :| i < j < k && Edge(g, answer[j], x) {
      last := LatestParent(g, answer, x, j, k);
    } else {
      last := i;
    }
  }

  // ------------------------------------------------------------ the algorithm

  // [x for x in num_parents.keys() if num_parents[x] == 0], in any key order.
  method Parentless(numParents: map<Item, int>) returns (xs: seq<Item>)
    ensures Distinct(xs)
    ensures forall x :: x in xs <==> x in numParents && numParents[x] == 0
  {
    xs := [];
    var keys := numParents.Keys;
    while keys != {}
      invariant keys <= numParents.Keys
      invariant Distinct(xs)
      invariant forall x :: x in xs <==> x in numParents - keys && numParents[x] == 0
      decreases keys
    {
      var x :| x in keys;
      keys := keys - {x};
      if numParents[x] == 0 {
        xs := xs + [x];
      }
    }
  }

  // The nodes whose count has dropped to zero, each once.
  ghost predicate FreedSoFar(before: map<Item, int>, numParents: map<Item, int>, freed: seq<Item>) {
    && Distinct(freed)
    && numParents.Keys == before.Keys
    && forall c :: c in freed <==> c in numParents && numParents[c] == 0 && before[c] != 0
  }

  // Half way through `kids`.
  ghost predicate Knocking(before: map<Item, int>, numParents: map<Item, int>, kids: seq<Item>, k: nat,
                           freed: seq<Item>, target: map<Item, int>)
    requires k <= |kids|
  {
    && KnocksTo(numParents, kids, k, target)
    && FreedSoFar(before, numParents, freed)
    && FreedByNow(kids, k, freed)
    && forall c | c in target :: numParents[c] <= before[c]
  }

  // Every freed node was listed for the last time before place k, and they were
  // freed in that order.
  ghost predicate FreedByNow(kids: seq<Item>, k: nat, freed: seq<Item>) {
    && FreedInOrder(kids, freed)
    && forall a, u | 0 <= a < |freed| && LastSlot(kids, freed[a], u) :: u < k
  }

  lemma {:induction false} ListedLater(kids: seq<Item>, k: nat, c: Item, u: nat)
    requires k <= u < |kids| && kids[u] == c
    ensures Listed(kids, k, c) > 0
    decreases u - k
  {
    if k < u {
      ListedLater(kids, k + 1, c, u);
    }
  }

  // The node at place k is freed: it is not listed again.
  lemma FreeOne(numParents: map<Item, int>, kids: seq<Item>, k: nat, freed: seq<Item>, target: map<Item, int>)
    requires k < |kids| && KnocksTo(numParents, kids, k, target) && numParents[kids[k]] == 1
    requires FreedByNow(kids, k, freed)
    ensures FreedByNow(kids, k + 1, freed + [kids[k]])
  {
    var longer := freed + [kids[k]];
    forall u | LastSlot(kids, kids[k], u)
      ensures u == k
    {
      if u > k {
        ListedLater(kids, k + 1, kids[k], u);
      }
    }
    forall a, b, u, v | 0 <= a < |longer| && 0 <= b < |longer| && LastSlot(kids, longer[a], u)
                        && LastSlot(kids, longer[b], v) && u < v
      ensures a < b
    {
      assert longer[|freed|] == kids[k];
      assert (a == |freed| ==> u == k) && (b == |freed| ==> v == k);
      assert (a < |freed| ==> u < k) && (b < |freed| ==> v < k);
    }
  }

  lemma KnockNext(before: map<Item, int>, numParents: map<Item, int>, kids: seq<Item>, k: nat, freed: seq<Item>,
                  target: map<Item, int>)
    requires k < |kids| && Knocking(before, numParents, kids, k, freed, target)
    ensures var c := kids[k];
            && c in numParents
            && Knocking(before, numParents[c := numParents[c] - 1], kids, k + 1,
                        if numParents[c] == 1 then freed + [c] else freed, target)
  {
    KnockOne(numParents, kids, k, target);
    if numParents[kids[k]] == 1 {
      FreeOne(numParents, kids, k, freed, target);
    }
  }

  lemma KnockDone(before: map<Item, int>, numParents: map<Item, int>, kids: seq<Item>, freed: seq<Item>,
                  target: map<Item, int>)
    requires Knocking(before, numParents, kids, |kids|, freed, target)
    ensures numParents == target && FreedSoFar(before, target, freed) && FreedInOrder(kids, freed)
    ensures forall c | c in target :: target[c] <= before[c]
  {
    AllKnocked(numParents, kids, target);
  }

  // The loop over a handled parent's children: the counts go down by one per
  // entry, and a node joins the answer at the moment its count reaches zero.
  method KnockDown(numParentsBefore: map<Item, int>, kids: seq<Item>, answerBefore: seq<Item>,
                   ghost target: map<Item, int>)
    returns (numParents: map<Item, int>, answer: seq<Item>, ghost freed: seq<Item>)
    requires Knocking(numParentsBefore, numParentsBefore, kids, 0, [], target)
    ensures Knocking(numParentsBefore, numParents, kids, |kids|, freed, target)
    ensures answer == answerBefore + freed
  {
    numParents, answer, freed := numParentsBefore, answerBefore, [];
    for k := 0 to |kids|
      invariant Knocking(numParentsBefore, numParents, kids, k, freed, target)
      invariant answer == answerBefore + freed
    {
      var child := kids[k];
      KnockNext(numParentsBefore, numParents, kids, k, freed, target);
      numParents := numParents[child := numParents[child] - 1];
      if numParents[child] == 0 {
        answer := answer + [child];
        freed := freed + [child];
      }
    }
  }

  // The body of the sorting loop: the handled parent leaves both dictionaries.
  method HandleNode(numParentsBefore: map<Item, int>, childrenBefore: Children, answerBefore: seq<Item>, parent: Item)
    returns (numParents: map<Item, int>, children: Children, answer: seq<Item>, ghost freed: seq<Item>)
    requires Consistent(numParentsBefore, childrenBefore)
    requires parent in numParentsBefore && numParentsBefore[parent] == 0
    ensures numParents.Keys == numParentsBefore.Keys - {parent} && children == childrenBefore - {parent}
    ensures Consistent(numParents, children)
    ensures answer == answerBefore + freed && Distinct(freed)
    ensures FreedInOrder(ChildrenOf(childrenBefore, parent), freed)
    ensures forall c :: c in freed <==> c in numParents && numParents[c] == 0 && numParentsBefore[c] != 0
    ensures forall c | c in numParents :: numParents[c] <= numParentsBefore[c]
  {
    ghost var target := Counts(numParentsBefore.Keys - {parent}, childrenBefore - {parent});
    DeleteParent(numParentsBefore, childrenBefore, parent);
    ghost var before := numParentsBefore - {parent};
    numParents := numParentsBefore - {parent};
    if parent in childrenBefore {
      numParents, answer, freed := KnockDown(numParents, childrenBefore[parent], answerBefore, target);
      children := childrenBefore - {parent};
    } else {
      children, answer, freed := childrenBefore, answerBefore, [];
      assert children == childrenBefore - {parent};
    }
    KnockDone(before, numParents, ChildrenOf(childrenBefore, parent), freed, target);
  }

  lemma FirstAnswer(g: Children, nodes: set<Item>, numParents: map<Item, int>, answer: seq<Item>)
    requires Consistent(numParents, g) && numParents.Keys == nodes
    requires Distinct(answer) && forall x :: x in answer <==> x in numParents && numParents[x] == 0
    ensures Handled(nodes, answer, 0, numParents)
    ensures ParentsHandled(g, answer, 0) && QueueOrder(g, answer)
    ensures Depths(g, answer, seq(|answer|, _ => 0)) && OneLevelAhead(seq(|answer|, _ => 0), 0)
  {
    assert answer[..0] == [] && answer[0..] == answer;
    forall i, p | 0 <= i < |answer|
      ensures !Edge(g, p, answer[i])
    {
      CountZero(numParents, g, answer[i]);
    }
    forall i | 0 <= i < |answer|
      ensures LongestChain(g, 0, answer[i])
    {
      ChainToSelf(g, answer[i]);
      NoLongerChain(g, 0, answer[i]);
      LongestChainIs(g, 0, answer[i]);
    }
  }

  // The queue is walked until it is empty.
  method Drain(g: Children, nodes: set<Item>, counts: map<Item, int>)
    returns (answer: seq<Item>, numParents: map<Item, int>, children: Children)
    requires Consistent(counts, g) && counts.Keys == nodes
    ensures Distinct(answer) && ParentsFirst(g, answer) && LevelByLevel(g, answer) && QueueOrder(g, answer)
    ensures Without(g, nodes, Elements(answer), numParents, children)
    ensures forall x | x in answer :: x in nodes
    ensures forall x | x in numParents :: numParents[x] != 0
  {
    numParents, children := counts, g;
    answer := Parentless(numParents);
    FirstAnswer(g, nodes, numParents, answer);
    assert Elements(answer[..0]) == {};
    ghost var depth: seq<nat> := seq(|answer|, _ => 0);
    var i := 0;
    while i < |answer|
      invariant Handled(nodes, answer, i, numParents)
      invariant Consistent(numParents, children)
      invariant children == g - Elements(answer[..i])
      invariant ParentsHandled(g, answer, i) && QueueOrder(g, answer)
      invariant Depths(g, answer, depth) && OneLevelAhead(depth, i)
      decreases numParents.Keys
    {
      ghost var answerBefore, numParentsBefore, childrenBefore := answer, numParents, children;
      ghost var freed;
      assert answer[i] in answer[i..];
      numParents, children, answer, freed := HandleNode(numParents, children, answer, answer[i]);
      NextNode(g, nodes, answerBefore, depth, i, numParentsBefore, childrenBefore, freed, numParents);
      depth := FreedDepths(depth, i, freed);
      i := i + 1;
    }
    assert answer[..i] == answer && answer[i..] == [];
  }

  ghost predicate TopologicalOrder(g: Children, nodes: set<Item>, answer: seq<Item>) {
    && Distinct(answer)
    && Elements(answer) == nodes
    && ParentsFirst(g, answer)
    && LevelByLevel(g, answer)
    && QueueOrder(g, answer)
  }

  // What CycleError carries: the nodes sorted so far, and the dictionaries of
  // the others, which are exactly the nodes on or downstream of a cycle.
  ghost predicate StuckAt(g: Children, nodes: set<Item>, partial: seq<Item>, numParents: map<Item, int>,
                          children: Children) {
    && Distinct(partial)
    && ParentsFirst(g, partial)
    && LevelByLevel(g, partial)
    && QueueOrder(g, partial)
    && Elements(partial) <= nodes
    && Without(g, nodes, Elements(partial), numParents, children)
    && (forall x :: x in numParents <==> DownstreamOfCycle(g, x))
  }

  method Sort(pairs: seq<Pair>) returns (r: Outcome)
    ensures r.CycleError? <==> Cyclic(Adjacency(pairs))
    ensures r.Sorted? ==> TopologicalOrder(Adjacency(pairs), Mentioned(pairs), r.answer)
    ensures r.CycleError? ==> StuckAt(Adjacency(pairs), Mentioned(pairs), r.partial, r.numParents, r.children)
    ensures ByLastPair(pairs, if r.Sorted? then r.answer else r.partial)
  {
    var numParents, children := Tabulate(pairs);
    ghost var g, nodes := children, Mentioned(pairs);
    AdjacencyEdges(pairs);
    var answer;
    answer, numParents, children := Drain(children, Mentioned(pairs), numParents);
    Outcomes(g, nodes, answer, numParents, children);
    SlotsByPairs(pairs, answer);
    if numParents.Keys != {} {
      return CycleError(answer, numParents, children);
    }
    return Sorted(answer);
  }

  lemma SlotsByPairs(pairs: seq<Pair>, answer: seq<Item>)
    requires ByLastSlot(Adjacency(pairs), answer)
    ensures ByLastPair(pairs, answer)
  {
    var g := Adjacency(pairs);
    forall a, b, i, m, n | 0 <= a < |answer| && 0 <= b < |answer|
                           && LastParentAt(g, answer, answer[a], i) && LastParentAt(g, answer, answer[b], i)
                           && LastPair(pairs, answer[i], answer[a], m) && LastPair(pairs, answer[i], answer[b], n)
                           && m < n
      ensures a < b
    {
      var u := LastSlotExists(ChildrenOf(g, answer[i]), answer[a]);
      var v := LastSlotExists(ChildrenOf(g, answer[i]), answer[b]);
      SlotsFollowPairs(pairs, answer[i], answer[a], answer[b], u, v, m, n);
    }
  }

  lemma Outcomes(g: Children, nodes: set<Item>, answer: seq<Item>, numParents: map<Item, int>, children: Children)
    requires GraphOn(g, nodes)
    requires Distinct(answer) && ParentsFirst(g, answer) && LevelByLevel(g, answer) && QueueOrder(g, answer)
    requires Without(g, nodes, Elements(answer), numParents, children)
    requires forall x | x in answer :: x in nodes
    requires forall x | x in numParents :: numParents[x] != 0
    ensures Cyclic(g) <==> numParents.Keys != {}
    ensures Cyclic(g) ==> StuckAt(g, nodes, answer, numParents, children)
    ensures !Cyclic(g) ==> TopologicalOrder(g, nodes, answer)
  {
    EmptyQueue(g, nodes, answer, numParents, children);
    if !Cyclic(g) {
      forall x | x in nodes
        ensures x in Elements(answer)
      {
        assert x !in nodes - Elements(answer);
      }
    }
  }

  // One turn of the loop keeps all it knows.
  lemma NextNode(g: Children, nodes: set<Item>, answer: seq<Item>, depth: seq<nat>, i: nat,
                 numParents: map<Item, int>, children: Children,
                 freed: seq<Item>, numParents': map<Item, int>)
    requires Handled(nodes, answer, i, numParents) && i < |answer|
    requires Consistent(numParents, children) && children == g - Elements(answer[..i])
    requires ParentsHandled(g, answer, i) && Depths(g, answer, depth) && OneLevelAhead(depth, i)
    requires QueueOrder(g, answer) && FreedInOrder(ChildrenOf(children, answer[i]), freed)
    requires numParents'.Keys == numParents.Keys - {answer[i]}
    requires Consistent(numParents', children - {answer[i]})
    requires Distinct(freed)
    requires forall c :: c in freed <==> c in numParents' && numParents'[c] == 0 && numParents[c] != 0
    requires forall c | c in numParents' :: numParents'[c] <= numParents[c]
    ensures Handled(nodes, answer + freed, i + 1, numParents')
    ensures children - {answer[i]} == g - Elements((answer + freed)[..i + 1])
    ensures ParentsHandled(g, answer + freed, i + 1) && QueueOrder(g, answer + freed)
    ensures Depths(g, answer + freed, FreedDepths(depth, i, freed))
    ensures OneLevelAhead(FreedDepths(depth, i, freed), i + 1)
  {
    HandledStep(nodes, answer, i, numParents, freed, numParents');
    FreedNodes(g, answer, i, numParents, children, freed, numParents');
    ParentsStep(g, answer, i, freed);
    DepthsStep(g, answer, depth, i, freed);
    assert ChildrenOf(children, answer[i]) == ChildrenOf(g, answer[i]) by {
      assert answer[i] !in answer[..i];
    }
    QueueStep(g, answer, i, freed);
    OneMoreHandled(g, answer, i, freed);
  }

  lemma OneMoreHandled(g: Children, answer: seq<Item>, i: nat, freed: seq<Item>)
    requires i < |answer|
    ensures Elements((answer + freed)[..i + 1]) == Elements(answer[..i]) + {answer[i]}
    ensures g - Elements((answer + freed)[..i + 1]) == g - Elements(answer[..i]) - {answer[i]}
  {
    assert (answer + freed)[..i + 1] == answer[..i] + [answer[i]];
  }

  lemma {:induction false} ShortChains(g: Children, answer: seq<Item>, i: nat, k: nat)
    requires ParentsFirst(g, answer) && i < |answer| && ChainTo(g, k, answer[i])
    ensures k <= i
    decreases k
  {
    if k > 0 {
      var p := ChainParent(g, k - 1, answer[i]);
      var j :| 0 <= j < i && answer[j] == p;
      ShortChains(g, answer, j, k - 1);
    }
  }

  // With an empty queue, what is left lies downstream of the cycles.
  lemma EmptyQueue(g: Children, nodes: set<Item>, answer: seq<Item>, numParents: map<Item, int>, children: Children)
    requires GraphOn(g, nodes) && ParentsFirst(g, answer)
    requires Without(g, nodes, Elements(answer), numParents, children)
    requires forall x | x in numParents :: numParents[x] != 0
    ensures forall x :: x in numParents <==> DownstreamOfCycle(g, x)
    ensures numParents.Keys != {} <==> Cyclic(g)
  {
    var left := numParents.Keys;
    assert left <= Successors(g, left) by {
      forall x | x in left
        ensures x in Successors(g, left)
      {
        WaitsForParent(numParents, children, x);
        var p :| Edge(children, p, x);
        assert p in left && p in g && x in g[p];
      }
    }
    forall x | x in nodes - left
      ensures !ChainTo(g, |answer|, x)
    {
      assert x in answer;
      var i :| 0 <= i < |answer| && answer[i] == x;
      if ChainTo(g, |answer|, x) {
        ShortChains(g, answer, i, |answer|);
      }
    }
    StuckIsDownstream(g, nodes, left, |answer|);
    CyclicIffSomethingDownstream(g);
  }

  lemma WaitsForParent(numParents: map<Item, int>, children: Children, x: Item)
    requires Consistent(numParents, children) && x in numParents && numParents[x] != 0
    ensures exists p :: Edge(children, p, x)
  {
    CountZero(numParents, children, x);
  }
}
