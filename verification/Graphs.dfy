/** Directed graphs given as adjacency lists, the form both sorts and the cycle
    finder of topsort.py work on: `children` maps a parent to the list of its
    children.  A child may be listed twice and need not be a key itself. */
module Graphs {
  import opened Lists

  // A node: any hashable value in the source.
  type Item(==, !new)

  type Children = map<Item, seq<Item>>

  ghost predicate Edge(g: Children, a: Item, b: Item) {
    a in g && b in g[a]
  }

  // A walk is a nonempty list of nodes joined by edges.
  ghost predicate Walk(g: Children, w: seq<Item>) {
    |w| > 0 && forall i | 0 <= i < |w| - 1 :: Edge(g, w[i], w[i + 1])
  }

  ghost predicate WalkBetween(g: Children, w: seq<Item>, a: Item, b: Item) {
    Walk(g, w) && w[0] == a && w[|w| - 1] == b
  }

  ghost predicate Reach(g: Children, a: Item, b: Item) {
    exists w :: WalkBetween(g, w, a, b)
  }

  // The last node has the first one as a child.
  ghost predicate ClosedWalk(g: Children, w: seq<Item>) {
    Walk(g, w) && Edge(g, w[|w| - 1], w[0])
  }

  ghost predicate ElementaryCycle(g: Children, c: seq<Item>) {
    ClosedWalk(g, c) && Distinct(c)
  }

  ghost predicate Cyclic(g: Children) {
    exists c :: ClosedWalk(g, c)
  }

  // x lies on a cycle or downstream of one.
  ghost predicate DownstreamOfCycle(g: Children, x: Item) {
    exists c, w :: ElementaryCycle(g, c) && WalkBetween(g, w, c[0], x)
  }

  // ------------------------------------------------------------------- walks

  lemma JoinWalks(g: Children, v: seq<Item>, w: seq<Item>, a: Item, b: Item, c: Item)
    requires WalkBetween(g, v, a, b) && WalkBetween(g, w, b, c)
    ensures WalkBetween(g, v + w[1..], a, c)
  {
    var u := v + w[1..];
    forall i | 0 <= i < |u| - 1
      ensures Edge(g, u[i], u[i + 1])
    {
      if i >= |v| - 1 {
        assert u[i] == w[i - |v| + 1];
      }
    }
  }

  lemma ReachTransitive(g: Children, a: Item, b: Item, c: Item)
    requires Reach(g, a, b) && Reach(g, b, c)
    ensures Reach(g, a, c)
  {
    var v :| WalkBetween(g, v, a, b);
    var w :| WalkBetween(g, w, b, c);
    JoinWalks(g, v, w, a, b, c);
  }

  lemma ReachAlong(g: Children, w: seq<Item>, i: nat, j: nat)
    requires Walk(g, w) && i <= j < |w|
    ensures Reach(g, w[i], w[j])
  {
    assert WalkBetween(g, w[i..j + 1], w[i], w[j]);
  }

  // Cutting loops out of a walk leaves a walk without repetitions, made of the
  // same nodes, whose last node is the only one it has in `avoid`.
  lemma {:induction false} Shortcut(g: Children, w: seq<Item>, avoid: set<Item>) returns (p: seq<Item>)
    requires Walk(g, w)
    requires forall k | 0 <= k < |w| - 1 :: w[k] !in avoid
    ensures WalkBetween(g, p, w[0], w[|w| - 1]) && Distinct(p)
    ensures forall k | 0 <= k < |p| - 1 :: p[k] !in avoid
    ensures forall x | x in p :: x in w
    decreases |w|
  {
    if Distinct(w) {
      p := w;
    } else {
      var i, j :| 0 <= i < j < |w| && w[i] == w[j];
      var cut := w[..i] + w[j..];
      assert forall k | 0 <= k < |cut| :: cut[k] == if k < i then w[k] else w[k - i + j];
      p := Shortcut(g, cut, avoid);
    }
  }

  // Every closed walk contains an elementary cycle.
  lemma {:induction false} ClosedWalkHasCycle(g: Children, w: seq<Item>) returns (c: seq<Item>)
    requires ClosedWalk(g, w)
    ensures ElementaryCycle(g, c)
    ensures forall x | x in c :: x in w
    ensures Reach(g, c[0], w[|w| - 1])
    decreases |w|
  {
    if Distinct(w) {
      c := w;
      ReachAlong(g, w, 0, |w| - 1);
    } else {
      var i, j :| 0 <= i < j < |w| && w[i] == w[j];
      c := ClosedWalkHasCycle(g, w[i..j]);
      ReachAlong(g, w, j - 1, |w| - 1);
      ReachTransitive(g, c[0], w[j - 1], w[|w| - 1]);
    }
  }

  lemma CyclicMeansElementaryCycle(g: Children)
    ensures Cyclic(g) <==> exists c :: ElementaryCycle(g, c)
  {
    if Cyclic(g) {
      var w :| ClosedWalk(g, w);
      var c := ClosedWalkHasCycle(g, w);
    }
  }
}
