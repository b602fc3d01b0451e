/** One round of `topsort_levels_core` of topsort.py on any two dictionaries,
    whether or not the counts agree with the lists. */
module LevelCounts {
  import opened Lists
  import opened Graphs
  import opened Bookkeeping

  // How often the nodes of `done` list c as a child.
  function ListedBy(children: Children, done: seq<Item>, c: Item): nat {
    if done == [] then 0
    else ListedBy(children, done[..|done| - 1], c) + Listed(ChildrenOf(children, done[|done| - 1]), 0, c)
  }

  // The counts once the nodes of `done` are deleted.
  ghost function Remaining(numParents: map<Item, int>, children: Children, done: seq<Item>): map<Item, int> {
    map c | c in numParents && c !in done :: numParents[c] - ListedBy(children, done, c)
  }

  // No node of the level lists a child that has no count, or has it no longer.
  ghost predicate Knocks(numParents: map<Item, int>, children: Children, level: seq<Item>) {
    forall i, c | 0 <= i < |level| && Edge(children, level[i], c) :: c in numParents && c !in level[..i + 1]
  }

  lemma {:induction false} ListedByAppend(children: Children, done: seq<Item>, more: seq<Item>, c: Item)
    ensures ListedBy(children, done + more, c) == ListedBy(children, done, c) + ListedBy(children, more, c)
  {
    if more == [] {
      assert done + more == done;
    } else {
      var n := |more| - 1;
      ListedByAppend(children, done, more[..n], c);
      assert (done + more)[..|done| + n] == done + more[..n];
    }
  }

  lemma {:induction false} ListedByFrame(children: Children, done: set<Item>, s: seq<Item>, c: Item)
    requires forall x | x in s :: x !in done
    ensures ListedBy(children - done, s, c) == ListedBy(children, s, c)
  {
    if s != [] {
      ListedByFrame(children, done, s[..|s| - 1], c);
      assert s[|s| - 1] !in done;
    }
  }

  // Deleting in two goes is deleting at once.
  lemma RemainingJoin(numParents: map<Item, int>, children: Children, done: seq<Item>, more: seq<Item>)
    requires forall x | x in more :: x !in done
    ensures Remaining(Remaining(numParents, children, done), children - Elements(done), more)
         == Remaining(numParents, children, done + more)
    ensures children - Elements(done) - Elements(more) == children - Elements(done + more)
  {
    forall c
      ensures ListedBy(children - Elements(done), more, c) + ListedBy(children, done, c)
              == ListedBy(children, done + more, c)
    {
      ListedByFrame(children, Elements(done), more, c);
      ListedByAppend(children, done, more, c);
    }
    assert Elements(done + more) == Elements(done) + Elements(more);
  }

  lemma ListedByOne(children: Children, p: Item, c: Item)
    ensures ListedBy(children, [p], c) == Listed(ChildrenOf(children, p), 0, c)
  {
    assert [p][..0] == [];
  }

  // ------------------------------------------------------------- the round

  method KnockLevel(numParentsBefore: map<Item, int>, kids: seq<Item>) returns (ok: bool, numParents: map<Item, int>)
    ensures ok <==> forall c | c in kids :: c in numParentsBefore
    ensures ok ==> numParents.Keys == numParentsBefore.Keys
    ensures ok ==> forall c | c in numParents :: numParents[c] == numParentsBefore[c] - Listed(kids, 0, c)
  {
    numParents := numParentsBefore;
    for k := 0 to |kids|
      invariant forall j | 0 <= j < k :: kids[j] in numParentsBefore
      invariant numParents.Keys == numParentsBefore.Keys
      invariant forall c | c in numParents ::
              numParents[c] - Listed(kids, k, c) == numParentsBefore[c] - Listed(kids, 0, c)
    {
      if kids[k] !in numParents {
        return false, numParents;
      }
      numParents := numParents[kids[k] := numParents[kids[k]] - 1];
    }
    ok := true;
  }

  method RemoveNode(numParentsBefore: map<Item, int>, childrenBefore: Children, levelParent: Item)
    returns (ok: bool, numParents: map<Item, int>, children: Children)
    requires levelParent in numParentsBefore
    ensures ok <==> Knocks(numParentsBefore, childrenBefore, [levelParent])
    ensures ok ==> numParents == Remaining(numParentsBefore, childrenBefore, [levelParent])
    ensures ok ==> children == childrenBefore - {levelParent}
  {
    ok, numParents, children := true, numParentsBefore - {levelParent}, childrenBefore;
    forall c
      ensures ListedBy(childrenBefore, [levelParent], c) == Listed(ChildrenOf(childrenBefore, levelParent), 0, c)
    {
      ListedByOne(childrenBefore, levelParent, c);
    }
    assert [levelParent][..1] == [levelParent];
    if levelParent in children {
      ok, numParents := KnockLevel(numParents, children[levelParent]);
      assert forall c :: Edge(childrenBefore, levelParent, c) <==> c in childrenBefore[levelParent];
      children := children - {levelParent};
    }
  }

  // The loop over the parents of one level.
  method RemoveLevel(numParentsBefore: map<Item, int>, childrenBefore: Children, levelParents: seq<Item>)
    returns (ok: bool, numParents: map<Item, int>, children: Children)
    requires Distinct(levelParents) && forall x | x in levelParents :: x in numParentsBefore
    ensures ok <==> Knocks(numParentsBefore, childrenBefore, levelParents)
    ensures ok ==> numParents == Remaining(numParentsBefore, childrenBefore, levelParents)
    ensures ok ==> children == childrenBefore - Elements(levelParents)
  {
    numParents, children := numParentsBefore, childrenBefore;
    ghost var all := levelParents;
    assert all[..0] == [] && Remaining(numParents, children, []) == numParents;
    assert children - Elements<Item>([]) == children;
    for i := 0 to |levelParents|
      invariant Knocks(numParentsBefore, childrenBefore, all[..i])
      invariant numParents == Remaining(numParentsBefore, childrenBefore, all[..i])
      invariant children == childrenBefore - Elements(all[..i])
    {
      OneMoreKnocks(numParentsBefore, childrenBefore, all, i);
      OneMoreRemoved(numParentsBefore, childrenBefore, all, i);
      ok, numParents, children := RemoveNode(numParents, children, levelParents[i]);
      if !ok {
        KnocksPrefix(numParentsBefore, childrenBefore, all, i + 1);
        return;
      }
    }
    assert all[..|all|] == all;
    ok := true;
  }

  lemma OneMoreRemoved(numParents: map<Item, int>, children: Children, all: seq<Item>, i: nat)
    requires i < |all| && Distinct(all)
    ensures Remaining(Remaining(numParents, children, all[..i]), children - Elements(all[..i]), [all[i]])
         == Remaining(numParents, children, all[..i + 1])
    ensures children - Elements(all[..i]) - {all[i]} == children - Elements(all[..i + 1])
  {
    assert all[..i + 1] == all[..i] + [all[i]];
    assert Elements([all[i]]) == {all[i]};
    RemainingJoin(numParents, children, all[..i], [all[i]]);
  }

  lemma KnocksOne(numParents: map<Item, int>, children: Children, p: Item)
    ensures Knocks(numParents, children, [p]) <==> forall c | Edge(children, p, c) :: c in numParents && c != p
  {
    assert [p][..1] == [p];
    if Knocks(numParents, children, [p]) {
      forall c | Edge(children, p, c)
        ensures c in numParents && c != p
      {
        assert Edge(children, [p][0], c);
      }
    }
  }

  lemma OneMoreKnocks(numParents: map<Item, int>, children: Children, all: seq<Item>, i: nat)
    requires i < |all| && Distinct(all) && Knocks(numParents, children, all[..i])
    ensures Knocks(Remaining(numParents, children, all[..i]), children - Elements(all[..i]), [all[i]])
       <==> Knocks(numParents, children, all[..i + 1])
  {
    var p, rest, left := all[i], children - Elements(all[..i]), Remaining(numParents, children, all[..i]);
    KnocksOne(left, rest, p);
    assert all[..i + 1] == all[..i] + [p];
    assert forall c :: Edge(rest, p, c) <==> Edge(children, p, c);
    assert forall m | 0 <= m <= i :: all[..i + 1][..m] == all[..i][..m];
    assert all[..i + 1][..i + 1] == all[..i + 1];
    if Knocks(left, rest, [p]) {
      var upTo := all[..i + 1];
      forall k, c | 0 <= k < |upTo| && Edge(children, upTo[k], c)
        ensures c in numParents && c !in upTo[..k + 1]
      {
        if k < i {
          assert Edge(children, all[..i][k], c);
        } else {
          assert Edge(rest, p, c);
        }
      }
    }
    if Knocks(numParents, children, all[..i + 1]) {
      forall c | Edge(rest, p, c)
        ensures c in left && c != p
      {
        assert all[..i + 1][i] == p && Edge(children, all[..i + 1][i], c);
        assert c in numParents && c !in all[..i + 1];
        assert p in all[..i + 1] && forall x | x in all[..i] :: x in all[..i + 1];
      }
    }
  }

  lemma KnocksPrefix(numParents: map<Item, int>, children: Children, all: seq<Item>, i: nat)
    requires i <= |all| && !Knocks(numParents, children, all[..i])
    ensures !Knocks(numParents, children, all)
  {
    assert forall k | 0 <= k < i :: all[..i][k] == all[k] && all[..i][..k + 1] == all[..k + 1];
  }

  // ----------------------------------- when the counts agree with the lists

  // Nobody lists a node whose count is zero, so deleting it fails on no key
  // and leaves the dictionaries in agreement.
  lemma DeleteKeepsConsistent(numParents: map<Item, int>, children: Children, p: Item)
    requires Consistent(numParents, children) && p in numParents && numParents[p] == 0
    ensures Consistent(Remaining(numParents, children, [p]), children - {p})
  {
    DeleteParent(numParents, children, p);
    RemainingIsTarget(numParents, children, p, Counts(numParents.Keys - {p}, children - {p}));
  }

  lemma RemainingIsTarget(numParents: map<Item, int>, children: Children, p: Item, target: map<Item, int>)
    requires p in numParents && KnocksTo(numParents - {p}, ChildrenOf(children, p), 0, target)
    ensures Remaining(numParents, children, [p]) == target
  {
    forall c
      ensures ListedBy(children, [p], c) == Listed(ChildrenOf(children, p), 0, c)
    {
      ListedByOne(children, p, c);
    }
  }

  // Counts do not go below zero, and those that are zero stay zero.
  lemma ZeroStays(numParents: map<Item, int>, children: Children, p: Item, c: Item)
    requires Consistent(numParents, children) && p in numParents && numParents[p] == 0
    requires c in numParents && c != p && numParents[c] == 0
    ensures Remaining(numParents, children, [p])[c] == 0
  {
    DeleteKeepsConsistent(numParents, children, p);
    CountZero(Remaining(numParents, children, [p]), children - {p}, c);
  }

  lemma {:induction false} LevelKeepsConsistent(numParents: map<Item, int>, children: Children, level: seq<Item>)
    requires Consistent(numParents, children) && Distinct(level)
    requires forall x | x in level :: x in numParents && numParents[x] == 0
    ensures Consistent(Remaining(numParents, children, level), children - Elements(level))
    ensures forall c | c in numParents && c !in level && numParents[c] == 0 ::
            Remaining(numParents, children, level)[c] == 0
    decreases |level|
  {
    if level == [] {
      assert Remaining(numParents, children, level) == numParents;
      assert children - Elements(level) == children;
    } else {
      var n := |level| - 1;
      LevelKeepsConsistent(numParents, children, level[..n]);
      var left, rest := Remaining(numParents, children, level[..n]), children - Elements(level[..n]);
      DeleteKeepsConsistent(left, rest, level[n]);
      forall c | c in left && c != level[n] && left[c] == 0
        ensures Remaining(left, rest, [level[n]])[c] == 0
      {
        ZeroStays(left, rest, level[n], c);
      }
      OneMoreRemoved(numParents, children, level, n);
      assert level[..n + 1] == level;
    }
  }

  lemma ConsistentKnocks(numParents: map<Item, int>, children: Children, level: seq<Item>)
    requires Consistent(numParents, children)
    requires forall x | x in level :: x in numParents && numParents[x] == 0
    ensures Knocks(numParents, children, level)
  {
    forall i, c | 0 <= i < |level| && Edge(children, level[i], c)
      ensures c in numParents && c !in level[..i + 1]
    {
      CountZero(numParents, children, c);
    }
  }
}
