/** `permutations` of rad_util.py. */
module Permutations {
  import opened Lists

  function Factorial(n: nat): nat {
    if n == 0 then 1 else n * Factorial(n - 1)
  }

  // Python's new_list = sub[:]; new_list.insert(i, item).
  function Insert<T>(sub: seq<T>, i: nat, item: T): seq<T>
    requires i <= |sub|
  {
    sub[..i] + [item] + sub[i..]
  }

  // The item inserted at positions 0 .. n - 1.
  function InsertUpTo<T>(sub: seq<T>, n: nat, item: T): (r: seq<seq<T>>)
    requires n <= |sub| + 1
    ensures |r| == n && forall i | 0 <= i < n :: r[i] == Insert(sub, i, item)
  {
    seq(n, i requires 0 <= i < n => Insert(sub, i, item))
  }

  // ... at every position of each of the lists.
  function InsertIntoAll<T>(subs: seq<seq<T>>, item: T): seq<seq<T>> {
    if subs == [] then []
    else
      var last := subs[|subs| - 1];
      InsertIntoAll(subs[..|subs| - 1], item) + InsertUpTo(last, |last| + 1, item)
  }

  function Perms<T>(input: seq<T>): seq<seq<T>> {
    if |input| <= 1 then [input] else InsertIntoAll(Perms(input[1..]), input[0])
  }

  ghost predicate AllOfLength<T>(lists: seq<seq<T>>, n: nat) {
    forall i | 0 <= i < |lists| :: |lists[i]| == n
  }

  lemma {:induction false} InsertedLengths<T>(subs: seq<seq<T>>, n: nat, item: T)
    requires AllOfLength(subs, n)
    ensures AllOfLength(InsertIntoAll(subs, item), n + 1)
  {
    if subs != [] {
      InsertedLengths(subs[..|subs| - 1], n, item);
    }
  }

  lemma {:induction false} PermsLengths<T>(input: seq<T>)
    ensures AllOfLength(Perms(input), |input|)
    decreases |input|
  {
    if |input| > 1 {
      PermsLengths(input[1..]);
      InsertedLengths(Perms(input[1..]), |input| - 1, input[0]);
    }
  }

  // The inner loop: the item at every position of one list.
  method InsertEverywhere<T>(subList: seq<T>, positions: nat, item: T, before: seq<seq<T>>)
    returns (outLists: seq<seq<T>>)
    requires positions == |subList| + 1
    ensures outLists == before + InsertUpTo(subList, |subList| + 1, item)
  {
    outLists := before;
    for i := 0 to positions
      invariant outLists == before + InsertUpTo(subList, i, item)
    {
      var newList := subList[..i] + [item] + subList[i..];
      outLists := outLists + [newList];
    }
  }

  method Permutations<T>(inputList: seq<T>) returns (outLists: seq<seq<T>>)
    ensures outLists == Perms(inputList)
    decreases |inputList|
  {
    if |inputList| <= 1 {
      return [inputList];
    }
    outLists := [];
    var item := inputList[0];
    var subLists := Permutations(inputList[1..]);
    PermsLengths(inputList[1..]);
    for k := 0 to |subLists|
      invariant outLists == InsertIntoAll(subLists[..k], item)
    {
      assert subLists[..k + 1][..k] == subLists[..k];
      outLists := InsertEverywhere(subLists[k], |inputList|, item, outLists);
    }
    assert subLists[..|subLists|] == subLists;
  }

  // ------------------------------------------------------------- how many

  lemma {:induction false} InsertedCount<T>(subs: seq<seq<T>>, n: nat, item: T)
    requires AllOfLength(subs, n)
    ensures |InsertIntoAll(subs, item)| == |subs| * (n + 1)
  {
    if subs != [] {
      InsertedCount(subs[..|subs| - 1], n, item);
      OneMore(|subs| - 1, n + 1);
    }
  }

  lemma OneMore(a: nat, b: nat)
    ensures (a + 1) * b == a * b + b
  {
  }

  lemma {:induction false} PermsCount<T>(input: seq<T>)
    ensures |Perms(input)| == Factorial(|input|)
    decreases |input|
  {
    if |input| > 1 {
      PermsCount(input[1..]);
      PermsLengths(input[1..]);
      InsertedCount(Perms(input[1..]), |input| - 1, input[0]);
    } else {
      assert Factorial(1) == 1 * Factorial(0);
    }
  }

  // ---------------------------------------------------------- in which order

  lemma PlaceWithin(q: nat, i: nat, n: nat, k: nat)
    requires i < n && q < k
    ensures 0 <= q * n && q * n + i < k * n
    decreases k
  {
    if q < k - 1 {
      PlaceWithin(q, i, n, k - 1);
    }
    OneMore(k - 1, n);
  }

  lemma {:induction false} InsertedAt<T>(subs: seq<seq<T>>, n: nat, item: T, q: nat, i: nat)
    requires AllOfLength(subs, n) && q < |subs| && i <= n
    ensures 0 <= q * (n + 1) && q * (n + 1) + i < |InsertIntoAll(subs, item)|
    ensures InsertIntoAll(subs, item)[q * (n + 1) + i] == subs[q][..i] + [item] + subs[q][i..]
    decreases |subs|
  {
    var init := subs[..|subs| - 1];
    InsertedCount(subs, n, item);
    InsertedCount(init, n, item);
    PlaceWithin(q, i, n + 1, |subs|);
    if q < |init| {
      InsertedAt(init, n, item, q, i);
    }
  }

  // The lists made from the q-th permutation of the rest come together, with the
  // first item at position 0, 1, and so on.
  lemma PermsAt<T>(input: seq<T>, q: nat, i: nat)
    requires |input| > 1 && q < |Perms(input[1..])| && i < |input|
    ensures |Perms(input[1..])[q]| == |input| - 1
    ensures 0 <= q * |input| && q * |input| + i < |Perms(input)|
    ensures var sub := Perms(input[1..])[q]; Perms(input)[q * |input| + i] == sub[..i] + [input[0]] + sub[i..]
  {
    PermsLengths(input[1..]);
    InsertedAt(Perms(input[1..]), |input| - 1, input[0], q, i);
  }

  // ------------------------------------------------------- which lists occur

  ghost predicate InsertedFrom<T>(p: seq<T>, sub: seq<T>, item: T) {
    exists i: nat :: i <= |sub| && p == Insert(sub, i, item)
  }

  lemma InsertUpToIs<T>(sub: seq<T>, item: T, p: seq<T>)
    ensures p in InsertUpTo(sub, |sub| + 1, item) <==> InsertedFrom(p, sub, item)
  {
    var r := InsertUpTo(sub, |sub| + 1, item);
    if i: nat :| i <= |sub| && p == Insert(sub, i, item) {
      assert r[i] == p;
    }
  }

  lemma {:induction false} InsertedIs<T>(subs: seq<seq<T>>, item: T, p: seq<T>)
    ensures p in InsertIntoAll(subs, item) <==> exists sub :: sub in subs && InsertedFrom(p, sub, item)
  {
    if subs != [] {
      var init, last := subs[..|subs| - 1], subs[|subs| - 1];
      assert subs == init + [last];
      assert last in subs;
      InsertedIs(init, item, p);
      InsertUpToIs(last, item, p);
    }
  }

  lemma InsertMultiset<T>(sub: seq<T>, i: nat, item: T)
    requires i <= |sub|
    ensures multiset(Insert(sub, i, item)) == multiset(sub) + multiset{item}
  {
    assert sub == sub[..i] + sub[i..];
  }

  lemma RemoveFirst<T>(input: seq<T>, p: seq<T>) returns (sub: seq<T>, i: nat)
    requires |input| > 0 && multiset(p) == multiset(input)
    ensures i <= |sub| && p == Insert(sub, i, input[0]) && multiset(sub) == multiset(input[1..])
  {
    assert input == [input[0]] + input[1..];
    assert input[0] in multiset(p);
    i :| 0 <= i < |p| && p[i] == input[0];
    sub := p[..i] + p[i + 1..];
    assert p == p[..i] + [p[i]] + p[i + 1..];
    assert sub[..i] == p[..i] && sub[i..] == p[i + 1..];
    InsertMultiset(sub, i, input[0]);
    assert multiset(sub) == multiset(p) - multiset{input[0]};
    assert multiset(input[1..]) == multiset(input) - multiset{input[0]};
  }

  lemma PermsStep<T>(item: T, rest: seq<T>)
    requires rest != []
    ensures Perms([item] + rest) == InsertIntoAll(Perms(rest), item)
  {
    assert ([item] + rest)[1..] == rest;
  }

  // The lists returned are exactly the rearrangements of the input.
  lemma {:induction false} PermsAreRearrangements<T>(input: seq<T>, p: seq<T>)
    ensures p in Perms(input) <==> multiset(p) == multiset(input)
    decreases |input|
  {
    if |input| <= 1 {
      assert Perms(input) == [input];
      ShortRearrangement(input, p);
    } else {
      var item, rest := input[0], input[1..];
      assert input == [item] + rest;
      PermsStep(item, rest);
      InsertedIs(Perms(rest), item, p);
      if p in Perms(input) {
        var sub :| sub in Perms(rest) && InsertedFrom(p, sub, item);
        PermsAreRearrangements(rest, sub);
        InsertedMultiset(p, sub, item, rest);
      }
      if multiset(p) == multiset(input) {
        var sub, i := RemoveFirst(input, p);
        PermsAreRearrangements(rest, sub);
        assert InsertedFrom(p, sub, item);
      }
    }
  }

  lemma InsertedMultiset<T>(p: seq<T>, sub: seq<T>, item: T, rest: seq<T>)
    requires InsertedFrom(p, sub, item) && multiset(sub) == multiset(rest)
    ensures multiset(p) == multiset([item] + rest)
  {
    var i: nat :| i <= |sub| && p == Insert(sub, i, item);
    InsertMultiset(sub, i, item);
  }

  lemma ShortRearrangement<T>(input: seq<T>, p: seq<T>)
    requires |input| <= 1
    ensures multiset(p) == multiset(input) <==> p == input
  {
    if multiset(p) == multiset(input) {
      assert |p| == |multiset(p)| == |input|;
      if |input| == 1 {
        assert input[0] in multiset(p);
      }
    }
  }

  // ---------------------------------------------------------- no repetitions

  lemma InsertUpToDistinct<T>(sub: seq<T>, item: T)
    requires item !in sub
    ensures Distinct(InsertUpTo(sub, |sub| + 1, item))
  {
    var r := InsertUpTo(sub, |sub| + 1, item);
    forall i, j | 0 <= i < j < |r|
      ensures r[i] != r[j]
    {
      InsertInjective(sub, i, sub, j, item);
    }
  }

  lemma {:induction false} InsertedDistinct<T>(subs: seq<seq<T>>, n: nat, item: T)
    requires AllOfLength(subs, n) && forall i | 0 <= i < |subs| :: item !in subs[i]
    requires Distinct(subs)
    ensures Distinct(InsertIntoAll(subs, item))
  {
    if subs != [] {
      var init, last := subs[..|subs| - 1], subs[|subs| - 1];
      InsertedDistinct(init, n, item);
      InsertUpToDistinct(last, item);
      var before, after := InsertIntoAll(init, item), InsertUpTo(last, |last| + 1, item);
      forall p | p in after
        ensures p !in before
      {
        InsertUpToIs(last, item, p);
        InsertedIs(init, item, p);
        if sub :| sub in init && InsertedFrom(p, sub, item) {
          SameSource(p, last, sub, item);
          assert false;
        }
      }
      JoinDistinct(before, after);
    }
  }

  lemma SameSource<T>(p: seq<T>, s: seq<T>, t: seq<T>, item: T)
    requires InsertedFrom(p, s, item) && InsertedFrom(p, t, item)
    requires |s| == |t| && item !in s && item !in t
    ensures s == t
  {
    var i: nat :| i <= |s| && p == Insert(s, i, item);
    var j: nat :| j <= |t| && p == Insert(t, j, item);
    InsertInjective(s, i, t, j, item);
  }

  lemma InsertInjective<T>(s: seq<T>, i: nat, t: seq<T>, j: nat, item: T)
    requires i <= |s| && j <= |t| && |s| == |t| && item !in s && item !in t
    ensures Insert(s, i, item) == Insert(t, j, item) ==> i == j && s == t
  {
    var p, q := Insert(s, i, item), Insert(t, j, item);
    if p == q {
      assert p[i] == item && q[j] == item;
      assert forall k | 0 <= k < |p| && k != i :: p[k] == s[if k < i then k else k - 1];
      assert forall k | 0 <= k < |q| && k != j :: q[k] == t[if k < j then k else k - 1];
      assert i == j;
      assert s == p[..i] + p[i + 1..] && t == q[..j] + q[j + 1..];
    }
  }

  lemma SharedRepeats<T>(s: seq<T>, t: seq<T>, x: T)
    requires x in s && x in t
    ensures !Distinct(s + t)
  {
    var i :| 0 <= i < |s| && s[i] == x;
    var j :| 0 <= j < |t| && t[j] == x;
    assert (s + t)[i] == (s + t)[|s| + j];
  }

  lemma RepeatsStay<T>(s: seq<T>, t: seq<T>)
    requires !Distinct(s) || !Distinct(t)
    ensures !Distinct(s + t)
  {
    if !Distinct(s) {
      var i, j :| 0 <= i < j < |s| && s[i] == s[j];
      assert (s + t)[i] == (s + t)[j];
    } else {
      var i, j :| 0 <= i < j < |t| && t[i] == t[j];
      assert (s + t)[|s| + i] == (s + t)[|s| + j];
    }
  }

  // A list that holds the item gives the same result at two positions.
  lemma InsertBesideItself<T>(sub: seq<T>, item: T)
    requires item in sub
    ensures !Distinct(InsertUpTo(sub, |sub| + 1, item))
  {
    var i :| 0 <= i < |sub| && sub[i] == item;
    var r := InsertUpTo(sub, |sub| + 1, item);
    assert Insert(sub, i, item) == Insert(sub, i + 1, item);
    assert r[i] == r[i + 1];
  }

  lemma {:induction false} InsertedRepeats<T>(subs: seq<seq<T>>, item: T)
    requires !Distinct(subs) || exists s :: s in subs && item in s
    ensures !Distinct(InsertIntoAll(subs, item))
  {
    var init, last := subs[..|subs| - 1], subs[|subs| - 1];
    assert subs == init + [last];
    var before, after := InsertIntoAll(init, item), InsertUpTo(last, |last| + 1, item);
    if item in last {
      InsertBesideItself(last, item);
      RepeatsStay(before, after);
    } else if last in init {
      InsertedIs(init, item, after[0]);
      InsertUpToIs(last, item, after[0]);
      SharedRepeats(before, after, after[0]);
    } else {
      InsertedRepeats(init, item);
      RepeatsStay(before, after);
    }
  }

  lemma ItemRepeats<T>(item: T, rest: seq<T>)
    requires item in rest
    ensures !Distinct([item] + rest) && !Distinct(InsertIntoAll(Perms(rest), item))
  {
    SharedRepeats([item], rest, item);
    PermsAreRearrangements(rest, rest);
    InsertedRepeats(Perms(rest), item);
  }

  lemma RestRepeats<T>(item: T, rest: seq<T>)
    requires !Distinct(rest) && !Distinct(Perms(rest))
    ensures !Distinct([item] + rest) && !Distinct(InsertIntoAll(Perms(rest), item))
  {
    RepeatsStay([item], rest);
    InsertedRepeats(Perms(rest), item);
  }

  lemma NothingRepeats<T>(item: T, rest: seq<T>)
    requires item !in rest && Distinct(rest) && Distinct(Perms(rest))
    ensures Distinct([item] + rest) && Distinct(InsertIntoAll(Perms(rest), item))
  {
    JoinDistinct([item], rest);
    PermsLengths(rest);
    forall i | 0 <= i < |Perms(rest)|
      ensures item !in Perms(rest)[i]
    {
      PermsAreRearrangements(rest, Perms(rest)[i]);
      assert item !in multiset(Perms(rest)[i]);
    }
    InsertedDistinct(Perms(rest), |rest|, item);
  }

  // No list is returned twice if, and only if, the items are all different.
  lemma {:induction false} PermsDistinct<T>(input: seq<T>)
    ensures Distinct(Perms(input)) <==> Distinct(input)
    decreases |input|
  {
    if |input| <= 1 {
      assert Distinct(input);
      assert Perms(input) == [input];
    } else {
      var item, rest := input[0], input[1..];
      PermsDistinct(rest);
      PermsStep(item, rest);
      assert input == [item] + rest;
      DistinctStep(item, rest);
    }
  }

  lemma DistinctStep<T>(item: T, rest: seq<T>)
    requires Distinct(Perms(rest)) <==> Distinct(rest)
    ensures Distinct(InsertIntoAll(Perms(rest), item)) <==> Distinct([item] + rest)
  {
    if item in rest {
      ItemRepeats(item, rest);
    } else if Distinct(rest) {
      NothingRepeats(item, rest);
    } else {
      RestRepeats(item, rest);
    }
  }
}
