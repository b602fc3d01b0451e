/** `is_rotated` of rad_util.py: is one list a rotation of the other? */
module Rotation {

  function Rotate<T>(s: seq<T>, k: nat): (r: seq<T>)
    requires k <= |s|
    ensures |r| == |s|
  {
    s[k..] + s[..k]
  }

  ghost predicate IsRotation<T>(s: seq<T>, t: seq<T>) {
    exists k: nat :: k <= |s| && t == Rotate(s, k)
  }

  lemma RotateTwice<T>(s: seq<T>, j: nat, k: nat)
    requires j <= |s| && k <= |s|
    ensures Rotate(Rotate(s, j), k) == Rotate(s, if j + k <= |s| then j + k else j + k - |s|)
  {
    if j + k <= |s| {
      assert Rotate(Rotate(s, j), k) == s[j + k..] + s[..j] + s[j..j + k];
      assert s[..j] + s[j..j + k] == s[..j + k];
    } else {
      var m := j + k - |s|;
      assert Rotate(Rotate(s, j), k) == s[..j][m..] + (s[j..] + s[..m]);
      assert s[..j][m..] + s[j..] == s[m..];
    }
  }

  lemma RotationSymmetric<T>(s: seq<T>, t: seq<T>)
    requires IsRotation(s, t)
    ensures IsRotation(t, s)
  {
    var k: nat :| k <= |s| && t == Rotate(s, k);
    RotateTwice(s, k, |s| - k);
    assert Rotate(t, |s| - k) == s;
  }

  lemma RotationTransitive<T>(s: seq<T>, t: seq<T>, u: seq<T>)
    requires IsRotation(s, t) && IsRotation(t, u)
    ensures IsRotation(s, u)
  {
    var j: nat :| j <= |s| && t == Rotate(s, j);
    var k: nat :| k <= |t| && u == Rotate(t, k);
    RotateTwice(s, j, k);
  }

  // A window of the doubled list is a rotation.
  lemma DoubledWindow<T>(s: seq<T>, k: nat)
    requires k < |s|
    ensures (s + s)[k..k + |s|] == Rotate(s, k)
  {
  }

  // A rotation of a nonempty list starts at one of its indexes.
  lemma RotationIndex<T>(s: seq<T>, t: seq<T>) returns (k: nat)
    requires IsRotation(s, t) && s != []
    ensures k < |s| && t == Rotate(s, k) && t[0] == s[k]
  {
    k :| k <= |s| && t == Rotate(s, k);
    if k == |s| {
      assert Rotate(s, k) == Rotate(s, 0);
      k := 0;
    }
  }

  datatype Answer = Bool(value: bool) | IndexError

  // Reading the head of the second list fails when both lists are empty;
  // otherwise the answer is exact, also for lists that repeat items.
  method IsRotated<T(==)>(seq1: seq<T>, seq2: seq<T>) returns (r: Answer)
    ensures r.IndexError? <==> seq1 == [] && seq2 == []
    ensures r.Bool? ==> (r.value <==> IsRotation(seq1, seq2))
  {
    if |seq1| != |seq2| {
      return Bool(false);
    }
    if |seq2| == 0 {
      return IndexError;
    }
    var startIndexes: seq<nat> := [];
    var headItem := seq2[0];
    for index1 := 0 to |seq1|
      invariant forall m | 0 <= m < |startIndexes| :: startIndexes[m] < index1
      invariant forall i: nat | i < index1 :: i in startIndexes <==> seq1[i] == headItem
    {
      if seq1[index1] == headItem {
        startIndexes := startIndexes + [index1];
      }
    }
    var doubleSeq1 := seq1 + seq1;
    for n := 0 to |startIndexes|
      invariant forall m | 0 <= m < n :: seq2 != Rotate(seq1, startIndexes[m])
    {
      var index1 := startIndexes[n];
      DoubledWindow(seq1, index1);
      if doubleSeq1[index1..index1 + |seq1|] == seq2 {
        return Bool(true);
      }
    }
    if IsRotation(seq1, seq2) {
      var k := RotationIndex(seq1, seq2);
      assert false;
    }
    return Bool(false);
  }
}
