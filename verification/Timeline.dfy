/** `TimelineDataRange` and `TimelineEvent` of grid.py: binary searches in sorted
    lists, and how far the selections they make are the ones asked for.  Times
    are only compared; integers stand for them. */
module Timeline {

  datatype Range = Range(start: int, end: int)

  // In order, with no two ranges sharing a time.
  ghost predicate SortedDisjoint(ranges: seq<Range>) {
    && (forall i | 0 <= i < |ranges| :: ranges[i].start <= ranges[i].end)
    && (forall i, j | 0 <= i < j < |ranges| :: ranges[i].end < ranges[j].start)
  }

  predicate Contains(r: Range, key: int) {
    r.start <= key <= r.end
  }

  // The range has a time in common with [start, end].
  predicate Meets(r: Range, start: int, end: int) {
    r.start <= end && start <= r.end
  }

  ghost predicate Hit(ranges: seq<Range>, key: int) {
    exists i | 0 <= i < |ranges| :: Contains(ranges[i], key)
  }

  // A range is selected if it is on the inner side of the ends that hit a range;
  // an end that misses does not bound the selection, and if both miss, nothing
  // is selected.
  ghost predicate Picked(ranges: seq<Range>, start: int, end: int, r: Range) {
    && (Hit(ranges, start) || Hit(ranges, end))
    && (Hit(ranges, start) ==> start <= r.end)
    && (Hit(ranges, end) ==> r.start <= end)
  }

  ghost predicate Exact(ranges: seq<Range>, start: int, end: int) {
    forall r | r in ranges :: Picked(ranges, start, end, r) <==> Meets(r, start, end)
  }

  // What can be checked before the call: at a missed end of the interval the
  // selection runs to the end of the list, so the list must not go on beyond
  // the interval there; when both ends are missed, no range may lie inside.
  ghost predicate Faithful(ranges: seq<Range>, start: int, end: int) {
    if Hit(ranges, start) then Hit(ranges, end) || ranges[|ranges| - 1].start <= end
    else if Hit(ranges, end) then start <= ranges[0].end
    else forall r | r in ranges :: !(start < r.start && r.end < end)
  }

  // All ranges that meet [start, end] are selected unless both ends miss; no
  // others are if, and only if, the list is Faithful.
  lemma PickedRanges(ranges: seq<Range>, start: int, end: int)
    requires SortedDisjoint(ranges) && start <= end
    ensures Hit(ranges, start) || Hit(ranges, end) ==>
              forall r | r in ranges && Meets(r, start, end) :: Picked(ranges, start, end, r)
    ensures Hit(ranges, start) && Hit(ranges, end) ==> Exact(ranges, start, end)
    ensures Exact(ranges, start, end) <==> Faithful(ranges, start, end)
  {
    if !Hit(ranges, start) && !Hit(ranges, end) {
      forall i | 0 <= i < |ranges|
        ensures Meets(ranges[i], start, end) <==> start < ranges[i].start && ranges[i].end < end
      {
        assert !Contains(ranges[i], start) && !Contains(ranges[i], end);
      }
    } else {
      assert ranges[0] in ranges && ranges[|ranges| - 1] in ranges;
    }
  }

  class TimelineDataRange {
    var ranges: seq<Range>

    constructor ()
      ensures ranges == []
    {
      ranges := [];
    }

    method AddRange(range: Range)
      modifies this
      ensures ranges == old(ranges) + [range]
    {
      ranges := ranges + [range];
    }

    method Search(key: int) returns (index: int)
      requires SortedDisjoint(ranges)
      ensures -1 <= index < |ranges|
      ensures if index == -1 then !Hit(ranges, key) else Contains(ranges[index], key)
    {
      var l, u := 0, |ranges| - 1;
      while l <= u
        invariant 0 <= l <= u + 1 <= |ranges|
        invariant forall k | 0 <= k < |ranges| && Contains(ranges[k], key) :: l <= k <= u
        decreases u - l
      {
        var i := (l + u) / 2;
        if key >= ranges[i].start && key <= ranges[i].end {
          return i;
        } else if key < ranges[i].start {
          u := i - 1;
        } else {
          l := i + 1;
        }
      }
      return -1;
    }

    method GetRangesBounds(start: int, end: int) returns (lo: nat, hi: nat)
      requires SortedDisjoint(ranges) && start <= end
      ensures lo <= hi <= |ranges|
      ensures forall i | 0 <= i < |ranges| :: lo <= i < hi <==> Picked(ranges, start, end, ranges[i])
    {
      var s := Search(start);
      var e := Search(end);
      if s == -1 && e == -1 {
        lo, hi := 0, 0;
      } else if s == -1 {
        lo, hi := 0, e + 1;
      } else if e == -1 {
        lo, hi := s, |ranges|;
      } else {
        lo, hi := s, e + 1;
      }
    }

    method GetRanges(start: int, end: int) returns (selected: seq<Range>)
      requires SortedDisjoint(ranges) && start <= end
      ensures SortedDisjoint(selected)
      ensures forall r :: r in selected <==> r in ranges && Picked(ranges, start, end, r)
    {
      var lo, hi := GetRangesBounds(start, end);
      selected := ranges[lo..hi];
      forall r | r in ranges && Picked(ranges, start, end, r)
        ensures r in selected
      {
        var i :| 0 <= i < |ranges| && ranges[i] == r;
        assert selected[i - lo] == r;
      }
    }
  }

  // ------------------------------------------------------------------- events

  ghost predicate Increasing(events: seq<int>) {
    forall i, j | 0 <= i < j < |events| :: events[i] < events[j]
  }

  class TimelineEvent {
    var events: seq<int>   // the times; the values they carry are not read here

    constructor ()
      ensures events == []
    {
      events := [];
    }

    method AddEvent(at: int)
      modifies this
      ensures events == old(events) + [at]
    {
      events := events + [at];
    }

    // The first event at or after the key.
    method Search(key: int) returns (index: nat)
      requires Increasing(events)
      ensures index <= |events|
      ensures forall k | 0 <= k < index :: events[k] < key
      ensures forall k | index <= k < |events| :: events[k] >= key
    {
      var l, u := 0, |events| - 1;
      while l <= u
        invariant 0 <= l <= u + 1 <= |events|
        invariant forall k | 0 <= k < l :: events[k] < key
        invariant forall k | u < k < |events| :: events[k] > key
        decreases u - l
      {
        var i := (l + u) / 2;
        if key == events[i] {
          return i;
        } else if key < events[i] {
          u := i - 1;
        } else {
          l := i + 1;
        }
      }
      return l;
    }

    // An event is selected if and only if it is not before start and no event
    // ahead of it reaches end.
    method GetEventsBounds(start: int, end: int) returns (lo: nat, hi: nat)
      requires Increasing(events) && start <= end
      ensures lo < hi <= |events| + 1
      ensures forall k | 0 <= k < |events| :: lo <= k < hi <==> Selected(events, start, end, k)
    {
      var s := Search(start);
      var e := Search(end);
      assert e < |events| ==> events[e] >= start;
      forall k | 0 <= k < |events|
        ensures k <= e <==> NoneReaches(events, k, end)
      {
        assert k > e ==> events[e] >= end;
      }
      return s, e + 1;
    }

    // The slice stops at the end of the list.
    method GetEvents(start: int, end: int) returns (selected: seq<int>)
      requires Increasing(events) && start <= end
      ensures Increasing(selected)
      ensures forall t ::
                t in selected <==> exists k | 0 <= k < |events| :: events[k] == t && Selected(events, start, end, k)
    {
      var lo, hi := GetEventsBounds(start, end);
      if hi > |events| {
        hi := |events|;
      }
      selected := events[lo..hi];
      forall t
        ensures t in selected <==> exists k | 0 <= k < |events| :: events[k] == t && Selected(events, start, end, k)
      {
        if k :| 0 <= k < |events| && events[k] == t && Selected(events, start, end, k) {
          assert selected[k - lo] == t;
        }
        if t in selected {
          var m :| 0 <= m < |selected| && selected[m] == t;
          assert events[lo + m] == t && Selected(events, start, end, lo + m);
        }
      }
    }
  }

  ghost predicate Selected(events: seq<int>, start: int, end: int, k: nat)
    requires k < |events|
  {
    events[k] >= start && NoneReaches(events, k, end)
  }

  ghost predicate NoneReaches(events: seq<int>, k: nat, end: int)
    requires k <= |events|
  {
    forall j | 0 <= j < k :: events[j] < end
  }

  // All events in [start, end] are selected; one selected event may lie after
  // end, and it does exactly when some event is later than end but none is at
  // end itself: then it is the first later one.
  lemma SelectedEvents(events: seq<int>, start: int, end: int)
    requires Increasing(events) && start <= end
    ensures forall k | 0 <= k < |events| && start <= events[k] <= end :: Selected(events, start, end, k)
    ensures forall k | 0 <= k < |events| && Selected(events, start, end, k) && events[k] > end ::
              end !in events && forall j | 0 <= j < |events| && events[j] > end :: j >= k
    ensures (exists k | 0 <= k < |events| :: Selected(events, start, end, k) && events[k] > end) <==>
              end !in events && exists t :: t in events && t > end
  {
    if k :| 0 <= k < |events| && Selected(events, start, end, k) && events[k] > end {
      assert events[k] in events;
    }
    if end !in events && exists t :: t in events && t > end {
      var t :| t in events && t > end;
      var k :| 0 <= k < |events| && events[k] == t;
      var first := FirstLater(events, end, k);
      assert forall j | 0 <= j < first :: events[j] in events;
      assert Selected(events, start, end, first);
    }
  }

  lemma {:induction false} FirstLater(events: seq<int>, end: int, k: nat) returns (first: nat)
    requires k < |events| && events[k] > end
    ensures first <= k && events[first] > end && forall j | 0 <= j < first :: events[j] <= end
    decreases k
  {
    if j :| 0 <= j < k && events[j] > end {
      first := FirstLater(events, end, j);
    } else {
      first := k;
    }
  }
}
