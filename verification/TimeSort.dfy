/**
 Sorting the times of attempts with the comparator of the program, and pruning what is sorted.

 The comparator returns an unsigned difference as an int.  That is no order on all unsigned numbers, so a
 sort is taken to yield any arrangement in which the comparator accepts each pair of neighbours.
 */
module TimeSort {
  import opened Numerals
  import opened LoginState

  const HALF: int := 0x8000_0000

  /** comparator */
  function Compare(a: nat, b: nat): int {
    ToInt(ToUnsigned(a - b))
  }

  predicate Arranged(ts: seq<nat>) {
    |ts| <= 1 || (Compare(ts[0], ts[1]) <= 0 && Arranged(ts[1..]))
  }

  /** `ts` is what sorting `times` may come to. */
  predicate Arranges(times: seq<nat>, ts: seq<nat>) {
    multiset(ts) == multiset(times) && Arranged(ts)
  }

  predicate Sorted(times: seq<nat>) {
    forall x, y :: 0 <= x < y < |times| ==> times[x] <= times[y]
  }

  /** All times are closer to each other than half of the unsigned numbers. */
  predicate Narrow(times: seq<nat>) {
    forall a, b :: a in times && b in times ==> a - b < HALF
  }

  // ---------- the comparator ----------

  /** The comparator tells which of two times is earlier exactly when they are less than 2^31 apart. */
  lemma CompareIsOrder(a: nat, b: nat)
    requires a < 0x1_0000_0000 && b < 0x1_0000_0000
    ensures (Compare(a, b) < 0 <==> a < b) && (Compare(b, a) < 0 <==> b < a) <==> -HALF < a - b < HALF
  {
  }

  lemma NotBoth(a: nat, b: nat)
    requires Compare(a, b) > 0
    ensures Compare(b, a) < 0
  {
  }

  lemma CompareEqual(a: nat, b: nat)
    requires a < 0x1_0000_0000 && b < 0x1_0000_0000
    ensures Compare(a, b) == 0 <==> a == b
  {
  }

  // ---------- arrangements ----------

  function Insert(ts: seq<nat>, t: nat): seq<nat> {
    if ts == [] || Compare(t, ts[0]) <= 0 then [t] + ts else [ts[0]] + Insert(ts[1..], t)
  }

  /** One arrangement there always is. */
  function Arrange(times: seq<nat>): seq<nat> {
    if times == [] then [] else Insert(Arrange(times[1..]), times[0])
  }

  lemma {:induction false} InsertArranged(ts: seq<nat>, t: nat)
    requires Arranged(ts)
    ensures Arranged(Insert(ts, t))
    decreases |ts|
  {
    hide Compare;
    if ts != [] && Compare(t, ts[0]) > 0 {
      NotBoth(t, ts[0]);
      InsertArranged(ts[1..], t);
      assert Insert(ts, t)[1..] == Insert(ts[1..], t);
    } else {
      assert ([t] + ts)[1..] == ts;
    }
  }

  lemma {:induction false} InsertMembers(ts: seq<nat>, t: nat)
    ensures multiset(Insert(ts, t)) == multiset(ts) + multiset{t}
    decreases |ts|
  {
    hide Compare;
    if ts != [] && Compare(t, ts[0]) > 0 {
      InsertMembers(ts[1..], t);
      FirstAndRest(ts);
    }
  }

  lemma FirstAndRest(ts: seq<nat>)
    requires ts != []
    ensures multiset(ts) == multiset{ts[0]} + multiset(ts[1..]) && multiset(ts[1..]) == multiset(ts) - multiset{ts[0]}
  {
    assert ts == [ts[0]] + ts[1..];
  }

  lemma {:induction false} ArrangeArranges(times: seq<nat>)
    ensures Arranges(times, Arrange(times))
    decreases |times|
  {
    hide Insert, Arranged;
    if times == [] {
      NothingArranged();
    } else {
      ArrangeArranges(times[1..]);
      InsertArranged(Arrange(times[1..]), times[0]);
      InsertMembers(Arrange(times[1..]), times[0]);
      FirstAndRest(times);
    }
  }

  lemma NothingArranged()
    ensures Arranged([])
  {
  }

  lemma Members(times: seq<nat>, ts: seq<nat>, t: nat)
    requires multiset(ts) == multiset(times)
    ensures t in ts <==> t in times
  {
    assert t in multiset(ts) <==> t in multiset(times);
  }

  /** Among times less than 2^31 apart, neighbours decide about all. */
  lemma {:induction false} NarrowSorted(ts: seq<nat>)
    requires Arranged(ts) && Narrow(ts) && Unsigned(ts)
    ensures Sorted(ts)
    decreases |ts|
  {
    hide Compare;
    if |ts| > 1 {
      var rest := ts[1..];
      assert forall t :: t in rest ==> t in ts;
      NarrowSorted(rest);
      CompareIsOrder(ts[0], ts[1]);
      CompareEqual(ts[0], ts[1]);
      assert ts[0] in ts && ts[1] in ts && rest[0] == ts[1];
      assert forall x :: 0 < x < |ts| ==> ts[x] == rest[x - 1];
    }
  }

  /** Two sorted lists of the same times are the same list. */
  lemma {:induction false} SortedUnique(a: seq<nat>, b: seq<nat>)
    requires Sorted(a) && Sorted(b) && multiset(a) == multiset(b)
    ensures a == b
    decreases |a|
  {
    assert |multiset(b)| == |multiset(a)| == |a|;
    if a != [] {
      FirstIsLeast(a, b);
      FirstIsLeast(b, a);
      FirstAndRest(a);
      FirstAndRest(b);
      SortedUnique(a[1..], b[1..]);
    }
  }

  lemma FirstIsLeast(a: seq<nat>, b: seq<nat>)
    requires Sorted(a) && multiset(a) == multiset(b) && a != [] && b != []
    ensures a[0] <= b[0]
  {
    Members(a, b, b[0]);
  }

  lemma {:induction false} ArrangedFront(ts: seq<nat>)
    requires Arranged(ts) && ts != []
    ensures Arranged(ts[..|ts| - 1])
    decreases |ts|
  {
    hide Compare;
    if |ts| > 1 {
      ArrangedFront(ts[1..]);
      assert ts[..|ts| - 1][1..] == ts[1..][..|ts| - 2];
    }
  }

  lemma FarIsBefore(a: nat, b: nat)
    requires a < 0x1_0000_0000 && a - b >= HALF
    ensures Compare(a, b) < 0
  {
  }

  lemma SortedSpan(ts: seq<nat>)
    requires Sorted(ts) && !Narrow(ts)
    ensures |ts| > 1 && ts[|ts| - 1] - ts[0] >= HALF
  {
    var a, b :| a in ts && b in ts && a - b >= HALF;
    assert ts[0] <= b && a <= ts[|ts| - 1];
  }

  /** The last time put in front, which the comparator accepts when it is half of all numbers away. */
  lemma Rotated(times: seq<nat>, ts: seq<nat>)
    requires Arranges(times, ts) && Sorted(ts) && Unsigned(ts) && !Narrow(ts)
    ensures |ts| > 1 && var turned := [ts[|ts| - 1]] + ts[..|ts| - 1]; Arranges(times, turned) && !Sorted(turned)
  {
    hide Compare, Narrow;
    var n := |ts| - 1;
    SortedSpan(ts);
    var turned := [ts[n]] + ts[..n];
    assert turned[0] > turned[1];
    FarIsBefore(ts[n], ts[0]);
    ArrangedFront(ts);
    assert turned[1..] == ts[..n];
    assert ts == ts[..n] + [ts[n]];
  }

  /** The sort yields numeric order, whichever arrangement it chooses, exactly when the times are narrow. */
  lemma SortIsNumeric(times: seq<nat>)
    requires Unsigned(times)
    ensures (forall ts :: Arranges(times, ts) ==> Sorted(ts)) <==> Narrow(times)
  {
    hide Compare, Arranged;
    if Narrow(times) {
      forall ts | Arranges(times, ts)
        ensures Sorted(ts)
      {
        SameSpan(times, ts);
        NarrowSorted(ts);
      }
    } else {
      var ts := Arrange(times);
      ArrangeArranges(times);
      SameSpan(times, ts);
      if Sorted(ts) {
        Rotated(times, ts);
      }
    }
  }

  lemma SameSpan(times: seq<nat>, ts: seq<nat>)
    requires multiset(ts) == multiset(times)
    ensures (Narrow(ts) <==> Narrow(times)) && (Unsigned(times) ==> Unsigned(ts))
  {
    forall t ensures t in ts <==> t in times {
      Members(times, ts, t);
    }
    if Unsigned(times) {
      forall x | 0 <= x < |ts|
        ensures ts[x] < 0x1_0000_0000
      {
        assert ts[x] in times;
      }
    }
  }

  /** Among narrow times the comparator leaves no choice. */
  lemma OneArrangement(times: seq<nat>, ts: seq<nat>)
    requires Unsigned(times) && Narrow(times) && Arranges(times, ts)
    ensures ts == Arrange(times) && Sorted(ts)
  {
    hide Compare, Arranged, Narrow, Sorted, Unsigned;
    ArrangeArranges(times);
    SortIsNumeric(times);
    assert Arranges(times, Arrange(times));
    SortedUnique(ts, Arrange(times));
  }

  // ---------- pruning ----------

  /** What the pruning loop keeps of arranged times; `kept` is what it has kept before. */
  function Pruned(ts: seq<nat>, low: nat, high: nat, kept: seq<nat>): seq<nat> {
    if ts == [] then kept
    else if ts[0] < low then Pruned(ts[1..], low, high, [])
    else if ts[0] > high then kept
    else Pruned(ts[1..], low, high, kept + [ts[0]])
  }

  function Within(times: seq<nat>, low: int, high: int): seq<nat> {
    if times == [] then []
    else (if low <= times[0] <= high then [times[0]] else []) + Within(times[1..], low, high)
  }

  predicate AtLeast(times: seq<nat>, low: nat) {
    forall x :: 0 <= x < |times| ==> low <= times[x]
  }

  /** Of sorted times exactly those of the interval are kept. */
  lemma {:induction false} PrunedSorted(ts: seq<nat>, low: nat, high: nat, kept: seq<nat>)
    requires Sorted(ts) && (kept == [] || AtLeast(ts, low))
    ensures Pruned(ts, low, high, kept) == kept + Within(ts, low, high)
    decreases |ts|
  {
    hide Sorted, AtLeast;
    if ts != [] {
      SortedRest(ts, low);
      var rest := ts[1..];
      if ts[0] < low {
        FirstOf(ts, low);
        PrunedSorted(rest, low, high, []);
      } else if ts[0] > high {
        SortedRest(ts, high + 1);
        NoneWithin(ts, low, high);
      } else {
        PrunedSorted(rest, low, high, kept + [ts[0]]);
        assert kept + [ts[0]] + Within(rest, low, high) == kept + ([ts[0]] + Within(rest, low, high));
      }
    }
  }

  lemma SortedRest(ts: seq<nat>, low: nat)
    requires Sorted(ts) && ts != []
    ensures Sorted(ts[1..]) && (low <= ts[0] ==> AtLeast(ts, low) && AtLeast(ts[1..], low))
  {
  }

  lemma FirstOf(ts: seq<nat>, low: nat)
    requires ts != [] && ts[0] < low
    ensures !AtLeast(ts, low)
  {
  }

  lemma {:induction false} NoneWithin(ts: seq<nat>, low: nat, high: nat)
    requires AtLeast(ts, high + 1)
    ensures Within(ts, low, high) == []
    decreases |ts|
  {
    if ts != [] {
      NoneWithin(ts[1..], low, high);
    }
  }

  /** Whatever the arrangement, what is kept is not in the future. */
  lemma {:induction false} PrunedBounds(ts: seq<nat>, low: nat, high: nat, kept: seq<nat>)
    requires forall t :: t in kept ==> t <= high
    ensures forall t :: t in Pruned(ts, low, high, kept) ==> t <= high
    decreases |ts|
  {
    if ts != [] && ts[0] < low {
      PrunedBounds(ts[1..], low, high, []);
    } else if ts != [] && ts[0] <= high {
      PrunedBounds(ts[1..], low, high, kept + [ts[0]]);
    }
  }
}
