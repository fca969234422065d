/**
 * The temporal smoother of the monitoring loop: a bounded window of the most
 * recent raw car counts, its median truncated to an integer, and the
 * occupied / free arithmetic against the configured number of spots.
 */
module Smoothing {

  /** The window holds at most this many counts, like a `deque(maxlen=9)`. */
  const Capacity: nat := 9

  /** The last `n` elements of `s`, or all of `s` when it is shorter. */
  function LastN(s: seq<nat>, n: nat): (r: seq<nat>)
    ensures |r| == if |s| <= n then |s| else n
  {
    if |s| <= n then s else s[|s| - n..]
  }

  /** `LastN(s, n)` is what remains of `s` after dropping its oldest elements. */
  lemma LastNIsSuffix(s: seq<nat>, n: nat)
    ensures s == s[..|s| - |LastN(s, n)|] + LastN(s, n)
  {
  }

  /** The window after the counts `xs` were appended to `w` one at a time. */
  function AppendAll(w: seq<nat>, xs: seq<nat>): seq<nat>
  {
    if xs == [] then w else LastN(AppendAll(w, xs[..|xs| - 1]) + [xs[|xs| - 1]], Capacity)
  }

  lemma LastNAppendOne(u: seq<nat>, x: nat, n: nat)
    ensures LastN(LastN(u, n) + [x], n) == LastN(u + [x], n)
  {
  }

  /** Appending counts one by one keeps exactly the last `Capacity` of everything seen. */
  lemma {:induction false} AppendAllIsLastN(w: seq<nat>, xs: seq<nat>)
    requires |w| <= Capacity
    ensures AppendAll(w, xs) == LastN(w + xs, Capacity)
    decreases |xs|
  {
    if xs == [] {
      assert w + xs == w;
    } else {
      var init := xs[..|xs| - 1];
      var x := xs[|xs| - 1];
      AppendAllIsLastN(w, init);
      LastNAppendOne(w + init, x, Capacity);
      assert w + xs == (w + init) + [x];
    }
  }

  /**
   * Started empty, the window never holds more than `Capacity` counts and
   * always equals the last `min(n, Capacity)` counts in arrival order.
   */
  lemma WindowIsRecentCounts(xs: seq<nat>)
    ensures |AppendAll([], xs)| <= Capacity
    ensures var k := if |xs| < Capacity then |xs| else Capacity;
      AppendAll([], xs) == xs[|xs| - k..]
  {
    AppendAllIsLastN([], xs);
    assert [] + xs == xs;
  }

  /** The window of recent counts as it is kept across cycles. */
  class HistoryWindow {
    var items: seq<nat>

    ghost predicate Valid()
      reads this
    {
      |items| <= Capacity
    }

    constructor ()
      ensures Valid() && items == []
    {
      items := [];
    }

    /** Append a count; when the window is full the oldest count is evicted. */
    method Append(x: nat)
      requires Valid()
      modifies this
      ensures Valid()
      ensures items == LastN(old(items) + [x], Capacity)
    {
      items := items + [x];
      if |items| > Capacity {
        items := items[1..];
      }
    }
  }

  // ---------------------------------------------------------------------------
  // Median

  /** Ascending order, stated on neighbours. */
  predicate SortedAsc(s: seq<nat>)
  {
    forall i :: 0 < i < |s| ==> s[i - 1] <= s[i]
  }

  /** `x` placed before the first element of `s` that is not smaller. */
  function Insert(x: nat, s: seq<nat>): (r: seq<nat>)
    ensures multiset(r) == multiset(s) + multiset{x}
    ensures |r| == |s| + 1
  {
    if s == [] then [x]
    else if x <= s[0] then [x] + s
    else
      assert s == [s[0]] + s[1..];
      var r' := Insert(x, s[1..]);
      assert multiset([s[0]] + r') == multiset{s[0]} + multiset(r');
      [s[0]] + r'
  }

  lemma ConsSorted(a: nat, r: seq<nat>)
    requires SortedAsc(r) && (r == [] || a <= r[0])
    ensures SortedAsc([a] + r)
  {
  }

  lemma TailSorted(s: seq<nat>)
    requires s != [] && SortedAsc(s)
    ensures SortedAsc(s[1..])
  {
  }

  /** Inserting into a sorted sequence keeps it sorted. */
  lemma {:induction false} InsertSorted(x: nat, s: seq<nat>)
    requires SortedAsc(s)
    ensures SortedAsc(Insert(x, s))
    ensures Insert(x, s)[0] == x || (s != [] && Insert(x, s)[0] == s[0])
  {
    if s != [] && x > s[0] {
      TailSorted(s);
      InsertSorted(x, s[1..]);
      var r' := Insert(x, s[1..]);
      assert |s| > 1 ==> s[0] <= s[1];
      assert s[0] <= r'[0];
      ConsSorted(s[0], r');
    } else if s != [] {
      ConsSorted(x, s);
    }
  }

  /** The counts of `s` in ascending order. */
  function SortAsc(s: seq<nat>): (r: seq<nat>)
    ensures SortedAsc(r)
    ensures multiset(r) == multiset(s)
    ensures |r| == |s|
  {
    if s == [] then []
    else
      assert s == [s[0]] + s[1..];
      var t := SortAsc(s[1..]);
      InsertSorted(s[0], t);
      Insert(s[0], t)
  }

  /**
   * `int(np.median(window))`: the middle count of the sorted window, or for an
   * even length the two middle counts averaged and truncated (all counts are
   * non-negative, so truncation is division rounding down).
   */
  function Median(window: seq<nat>): (m: nat)
    requires window != []
    ensures |window| % 2 == 1 ==> m in window
  {
    var t := SortAsc(window);
    assert t[|t| / 2] in multiset(t);
    Middle(t)
  }

  /**
   * The middle element of `t`, or the two middle ones averaged and rounded
   * down; either way a value between the two middle elements.
   */
  function Middle(t: seq<nat>): (m: nat)
    requires t != []
    ensures t[(|t| - 1) / 2] <= m <= t[|t| / 2] || t[|t| / 2] <= m <= t[(|t| - 1) / 2]
    ensures |t| % 2 == 1 ==> m == t[|t| / 2]
  {
    var n := |t|;
    if n % 2 == 1 then t[n / 2] else (t[n / 2 - 1] + t[n / 2]) / 2
  }

  lemma {:induction false} SortedAscMonotone(s: seq<nat>, i: nat, j: nat)
    requires SortedAsc(s) && i <= j < |s|
    ensures s[i] <= s[j]
    decreases j - i
  {
    if i < j {
      SortedAscMonotone(s, i, j - 1);
    }
  }

  lemma SortedElementInWindow(window: seq<nat>, k: nat)
    requires k < |window|
    ensures |SortAsc(window)| == |window|
    ensures SortAsc(window)[k] in window
  {
    var t := SortAsc(window);
    assert |t| == |multiset(t)| == |multiset(window)| == |window|;
    assert t[k] in multiset(t);
  }

  /** The smoothed count lies between any lower and any upper bound of the window. */
  lemma MedianWithinBounds(window: seq<nat>, lo: nat, hi: nat)
    requires window != []
    requires forall i :: 0 <= i < |window| ==> lo <= window[i] <= hi
    ensures lo <= Median(window) <= hi
  {
    var n := |window|;
    SortedElementInWindow(window, n / 2);
    if n % 2 == 0 {
      SortedElementInWindow(window, n / 2 - 1);
    }
  }

  /** The middle of a sorted sequence lies between its first and last elements. */
  lemma MiddleBetweenEnds(t: seq<nat>)
    requires t != [] && SortedAsc(t)
    ensures t[0] <= Middle(t) <= t[|t| - 1]
  {
    var n := |t|;
    SortedAscMonotone(t, 0, n / 2);
    SortedAscMonotone(t, n / 2, n - 1);
    if n % 2 == 0 {
      SortedAscMonotone(t, 0, n / 2 - 1);
      SortedAscMonotone(t, n / 2 - 1, n - 1);
    }
  }

  /** The smoothed count lies between the first and the last of the sorted window. */
  lemma MedianBetweenEnds(window: seq<nat>)
    requires window != []
    ensures |SortAsc(window)| == |window|
    ensures SortAsc(window)[0] <= Median(window) <= SortAsc(window)[|window| - 1]
  {
    SortedElementInWindow(window, 0);
    MiddleBetweenEnds(SortAsc(window));
  }

  /** The smoothed count is at least the smallest and at most the largest count held. */
  lemma MedianBetweenHeldCounts(window: seq<nat>)
    requires window != []
    ensures exists i :: 0 <= i < |window| && window[i] <= Median(window)
    ensures exists j :: 0 <= j < |window| && Median(window) <= window[j]
  {
    var n := |window|;
    MedianBetweenEnds(window);
    SortedElementInWindow(window, 0);
    SortedElementInWindow(window, n - 1);
    var t := SortAsc(window);
    var i :| 0 <= i < n && window[i] == t[0];
    var j :| 0 <= j < n && window[j] == t[n - 1];
    assert window[i] <= Median(window);
    assert Median(window) <= window[j];
  }

  lemma SortAscCons(x: nat, s: seq<nat>)
    ensures SortAsc([x] + s) == Insert(x, SortAsc(s))
  {
    assert ([x] + s)[1..] == s;
  }

  lemma {:induction false} InsertAtEnd(x: nat, s: seq<nat>)
    requires SortedAsc(s)
    requires forall k :: 0 <= k < |s| ==> s[k] < x
    ensures Insert(x, s) == s + [x]
  {
    if s != [] {
      InsertAtEnd(x, s[1..]);
      assert s == [s[0]] + s[1..];
    }
  }

  lemma InsertSmallest(x: nat, s: seq<nat>)
    requires SortedAsc(s) && (s == [] || x <= s[0])
    ensures Insert(x, s) == [x] + s
  {
  }

  /** A window of equal counts sorts to itself. */
  lemma {:induction false} SortAscConstant(s: seq<nat>, v: nat)
    requires forall k :: 0 <= k < |s| ==> s[k] == v
    ensures SortAsc(s) == s
  {
    if s != [] {
      SortAscConstant(s[1..], v);
      assert s == [s[0]] + s[1..];
      SortAscCons(s[0], s[1..]);
      InsertSmallest(s[0], s[1..]);
    }
  }

  /** Putting a count above all others in front of a sorted window moves it to the end. */
  lemma SortAscConsLargest(x: nat, s: seq<nat>)
    requires SortAsc(s) == s
    requires forall k :: 0 <= k < |s| ==> s[k] < x
    ensures SortAsc([x] + s) == s + [x]
  {
    SortAscCons(x, s);
    InsertAtEnd(x, s);
  }

  /**
   * Two outliers in a full window of nine are suppressed: a window holding `lo`,
   * then `hi`, then seven equal counts `v` with `lo <= v < hi` smooths to `v`
   * (for instance [3, 10, 4, 4, 4, 4, 4, 4, 4] smooths to 4).
   */
  lemma MedianSuppressesOutliers(lo: nat, hi: nat, v: nat, rest: seq<nat>)
    requires lo <= v < hi
    requires |rest| == 7 && forall k :: 0 <= k < |rest| ==> rest[k] == v
    ensures Median([lo, hi] + rest) == v
  {
    var sorted := [lo] + rest + [hi];
    SortOutlierWindow(lo, hi, v, rest);
    assert Median([lo, hi] + rest) == Middle(sorted);
    assert |sorted| == 9 && sorted[4] == rest[3];
  }

  /** Sorting `[lo, hi]` followed by seven counts `v` puts `lo` first and `hi` last. */
  lemma SortOutlierWindow(lo: nat, hi: nat, v: nat, rest: seq<nat>)
    requires lo <= v < hi
    requires |rest| == 7 && forall k :: 0 <= k < |rest| ==> rest[k] == v
    ensures SortAsc([lo, hi] + rest) == [lo] + rest + [hi]
  {
    SortAscConstant(rest, v);
    SortAscConsLargest(hi, rest);
    SortAscCons(lo, [hi] + rest);
    assert [lo, hi] + rest == [lo] + ([hi] + rest);
    InsertSmallest(lo, rest + [hi]);
    assert [lo] + (rest + [hi]) == [lo] + rest + [hi];
  }

  // ---------------------------------------------------------------------------
  // Occupied and free spots

  /** `min(count, total)`: the number of spots taken as occupied. */
  function OccupiedSpots(count: int, total: int): (r: int)
    ensures r <= count && r <= total && (r == count || r == total)
  {
    if count < total then count else total
  }

  /** `max(0, total - occupied)`: the number of free spots. */
  function FreeSpots(occupied: int, total: int): (r: nat)
    ensures r >= total - occupied && (r == 0 || r == total - occupied)
  {
    if total - occupied > 0 then total - occupied else 0
  }

  /**
   * With a non-negative total, the occupied spots are the smaller of the count
   * and the total, and free and occupied spots add up to the total.
   */
  lemma FreeCountBalance(count: nat, total: int)
    requires total >= 0
    ensures var occupied := OccupiedSpots(count, total);
      var free := FreeSpots(occupied, total);
      && occupied <= count && occupied <= total && (occupied == count || occupied == total)
      && 0 <= occupied
      && 0 <= free <= total
      && free + occupied == total
  {
  }
}
