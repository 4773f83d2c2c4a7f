/** Counting instants in windows of time. Instants are whole nanoseconds, so that a window closed at
    its end is the half-open one that ends a nanosecond later.
 */
module Windows {

  ghost predicate Ascending(times: seq<int>) {
    forall i, j :: 0 <= i < j < |times| ==> times[i] <= times[j]
  }

  lemma AscendingOn(times: seq<int>, t: int)
    requires Ascending(times) && (times != [] ==> times[|times| - 1] <= t)
    ensures Ascending(times + [t])
  {
  }

  /** How many of the times lie in the half-open window [from, to). */
  function CountIn(times: seq<int>, from: int, to: int): nat {
    if times == [] then 0 else
      CountIn(times[..|times| - 1], from, to) + (if from <= times[|times| - 1] < to then 1 else 0)
  }

  lemma CountOn(times: seq<int>, t: int, from: int, to: int)
    ensures CountIn(times + [t], from, to) == CountIn(times, from, to) + (if from <= t < to then 1 else 0)
    ensures times + [] == times
  {
    var more := times + [t];
    assert more[..|more| - 1] == times;
  }

  /** What a window counts lies between the first time in it and the last. */
  lemma {:induction false} WindowEnds(times: seq<int>, from: int, to: int) returns (i: int, j: int)
    requires Ascending(times) && CountIn(times, from, to) > 0
    ensures 0 <= i <= j < |times| && from <= times[i] && times[j] < to
    ensures CountIn(times, from, to) <= j - i + 1
  {
    var n := |times| - 1;
    if CountIn(times[..n], from, to) > 0 {
      i, j := WindowEnds(times[..n], from, to);
      if times[n] < to { j := n; }
    } else {
      i, j := n, n;
    }
  }

  lemma {:induction false} WindowsAdd(times: seq<int>, from: int, mid: int, to: int)
    requires from <= mid <= to
    ensures CountIn(times, from, to) == CountIn(times, from, mid) + CountIn(times, mid, to)
  {
    if times != [] { WindowsAdd(times[..|times| - 1], from, mid, to); }
  }

  lemma {:induction false} EmptyWindow(times: seq<int>, from: int)
    ensures CountIn(times, from, from) == 0
  {
    if times != [] { EmptyWindow(times[..|times| - 1], from); }
  }

  /** The places at which a time in the window stands. */
  ghost function PlacesIn(times: seq<int>, from: int, to: int): set<int> {
    set i | 0 <= i < |times| && from <= times[i] < to
  }

  lemma LastPlace(times: seq<int>, from: int, to: int)
    requires times != []
    ensures var n := |times| - 1;
      && n !in PlacesIn(times[..n], from, to)
      && PlacesIn(times, from, to) == PlacesIn(times[..n], from, to) + (if from <= times[n] < to then {n} else {})
  {
  }

  lemma {:induction false} CountInIsCount(times: seq<int>, from: int, to: int)
    ensures CountIn(times, from, to) == |PlacesIn(times, from, to)|
  {
    if times != [] {
      CountInIsCount(times[..|times| - 1], from, to);
      LastPlace(times, from, to);
    }
  }
}
