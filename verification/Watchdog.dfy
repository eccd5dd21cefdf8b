/** The watchdog that closes a connection delivering too little for a whole window. */
module Watchdog {
  import opened Objects

  const WINDOWS: nat := 4
  const SECOND: nat := 1_000_000_000

  /** Fewest bytes an interval of this many nanoseconds must bring to keep up with the floor. */
  function Minimum(floor: int, interval: nat): (m: nat)
    ensures m >= 1 && (floor <= 0 ==> m == 1)
  {
    if floor <= 0 then 1 else Max(1, floor * interval / SECOND)
  }

  /** An interval is short exactly when it brought nothing, or too little to keep up with the floor even with one more
      byte. */
  lemma ShortExactlyWhen(floor: int, interval: nat, d: nat)
    ensures d < Minimum(floor, interval) <==> d == 0 || (floor > 0 && (d + 1) * SECOND <= floor * interval)
  {
    if floor > 0 {
      assert floor * interval >= 0;
    }
  }

  /** Nanoseconds from one check to the next. */
  function Interval(window: nat): (interval: nat)
    ensures 0 <= window - WINDOWS * interval < 4
  {
    window / 4
  }

  /** The final allowed connection is held to progress only, not to a rate. */
  function ArmedFloor(attempts: nat, limit: int, floor: int): int {
    if attempts >= limit then 0 else floor
  }

  /** How many of the latest intervals in a row brought less than `minimum`. */
  function Slow(intervals: seq<nat>, minimum: nat): (n: nat)
    ensures n <= |intervals|
    ensures forall i :: |intervals| - n <= i < |intervals| ==> intervals[i] < minimum
    ensures n < |intervals| ==> intervals[|intervals| - n - 1] >= minimum
  {
    if intervals == [] || intervals[|intervals| - 1] >= minimum then 0
    else 1 + Slow(intervals[..|intervals| - 1], minimum)
  }

  /** The four intervals before check `k`. */
  function Window(intervals: seq<nat>, k: nat): (four: seq<nat>)
    requires WINDOWS <= k <= |intervals|
    ensures |four| == WINDOWS
  {
    intervals[k - WINDOWS..k]
  }

  /** The four intervals before check `k` all brought less than `minimum`. */
  ghost predicate Starved(intervals: seq<nat>, minimum: nat, k: nat) {
    WINDOWS <= k <= |intervals| && forall d :: d in Window(intervals, k) ==> d < minimum
  }

  lemma StarvedIsSlow(intervals: seq<nat>, minimum: nat)
    ensures Starved(intervals, minimum, |intervals|) <==> Slow(intervals, minimum) >= WINDOWS
  {
    var n := Slow(intervals, minimum);
    if WINDOWS <= |intervals| {
      var four := Window(intervals, |intervals|);
      if n < WINDOWS {
        assert four[WINDOWS - 1 - n] >= minimum && four[WINDOWS - 1 - n] in four;
      } else {
        assert forall i :: 0 <= i < WINDOWS ==> four[i] < minimum;
      }
    }
  }

  /** One more interval: the count of slow ones, and whether the connection starved now or before. */
  lemma Appended(before: seq<nat>, d: nat, minimum: nat)
    ensures var after := before + [d];
            && Slow(after, minimum) == (if d < minimum then Slow(before, minimum) + 1 else 0)
            && (Starved(after, minimum, |after|) <==> Slow(after, minimum) >= WINDOWS)
            && (forall k: nat :: k <= |before| ==> Starved(after, minimum, k) == Starved(before, minimum, k))
  {
    assert (before + [d])[..|before|] == before;
    StarvedIsSlow(before + [d], minimum);
    forall k: nat | WINDOWS <= k <= |before|
      ensures Window(before + [d], k) == Window(before, k)
    {
    }
  }

  class Watchdog {
    const floor: int
    const interval: nat
    var bytes: nat
    var below: nat
    var last: nat
    var stopped: bool
    var targetClosed: bool         // the timer is not reset after this
    ghost var intervals: seq<nat>  // bytes brought in each interval checked so far

    /** It closes its target at the first check that follows four starved intervals, and at no other. */
    ghost predicate Valid()
      reads this
    {
      var minimum := Minimum(floor, interval);
      && last <= bytes
      && below == Slow(intervals, minimum)
      && (targetClosed <==> Starved(intervals, minimum, |intervals|))
      && (forall k: nat :: k < |intervals| ==> !Starved(intervals, minimum, k))
    }

    constructor (floor: int, window: nat)
      ensures Valid() && this.floor == floor && interval == Interval(window)
      ensures intervals == [] && bytes == 0 && !stopped && !targetClosed
    {
      this.floor, this.interval := floor, Interval(window);
      bytes, below, last, stopped, targetClosed, intervals := 0, 0, 0, false, false, [];
    }

    method Progress(n: nat)
      requires Valid()
      modifies this`bytes
      ensures Valid() && bytes == old(bytes) + n
    {
      bytes := bytes + n;
    }

    method Stop()
      requires Valid()
      modifies this`stopped
      ensures Valid() && stopped
    {
      stopped := true;
    }

    /** The timer fires; it may do so once more after Stop. A Stop that comes while the check runs, after it looked at
        the flag, does not hold this check back. */
    method Check(stopsMidway: bool)
      requires Valid() && !targetClosed
      modifies this
      ensures Valid() && bytes == old(bytes) && stopped == (old(stopped) || stopsMidway)
      ensures old(stopped) ==> intervals == old(intervals) && !targetClosed
      ensures !old(stopped) ==> intervals == old(intervals) + [bytes - old(last)] && last == bytes
    {
      hide Minimum, Starved, Slow;
      if stopped {
        return;
      }
      if stopsMidway {
        stopped := true;
      }
      var minimum := Minimum(floor, interval);
      Appended(intervals, bytes - last, minimum);
      intervals := intervals + [bytes - last];
      if bytes - last < minimum {
        below := below + 1;
      } else {
        below := 0;
      }
      last := bytes;
      if below >= WINDOWS {
        targetClosed := true;
      }
    }
  }

  function Sum(xs: seq<nat>): nat {
    if xs == [] then 0 else xs[0] + Sum(xs[1..])
  }

  lemma SumFour(xs: seq<nat>)
    requires |xs| == WINDOWS
    ensures Sum(xs) == xs[0] + xs[1] + xs[2] + xs[3]
  {
    assert xs[1..][1..] == xs[2..] && xs[2..][1..] == xs[3..] && xs[3..][1..] == [];
    assert Sum(xs) == xs[0] + Sum(xs[1..]);
    assert Sum(xs[1..]) == xs[1] + Sum(xs[2..]);
    assert Sum(xs[2..]) == xs[2] + Sum(xs[3..]);
    assert Sum(xs[3..]) == xs[3] + Sum([]);
  }

  /** A connection that brings more than four short intervals' worth in every four intervals survives. */
  lemma FastEnoughSurvives(intervals: seq<nat>, minimum: nat, k: nat)
    requires minimum >= 1
    requires forall j :: WINDOWS <= j <= |intervals| ==> Sum(Window(intervals, j)) > WINDOWS * (minimum - 1)
    ensures !Starved(intervals, minimum, k)
  {
    if WINDOWS <= k <= |intervals| {
      var four := Window(intervals, k);
      SumFour(four);
      assert four[0] in four && four[1] in four && four[2] in four && four[3] in four;
    }
  }

  /** The final connection is closed only after four intervals without a single byte. */
  lemma FinalNeedsSilence(intervals: seq<nat>, attempts: nat, limit: int, floor: int, interval: nat, k: nat)
    requires attempts >= limit
    ensures Starved(intervals, Minimum(ArmedFloor(attempts, limit, floor), interval), k)
       <==> WINDOWS <= k <= |intervals| && Sum(Window(intervals, k)) == 0
  {
    if WINDOWS <= k <= |intervals| {
      var four := Window(intervals, k);
      SumFour(four);
      assert four[0] in four && four[1] in four && four[2] in four && four[3] in four;
    }
  }

  /** Any other connection is closed exactly after four intervals in a row that each brought nothing, or too little to
      keep up with the floor. */
  lemma NonFinalIsHeldToFloor(intervals: seq<nat>, attempts: nat, limit: int, floor: int, interval: nat, k: nat)
    requires attempts < limit
    ensures Starved(intervals, Minimum(ArmedFloor(attempts, limit, floor), interval), k)
       <==> WINDOWS <= k <= |intervals|
            && forall d :: d in Window(intervals, k) ==> d == 0 || (floor > 0 && (d + 1) * SECOND <= floor * interval)
  {
    if WINDOWS <= k <= |intervals| {
      forall d | d in Window(intervals, k)
        ensures d < Minimum(floor, interval) <==> d == 0 || (floor > 0 && (d + 1) * SECOND <= floor * interval)
      {
        ShortExactlyWhen(floor, interval, d);
      }
      hide Minimum;
    }
  }
}
