/** The streaming health detector of one striped transport. Times are nanoseconds, rates are exact. */
module StripeHealth {
  import opened Objects

  const SECOND := 1_000_000_000

  /** What a call of the detector sees: the clock, the bytes read so far, and the requests in flight. */
  datatype Look = Look(now: int, bytes: int, inflight: int)

  datatype Health = Health(checkedAt: Option<int>, checkBytes: int, belowSince: Option<int>)

  const UNCHECKED := Health(None, 0, None)

  /** Bytes per nanoseconds, as an exact fraction. */
  datatype Rate = Rate(bytes: int, nanos: int)

  /** At a quotient by zero nanoseconds the comparison is false for an infinite or undefined rate, and so is this
      one. */
  predicate BelowFloor(rate: Rate, floor: int) {
    rate.bytes * SECOND < floor * rate.nanos
  }

  /** One call of the detector: the new state, and the rate when the stripe is sick. */
  function Step(h: Health, look: Look, floor: int, window: nat): (Health, Option<Rate>) {
    if h.checkedAt.None? then (Health(Some(look.now), look.bytes, h.belowSince), None)
    else
      var elapsed := look.now - h.checkedAt.value;
      if elapsed < window / 4 then (h, None)
      else
        var rate := Rate(look.bytes - h.checkBytes, elapsed);
        var below :=
          if look.inflight > 0 && BelowFloor(rate, floor) then
            if h.belowSince.None? then Some(look.now - elapsed) else h.belowSince
          else None;
        (Health(Some(look.now), look.bytes, below),
         if below.Some? && look.now - below.value >= window then Some(rate) else None)
  }

  /* ---------- The specification: a function of the whole history ---------- */

  predicate Takes(samples: seq<Look>, look: Look, window: nat) {
    samples == [] || look.now - Last(samples).now >= window / 4
  }

  function Last(s: seq<Look>): Look
    requires s != []
  {
    s[|s| - 1]
  }

  /** The looks that were samples: the first, and each at least a quarter of the window after the one before. */
  function Samples(looks: seq<Look>, window: nat): seq<Look> {
    if looks == [] then []
    else
      var before := Samples(looks[..|looks| - 1], window);
      if Takes(before, Last(looks), window) then before + [Last(looks)] else before
  }

  /** Sample `i` had requests in flight and a rate below the floor since the sample before it. */
  predicate SlowAt(s: seq<Look>, i: int, floor: int) {
    0 < i < |s| && s[i].inflight > 0 && BelowFloor(Rate(s[i].bytes - s[i - 1].bytes, s[i].now - s[i - 1].now), floor)
  }

  /** `k` is the sample before the maximal latest run of slow samples. */
  ghost predicate StartsRun(s: seq<Look>, k: nat, floor: int) {
    k < |s| && !SlowAt(s, k, floor) && forall i :: k < i < |s| ==> SlowAt(s, i, floor)
  }

  /** The detector's answer, told from the history alone: this look is a sample, and the latest run of slow
      samples, measured from the sample before it, spans the window. */
  ghost predicate SickBy(looks: seq<Look>, look: Look, floor: int, window: nat) {
    var s := Samples(looks, window) + [look];
    && Takes(Samples(looks, window), look, window)
    && exists k: nat :: k + 1 < |s| && StartsRun(s, k, floor) && look.now - s[k].now >= window
  }

  /* ---------- The state is a summary of the history ---------- */

  ghost predicate Tracks(h: Health, s: seq<Look>, floor: int) {
    if s == [] then h == UNCHECKED
    else exists k: nat :: StartsRun(s, k, floor) && Summarizes(h, s, k)
  }

  predicate Summarizes(h: Health, s: seq<Look>, k: nat)
    requires k < |s|
  {
    h == Health(Some(Last(s).now), Last(s).bytes, if k == |s| - 1 then None else Some(s[k].now))
  }

  lemma RunStartUnique(s: seq<Look>, j: nat, k: nat, floor: int)
    requires StartsRun(s, j, floor) && StartsRun(s, k, floor)
    ensures j == k
  {
    assert j < k ==> SlowAt(s, k, floor);
    assert k < j ==> SlowAt(s, j, floor);
  }

  lemma SlowAtExtends(s: seq<Look>, look: Look, i: nat, floor: int)
    requires i < |s|
    ensures SlowAt(s + [look], i, floor) == SlowAt(s, i, floor)
  {
  }

  /** The run grows by a slow sample, and starts anew at any other. */
  lemma RunExtends(s: seq<Look>, look: Look, k: nat, floor: int)
    requires StartsRun(s, k, floor)
    ensures StartsRun(s + [look], if SlowAt(s + [look], |s|, floor) then k else |s|, floor)
  {
    hide SlowAt;
    forall i | 0 <= i < |s|
      ensures SlowAt(s + [look], i, floor) == SlowAt(s, i, floor)
    {
      SlowAtExtends(s, look, i, floor);
    }
  }

  /** One step keeps the summary, and answers as the history says. */
  lemma StepTracks(h: Health, looks: seq<Look>, look: Look, floor: int, window: nat)
    requires Tracks(h, Samples(looks, window), floor)
    ensures Tracks(Step(h, look, floor, window).0, Samples(looks + [look], window), floor)
    ensures Step(h, look, floor, window).1.Some? <==> SickBy(looks, look, floor, window)
  {
    var s := Samples(looks, window);
    assert (looks + [look])[..|looks|] == looks;
    assert Samples(looks + [look], window) == if Takes(s, look, window) then s + [look] else s;
    hide Samples;
    if s == [] {
      FirstSample(look, floor);
      RunStartOnly(looks, look, 0, floor, window);
    } else {
      var k: nat :| StartsRun(s, k, floor) && Summarizes(h, s, k);
      hide StartsRun, BelowFloor, Summarizes;
      if Takes(s, look, window) {
        var next := if SlowAt(s + [look], |s|, floor) then k else |s|;
        RunExtends(s, look, k, floor);
        RunStartOnly(looks, look, next, floor, window);
        hide SickBy, SlowAt;
        SampleTracks(h, s, look, k, floor, window);
      } else {
        NoSample(h, s, look, k, floor, window);
      }
    }
  }

  lemma FirstSample(look: Look, floor: int)
    ensures StartsRun([] + [look], 0, floor)
  {
  }

  lemma NoSample(h: Health, s: seq<Look>, look: Look, k: nat, floor: int, window: nat)
    requires s != [] && !Takes(s, look, window) && k < |s| && Summarizes(h, s, k)
    ensures Step(h, look, floor, window) == (h, None)
  {
  }

  lemma RunStartOnly(looks: seq<Look>, look: Look, k: nat, floor: int, window: nat)
    requires Takes(Samples(looks, window), look, window)
    requires StartsRun(Samples(looks, window) + [look], k, floor)
    ensures SickBy(looks, look, floor, window)
       <==> k < |Samples(looks, window)| && look.now - (Samples(looks, window) + [look])[k].now >= window
  {
    var s := Samples(looks, window) + [look];
    hide Samples, StartsRun, Takes;
    forall j: nat | StartsRun(s, j, floor)
      ensures j == k
    {
      RunStartUnique(s, j, k, floor);
    }
    assert StartsRun(s, k, floor);
  }

  lemma SampleTracks(h: Health, s: seq<Look>, look: Look, k: nat, floor: int, window: nat)
    requires s != [] && k < |s| && Takes(s, look, window) && Summarizes(h, s, k)
    ensures var next := if SlowAt(s + [look], |s|, floor) then k else |s|;
            var (after, answer) := Step(h, look, floor, window);
            && Summarizes(after, s + [look], next)
            && (answer.Some? <==> next < |s| && look.now - (s + [look])[next].now >= window)
  {
    var t := s + [look];
    assert t[|s|] == look && t[|s| - 1] == Last(s) && t[k] == s[k];
    hide BelowFloor;
  }

  /* ---------- Whole histories ---------- */

  function After(looks: seq<Look>, floor: int, window: nat): Health {
    if looks == [] then UNCHECKED
    else Step(After(looks[..|looks| - 1], floor, window), Last(looks), floor, window).0
  }

  lemma {:induction false} AfterTracks(looks: seq<Look>, floor: int, window: nat)
    ensures Tracks(After(looks, floor, window), Samples(looks, window), floor)
  {
    if looks != [] {
      var before := looks[..|looks| - 1];
      AfterTracks(before, floor, window);
      StepTracks(After(before, floor, window), before, Last(looks), floor, window);
      assert before + [Last(looks)] == looks;
    }
  }

  /** Main result: after any sequence of calls, at times in any order, the detector reports sick exactly when the
      history says so. */
  lemma SickExactlyWhen(looks: seq<Look>, look: Look, floor: int, window: nat)
    ensures Step(After(looks, floor, window), look, floor, window).1.Some? <==> SickBy(looks, look, floor, window)
  {
    AfterTracks(looks, floor, window);
    StepTracks(After(looks, floor, window), looks, look, floor, window);
  }

  /** Telescoping: over consecutive slow samples the bytes stay below the floor. */
  lemma {:induction false} SlowSpan(s: seq<Look>, lo: nat, hi: nat, floor: int)
    requires lo < hi < |s| && forall i :: lo < i <= hi ==> SlowAt(s, i, floor)
    ensures BelowFloor(Rate(s[hi].bytes - s[lo].bytes, s[hi].now - s[lo].now), floor)
    decreases hi
  {
    assert SlowAt(s, hi, floor);
    if lo < hi - 1 {
      SlowSpan(s, lo, hi - 1, floor);
      Telescopes(s[lo], s[hi - 1], s[hi], floor);
    }
  }

  lemma Telescopes(a: Look, b: Look, c: Look, floor: int)
    requires BelowFloor(Rate(b.bytes - a.bytes, b.now - a.now), floor)
    requires BelowFloor(Rate(c.bytes - b.bytes, c.now - b.now), floor)
    ensures BelowFloor(Rate(c.bytes - a.bytes, c.now - a.now), floor)
  {
    assert floor * (c.now - a.now) == floor * (c.now - b.now) + floor * (b.now - a.now);
  }

  /** From sample `k` on there were always requests in flight, the span is at least the window, and the bytes over
      it are below the floor. */
  ghost predicate StarvedSince(s: seq<Look>, k: nat, floor: int, window: nat)
    requires k < |s|
  {
    && (forall i :: k < i < |s| ==> s[i].inflight > 0)
    && Last(s).now - s[k].now >= window
    && (Last(s).bytes - s[k].bytes) * SECOND < floor * (Last(s).now - s[k].now)
  }

  ghost predicate Starved(s: seq<Look>, floor: int, window: nat) {
    exists k: nat :: k < |s| - 1 && StarvedSince(s, k, floor, window)
  }

  /** A sick stripe moved fewer bytes than the floor allows over a span of at least the window that ends now. So a
      stripe that keeps up over every such span, or that is idle, is never evicted. */
  lemma SickMeansStarved(looks: seq<Look>, look: Look, floor: int, window: nat)
    requires Step(After(looks, floor, window), look, floor, window).1.Some?
    ensures Starved(Samples(looks, window) + [look], floor, window)
  {
    SickExactlyWhen(looks, look, floor, window);
    hide Takes, After, Step, BelowFloor, Starved;
    var s := Samples(looks, window) + [look];
    var k: nat :| k + 1 < |s| && StartsRun(s, k, floor) && look.now - s[k].now >= window;
    SickSpan(s, k, floor, window);
  }

  lemma SickSpan(s: seq<Look>, k: nat, floor: int, window: nat)
    requires k < |s| - 1 && StartsRun(s, k, floor) && Last(s).now - s[k].now >= window
    ensures Starved(s, floor, window)
  {
    SlowSpan(s, k, |s| - 1, floor);
    forall i | k < i < |s|
      ensures s[i].inflight > 0
    {
      assert SlowAt(s, i, floor);
    }
    assert StarvedSince(s, k, floor, window);
  }

  lemma {:induction false} SamplesAscend(looks: seq<Look>, window: nat)
    ensures forall i, j :: 0 <= i < j < |Samples(looks, window)| ==>
      Samples(looks, window)[i].now <= Samples(looks, window)[j].now
  {
    if looks != [] {
      SamplesAscend(looks[..|looks| - 1], window);
    }
  }

  lemma {:induction false} RunReaches(s: seq<Look>, k: nat, floor: int) returns (j: nat)
    requires k < |s| && forall i :: k < i < |s| ==> SlowAt(s, i, floor)
    ensures j <= k && StartsRun(s, j, floor)
  {
    j := k;
    if SlowAt(s, k, floor) {
      j := RunReaches(s, k - 1, floor);
    }
  }

  /** The detector is prompt: the first sample at which samples with requests in flight and too few bytes span the
      window reports the stripe. */
  lemma SlowWindowIsSick(looks: seq<Look>, look: Look, k: nat, floor: int, window: nat)
    requires Takes(Samples(looks, window), look, window)
    requires var s := Samples(looks, window) + [look];
             && k < |s| - 1 && look.now - s[k].now >= window
             && (forall i :: k < i < |s| ==> s[i].inflight > 0)
             && (forall i :: k < i < |s| ==>
                  (s[i].bytes - s[i - 1].bytes) * SECOND < floor * (s[i].now - s[i - 1].now))
    ensures Step(After(looks, floor, window), look, floor, window).1.Some?
  {
    var s := Samples(looks, window) + [look];
    assert forall i :: k < i < |s| ==> SlowAt(s, i, floor);
    var j := RunReaches(s, k, floor);
    SamplesAscend(looks + [look], window);
    assert (looks + [look])[..|looks|] == looks;
    assert Samples(looks + [look], window) == s;
    assert s[j].now <= s[k].now;
    hide Step, After, Samples, SlowAt, StartsRun;
    assert SickBy(looks, look, floor, window);
    SickExactlyWhen(looks, look, floor, window);
  }

  /* ---------- The stripe as an object ---------- */

  class Stripe {
    var inflight: int
    var bytes: int
    var checkedAt: Option<int>
    var checkBytes: int
    var belowSince: Option<int>
    ghost var looks: seq<Look>

    ghost predicate Valid(floor: int, window: nat)
      reads this
    {
      Tracks(State(), Samples(looks, window), floor)
    }

    ghost function State(): Health
      reads this
    {
      Health(checkedAt, checkBytes, belowSince)
    }

    constructor ()
      ensures forall floor: int, window: nat :: Valid(floor, window)
      ensures looks == [] && inflight == 0 && bytes == 0
    {
      inflight, bytes := 0, 0;
      checkedAt, checkBytes, belowSince := None, 0, None;
      looks := [];
    }

    method Sick(now: int, floor: int, window: nat) returns (rate: Rate, sick: bool)
      requires Valid(floor, window)
      modifies this`checkedAt, this`checkBytes, this`belowSince, this`looks
      ensures Valid(floor, window)
      ensures looks == old(looks) + [Look(now, bytes, inflight)]
      ensures (State(), if sick then Some(rate) else None)
           == Step(old(State()), Look(now, bytes, inflight), floor, window)
      ensures sick <==> SickBy(old(looks), Look(now, bytes, inflight), floor, window)
      ensures sick ==> BelowFloor(rate, floor) && rate.nanos >= window / 4
    {
      var look := Look(now, bytes, inflight);
      ghost var h := State();
      StepTracks(h, looks, look, floor, window);
      hide Tracks, SickBy, Samples, BelowFloor;
      looks := looks + [look];
      rate, sick := Rate(0, SECOND), false;
      if checkedAt.None? {
        checkedAt, checkBytes := Some(now), bytes;
        return;
      }
      var elapsed := now - checkedAt.value;
      if elapsed >= window / 4 {
        var b := bytes;
        var current := Rate(b - checkBytes, elapsed);
        checkedAt, checkBytes := Some(now), b;
        if inflight > 0 && BelowFloor(current, floor) {
          if belowSince.None? {
            belowSince := Some(now - elapsed);
          }
        } else {
          belowSince := None;
        }
        if belowSince.Some? && now - belowSince.value >= window {
          rate, sick := current, true;
        }
      }
    }
  }
}
