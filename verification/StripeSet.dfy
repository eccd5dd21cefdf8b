/** The striped transports: concurrent requests pick, judge, replace and count stripes without a lock. Every atomic
    operation is one step, and the steps of different requests interleave freely. */
module StripeSet {
  import opened Objects

  const WORD := 0x1_0000_0000_0000_0000

  /** Where a request stands; stripes are numbered in the order they are made. */
  datatype Place =
    | Picked(slot: nat)
    | Loaded(slot: nat, stripe: nat)
    | Built(slot: nat, stripe: nat, replacement: nat)
    | Lost(slot: nat)
    | Ready(stripe: nat)
    | Counted(stripe: nat)
    | Failing(stripe: nat)
    | Open(stripe: nat)
    | Closing(stripe: nat)
    | Closed
    | Over

  /** `since` is the number of evictions when the request began; it only serves the specification. */
  datatype Request = Request(since: nat, place: Place)

  /** `homes` says for which slot each stripe was made; it, too, only serves the specification. */
  datatype Striped = Striped(next: nat, slots: seq<nat>, made: nat, inflight: seq<int>, evicted: seq<nat>,
                             requests: seq<Request>, homes: seq<nat>)

  /** Every step names its request, by the order in which the requests began. */
  datatype Event =
    | Begin
    | Load(r: nat)
    | Check(r: nat, sick: bool)
    | Swap(r: nat)
    | Reload(r: nat)
    | Count(r: nat)
    | Respond(r: nat, ok: bool)
    | Undo(r: nat)
    | Close(r: nat)
    | Release(r: nat)

  ghost function Fresh(k: nat): Striped {
    Striped(0, seq(k, i => i), k, seq(k, i => 0), [], [], seq(k, i => i))
  }

  function Advance(counter: nat): nat {
    (counter + 1) % WORD
  }

  predicate Enabled(s: Striped, e: Event) {
    e.Begin? ||
    (e.r < |s.requests| &&
     var p := s.requests[e.r].place;
     match e
     case Load(_) => p.Picked? && p.slot < |s.slots|
     case Check(_, _) => p.Loaded?
     case Swap(_) => p.Built? && p.slot < |s.slots|
     case Reload(_) => p.Lost? && p.slot < |s.slots|
     case Count(_) => p.Ready? && p.stripe < |s.inflight|
     case Respond(_, _) => p.Counted?
     case Undo(_) => p.Failing? && p.stripe < |s.inflight|
     case Close(_) => p.Open? || p.Closing? || p.Closed?
     case Release(_) => p.Closing? && p.stripe < |s.inflight|)
  }

  function Moved(s: Striped, r: nat, p: Place): Striped
    requires r < |s.requests|
  {
    s.(requests := s.requests[r := s.requests[r].(place := p)])
  }

  function Add(s: Striped, stripe: nat, n: int): Striped
    requires stripe < |s.inflight|
  {
    s.(inflight := s.inflight[stripe := s.inflight[stripe] + n])
  }

  function Next(s: Striped, e: Event): Striped
    requires |s.slots| > 0 && Enabled(s, e)
  {
    if e.Begin? then
      var n := Advance(s.next);
      s.(next := n, requests := s.requests + [Request(|s.evicted|, Picked(n % |s.slots|))])
    else
      var p := s.requests[e.r].place;
      match e
      case Load(r) => Moved(s, r, Loaded(p.slot, s.slots[p.slot]))
      case Check(r, sick) =>
        // A sick stripe's replacement is made before anyone knows whether it will be used.
        if sick then
          var grown := s.(made := s.made + 1, inflight := s.inflight + [0], homes := s.homes + [p.slot]);
          Moved(grown, r, Built(p.slot, p.stripe, s.made))
        else Moved(s, r, Ready(p.stripe))
      case Swap(r) =>
        if s.slots[p.slot] == p.stripe then
          var swapped := s.(slots := s.slots[p.slot := p.replacement], evicted := s.evicted + [p.stripe]);
          Moved(swapped, r, Ready(p.replacement))
        else Moved(s, r, Lost(p.slot))
      case Reload(r) => Moved(s, r, Ready(s.slots[p.slot]))
      case Count(r) => Moved(Add(s, p.stripe, 1), r, Counted(p.stripe))
      case Respond(r, ok) => Moved(s, r, if ok then Open(p.stripe) else Failing(p.stripe))
      case Undo(r) => Moved(Add(s, p.stripe, -1), r, Over)
      // Only the close that flips the flag goes on to release; any other close changes nothing.
      case Close(r) => if p.Open? then Moved(s, r, Closing(p.stripe)) else s
      case Release(r) => Moved(Add(s, p.stripe, -1), r, Closed)
  }

  /* ---------- Counting ---------- */

  /** The request is counted onto the stripe and has neither failed nor been closed. */
  predicate Holds(q: Request, stripe: nat) {
    match q.place
    case Counted(x) => x == stripe
    case Failing(x) => x == stripe
    case Open(x) => x == stripe
    case Closing(x) => x == stripe
    case _ => false
  }

  function Holders(requests: seq<Request>, stripe: nat): nat {
    Total(requests, HoldOf(stripe))
  }

  function HoldOf(stripe: nat): Request -> nat {
    (q: Request) => One(Holds(q, stripe))
  }

  /* ---------- Invariants ---------- */

  ghost predicate Accounted(s: Striped) {
    && |s.inflight| == s.made
    && forall x :: 0 <= x < s.made ==> s.inflight[x] == Holders(s.requests, x)
  }

  ghost predicate NoRepeats(xs: seq<nat>) {
    forall i, j :: 0 <= i < j < |xs| ==> xs[i] != xs[j]
  }

  /** Slots and evicted stripes are all different, so a stripe swapped out is never in a slot again. */
  ghost predicate Separate(s: Striped) {
    && NoRepeats(s.slots) && NoRepeats(s.evicted)
    && (forall x :: x in s.slots ==> x < s.made && x !in s.evicted)
    && (forall x :: x in s.evicted ==> x < s.made)
  }

  predicate Published(s: Striped, x: nat) {
    x in s.slots || x in s.evicted
  }

  /** A replacement not yet swapped in belongs to one request alone. */
  ghost predicate Reserved(s: Striped) {
    forall r :: 0 <= r < |s.requests| && s.requests[r].place.Built? ==>
      var x := s.requests[r].place.replacement;
      && x < s.made && !Published(s, x)
      && forall q :: 0 <= q < |s.requests| && q != r ==> !Reserves(s.requests[q], x)
  }

  predicate Reserves(q: Request, x: nat) {
    q.place.Built? && q.place.replacement == x
  }

  /** The request's place is sound: its slot exists, its stripe was published, and no stripe evicted before the
      request began is among those it may use. */
  ghost predicate Sound(s: Striped, q: Request) {
    && q.since <= |s.evicted|
    && (q.place.Picked? || q.place.Loaded? || q.place.Built? || q.place.Lost? ==> q.place.slot < |s.slots|)
    && (HasStripe(q.place) ==> Published(s, q.place.stripe) && q.place.stripe !in s.evicted[..q.since])
  }

  predicate HasStripe(p: Place) {
    !p.Picked? && !p.Lost? && !p.Closed? && !p.Over?
  }

  ghost predicate AllSound(s: Striped) {
    forall r :: 0 <= r < |s.requests| ==> Sound(s, s.requests[r])
  }

  ghost predicate Inv(s: Striped, k: nat) {
    |s.slots| == k && Accounted(s) && Separate(s) && Reserved(s) && AllSound(s)
  }

  lemma FreshInv(k: nat)
    requires k > 0
    ensures Inv(Fresh(k), k)
  {
  }

  /** A step moves one request, and the counters change as its holding does. */
  lemma CounterFollows(s: Striped, e: Event, x: nat)
    requires |s.slots| > 0 && Enabled(s, e) && !e.Begin? && |s.inflight| == s.made
    ensures var t := Next(s, e);
            && |t.requests| == |s.requests| && t.requests == s.requests[e.r := t.requests[e.r]]
            && |t.inflight| == t.made && s.made <= t.made <= s.made + 1
            && (x < s.made ==>
                 t.inflight[x] == s.inflight[x] + One(Holds(t.requests[e.r], x)) - One(Holds(s.requests[e.r], x)))
            && (x == s.made < t.made ==> t.inflight[x] == 0 && !Holds(t.requests[e.r], x))
  {
  }

  lemma AccountedKept(s: Striped, e: Event)
    requires |s.slots| > 0 && Enabled(s, e) && Accounted(s) && Separate(s) && AllSound(s)
    ensures Accounted(Next(s, e))
  {
    var t := Next(s, e);
    forall x: nat | x < t.made
      ensures |t.inflight| == t.made && t.inflight[x] == Holders(t.requests, x)
    {
      if e.Begin? {
        TotalAppend(s.requests, t.requests[|s.requests|], HoldOf(x));
      } else {
        StepAccounted(s, e, x);
      }
    }
  }

  lemma StepAccounted(s: Striped, e: Event, x: nat)
    requires |s.slots| > 0 && Enabled(s, e) && !e.Begin? && Accounted(s) && Separate(s) && AllSound(s)
    requires x < Next(s, e).made
    ensures |Next(s, e).inflight| == Next(s, e).made && Next(s, e).inflight[x] == Holders(Next(s, e).requests, x)
  {
    var t := Next(s, e);
    CounterFollows(s, e, x);
    TotalUpdate(s.requests, e.r, t.requests[e.r], HoldOf(x));
    if s.made <= x {
      NoHolders(s, x);
    }
    hide Next, Separate, AllSound, Total, Holds;
  }

  lemma NoHolders(s: Striped, x: nat)
    requires AllSound(s) && Separate(s) && s.made <= x
    ensures Holders(s.requests, x) == 0
  {
    forall r | 0 <= r < |s.requests|
      ensures !Holds(s.requests[r], x)
    {
      assert Sound(s, s.requests[r]);
    }
    TotalZero(s.requests, HoldOf(x));
  }

  lemma SeparateKept(s: Striped, e: Event)
    requires |s.slots| > 0 && Enabled(s, e) && Separate(s) && Reserved(s)
    ensures Separate(Next(s, e))
  {
    if e.Swap? && s.slots[s.requests[e.r].place.slot] == s.requests[e.r].place.stripe {
      SwapSeparate(s, s.requests[e.r].place.slot, s.requests[e.r].place.replacement);
    }
  }

  function Swapped(s: Striped, i: nat, x: nat): Striped
    requires i < |s.slots|
  {
    s.(slots := s.slots[i := x], evicted := s.evicted + [s.slots[i]])
  }

  lemma SwapSeparate(s: Striped, i: nat, x: nat)
    requires Separate(s) && i < |s.slots| && !Published(s, x) && x < s.made
    ensures Separate(Swapped(s, i, x))
  {
    var t := Swapped(s, i, x);
    assert s.slots[i] in s.slots;
    assert forall j :: 0 <= j < |s.slots| ==> s.slots[j] in s.slots;
    assert forall j :: 0 <= j < |s.evicted| ==> s.evicted[j] in s.evicted;
    forall y | y in t.slots
      ensures y < s.made && y !in t.evicted
    {
      var j :| 0 <= j < |t.slots| && t.slots[j] == y;
      assert j != i ==> y == s.slots[j] && s.slots[j] != s.slots[i];
    }
  }

  lemma SwapPublished(s: Striped, i: nat, x: nat, y: nat)
    requires i < |s.slots|
    ensures Published(Swapped(s, i, x), y) <==> Published(s, y) || y == x
  {
    var t := Swapped(s, i, x);
    assert t.slots[i] == x && t.evicted[|s.evicted|] == s.slots[i];
    if y in s.slots {
      var j :| 0 <= j < |s.slots| && s.slots[j] == y;
      assert j != i ==> t.slots[j] == y;
    }
  }

  lemma ReservedKept(s: Striped, e: Event)
    requires |s.slots| > 0 && Enabled(s, e) && Separate(s) && Reserved(s)
    ensures Reserved(Next(s, e))
  {
    var t := Next(s, e);
    PublishedGrows(s, e);
    forall r | 0 <= r < |t.requests| && t.requests[r].place.Built?
      ensures t.requests[r].place.replacement < t.made && !Published(t, t.requests[r].place.replacement)
      ensures forall q :: 0 <= q < |t.requests| && q != r ==> !Reserves(t.requests[q], t.requests[r].place.replacement)
    {
    }
  }

  predicate Swaps(s: Striped, e: Event)
    requires Enabled(s, e)
  {
    e.Swap? && s.slots[s.requests[e.r].place.slot] == s.requests[e.r].place.stripe
  }

  /** Only a swap publishes, and only its own replacement. */
  lemma PublishedGrows(s: Striped, e: Event)
    requires |s.slots| > 0 && Enabled(s, e)
    ensures forall x: nat ::
      Published(Next(s, e), x) <==> Published(s, x) || (Swaps(s, e) && Reserves(s.requests[e.r], x))
  {
    var t := Next(s, e);
    if Swaps(s, e) {
      var p := s.requests[e.r].place;
      forall x: nat
        ensures Published(t, x) <==> Published(s, x) || x == p.replacement
      {
        SwapPublished(s, p.slot, p.replacement, x);
      }
    }
  }

  lemma EvictedGrows(s: Striped, e: Event)
    requires |s.slots| > 0 && Enabled(s, e)
    ensures s.evicted <= Next(s, e).evicted && |Next(s, e).slots| == |s.slots|
  {
  }

  /** A request that did not move stays sound. */
  lemma SoundStays(s: Striped, t: Striped, q: Request)
    requires Sound(s, q) && s.evicted <= t.evicted && |s.slots| == |t.slots|
    requires forall x: nat :: Published(s, x) ==> Published(t, x)
    ensures Sound(t, q)
  {
    assert t.evicted[..q.since] == s.evicted[..q.since];
    hide Published;
  }

  lemma SoundMoves(s: Striped, e: Event)
    requires |s.slots| > 0 && Enabled(s, e) && !e.Begin? && Separate(s) && Reserved(s) && Sound(s, s.requests[e.r])
    ensures Sound(Next(s, e), Next(s, e).requests[e.r])
  {
    var t, q := Next(s, e), s.requests[e.r];
    PublishedGrows(s, e);
    EvictedGrows(s, e);
    assert t.evicted[..q.since] == s.evicted[..q.since];
    assert forall x :: x in s.evicted[..q.since] ==> x in s.evicted;
  }

  lemma AllSoundKept(s: Striped, e: Event)
    requires |s.slots| > 0 && Enabled(s, e) && Separate(s) && Reserved(s) && AllSound(s)
    ensures AllSound(Next(s, e))
  {
    var t := Next(s, e);
    PublishedGrows(s, e);
    EvictedGrows(s, e);
    if !e.Begin? {
      SoundMoves(s, e);
    }
    OthersStay(s, e);
    hide Sound, Reserved, Separate, Published;
    forall r | 0 <= r < |t.requests|
      ensures Sound(t, t.requests[r])
    {
      if e.Begin? && r == |s.requests| {
        BeginSound(s, e);
      } else if e.Begin? || r != e.r {
        SoundStays(s, t, s.requests[r]);
      }
    }
  }

  lemma BeginSound(s: Striped, e: Event)
    requires |s.slots| > 0 && e.Begin?
    ensures Sound(Next(s, e), Next(s, e).requests[|s.requests|])
  {
  }

  lemma OthersStay(s: Striped, e: Event)
    requires |s.slots| > 0 && Enabled(s, e)
    ensures |Next(s, e).requests| == |s.requests| + One(e.Begin?)
    ensures forall r :: 0 <= r < |s.requests| && (e.Begin? || r != e.r) ==> Next(s, e).requests[r] == s.requests[r]
  {
  }

  /* ---------- Every run ---------- */

  ghost predicate Run(s: Striped, events: seq<Event>, t: Striped)
    decreases |events|
  {
    if events == [] then s == t
    else |s.slots| > 0 && Enabled(s, events[0]) && Run(Next(s, events[0]), events[1..], t)
  }

  lemma StepKeepsInv(s: Striped, e: Event, k: nat)
    requires k > 0 && Inv(s, k) && Enabled(s, e)
    ensures Inv(Next(s, e), k)
  {
    EvictedGrows(s, e);
    AccountedKept(s, e);
    SeparateKept(s, e);
    ReservedKept(s, e);
    AllSoundKept(s, e);
  }

  lemma {:induction false} RunKeepsInv(s: Striped, events: seq<Event>, t: Striped, k: nat)
    requires k > 0 && Inv(s, k) && Run(s, events, t)
    ensures Inv(t, k) && s.evicted <= t.evicted
    decreases |events|
  {
    if events != [] {
      StepKeepsInv(s, events[0], k);
      EvictedGrows(s, events[0]);
      hide Inv, Next, Enabled;
      RunKeepsInv(Next(s, events[0]), events[1..], t, k);
    }
  }

  /** Main result: however requests, evictions and closes interleave, each stripe's counter, current or evicted, is
      the number of requests counted onto it that have neither failed nor been closed, so never negative. */
  lemma InflightIsExact(k: nat, events: seq<Event>, s: Striped, x: nat)
    requires k > 0 && Run(Fresh(k), events, s) && x < s.made
    ensures |s.inflight| == s.made && s.inflight[x] == Holders(s.requests, x) >= 0
  {
    FreshInv(k);
    RunKeepsInv(Fresh(k), events, s, k);
  }

  /** Main result: a stripe is swapped out at most once, never returns to a slot, and is never counted for a request
      that began after it was swapped out. */
  lemma EvictedStaysOut(k: nat, before: seq<Event>, mid: Striped, later: seq<Event>, s: Striped)
    requires k > 0 && Run(Fresh(k), before, mid) && Run(mid, later, s)
    ensures NoRepeats(s.evicted)
    ensures forall x :: x in mid.evicted ==> x !in s.slots
    ensures forall r :: 0 <= r < |s.requests| && s.requests[r].since >= |mid.evicted| ==>
      forall x :: x in mid.evicted ==> !Holds(s.requests[r], x)
  {
    FreshInv(k);
    RunKeepsInv(Fresh(k), before, mid, k);
    RunKeepsInv(mid, later, s, k);
    hide Run, Fresh;
    forall r, x | 0 <= r < |s.requests| && s.requests[r].since >= |mid.evicted| && x in mid.evicted
      ensures !Holds(s.requests[r], x)
    {
      assert Sound(s, s.requests[r]);
      assert mid.evicted == s.evicted[..|mid.evicted|];
    }
  }

  /** When every request has failed or been closed, every counter is back to zero. */
  lemma QuietSetIsEmpty(k: nat, events: seq<Event>, s: Striped)
    requires k > 0 && Run(Fresh(k), events, s)
    requires forall r :: 0 <= r < |s.requests| ==> s.requests[r].place.Over? || s.requests[r].place.Closed?
    ensures |s.inflight| == s.made && forall x :: 0 <= x < s.made ==> s.inflight[x] == 0
  {
    FreshInv(k);
    RunKeepsInv(Fresh(k), events, s, k);
    hide Run, Fresh;
    forall x | 0 <= x < s.made
      ensures s.inflight[x] == 0
    {
      TotalZero(s.requests, HoldOf(x));
    }
  }

  /** In every reachable state every step a request is about to take is possible. */
  lemma NothingIsStuck(k: nat, events: seq<Event>, s: Striped, r: nat)
    requires k > 0 && Run(Fresh(k), events, s) && r < |s.requests|
    ensures match s.requests[r].place
            case Picked(_) => Enabled(s, Load(r))
            case Loaded(_, _) => Enabled(s, Check(r, true)) && Enabled(s, Check(r, false))
            case Built(_, _, _) => Enabled(s, Swap(r))
            case Lost(_) => Enabled(s, Reload(r))
            case Ready(_) => Enabled(s, Count(r))
            case Counted(_) => Enabled(s, Respond(r, true)) && Enabled(s, Respond(r, false))
            case Failing(_) => Enabled(s, Undo(r))
            case Open(_) => Enabled(s, Close(r))
            case Closing(_) => Enabled(s, Close(r)) && Enabled(s, Release(r))
            case Closed => Enabled(s, Close(r))
            case Over => true
  {
    FreshInv(k);
    RunKeepsInv(Fresh(k), events, s, k);
    hide Run, Fresh;
    assert Sound(s, s.requests[r]);
  }

  /* ---------- Round robin ---------- */

  function SlotOf(counter: nat, k: nat): nat
    requires k > 0
  {
    counter % k
  }

  function Later(counter: nat, steps: nat): nat {
    (counter + steps) % WORD
  }

  /** Fewer than k picks apart, two picks share a slot exactly when the counter wrapped around in between at a
      distance that the number of stripes divides. */
  lemma PicksCollideExactlyWhen(counter: nat, steps: nat, k: nat)
    requires counter < WORD && 0 < steps < k <= WORD
    ensures SlotOf(Later(counter, steps), k) == SlotOf(counter, k)
       <==> counter + steps >= WORD && SlotOf(WORD - steps, k) == 0
  {
    WrapsOnce(counter, steps);
    SmallSlot(steps, k);
    hide SlotOf, Later;
    if counter + steps < WORD {
      SameRemainder(counter, steps, k);
    } else {
      SameRemainder(counter + steps - WORD, WORD - steps, k);
    }
  }

  lemma WrapsOnce(counter: nat, steps: nat)
    requires counter < WORD && steps < WORD
    ensures Later(counter, steps) == if counter + steps < WORD then counter + steps else counter + steps - WORD
  {
  }

  lemma SmallSlot(steps: nat, k: nat)
    requires 0 < steps < k
    ensures SlotOf(steps, k) == steps
  {
  }

  lemma SameRemainder(a: nat, d: nat, k: nat)
    requires k > 0
    ensures SlotOf(a + d, k) == SlotOf(a, k) <==> SlotOf(d, k) == 0
  {
    var r := (a + d) % k - a % k;
    assert a + d == k * ((a + d) / k) + (a + d) % k && a == k * (a / k) + a % k && d == k * (d / k) + d % k;
    Multiple(k, (a + d) / k, a / k, d / k, r, d % k);
  }

  lemma Multiple(k: int, p: int, q: int, m: int, r: int, t: int)
    requires k > 0 && k * p - k * q + r == k * m + t && -k < r < k && 0 <= t < k
    ensures r == 0 <==> t == 0
  {
    assert k * (p - q - m) == t - r;
    Small(k, p - q - m, t - r);
    Small(k, p - q - m - 1, t - r - k);
  }

  lemma Small(k: int, m: int, r: int)
    requires k > 0 && r == k * m
    ensures -k < r < k ==> r == 0
  {
    assert m >= 1 ==> k * m >= k * 1;
    assert m <= -1 ==> k * m <= k * -1;
  }
}
