/** Which stripe a request is sent through, and which stripes are replaced. */
module StripePicks {
  import opened Objects
  import opened StripeSet

  /** The slot of the request that begins as number `r`. */
  function PickOf(k: nat, r: nat): (slot: nat)
    requires k > 0
    ensures slot < k
  {
    SlotOf(Later(0, r + 1), k)
  }

  predicate HasSlot(p: Place) {
    p.Picked? || p.Loaded? || p.Built? || p.Lost?
  }

  /** Every stripe in a slot was made for it. */
  ghost predicate Homed(s: Striped, k: nat) {
    && |s.slots| == k && |s.homes| == s.made && s.next == Later(0, |s.requests|)
    && forall j :: 0 <= j < k ==> s.slots[j] < s.made && s.homes[s.slots[j]] == j
  }

  /** The request stays with the slot it picked: it uses stripes that were made for it, and puts such a one in it. */
  predicate KeepsTo(s: Striped, p: Place, slot: nat) {
    && (HasSlot(p) ==> p.slot == slot)
    && (HasStripe(p) ==> p.stripe < |s.homes| && s.homes[p.stripe] == slot)
    && (p.Built? ==> p.replacement < |s.homes| && s.homes[p.replacement] == slot)
  }

  ghost predicate AllKeep(s: Striped, k: nat)
    requires k > 0
  {
    forall r :: 0 <= r < |s.requests| ==> KeepsTo(s, s.requests[r].place, PickOf(k, r))
  }

  /** The next request takes the next turn. */
  lemma NextTurn(n: nat, k: nat)
    requires k > 0
    ensures Advance(Later(0, n)) == Later(0, n + 1) && Later(0, n + 1) % k == PickOf(k, n)
  {
  }

  lemma HomedStep(s: Striped, e: Event, k: nat)
    requires k > 0 && Homed(s, k) && AllKeep(s, k) && Enabled(s, e)
    ensures Homed(Next(s, e), k)
  {
    hide PickOf, Later, Advance;
    if e.Begin? {
      NextTurn(|s.requests|, k);
    } else {
      assert KeepsTo(s, s.requests[e.r].place, PickOf(k, e.r));
      OthersStay(s, e);
    }
  }

  lemma MoverKeeps(s: Striped, e: Event, k: nat)
    requires k > 0 && Homed(s, k) && AllKeep(s, k) && Enabled(s, e) && !e.Begin?
    ensures var t := Next(s, e);
            |t.requests| == |s.requests| && KeepsTo(t, t.requests[e.r].place, PickOf(k, e.r))
  {
    assert KeepsTo(s, s.requests[e.r].place, PickOf(k, e.r));
    hide PickOf;
  }

  lemma BeginPicks(s: Striped, e: Event, k: nat)
    requires k > 0 && Homed(s, k) && e.Begin?
    ensures |Next(s, e).requests| == |s.requests| + 1
    ensures Next(s, e).requests[|s.requests|].place == Picked(PickOf(k, |s.requests|))
  {
    hide PickOf, Later, Advance;
    NextTurn(|s.requests|, k);
  }

  lemma HomesGrow(s: Striped, e: Event)
    requires |s.slots| > 0 && Enabled(s, e)
    ensures s.homes <= Next(s, e).homes
  {
  }

  lemma AllKeepStep(s: Striped, e: Event, k: nat)
    requires k > 0 && Homed(s, k) && AllKeep(s, k) && Enabled(s, e)
    ensures AllKeep(Next(s, e), k)
  {
    hide Next, PickOf, Later;
    var t := Next(s, e);
    if e.Begin? {
      BeginPicks(s, e, k);
    } else {
      MoverKeeps(s, e, k);
    }
    OthersStay(s, e);
    HomesGrow(s, e);
    forall r | 0 <= r < |t.requests|
      ensures KeepsTo(t, t.requests[r].place, PickOf(k, r))
    {
      if r < |s.requests| && (e.Begin? || r != e.r) {
        assert KeepsTo(s, s.requests[r].place, PickOf(k, r));
      }
    }
  }

  lemma {:induction false} RunKeeps(s: Striped, events: seq<Event>, t: Striped, k: nat)
    requires k > 0 && Homed(s, k) && AllKeep(s, k) && Run(s, events, t)
    ensures Homed(t, k) && AllKeep(t, k)
    decreases |events|
  {
    if events != [] {
      HomedStep(s, events[0], k);
      AllKeepStep(s, events[0], k);
      hide Homed, AllKeep, Next, Enabled;
      RunKeeps(Next(s, events[0]), events[1..], t, k);
    }
  }

  /** Main result: slots are taken in turn. In every interleaving, with evictions at any time, request number `r` is
      sent through a stripe that was made for the slot its turn names, and that is the stripe it is counted onto. */
  lemma RequestsUseTheirSlot(k: nat, events: seq<Event>, s: Striped, r: nat)
    requires k > 0 && Run(Fresh(k), events, s) && r < |s.requests|
    ensures KeepsTo(s, s.requests[r].place, PickOf(k, r)) && (r + 1 < WORD ==> PickOf(k, r) == (r + 1) % k)
  {
    hide KeepsTo, PickOf;
    FreshKeeps(k);
    RunKeeps(Fresh(k), events, s, k);
    hide Run, Homed;
    FirstTurns(k, r);
  }

  lemma FreshKeeps(k: nat)
    requires k > 0
    ensures Homed(Fresh(k), k) && AllKeep(Fresh(k), k)
  {
  }

  lemma FirstTurns(k: nat, r: nat)
    requires k > 0
    ensures r + 1 < WORD ==> PickOf(k, r) == (r + 1) % k
  {
    assert r + 1 < WORD ==> Later(0, r + 1) == r + 1;
  }

  /** Requests fewer than k apart never share a stripe, unless the counter wrapped around between them at a distance
      that k divides. */
  lemma NearbyRequestsSpread(k: nat, events: seq<Event>, s: Striped, q: nat, r: nat)
    requires 0 < k <= WORD && Run(Fresh(k), events, s) && q < r < |s.requests| && r - q < k
    requires HasStripe(s.requests[q].place) && HasStripe(s.requests[r].place)
    requires s.requests[q].place.stripe == s.requests[r].place.stripe
    ensures Later(0, q + 1) + (r - q) >= WORD && SlotOf(WORD - (r - q), k) == 0
  {
    RequestsUseTheirSlot(k, events, s, q);
    RequestsUseTheirSlot(k, events, s, r);
    assert Later(0, r + 1) == Later(Later(0, q + 1), r - q) by { LaterAdds(q + 1, r - q); }
    hide Run, SlotOf, Later;
    assert 0 <= Later(0, q + 1) < WORD by { LaterAdds(q + 1, 0); }
    PicksCollideExactlyWhen(Later(0, q + 1), r - q, k);
  }

  lemma LaterAdds(a: nat, d: nat)
    ensures Later(0, a + d) == Later(Later(0, a), d) && Later(0, a) < WORD
  {
  }

  /* ---------- Only sick stripes are replaced ---------- */

  /** The stripe a step judges sick. */
  function JudgedBy(s: Striped, e: Event): set<nat>
    requires Enabled(s, e)
  {
    if e.Check? && e.sick then {s.requests[e.r].place.stripe} else {}
  }

  ghost function Judged(s: Striped, events: seq<Event>): set<nat>
    decreases |events|
  {
    if events == [] || |s.slots| == 0 || !Enabled(s, events[0]) then {}
    else JudgedBy(s, events[0]) + Judged(Next(s, events[0]), events[1..])
  }

  /** A request that judged this stripe sick is about to swap it. */
  predicate Replaces(q: Request, stripe: nat) {
    q.place.Built? && q.place.stripe == stripe
  }

  ghost predicate Pending(s: Striped, stripe: nat) {
    exists r :: 0 <= r < |s.requests| && Replaces(s.requests[r], stripe)
  }

  ghost predicate Sentenced(s: Striped, judged: set<nat>) {
    && (forall x :: x in s.evicted ==> x in judged)
    && (forall x :: x in judged ==> x in s.evicted || Pending(s, x))
    && (forall r :: 0 <= r < |s.requests| && s.requests[r].place.Built? ==> s.requests[r].place.stripe in judged)
  }

  /** A request about to swap finds the stripe it judged in its slot, unless that has been evicted already. */
  lemma InSlotOrEvicted(s: Striped, k: nat, r: nat)
    requires k > 0 && Inv(s, k) && Homed(s, k) && AllKeep(s, k)
    requires r < |s.requests| && s.requests[r].place.Built?
    ensures var p := s.requests[r].place;
            p.slot < k && (s.slots[p.slot] == p.stripe || p.stripe in s.evicted)
  {
    var p := s.requests[r].place;
    assert Sound(s, s.requests[r]);
    assert KeepsTo(s, p, PickOf(k, r));
    if p.stripe in s.slots {
      var j :| 0 <= j < k && s.slots[j] == p.stripe;
      assert s.homes[s.slots[j]] == j;
    }
    hide PickOf;
  }

  lemma SentencedStep(s: Striped, e: Event, k: nat, judged: set<nat>)
    requires k > 0 && Inv(s, k) && Homed(s, k) && AllKeep(s, k) && Enabled(s, e) && Sentenced(s, judged)
    ensures Sentenced(Next(s, e), judged + JudgedBy(s, e))
  {
    var t := Next(s, e);
    OthersStay(s, e);
    EvictedGrows(s, e);
    if e.Swap? {
      InSlotOrEvicted(s, k, e.r);
    }
    hide Inv, Homed, AllKeep;
    forall x | x in judged + JudgedBy(s, e)
      ensures x in t.evicted || Pending(t, x)
    {
      if x in judged && x !in s.evicted {
        var r :| 0 <= r < |s.requests| && Replaces(s.requests[r], x);
        assert (e.Begin? || r != e.r) ==> Replaces(t.requests[r], x);
        assert !e.Begin? && r == e.r ==> e.Swap? && t.evicted == s.evicted + [x];
      } else if x !in s.evicted {
        assert Replaces(t.requests[e.r], x);
      }
    }
  }

  lemma {:induction false} RunSentences(s: Striped, events: seq<Event>, t: Striped, k: nat, judged: set<nat>)
    requires k > 0 && Inv(s, k) && Homed(s, k) && AllKeep(s, k) && Run(s, events, t) && Sentenced(s, judged)
    ensures Sentenced(t, judged + Judged(s, events))
    decreases |events|
  {
    if events == [] {
      assert judged + {} == judged;
    } else {
      var e := events[0];
      SentencedStep(s, e, k, judged);
      StepKeepsInv(s, e, k);
      HomedStep(s, e, k);
      AllKeepStep(s, e, k);
      hide Inv, Homed, AllKeep, Next, Enabled, JudgedBy, Sentenced;
      RunSentences(Next(s, e), events[1..], t, k, judged + JudgedBy(s, e));
      assert judged + JudgedBy(s, e) + Judged(Next(s, e), events[1..]) == judged + Judged(s, events);
    }
  }

  /** Main result: in every interleaving, exactly the stripes that some request judged sick are evicted, apart from
      those whose swap is still to come. */
  lemma EvictedExactlyWhenSick(k: nat, events: seq<Event>, s: Striped, x: nat)
    requires k > 0 && Run(Fresh(k), events, s)
    ensures x in s.evicted ==> x in Judged(Fresh(k), events)
    ensures x in Judged(Fresh(k), events) ==> x in s.evicted || Pending(s, x)
  {
    FreshInv(k);
    FreshKeeps(k);
    assert Sentenced(Fresh(k), {});
    RunSentences(Fresh(k), events, s, k, {});
    assert {} + Judged(Fresh(k), events) == Judged(Fresh(k), events);
    hide Run, Judged, Pending;
  }

  /** A request that is to replace this stripe, or has done so or found it done, is on its way to another one. */
  predicate Avoids(s: Striped, p: Place, sick: nat) {
    && (p.Built? ==> p.stripe == sick)
    && (p.Lost? ==> sick in s.evicted)
    && !p.Picked? && !p.Loaded?
    && (HasStripe(p) && !p.Built? ==> p.stripe != sick)
  }

  lemma AvoidsStep(s: Striped, e: Event, k: nat, r: nat, sick: nat)
    requires k > 0 && Inv(s, k) && Homed(s, k) && AllKeep(s, k) && Enabled(s, e)
    requires r < |s.requests| && Avoids(s, s.requests[r].place, sick)
    ensures r < |Next(s, e).requests| && Avoids(Next(s, e), Next(s, e).requests[r].place, sick)
  {
    OthersStay(s, e);
    EvictedGrows(s, e);
    assert Sound(s, s.requests[r]);
    if e.Swap? && e.r == r {
      InSlotOrEvicted(s, k, r);
      assert !Published(s, s.requests[r].place.replacement);
    }
    hide Homed, AllKeep;
  }

  /** Main result: a request that judged its stripe sick is never sent through it, whoever replaces it. */
  lemma {:induction false} SickIsAvoided(s: Striped, later: seq<Event>, t: Striped, k: nat, r: nat, sick: nat)
    requires k > 0 && Inv(s, k) && Homed(s, k) && AllKeep(s, k) && Run(s, later, t)
    requires r < |s.requests| && Avoids(s, s.requests[r].place, sick)
    ensures r < |t.requests| && Avoids(t, t.requests[r].place, sick)
    decreases |later|
  {
    if later != [] {
      var e := later[0];
      AvoidsStep(s, e, k, r, sick);
      StepKeepsInv(s, e, k);
      HomedStep(s, e, k);
      AllKeepStep(s, e, k);
      hide Inv, Homed, AllKeep, Next, Enabled, Avoids;
      SickIsAvoided(Next(s, e), later[1..], t, k, r, sick);
    }
  }

  /** In every run: a request that has judged its stripe sick is not counted onto it later. */
  lemma JudgedIsAvoided(k: nat, before: seq<Event>, mid: Striped, r: nat, later: seq<Event>, t: Striped)
    requires k > 0 && Run(Fresh(k), before, mid) && r < |mid.requests| && mid.requests[r].place.Loaded?
    requires Run(mid, [Check(r, true)] + later, t)
    ensures r < |t.requests| && !Holds(t.requests[r], mid.requests[r].place.stripe)
  {
    FreshInv(k);
    FreshKeeps(k);
    RunKeepsInv(Fresh(k), before, mid, k);
    RunKeeps(Fresh(k), before, mid, k);
    assert ([Check(r, true)] + later)[1..] == later;
    StepKeepsInv(mid, Check(r, true), k);
    HomedStep(mid, Check(r, true), k);
    AllKeepStep(mid, Check(r, true), k);
    assert Run(Next(mid, Check(r, true)), later, t);
    hide Run, Fresh, Inv, Homed, AllKeep;
    SickIsAvoided(Next(mid, Check(r, true)), later, t, k, r, mid.requests[r].place.stripe);
  }

  /* ---------- How a request goes on ---------- */

  /** In every reachable state, a request that was counted and whose transport fails gives its place back without a
      close; one that gets a response keeps it until its body is closed, which gives it back once. */
  lemma RequestGivesBack(k: nat, events: seq<Event>, s: Striped, r: nat)
    requires k > 0 && Run(Fresh(k), events, s) && r < |s.requests| && s.requests[r].place.Counted?
    ensures var x := s.requests[r].place.stripe;
            && x < |s.inflight|
            && Run(s, [Respond(r, false), Undo(r)], Moved(Add(s, x, -1), r, Over))
            && Run(s, [Respond(r, true), Close(r)] + [Release(r), Close(r)], Moved(Add(s, x, -1), r, Closed))
  {
    FreshInv(k);
    RunKeepsInv(Fresh(k), events, s, k);
    hide Run, Fresh;
    assert Sound(s, s.requests[r]);
    FailureGivesBack(s, r);
    CloseGivesBack(s, r);
  }

  lemma MovedAgain(s: Striped, r: nat, p: Place, q: Place, x: nat)
    requires r < |s.requests| && x < |s.inflight|
    ensures Moved(Moved(s, r, p), r, q) == Moved(s, r, q)
    ensures Moved(Add(Moved(s, r, p), x, -1), r, q) == Moved(Add(s, x, -1), r, q)
  {
    assert s.requests[r := s.requests[r].(place := p)][r := s.requests[r].(place := q)]
        == s.requests[r := s.requests[r].(place := q)];
  }

  lemma FailureGivesBack(s: Striped, r: nat)
    requires r < |s.requests| && s.requests[r].place.Counted? && s.requests[r].place.stripe < |s.inflight|
    requires |s.slots| > 0
    ensures Run(s, [Respond(r, false), Undo(r)], Moved(Add(s, s.requests[r].place.stripe, -1), r, Over))
  {
    var x := s.requests[r].place.stripe;
    MovedAgain(s, r, Failing(x), Over, x);
    hide Run;
    RunTwo(s, Respond(r, false), Undo(r), Moved(s, r, Failing(x)));
  }

  lemma CloseGivesBack(s: Striped, r: nat)
    requires r < |s.requests| && s.requests[r].place.Counted? && s.requests[r].place.stripe < |s.inflight|
    requires |s.slots| > 0
    ensures Run(s, [Respond(r, true), Close(r)] + [Release(r), Close(r)],
                Moved(Add(s, s.requests[r].place.stripe, -1), r, Closed))
  {
    var x := s.requests[r].place.stripe;
    var closing, closed := Moved(s, r, Closing(x)), Moved(Add(s, x, -1), r, Closed);
    MovedAgain(s, r, Open(x), Closing(x), x);
    MovedAgain(s, r, Closing(x), Closed, x);
    hide Run;
    RunTwo(s, Respond(r, true), Close(r), Moved(s, r, Open(x)));
    RunTwo(closing, Release(r), Close(r), closed);
    RunJoins(s, [Respond(r, true), Close(r)], closing, [Release(r), Close(r)], closed);
  }

  lemma RunTwo(s: Striped, a: Event, b: Event, mid: Striped)
    requires |s.slots| > 0 && Enabled(s, a) && Next(s, a) == mid && |mid.slots| > 0 && Enabled(mid, b)
    ensures Run(s, [a, b], Next(mid, b))
  {
    hide Next, Enabled;
    assert [a, b][1..] == [b] && [b][1..] == [];
    assert Run(mid, [b], Next(mid, b));
  }

  lemma {:induction false} RunJoins(s: Striped, es: seq<Event>, mid: Striped, fs: seq<Event>, t: Striped)
    requires Run(s, es, mid) && Run(mid, fs, t)
    ensures Run(s, es + fs, t)
    decreases |es|
  {
    if es == [] {
      assert es + fs == fs;
    } else {
      assert (es + fs)[1..] == es[1..] + fs;
      RunJoins(Next(s, es[0]), es[1..], mid, fs, t);
    }
  }
}
