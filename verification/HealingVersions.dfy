/**
 Healing reads without a tag, over an object that changes. A body from GetRange starts without a tag and captures the
 one it sees at its first heal, so a change before that heal goes unnoticed.
 */
module HealingVersions {
  import opened Healing
  import opened Objects

  /** The object does not change between one heal's Stat and its GetRange, tags identify contents, and bodies do not
      end early. */
  ghost predicate Guarded(w: World) {
    && !w.earlyEof
    && (forall t: nat :: w.ranged(t + 1) == w.stat(t) && w.stat(t).etag != "")
    && (forall t: nat, u: nat :: w.stat(t).etag == w.stat(u).etag ==> w.stat(t).content == w.stat(u).content)
  }

  /** The first `k` bytes of the range as it was opened, then the rest as the first heal finds it. */
  function Mixed(q: Request, start: Bytes, later: Bytes, k: nat): Bytes
    requires k <= |Slice(start, q.off, q.length)|
  {
    Slice(start, q.off, q.length)[..k] + Resumed(q, later, k)
  }

  /** A heal after `k` bytes of an unfinished range that found the version of time `t`. */
  ghost predicate Switches(q: Request, first: Bytes, k: nat) {
    k <= |Slice(first, q.off, q.length)| && !Finished(q, k)
  }

  /** Either no heal replaced anything, or one at `k` bytes switched to the version of time `t` for good. */
  ghost predicate TwoVersions(q: Request, w: World, first: Bytes, b: Body, o: Outcome) {
    || Faithful(Slice(first, q.off, q.length), b, o)
    || exists k: nat, t: nat :: Switches(q, first, k) && Faithful(Mixed(q, first, w.stat(t).content, k), b, o)
  }

  /** The version found at the first heal serves the rest of the range to the end. */
  lemma MixedServes(q: Request, first: Bytes, later: Bytes, k: nat)
    requires Switches(q, first, k)
    requires q.off >= 0 || SafeRange(q.off, q.length, |later|, false)
    ensures Serves(q, later, Mixed(q, first, later, k), k, false)
  {
    var want := Mixed(q, first, later, k);
    var tail := Resumed(q, later, k);
    hide Mixed;
    forall c: nat | k <= c <= |want|
      ensures ServesAt(q, later, want, c, false)
    {
      assert want == Slice(first, q.off, q.length)[..k] + tail;
      assert want[c..] == tail[c - k..];
      TailServes(q, later, k, c);
    }
  }

  lemma TailServes(q: Request, later: Bytes, k: nat, c: nat)
    requires !Finished(q, k) && k <= c <= k + |Resumed(q, later, k)|
    requires q.off >= 0 || SafeRange(q.off, q.length, |later|, false)
    ensures if Finished(q, c) then c == k + |Resumed(q, later, k)|
            else Resumed(q, later, c) == Resumed(q, later, k)[c - k..]
  {
    var rest := Request(q.off + k, if q.length > 0 then q.length - k else 0, q.limit);
    hide SafeRange, Slice, Serves;
    RestIsSafe(q, |later|, k);
    SafeServes(rest, later, false);
    ServedAt(rest, later, Slice(later, rest.off, rest.length), 0, c - k, false);
    assert Resumed(rest, later, c - k) == Resumed(q, later, c);
  }

  lemma RestIsSafe(q: Request, size: nat, k: nat)
    requires !Finished(q, k) && (q.off >= 0 || SafeRange(q.off, q.length, size, false))
    ensures SafeRange(q.off + k, if q.length > 0 then q.length - k else 0, size, false)
  {
  }

  lemma GuardedIsSteady(w: World, t: nat)
    requires Guarded(w)
    ensures Steady(w, w.stat(t).etag, w.stat(t).content)
  {
    forall u: nat | w.stat(u).etag == w.stat(t).etag
      ensures w.ranged(u + 1).content == w.stat(t).content
    {
      assert w.ranged(u + 1) == w.stat(u);
    }
  }

  /** The body after the first heal at `k` bytes, which captured the version of time `t`: only that version passes its
      tag check. */
  ghost predicate Switched(q: Request, w: World, first: Bytes, b: Body, k: nat, t: nat) {
    && Switches(q, first, k) && k <= b.consumed && Steady(w, b.etag, w.stat(t).content)
    && Tracks(Mixed(q, first, w.stat(t).content, k), b)
  }

  /** The first heal captures the tag it sees, and the new connection holds the rest of that version. */
  lemma FirstHeal(q: Request, w: World, first: Bytes, b: Body)
    requires Guarded(w) && b.etag == "" && Tracks(Slice(first, q.off, q.length), b) && !RemainingDone(q, b)
    requires Heal(q, w, b).1.Ok?
    ensures Switched(q, w, first, Heal(q, w, b).0, b.consumed, b.clock + 1)
  {
    var t := b.clock + 1;
    assert w.ranged(t + 1) == w.stat(t);
    assert Heal(q, w, b).0.etag == w.stat(t).etag;
    GuardedIsSteady(w, t);
    hide Slice, Steady, Guarded;
  }

  /** When the Stat of a heal after this read would be issued. */
  function HealTime(q: Request, w: World, b: Body, signal: Signal): nat {
    Asked(q, w, b, signal).1.clock + 2
  }

  /** What comes of a read that ended in an error: the end, an early failure, or a heal. */
  lemma RecoverCases(q: Request, w: World, b: Body, signal: Signal)
    ensures var next := b.(clock := Asked(q, w, b, signal).1.clock + 1);
            || (Recover(q, w, b, signal).1.Eof? && (signal == End || RemainingDone(q, b))
                && Recover(q, w, b, signal).0 == b.(clock := Recover(q, w, b, signal).0.clock))
            || Recover(q, w, b, signal) == (next, Failed(Cancelled))
            || (Recover(q, w, b, signal) == Heal(q, w, next) && !RemainingDone(q, next))
  {
    hide Asked, Heal, Finished;
  }

  lemma FirstRecover(q: Request, w: World, first: Bytes, b: Body, signal: Signal)
    requires Guarded(w) && b.etag == "" && Tracks(Slice(first, q.off, q.length), b) && (signal == End ==> b.rest == [])
    ensures var (after, o) := Recover(q, w, b, signal);
            && (o.Ok? ==> Switched(q, w, first, after, b.consumed, HealTime(q, w, b, signal)))
            && (!o.Ok? ==> Tracks(Slice(first, q.off, q.length), after))
            && (o.Eof? ==> after.consumed == |Slice(first, q.off, q.length)|)
  {
    hide Slice, Guarded, Switched, Heal, Finished, Asked, Tracks, Recover;
    var want := Slice(first, q.off, q.length);
    var (after, o) := Recover(q, w, b, signal);
    var next := b.(clock := HealTime(q, w, b, signal) - 1);
    EmptyRest(want, b);
    FinishedRange(q, first, b.consumed);
    RecoverCases(q, w, b, signal);
    TracksOn(want, b, after.clock);
    TracksOn(want, b, next.clock);
    if !RemainingDone(q, next) {
      HealOnce(q, w, first, next);
    }
  }

  lemma HealOnce(q: Request, w: World, first: Bytes, b: Body)
    requires Guarded(w) && b.etag == "" && Tracks(Slice(first, q.off, q.length), b) && !RemainingDone(q, b)
    ensures var (after, o) := Heal(q, w, b);
            if o.Ok? then Switched(q, w, first, after, b.consumed, b.clock + 1)
            else Tracks(Slice(first, q.off, q.length), after)
  {
    if Heal(q, w, b).1.Ok? {
      FirstHeal(q, w, first, b);
    } else {
      FailedHeal(q, w, b);
      SameTracks(Slice(first, q.off, q.length), b, Heal(q, w, b).0);
    }
    hide Heal, Slice, Guarded, Switched, Tracks;
  }

  lemma EmptyRest(want: Bytes, b: Body)
    ensures Tracks(want, b) ==> b.consumed <= |want| && (b.rest == [] ==> b.consumed == |want|)
  {
  }

  lemma SameTracks(want: Bytes, a: Body, b: Body)
    requires Tracks(want, a) && a.rest == b.rest && a.consumed == b.consumed && a.delivered == b.delivered
    ensures Tracks(want, b)
  {
  }

  lemma FinishedRange(q: Request, content: Bytes, consumed: nat)
    requires consumed <= |Slice(content, q.off, q.length)|
    ensures Finished(q, consumed) ==> consumed == |Slice(content, q.off, q.length)|
  {
    SliceBounds(content, q.off, q.length);
    hide Slice;
  }

  lemma FailedHeal(q: Request, w: World, b: Body)
    requires !Heal(q, w, b).1.Ok?
    ensures var after := Heal(q, w, b).0;
            after.rest == b.rest && after.consumed == b.consumed && after.delivered == b.delivered
  {
    hide Slice;
  }

  /** The version found at time `t` serves the rest of every later heal, too. */
  lemma SwitchedServes(q: Request, w: World, first: Bytes, b: Body, k: nat, t: nat)
    requires Guarded(w) && Switched(q, w, first, b, k, t)
    requires q.off >= 0 || SafeRange(q.off, q.length, |w.stat(t).content|, false)
    ensures var later := w.stat(t).content;
            && Serves(q, later, Mixed(q, first, later, k), k, w.earlyEof)
            && SizesKnown(w, later) && Steady(w, b.etag, later) && Tracks(Mixed(q, first, later, k), b)
  {
    MixedServes(q, first, w.stat(t).content, k);
    hide Slice, Serves, Steady, Mixed;
  }

  /** Whatever the suffix, the versions that may be found resume it in place. */
  ghost predicate Resumable(q: Request, w: World) {
    q.off >= 0 || forall t: nat :: SafeRange(q.off, q.length, |w.stat(t).content|, false)
  }

  /** The body has switched at some first heal, and at end of file has delivered all of it. */
  ghost predicate HasSwitched(q: Request, w: World, first: Bytes, after: Body, o: Outcome) {
    exists k: nat, t: nat :: Switched(q, w, first, after, k, t)
      && (o.Eof? ==> after.consumed == |Mixed(q, first, w.stat(t).content, k)|)
  }

  /** One Read of an untagged body: it stays on the opened version, or has switched at its first heal. */
  ghost predicate ReadOutcome(q: Request, w: World, first: Bytes, after: Body, o: Outcome) {
    || (&& (o.Ok? ==> after.etag == "") && Tracks(Slice(first, q.off, q.length), after)
        && (o.Eof? ==> after.consumed == |Slice(first, q.off, q.length)|))
    || HasSwitched(q, w, first, after, o)
  }

  lemma UntaggedRead(q: Request, w: World, first: Bytes, b: Body, room: nat)
    requires Guarded(w) && Resumable(q, w) && b.etag == "" && Tracks(Slice(first, q.off, q.length), b)
    ensures var (after, n, o) := Read(q, w, b, room);
            ReadOutcome(q, w, first, after, o)
  {
    var want := Slice(first, q.off, q.length);
    hide Recover, ConnectionRead, Slice, Switched, Resumable, Guarded, Mixed, HealTime;
    var (n, signal) := ConnectionRead(w, b, room);
    var got := Advance(b, n);
    EndsTruly(w, b, room);
    assert Tracks(want, got);
    if signal != Fine {
      var t := HealTime(q, w, got, signal);
      FirstRecover(q, w, first, got, signal);
      var (after, o) := Recover(q, w, got, signal);
      if o.Ok? {
        assert Switched(q, w, first, after, got.consumed, t);
        if n == 0 {
          SwitchedRead(q, w, first, after, room, got.consumed, t);
        }
      }
    }
  }

  lemma EndsTruly(w: World, b: Body, room: nat)
    requires Guarded(w)
    ensures var (n, signal) := ConnectionRead(w, b, room); signal == End ==> Advance(b, n).rest == []
  {
  }

  lemma SwitchedRead(q: Request, w: World, first: Bytes, b: Body, room: nat, k: nat, t: nat)
    requires Guarded(w) && Resumable(q, w) && Switched(q, w, first, b, k, t)
    ensures var (after, n, o) := Read(q, w, b, room);
            && Switched(q, w, first, after, k, t)
            && (o.Eof? ==> after.consumed == |Mixed(q, first, w.stat(t).content, k)|)
  {
    SwitchedServes(q, w, first, b, k, t);
    hide Serves, Steady, Guarded, Mixed, Read;
    ReadServes(q, w, w.stat(t).content, b, room, Mixed(q, first, w.stat(t).content, k), k);
  }

  lemma {:induction false} SwitchedReads(q: Request, w: World, first: Bytes, b: Body, rooms: seq<nat>, k: nat, t: nat)
    requires Guarded(w) && Resumable(q, w) && Switched(q, w, first, b, k, t)
    ensures var (after, o) := ReadAll(q, w, b, rooms);
            Faithful(Mixed(q, first, w.stat(t).content, k), after, o)
  {
    SwitchedServes(q, w, first, b, k, t);
    hide Serves, Steady, Guarded, Mixed, Read;
    ReadsServe(q, w, w.stat(t).content, b, rooms, Mixed(q, first, w.stat(t).content, k), k);
  }

  /** Main result: an untagged body over a changing object delivers a prefix of at most two versions: the bytes of the
      version it was opened on up to the first heal, and from there the rest of the version that heal found. End of
      file means all of it. */
  lemma {:induction false} UntaggedMixesAtMostTwo(q: Request, w: World, first: Bytes, b: Body, rooms: seq<nat>)
    requires Guarded(w) && Resumable(q, w) && b.etag == "" && Tracks(Slice(first, q.off, q.length), b)
    ensures var (after, o) := ReadAll(q, w, b, rooms);
            TwoVersions(q, w, first, after, o)
    decreases |rooms|
  {
    hide Guarded, Resumable, Read, Slice, HasSwitched, TwoVersions, Steady;
    StaysWhole(q, w, first, b, Ok);
    if rooms != [] {
      var (after, n, o) := Read(q, w, b, rooms[0]);
      UntaggedRead(q, w, first, b, rooms[0]);
      if o.Ok? || !HasSwitched(q, w, first, after, o) {
        StaysWhole(q, w, first, after, o);
      }
      if HasSwitched(q, w, first, after, o) {
        SwitchedAll(q, w, first, after, o, rooms[1..]);
      } else if o.Ok? {
        UntaggedMixesAtMostTwo(q, w, first, after, rooms[1..]);
      }
    }
  }

  lemma StaysWhole(q: Request, w: World, first: Bytes, b: Body, o: Outcome)
    ensures Tracks(Slice(first, q.off, q.length), b) && (o.Eof? ==> b.consumed == |Slice(first, q.off, q.length)|) ==>
      TwoVersions(q, w, first, b, o)
  {
    hide Slice;
  }

  lemma SwitchedAll(q: Request, w: World, first: Bytes, b: Body, o: Outcome, rooms: seq<nat>)
    requires Guarded(w) && Resumable(q, w) && HasSwitched(q, w, first, b, o)
    ensures if o.Ok? then var (after, end) := ReadAll(q, w, b, rooms); TwoVersions(q, w, first, after, end)
            else TwoVersions(q, w, first, b, o)
  {
    hide Guarded, Resumable, Slice, Mixed, ReadAll;
    var k: nat, t: nat :| Switched(q, w, first, b, k, t)
      && (o.Eof? ==> b.consumed == |Mixed(q, first, w.stat(t).content, k)|);
    if o.Ok? {
      SwitchedReads(q, w, first, b, rooms, k, t);
    }
    assert Switches(q, first, k);
  }

  /* ---------- Exactly when one version is delivered ---------- */

  /** The reads are faithful to the range in the opened version, or in one found later: its beginning, and all of it at
      end of file. */
  ghost predicate OfOneVersion(q: Request, w: World, first: Bytes, b: Body, o: Outcome) {
    || Faithful(Slice(first, q.off, q.length), b, o)
    || exists t: nat :: Faithful(Slice(w.stat(t).content, q.off, q.length), b, o)
  }

  ghost predicate AlwaysOneVersion(q: Request, first: Bytes) {
    forall w: World, rooms: seq<nat> :: Guarded(w) ==>
      OfOneVersion(q, w, first,
                   ReadAll(q, w, Opened(q, first, ""), rooms).0, ReadAll(q, w, Opened(q, first, ""), rooms).1)
  }

  /** Nothing may be resumed; or the first byte is the last; or there was no first byte, and what a suffix request finds
      later is not resumed again. */
  predicate NothingToMix(q: Request, size: nat) {
    q.limit <= 1 || Finished(q, 1) || (if q.off >= 0 then size <= q.off else size == 0 && q.limit <= 2)
  }

  /* The condition is enough. */

  lemma OneVersionAtStart(q: Request, w: World, first: Bytes, rooms: seq<nat>)
    requires Guarded(w) && (Finished(q, 1) || (q.off >= 0 && |first| <= q.off))
    ensures var (after, o) := ReadAll(q, w, Opened(q, first, ""), rooms);
            OfOneVersion(q, w, first, after, o)
  {
    var (after, o) := ReadAll(q, w, Opened(q, first, ""), rooms);
    UntaggedMixesAtMostTwo(q, w, first, Opened(q, first, ""), rooms);
    hide ReadAll, Slice, Guarded;
    if !Faithful(Slice(first, q.off, q.length), after, o) {
      var k: nat, t: nat :| Switches(q, first, k) && Faithful(Mixed(q, first, w.stat(t).content, k), after, o);
      NothingBefore(q, first, w.stat(t).content, k);
    }
  }

  lemma NothingBefore(q: Request, first: Bytes, later: Bytes, k: nat)
    requires Switches(q, first, k) && (Finished(q, 1) || (q.off >= 0 && |first| <= q.off))
    ensures k == 0 && Mixed(q, first, later, k) == Slice(later, q.off, q.length)
  {
    SliceBounds(first, q.off, q.length);
    assert Slice(first, q.off, q.length)[..0] == [];
    WholeResumed(q, later);
    hide Slice;
  }

  /** Nothing consumed, everything is requested again. */
  lemma WholeResumed(q: Request, later: Bytes)
    ensures Resumed(q, later, 0) == Slice(later, q.off, q.length)
  {
  }

  /** A heal of a body that has delivered nothing opens the whole range of the version it finds. */
  lemma EmptyHeal(q: Request, w: World, b: Body, signal: Signal)
    requires Guarded(w) && b.etag == "" && b.consumed == 0 && b.delivered == [] && Recover(q, w, b, signal).1.Ok?
    ensures exists t: nat :: Tracks(Slice(w.stat(t).content, q.off, q.length), Recover(q, w, b, signal).0)
  {
    var t := HealTime(q, w, b, signal);
    var next := b.(clock := t - 1);
    RecoverCases(q, w, b, signal);
    hide Recover, Slice, Asked, Finished;
    HealsWhole(q, w, next);
  }

  lemma HealsWhole(q: Request, w: World, b: Body)
    requires Guarded(w) && b.consumed == 0 && b.delivered == [] && Heal(q, w, b).1.Ok?
    ensures Tracks(Slice(w.stat(b.clock + 1).content, q.off, q.length), Heal(q, w, b).0)
  {
    var t := b.clock + 1;
    assert w.ranged(t + 1) == w.stat(t);
    WholeResumed(q, w.stat(t).content);
    hide Slice, Guarded;
    assert Heal(q, w, b).0.rest == Slice(w.stat(t).content, q.off, q.length);
  }

  /** Over an empty object, with one heal, all that is delivered is of the version that heal finds. */
  lemma {:induction false} OneVersionOfEmpty(q: Request, w: World, b: Body, rooms: seq<nat>)
    requires Guarded(w) && q.off < 0 && q.limit <= 2
    requires b.etag == "" && b.consumed == 0 && b.delivered == [] && b.rest == [] && b.attempts >= 1
    ensures var (after, o) := ReadAll(q, w, b, rooms);
            OfOneVersion(q, w, [], after, o)
    decreases |rooms|
  {
    hide Slice, ConnectionRead, Recover, Guarded, Read;
    assert Slice([], q.off, q.length) == [] by { SliceBounds([], q.off, q.length); }
    if rooms != [] {
      var (n, signal) := ConnectionRead(w, b, rooms[0]);
      var got := Advance(b, n);
      var (after, o) := Recover(q, w, got, signal);
      ReadOfEmpty(q, w, b, rooms[0]);
      if signal == Fine {
        OneVersionOfEmpty(q, w, got, rooms[1..]);
      } else if o.Ok? {
        EmptyHeal(q, w, got, signal);
        var t: nat :| Tracks(Slice(w.stat(t).content, q.off, q.length), after);
        assert !w.earlyEof by { NoEarlyEnds(w); }
        SingleReads(q, w, w.stat(t).content, after, rooms);
        SameReads(q, w, b, after, rooms);
      }
    }
  }

  lemma NoEarlyEnds(w: World)
    requires Guarded(w)
    ensures !w.earlyEof
  {
  }

  /** A read of an empty connection: nothing, or what comes after recovery. */
  lemma ReadOfEmpty(q: Request, w: World, b: Body, room: nat)
    requires b.rest == []
    ensures var (n, signal) := ConnectionRead(w, b, room);
            && n == 0
            && (signal == Fine ==> Read(q, w, b, room) == (Advance(b, 0), 0, Ok))
            && (signal != Fine ==>
                  var (after, o) := Recover(q, w, Advance(b, 0), signal);
                  Read(q, w, b, room) == if o.Ok? then Read(q, w, after, room) else (after, 0, o))
  {
    hide Recover, Slice;
  }

  lemma SameReads(q: Request, w: World, a: Body, b: Body, rooms: seq<nat>)
    requires rooms != [] && Read(q, w, a, rooms[0]) == Read(q, w, b, rooms[0])
    ensures ReadAll(q, w, a, rooms) == ReadAll(q, w, b, rooms)
  {
    hide Read;
  }

  lemma OneVersionWhen(q: Request, w: World, first: Bytes, rooms: seq<nat>)
    requires Guarded(w) && NothingToMix(q, |first|)
    ensures var (after, o) := ReadAll(q, w, Opened(q, first, ""), rooms);
            OfOneVersion(q, w, first, after, o)
  {
    if q.limit <= 1 {
      SingleReads(q, w, first, Opened(q, first, ""), rooms);
    } else if Finished(q, 1) || q.off >= 0 {
      OneVersionAtStart(q, w, first, rooms);
    } else {
      SliceBounds(first, q.off, q.length);
      OneVersionOfEmpty(q, w, Opened(q, first, ""), rooms);
    }
  }

  /* Otherwise two versions are mixed. */

  /** The object is replaced for good from the start. A read brings one byte at most, and at time 0 and at time `again`
      its connection breaks. */
  function Replaced(later: Bytes, again: nat): (w: World)
    ensures Guarded(w)
  {
    World(t => Version(later, "tag"), t => Version(later, "tag"),
          t => Answer(1, if t == 0 || t == again then Break else Fine, false), false)
  }

  /** In such a world a heal always succeeds within the budget. */
  lemma RecoverReplaced(q: Request, later: Bytes, again: nat, b: Body)
    requires b.attempts < q.limit && !Finished(q, b.consumed) && (b.etag == "" || b.etag == "tag")
    ensures var (after, o) := Recover(q, Replaced(later, again), b, Break);
            && o == Ok && after.rest == Resumed(q, later, b.consumed) && after.etag == "tag"
            && after.consumed == b.consumed && after.delivered == b.delivered
            && after.attempts == b.attempts + 1 && after.clock == b.clock + 4
  {
    hide Slice, Finished, Guarded;
  }

  lemma BrokenByte(q: Request, later: Bytes, again: nat, b: Body)
    requires b.attempts < q.limit && b.rest != [] && !Finished(q, b.consumed + 1) && (b.etag == "" || b.etag == "tag")
    requires b.clock == 0 || b.clock == again
    ensures var (after, n, o) := Read(q, Replaced(later, again), b, 1);
            && n == 1 && o == Ok && after.rest == Resumed(q, later, b.consumed + 1)
            && after.delivered == b.delivered + b.rest[..1] && after.clock == b.clock + 5
  {
    hide Slice, Recover, ConnectionRead, Guarded, Finished, Resumed;
    var w := Replaced(later, again);
    OneByte(w, b);
    RecoverReplaced(q, later, again, Advance(b, 1));
    ReadBroken(q, w, b);
  }

  lemma PlainByte(q: Request, later: Bytes, again: nat, b: Body)
    requires b.rest != [] && b.clock != 0 && b.clock != again
    ensures Read(q, Replaced(later, again), b, 1) == (Advance(b, 1), 1, Ok)
  {
    hide Recover, ConnectionRead, Guarded;
    OneByte(Replaced(later, again), b);
  }

  lemma OneByte(w: World, b: Body)
    requires b.rest != [] && w.answers(b.clock).n == 1 && w.answers(b.clock).signal != End
    ensures ConnectionRead(w, b, 1) == (1, w.answers(b.clock).signal)
  {
  }

  /** A read that brought a byte returns it, whatever it took to recover. */
  lemma ReadBroken(q: Request, w: World, b: Body)
    requires b.rest != [] && ConnectionRead(w, b, 1) == (1, Break)
    ensures var (after, o) := Recover(q, w, Advance(b, 1), Break);
            Read(q, w, b, 1) == (after, 1, o)
  {
    hide Recover, ConnectionRead;
  }

  lemma ReplacedReads(q: Request, first: Bytes, later: Bytes)
    requires q.limit >= 2 && !Finished(q, 1) && Slice(first, q.off, q.length) != [] && Resumed(q, later, 1) != []
    ensures ReadAll(q, Replaced(later, 0), Opened(q, first, ""), [1, 1]).0.delivered
         == Slice(first, q.off, q.length)[..1] + Resumed(q, later, 1)[..1]
  {
    hide Slice, Read, ReadAll, Guarded, Resumed, Finished;
    var w, b := Replaced(later, 0), Opened(q, first, "");
    BrokenByte(q, later, 0, b);
    var b1 := Read(q, w, b, 1).0;
    PlainByte(q, later, 0, b1);
    TwoReads(q, w, b, b1, Advance(b1, 1));
    assert b1.delivered == [] + b.rest[..1] == b.rest[..1];
  }

  lemma TwoReads(q: Request, w: World, b: Body, b1: Body, b2: Body)
    requires Read(q, w, b, 1) == (b1, Read(q, w, b, 1).1, Ok) && Read(q, w, b1, 1) == (b2, Read(q, w, b1, 1).1, Ok)
    ensures ReadAll(q, w, b, [1, 1]) == (b2, Ok)
  {
    hide Read;
    assert [1, 1][1..] == [1] && [1][1..] == [];
    assert ReadAll(q, w, b1, [1]) == (b2, Ok);
  }

  predicate All(bytes: Bytes, y: Byte) {
    forall i :: 0 <= i < |bytes| ==> bytes[i] == y
  }

  lemma AllSlice(later: Bytes, off: int, length: int, y: Byte)
    requires All(later, y)
    ensures All(Slice(later, off, length), y)
  {
  }

  /** A byte that is neither of the two. */
  function Other(a: Byte, b: Byte): (c: Byte)
    ensures c != a && c != b
  {
    if a != 0 && b != 0 then 0 else if a != 1 && b != 1 then 1 else 2
  }

  lemma SomethingToResume(q: Request, later: Bytes)
    requires |later| > Max(q.off + 1, 0) && !Finished(q, 1)
    ensures Resumed(q, later, 1) != []
  {
    var rest := if q.length > 0 then q.length - 1 else 0;
    assert RangeStart(|later|, q.off + 1) < RangeEnd(|later|, q.off + 1, rest);
  }

  /** After a first byte the rest comes from a version of other bytes. */
  lemma MixesBytes(q: Request, first: Bytes)
    requires q.limit >= 2 && !Finished(q, 1) && Slice(first, q.off, q.length) != []
    ensures !AlwaysOneVersion(q, first)
  {
    hide Slice, ReadAll, Guarded, Resumed, Finished;
    var want := Slice(first, q.off, q.length);
    var y := Other(want[0], if |want| > 1 then want[1] else 0);
    var later: Bytes := seq(Max(q.off, 0) + 2, _ => y);
    AllResumed(q, later, y);
    ReplacedReads(q, first, later);
    NoPrefix(want, Slice(later, q.off, q.length), Resumed(q, later, 1), y);
    NotOfOneVersion(q, Replaced(later, 0), first, [1, 1]);
  }

  lemma AllResumed(q: Request, later: Bytes, y: Byte)
    requires All(later, y) && |later| > Max(q.off + 1, 0) && !Finished(q, 1)
    ensures Resumed(q, later, 1) != [] && All(Resumed(q, later, 1), y) && All(Slice(later, q.off, q.length), y)
  {
    SomethingToResume(q, later);
    AllSlice(later, q.off + 1, if q.length > 0 then q.length - 1 else 0, y);
    AllSlice(later, q.off, q.length, y);
    hide Slice;
  }

  lemma NoPrefix(want: Bytes, other: Bytes, rest: Bytes, y: Byte)
    requires want != [] && rest != [] && All(other, y) && All(rest, y) && y != want[0] && (|want| > 1 ==> y != want[1])
    ensures !(want[..1] + rest[..1] <= want) && !(want[..1] + rest[..1] <= other)
  {
    var mixed := want[..1] + rest[..1];
    assert mixed[0] == want[0] && mixed[1] == y;
  }

  /** Neither the opened nor any later version begins with the delivered bytes. */
  lemma NotOfOneVersion(q: Request, w: World, first: Bytes, rooms: seq<nat>)
    requires Guarded(w)
    requires var (after, o) := ReadAll(q, w, Opened(q, first, ""), rooms);
             && !(after.delivered <= Slice(first, q.off, q.length))
             && forall t: nat :: !(after.delivered <= Slice(w.stat(t).content, q.off, q.length))
    ensures !AlwaysOneVersion(q, first)
  {
    hide ReadAll, Slice, Guarded;
    var (after, o) := ReadAll(q, w, Opened(q, first, ""), rooms);
    assert !OfOneVersion(q, w, first, after, o);
  }

  /** An object that was empty is replaced by one byte, and a suffix request beyond it is resumed: the byte comes
      twice. */
  lemma RepeatsByte(q: Request, y: Byte)
    requires q.limit >= 3 && q.off < 0 && !Finished(q, 1)
    ensures ReadAll(q, Replaced([y], 5), Opened(q, [], ""), [1, 1]).0.delivered == [y, y]
  {
    hide Slice, Read, ReadAll, Guarded, Resumed, Finished, Recover, ConnectionRead;
    var w, b := Replaced([y], 5), Opened(q, [], "");
    SuffixOfOne(q, y);
    assert ConnectionRead(w, b, 1) == (0, Break) by { FirstBreaks(w, b); }
    ReadOfEmpty(q, w, b, 1);
    RecoverReplaced(q, [y], 5, Advance(b, 0));
    var healed := Recover(q, w, Advance(b, 0), Break).0;
    BrokenByte(q, [y], 5, healed);
    var b1 := Read(q, w, healed, 1).0;
    PlainByte(q, [y], 5, b1);
    TwoReads(q, w, b, b1, Advance(b1, 1));
  }

  lemma FirstBreaks(w: World, b: Body)
    requires w.answers(b.clock).signal == Break && b.rest == []
    ensures ConnectionRead(w, b, 1) == (0, Break)
  {
  }

  lemma SuffixOfOne(q: Request, y: Byte)
    requires q.off < 0 && !Finished(q, 1)
    ensures Slice([], q.off, q.length) == [] && !Finished(q, 0)
    ensures Resumed(q, [y], 0) == [y] && Resumed(q, [y], 1) == [y]
  {
  }

  lemma MixesPositions(q: Request)
    requires q.limit >= 3 && q.off < 0 && !Finished(q, 1)
    ensures !AlwaysOneVersion(q, [])
  {
    RepeatsByte(q, 0);
    SliceBounds([], q.off, q.length);
    SliceBounds([0], q.off, q.length);
    hide Slice, ReadAll, Guarded;
    NotOfOneVersion(q, Replaced([0], 5), [], [1, 1]);
  }

  lemma MixesOtherwise(q: Request, first: Bytes)
    requires !NothingToMix(q, |first|)
    ensures !AlwaysOneVersion(q, first)
  {
    hide AlwaysOneVersion;
    if q.off < 0 && first == [] {
      MixesPositions(q);
    } else {
      assert Slice(first, q.off, q.length) != [] by {
        assert RangeStart(|first|, q.off) < RangeEnd(|first|, q.off, q.length);
      }
      MixesBytes(q, first);
    }
  }

  /** Main result, for every range: an untagged body always delivers the bytes of one version if and only if it may not
      heal, or its first byte is its last, or it starts at or behind the end; a suffix of an empty object is safe with
      at most one heal. */
  lemma OneVersionExactlyWhen(q: Request, first: Bytes)
    ensures AlwaysOneVersion(q, first) <==> NothingToMix(q, |first|)
  {
    if NothingToMix(q, |first|) {
      hide NothingToMix, OfOneVersion, Guarded, ReadAll;
      forall w: World, rooms: seq<nat> | Guarded(w)
        ensures OfOneVersion(q, w, first,
                             ReadAll(q, w, Opened(q, first, ""), rooms).0, ReadAll(q, w, Opened(q, first, ""), rooms).1)
      {
        OneVersionWhen(q, w, first, rooms);
      }
    } else {
      MixesOtherwise(q, first);
    }
  }
}
