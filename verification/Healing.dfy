/**
 Self-healing reads over one object. A body answers reads from its current connection; when the
 connection breaks, or ends short of a known length, the rest of the range is requested again.

 The outside world is a script indexed by a clock that advances once per outside call, so a theorem
 about every `World` is a theorem about every behaviour of the network.
 */
module Healing {
  import opened Objects

  datatype Version = Version(content: Bytes, etag: string)

  datatype Signal = Fine | End | Break

  /** What one outside call says: how many bytes a read may bring, how it ends, whether a request fails. */
  datatype Answer = Answer(n: nat, signal: Signal, fails: bool)

  /** `stat(t)` and `ranged(t)` are the versions a Stat or a GetRange issued at time `t` would see.
      `earlyEof` says whether a dying connection may look like a clean end of body. */
  datatype World = World(stat: nat -> Version, ranged: nat -> Version, answers: nat -> Answer, earlyEof: bool)

  datatype Failure = Cancelled | Exhausted | StatFailed | ObjectChanged | RangeFailed

  datatype Outcome = Ok | Eof | Failed(failure: Failure)

  /** The caller's range and the connection budget (`HealOpts.Attempts`). */
  datatype Request = Request(off: int, length: int, limit: int)

  /** `rest` is what the current connection has still to deliver, `live` the numbers of the connections
      opened and not closed, `delivered` everything handed to the caller so far. */
  datatype Body = Body(consumed: nat, attempts: nat, etag: string, rest: Bytes, closed: bool,
                       live: set<nat>, clock: nat, delivered: Bytes)

  function Opened(q: Request, content: Bytes, etag: string): Body {
    Body(0, 1, etag, Slice(content, q.off, q.length), false, {1}, 0, [])
  }

  /** One read of the current connection. Unless bodies may end early, the clean end comes only with the last byte. */
  function ConnectionRead(w: World, b: Body, room: nat): (r: (nat, Signal))
    ensures r.0 <= room && r.0 <= |b.rest|
    ensures r.1 == End && r.0 < |b.rest| ==> w.earlyEof
  {
    var a := w.answers(b.clock);
    var n := Min(a.n, Min(room, |b.rest|));
    (n, if a.signal == End && n < |b.rest| && !w.earlyEof then Fine else a.signal)
  }

  function Advance(b: Body, n: nat): Body
    requires n <= |b.rest|
  {
    b.(consumed := b.consumed + n, rest := b.rest[n..], clock := b.clock + 1, delivered := b.delivered + b.rest[..n])
  }

  /** Whether a clean end came short of a known length; asks for the object's size when it may have. */
  function Truncated(q: Request, w: World, b: Body): (bool, Body) {
    if q.off < 0 || q.length == 0 || b.consumed >= q.length then
      (false, b)
    else
      var short := w.answers(b.clock).fails || q.off + b.consumed < |w.stat(b.clock).content|;
      (short, b.(clock := b.clock + 1))
  }

  predicate Finished(q: Request, consumed: nat) {
    if q.length > 0 then consumed >= q.length else q.off < 0 && q.off + consumed >= 0
  }

  predicate RemainingDone(q: Request, b: Body) {
    Finished(q, b.consumed)
  }

  /** Waits, then checks the object's entity tag: captured on the first heal, compared on later ones. */
  function Guard(w: World, b: Body): (r: (Body, Outcome))
    ensures r.1.Ok? || r.1.Failed?
    ensures r.0 == b.(etag := r.0.etag, clock := r.0.clock)
  {
    var t := b.clock;
    if w.answers(t).fails then
      (b.(clock := t + 1), Failed(Cancelled))
    else if w.answers(t + 1).fails then
      (b.(clock := t + 2), Failed(StatFailed))
    else if b.etag != "" && w.stat(t + 1).etag != b.etag then
      (b.(clock := t + 2), Failed(ObjectChanged))
    else
      (b.(etag := w.stat(t + 1).etag, clock := t + 2), Ok)
  }

  /** Closes the connection and, within the budget, requests the remaining range on a fresh one. */
  function Heal(q: Request, w: World, b: Body): (r: (Body, Outcome))
    ensures r.1.Ok? || r.1.Failed?
    ensures r.0.consumed == b.consumed && r.0.delivered == b.delivered
    ensures r.1.Ok? ==> b.attempts < q.limit && r.0.attempts == b.attempts + 1
  {
    var shut := b.(live := b.live - {b.attempts});
    if b.attempts >= q.limit then
      (shut, Failed(Exhausted))
    else
      var (tagged, o) := Guard(w, shut);
      var asked := tagged.(clock := tagged.clock + 1);
      if !o.Ok? then
        (tagged, o)
      else if w.answers(tagged.clock).fails then
        (asked, Failed(RangeFailed))
      else
        var newLen := if q.length > 0 then q.length - b.consumed else 0;
        (asked.(rest := Slice(w.ranged(tagged.clock).content, q.off + b.consumed, newLen),
                attempts := b.attempts + 1,
                live := shut.live + {b.attempts + 1}),
         Ok)
  }

  /** Only a clean end is looked at twice: whether the end came short, and the body after asking. */
  function Asked(q: Request, w: World, b: Body, signal: Signal): (r: (bool, Body))
    ensures r.1 == b.(clock := r.1.clock)
    ensures !r.0 ==> signal == End
  {
    if signal == End then Truncated(q, w, b) else (true, b)
  }

  /** What the loop does once a read came back with an error: the new body and either an error for the
      caller or `Ok`, which means a fresh connection is open. */
  function Recover(q: Request, w: World, b: Body, signal: Signal): (r: (Body, Outcome))
    ensures r.0.consumed == b.consumed && r.0.delivered == b.delivered
    ensures r.1.Ok? ==> b.attempts < q.limit && r.0.attempts == b.attempts + 1
  {
    var (short, asked) := Asked(q, w, b, signal);
    var next := asked.(clock := asked.clock + 1);
    if !short then
      (asked, Eof)
    else if w.answers(asked.clock).fails then
      (next, Failed(Cancelled))
    else if RemainingDone(q, next) then
      (next, Eof)
    else
      Heal(q, w, next)
  }

  /** One call of Read with a buffer of `room` bytes: the new body, the bytes returned, and the error. */
  function Read(q: Request, w: World, b: Body, room: nat): (r: (Body, nat, Outcome))
    ensures r.1 <= room
    decreases Max(0, q.limit - b.attempts)
  {
    var (n, signal) := ConnectionRead(w, b, room);
    var got := Advance(b, n);
    if signal == Fine then
      (got, n, Ok)
    else
      var (after, o) := Recover(q, w, got, signal);
      if o.Ok? && n == 0 then Read(q, w, after, room) else (after, n, o)
  }

  function Close(b: Body): Body {
    if b.closed then b else b.(closed := true, live := b.live - {b.attempts})
  }

  /** Reads with the given buffer sizes up to the first error. */
  function ReadAll(q: Request, w: World, b: Body, rooms: seq<nat>): (Body, Outcome)
    decreases |rooms|
  {
    if rooms == [] then
      (b, Ok)
    else
      var (after, _, o) := Read(q, w, b, rooms[0]);
      if o.Ok? then ReadAll(q, w, after, rooms[1..]) else (after, o)
  }

  /* ---------- What a caller may rely on ---------- */

  /** Whatever versions pass the tag check against `etag` are served with exactly these bytes. An empty
      tag is not checked, so then every version served must have them. */
  ghost predicate Steady(w: World, etag: string, content: Bytes) {
    && (etag == "" ==> forall t: nat :: w.ranged(t).content == content)
    && (forall t: nat :: w.stat(t).etag == etag ==> w.ranged(t + 1).content == content)
  }

  /** A clean end is believable: bodies never end early, or the size to compare with is the object's. */
  ghost predicate SizesKnown(w: World, content: Bytes) {
    w.earlyEof ==> forall t: nat :: w.stat(t).content == content
  }

  ghost predicate Fixed(w: World, content: Bytes) {
    forall t: nat :: w.stat(t).content == content && w.ranged(t).content == content
  }

  /** The ranges for which healing resumes at the right place and recognises the end. */
  predicate SafeRange(off: int, length: int, size: nat, earlyEof: bool) {
    if earlyEof then
      (off >= 0 && length > 0) || size <= off || size == 0
    else
      off >= 0 || size == 0 || length == 1 || (-off <= size && length <= -off)
  }

  ghost predicate Tracks(want: Bytes, b: Body) {
    && b.consumed <= |want|
    && b.delivered == want[..b.consumed]
    && b.rest == want[b.consumed..]
  }

  /** The delivered bytes are a prefix of the requested slice, and the end of file means all of it. */
  ghost predicate Faithful(want: Bytes, b: Body, o: Outcome) {
    && b.delivered <= want
    && (o.Eof? ==> b.delivered == want)
  }

  /** What a request for the rest of the range brings after `consumed` bytes. */
  function Resumed(q: Request, content: Bytes, consumed: nat): Bytes {
    Slice(content, q.off + consumed, if q.length > 0 then q.length - consumed else 0)
  }

  /** From `from` bytes on, what a request for the rest brings is what is missing of `want`; the end is recognised, and
      where bodies may end early an early end is, too. */
  ghost predicate Serves(q: Request, content: Bytes, want: Bytes, from: nat, earlyEof: bool) {
    forall c: nat :: from <= c <= |want| ==> ServesAt(q, content, want, c, earlyEof)
  }

  predicate ServesAt(q: Request, content: Bytes, want: Bytes, c: nat, earlyEof: bool)
    requires c <= |want|
  {
    && (if Finished(q, c) then c == |want| else Resumed(q, content, c) == want[c..])
    && (earlyEof && c < |want| ==> q.off >= 0 && q.length > 0 && c < q.length && q.off + c < |content|)
  }

  lemma ResumesInPlace(q: Request, content: Bytes, consumed: nat, earlyEof: bool)
    requires SafeRange(q.off, q.length, |content|, earlyEof)
    requires consumed <= |Slice(content, q.off, q.length)|
    requires q.length > 0 ==> consumed < q.length
    requires q.length <= 0 && q.off < 0 ==> q.off + consumed < 0
    ensures Resumed(q, content, consumed) == Slice(content, q.off, q.length)[consumed..]
  {
    var size, rest := |content|, if q.length > 0 then q.length - consumed else 0;
    if size == 0 {
    } else if q.off >= 0 {
      assert RangeStart(size, q.off + consumed) == RangeStart(size, q.off) + consumed;
      assert RangeEnd(size, q.off + consumed, rest) == RangeEnd(size, q.off, q.length);
    } else if q.length == 1 {
    } else {
      assert RangeStart(size, q.off + consumed) == size + q.off + consumed == RangeStart(size, q.off) + consumed;
      assert RangeEnd(size, q.off + consumed, rest) == RangeEnd(size, q.off, q.length);
    }
    hide RangeStart, RangeEnd;
  }

  lemma SafeServes(q: Request, content: Bytes, earlyEof: bool)
    requires SafeRange(q.off, q.length, |content|, earlyEof)
    ensures Serves(q, content, Slice(content, q.off, q.length), 0, earlyEof)
  {
    var want := Slice(content, q.off, q.length);
    SliceBounds(content, q.off, q.length);
    forall c: nat | c <= |want|
      ensures ServesAt(q, content, want, c, earlyEof)
    {
      if !Finished(q, c) {
        ResumesInPlace(q, content, c, earlyEof);
      }
      hide Resumed;
    }
  }

  lemma HealTracks(q: Request, w: World, content: Bytes, b: Body, want: Bytes, from: nat)
    requires Serves(q, content, want, from, w.earlyEof) && from <= b.consumed
    requires Steady(w, b.etag, content) && Tracks(want, b) && !RemainingDone(q, b)
    ensures Tracks(want, Heal(q, w, b).0)
  {
    hide Slice, Serves;
    if Heal(q, w, b).1.Ok? {
      assert w.ranged(b.clock + 2).content == content by {
        var t := b.clock + 1;
        assert b.etag == "" || w.stat(t).etag == b.etag;
      }
      ServedAt(q, content, want, from, b.consumed, w.earlyEof);
    }
  }

  lemma ServedAt(q: Request, content: Bytes, want: Bytes, from: nat, c: nat, earlyEof: bool)
    requires Serves(q, content, want, from, earlyEof) && from <= c <= |want|
    ensures ServesAt(q, content, want, c, earlyEof)
  {
    hide ServesAt;
  }

  lemma RecoverSteady(q: Request, w: World, content: Bytes, b: Body, signal: Signal)
    requires Steady(w, b.etag, content)
    ensures Steady(w, Recover(q, w, b, signal).0.etag, content)
  {
    hide Slice;
  }

  lemma RecoverTracks(q: Request, w: World, content: Bytes, b: Body, signal: Signal, want: Bytes, from: nat)
    requires Serves(q, content, want, from, w.earlyEof) && from <= b.consumed
    requires SizesKnown(w, content) && Steady(w, b.etag, content) && Tracks(want, b)
    requires signal == End && !w.earlyEof ==> b.rest == []
    ensures var (after, o) := Recover(q, w, b, signal);
            && Tracks(want, after)
            && after.consumed == b.consumed
            && (o.Eof? ==> after.consumed == |want|)
  {
    ServedAt(q, content, want, from, b.consumed, w.earlyEof);
    var (short, asked) := Asked(q, w, b, signal);
    var next := asked.(clock := asked.clock + 1);
    if signal == End {
      EndIsRecognised(q, w, content, b, want);
    }
    hide Slice, Heal, Serves, ServesAt, Resumed, Steady, SizesKnown, Asked, Tracks;
    if short && !w.answers(asked.clock).fails {
      if RemainingDone(q, next) {
        FinishedIsAll(q, content, b, want, w.earlyEof);
      } else {
        TracksOn(want, b, asked.clock + 1);
        HealTracks(q, w, content, next, want, from);
      }
    }
    TracksOn(want, b, asked.clock);
    TracksOn(want, b, asked.clock + 1);
    assert next == b.(clock := asked.clock + 1);
  }

  lemma TracksOn(want: Bytes, b: Body, clock: nat)
    requires Tracks(want, b)
    ensures Tracks(want, b.(clock := clock))
  {
  }

  lemma FinishedIsAll(q: Request, content: Bytes, b: Body, want: Bytes, earlyEof: bool)
    requires b.consumed <= |want| && ServesAt(q, content, want, b.consumed, earlyEof) && RemainingDone(q, b)
    ensures b.consumed == |want|
  {
    hide Resumed;
  }

  /** A clean end that is not taken for a truncation comes after the last byte. */
  lemma EndIsRecognised(q: Request, w: World, content: Bytes, b: Body, want: Bytes)
    requires Tracks(want, b) && SizesKnown(w, content) && (!w.earlyEof ==> b.rest == [])
    requires ServesAt(q, content, want, b.consumed, w.earlyEof)
    ensures var (short, asked) := Truncated(q, w, b);
            asked == b.(clock := asked.clock) && (!short ==> b.consumed == |want|)
  {
    hide Resumed;
  }

  lemma {:induction false} ReadServes(q: Request, w: World, content: Bytes, b: Body, room: nat, want: Bytes, from: nat)
    requires Serves(q, content, want, from, w.earlyEof) && from <= b.consumed
    requires SizesKnown(w, content) && Steady(w, b.etag, content) && Tracks(want, b)
    ensures var (after, n, o) := Read(q, w, b, room);
            && Tracks(want, after) && Steady(w, after.etag, content)
            && after.consumed == b.consumed + n
            && (o.Eof? ==> after.consumed == |want|)
    decreases Max(0, q.limit - b.attempts)
  {
    hide Recover, ConnectionRead, Serves;
    var (n, signal) := ConnectionRead(w, b, room);
    var got := Advance(b, n);
    assert Tracks(want, got);
    if signal != Fine {
      RecoverTracks(q, w, content, got, signal, want, from);
      RecoverSteady(q, w, content, got, signal);
      var (after, o) := Recover(q, w, got, signal);
      if o.Ok? && n == 0 {
        ReadServes(q, w, content, after, room, want, from);
      }
    }
  }

  lemma ReadTracks(q: Request, w: World, content: Bytes, b: Body, room: nat, want: Bytes)
    requires SafeRange(q.off, q.length, |content|, w.earlyEof) && want == Slice(content, q.off, q.length)
    requires SizesKnown(w, content) && Steady(w, b.etag, content) && Tracks(want, b)
    ensures var (after, n, o) := Read(q, w, b, room);
            && Tracks(want, after) && Steady(w, after.etag, content)
            && after.consumed == b.consumed + n
            && (o.Eof? ==> after.consumed == |want|)
  {
    SafeServes(q, content, w.earlyEof);
    ReadServes(q, w, content, b, room, want, 0);
  }

  /** The bytes one read returns are the next bytes of the slice. */
  lemma ReadReturnsNext(q: Request, w: World, content: Bytes, b: Body, room: nat, want: Bytes)
    requires SafeRange(q.off, q.length, |content|, w.earlyEof) && want == Slice(content, q.off, q.length)
    requires SizesKnown(w, content) && Steady(w, b.etag, content) && Tracks(want, b)
    ensures var (after, n, o) := Read(q, w, b, room);
            && b.consumed + n <= |want| && |after.delivered| == |b.delivered| + n
            && after.delivered[|b.delivered|..] == want[b.consumed..b.consumed + n]
  {
    hide Read, Slice, SafeRange, Steady;
    ReadTracks(q, w, content, b, room, want);
  }

  lemma {:induction false} ReadsServe(q: Request, w: World, content: Bytes, b: Body, rooms: seq<nat>,
                                         want: Bytes, from: nat)
    requires Serves(q, content, want, from, w.earlyEof) && from <= b.consumed
    requires SizesKnown(w, content) && Steady(w, b.etag, content) && Tracks(want, b)
    ensures var (after, o) := ReadAll(q, w, b, rooms);
            Faithful(want, after, o)
    decreases |rooms|
  {
    hide Read, Serves;
    if rooms != [] {
      var (after, n, o) := Read(q, w, b, rooms[0]);
      ReadServes(q, w, content, b, rooms[0], want, from);
      if o.Ok? {
        ReadsServe(q, w, content, after, rooms[1..], want, from);
      }
    }
  }

  /** Main result: over any script of failures and any buffer sizes, reads up to the first error deliver a
      prefix of the requested slice, and a bare end of file means the whole slice. */
  lemma ReadsAreFaithful(q: Request, w: World, content: Bytes, b: Body, rooms: seq<nat>)
    requires SafeRange(q.off, q.length, |content|, w.earlyEof)
    requires SizesKnown(w, content) && Steady(w, b.etag, content)
    requires Tracks(Slice(content, q.off, q.length), b)
    ensures var (after, o) := ReadAll(q, w, b, rooms);
            Faithful(Slice(content, q.off, q.length), after, o)
  {
    SafeServes(q, content, w.earlyEof);
    ReadsServe(q, w, content, b, rooms, Slice(content, q.off, q.length), 0);
  }

  /** The object never changes while it is read. */
  lemma FixedObjectReads(q: Request, w: World, content: Bytes, etag: string, rooms: seq<nat>)
    requires Fixed(w, content) && SafeRange(q.off, q.length, |content|, w.earlyEof)
    ensures var (after, o) := ReadAll(q, w, Opened(q, content, etag), rooms);
            Faithful(Slice(content, q.off, q.length), after, o)
  {
    ReadsAreFaithful(q, w, content, Opened(q, content, etag), rooms);
  }

  /** The object may change at any time except between one heal's Stat and its GetRange. A body from Get
      carries its version's tag, and then never mixes versions. */
  lemma TagGuardsVersion(w: World, first: Version, limit: int, rooms: seq<nat>)
    requires first.etag != "" && !w.earlyEof
    requires forall t: nat :: w.stat(t).etag == first.etag ==> w.stat(t).content == first.content
    requires forall t: nat :: w.ranged(t + 1) == w.stat(t)
    ensures var q := Request(0, 0, limit);
            var (after, o) := ReadAll(q, w, Opened(q, first.content, first.etag), rooms);
            after.delivered <= first.content && (o.Eof? ==> after.delivered == first.content)
  {
    var q := Request(0, 0, limit);
    assert Slice(first.content, 0, 0) == first.content;
    forall t: nat | w.stat(t).etag == first.etag
      ensures w.ranged(t + 1).content == first.content
    {
      assert w.ranged(t + 1) == w.stat(t);
    }
    ReadsAreFaithful(q, w, first.content, Opened(q, first.content, first.etag), rooms);
  }

  /* ---------- Exactly which ranges are safe ---------- */

  ghost predicate AlwaysFaithful(q: Request, size: nat, earlyEof: bool) {
    forall content: Bytes, w: World, rooms: seq<nat> ::
      |content| == size && Fixed(w, content) && w.earlyEof == earlyEof ==>
        Faithful(Slice(content, q.off, q.length),
                 ReadAll(q, w, Opened(q, content, ""), rooms).0, ReadAll(q, w, Opened(q, content, ""), rooms).1)
  }

  /** A fixed object whose first connection answers `first` and every later call succeeds with one byte. */
  function Mishap(content: Bytes, first: Answer, earlyEof: bool): (w: World)
    ensures Fixed(w, content)
  {
    World(t => Version(content, ""), t => Version(content, ""),
          t => if t == 0 then first else Answer(1, Fine, false), earlyEof)
  }

  /** One break after `k` bytes and one more byte read: that byte is the first one of the resumed range. */
  lemma ResumedByte(q: Request, content: Bytes, k: nat)
    requires q.limit >= 2 && 0 < k <= |Slice(content, q.off, q.length)|
    requires if q.length > 0 then k < q.length else q.off + k < 0
    requires Slice(content, q.off + k, if q.length > 0 then q.length - k else 0) != []
    ensures ReadAll(q, Mishap(content, Answer(k, Break, false), false), Opened(q, content, ""), [k, 1]).0.delivered
         == Slice(content, q.off, q.length)[..k]
          + Slice(content, q.off + k, if q.length > 0 then q.length - k else 0)[..1]
  {
    var w := Mishap(content, Answer(k, Break, false), false);
    var b := Opened(q, content, "");
    hide Slice;
    var (b1, n1, o1) := Read(q, w, b, k);
    assert ConnectionRead(w, b, k) == (k, Break);
    assert b1.rest == Slice(content, q.off + k, if q.length > 0 then q.length - k else 0);
    assert n1 == k && o1 == Ok && b1.delivered == b.rest[..k];
    var (b2, n2, o2) := Read(q, w, b1, 1);
    assert ConnectionRead(w, b1, 1) == (1, Fine);
    assert [k, 1][1..] == [1] && [1][1..] == [];
    assert ReadAll(q, w, b1, [1]) == (b2, Ok);
  }

  lemma UnsafeWithEarlyEof(q: Request, size: nat)
    requires !SafeRange(q.off, q.length, size, true)
    ensures !AlwaysFaithful(q, size, true)
  {
    var content: Bytes := seq(size, _ => 0);
    var w := Mishap(content, Answer(0, End, false), true);
    var b := Opened(q, content, "");
    assert Slice(content, q.off, q.length) != [];
    var (after, o) := ReadAll(q, w, b, [0]);
    assert ConnectionRead(w, b, 0) == (0, End);
    assert o == Eof && after.delivered == [];
    assert !Faithful(Slice(content, q.off, q.length), after, o);
  }

  lemma UnsafeAt(q: Request, content: Bytes, k: nat)
    requires q.limit >= 2 && 0 < k <= |Slice(content, q.off, q.length)|
    requires if q.length > 0 then k < q.length else q.off + k < 0
    requires var want := Slice(content, q.off, q.length);
             var resumed := Slice(content, q.off + k, if q.length > 0 then q.length - k else 0);
             resumed != [] && (k == |want| || resumed[0] != want[k])
    ensures !AlwaysFaithful(q, |content|, false)
  {
    var want := Slice(content, q.off, q.length);
    var resumed := Slice(content, q.off + k, if q.length > 0 then q.length - k else 0);
    var w := Mishap(content, Answer(k, Break, false), false);
    ResumedByte(q, content, k);
    hide Slice, ReadAll;
    var (after, o) := ReadAll(q, w, Opened(q, content, ""), [k, 1]);
    assert after.delivered == want[..k] + resumed[..1];
    assert after.delivered[k] == resumed[0];
    assert !Faithful(want, after, o);
  }

  lemma UnsafeSuffix(q: Request, size: nat)
    requires q.limit >= 2 && !SafeRange(q.off, q.length, size, false)
    ensures !AlwaysFaithful(q, size, false)
  {
    var content: Bytes := seq(size, i => if i == 0 then 0 else 1);
    if -q.off > size && 2 <= q.length <= size {
      UnsafeAt(q, content, 1);
    } else {
      UnsafeAt(q, content, |Slice(content, q.off, q.length)|);
    }
  }

  /** Without a heal nothing is resumed, so every range is read faithfully unless bodies may end early. */
  lemma SingleRecover(q: Request, w: World, content: Bytes, b: Body, signal: Signal, want: Bytes)
    requires b.attempts >= q.limit && !w.earlyEof && want == Slice(content, q.off, q.length)
    requires Tracks(want, b) && (signal == End ==> b.rest == [])
    ensures var (after, o) := Recover(q, w, b, signal);
            && Tracks(want, after) && after.attempts == b.attempts && !o.Ok?
            && (o.Eof? ==> after.consumed == |want|)
  {
    SliceBounds(content, q.off, q.length);
    hide RangeStart, RangeEnd, Slice, Guard;
  }

  lemma {:induction false} SingleReads(q: Request, w: World, content: Bytes, b: Body, rooms: seq<nat>)
    requires b.attempts >= q.limit && !w.earlyEof && Tracks(Slice(content, q.off, q.length), b)
    ensures var (after, o) := ReadAll(q, w, b, rooms);
            Faithful(Slice(content, q.off, q.length), after, o)
    decreases |rooms|
  {
    var want := Slice(content, q.off, q.length);
    hide Slice, ConnectionRead, Recover;
    if rooms != [] {
      var (n, signal) := ConnectionRead(w, b, rooms[0]);
      var got := Advance(b, n);
      assert Tracks(want, got);
      if signal == Fine {
        assert Read(q, w, b, rooms[0]) == (got, n, Ok);
        SingleReads(q, w, content, got, rooms[1..]);
      } else {
        SingleRecover(q, w, content, got, signal, want);
        assert Read(q, w, b, rooms[0]) == (Recover(q, w, got, signal).0, n, Recover(q, w, got, signal).1);
      }
    }
  }

  lemma FaithfulWhen(q: Request, size: nat, earlyEof: bool)
    requires SafeRange(q.off, q.length, size, earlyEof) || (q.limit <= 1 && !earlyEof)
    ensures AlwaysFaithful(q, size, earlyEof)
  {
    hide SafeRange, Slice, ReadAll, Faithful;
    forall content: Bytes, w: World, rooms: seq<nat> |
      |content| == size && Fixed(w, content) && w.earlyEof == earlyEof
      ensures Faithful(Slice(content, q.off, q.length),
                       ReadAll(q, w, Opened(q, content, ""), rooms).0, ReadAll(q, w, Opened(q, content, ""), rooms).1)
    {
      if SafeRange(q.off, q.length, size, earlyEof) {
        FixedObjectReads(q, w, content, "", rooms);
      } else {
        SingleReads(q, w, content, Opened(q, content, ""), rooms);
      }
    }
  }

  /** The condition is exact: a range is read faithfully from every fixed object of this size, whatever the
      network does, if and only if it is a safe range, or there is nothing to resume: one connection at most, and
      no early ends. */
  lemma SafeRangeIsExact(q: Request, size: nat, earlyEof: bool)
    ensures AlwaysFaithful(q, size, earlyEof)
       <==> SafeRange(q.off, q.length, size, earlyEof) || (q.limit <= 1 && !earlyEof)
  {
    hide AlwaysFaithful, SafeRange;
    if SafeRange(q.off, q.length, size, earlyEof) || (q.limit <= 1 && !earlyEof) {
      FaithfulWhen(q, size, earlyEof);
    } else if earlyEof {
      UnsafeWithEarlyEof(q, size);
    } else {
      UnsafeSuffix(q, size);
    }
  }

  /* ---------- What healing survives ---------- */

  /** Nobody cancels, every Stat and GetRange succeeds, and the object keeps its tag; connections may still
      break or end early at any point. */
  ghost predicate Reachable(w: World, etag: string) {
    forall t: nat :: !w.answers(t).fails && w.stat(t).etag == etag
  }

  predicate Knows(b: Body, etag: string) {
    b.etag == "" || b.etag == etag
  }

  lemma RecoverSurvives(q: Request, w: World, b: Body, signal: Signal, etag: string)
    requires Reachable(w, etag) && Knows(b, etag)
    ensures var (after, o) := Recover(q, w, b, signal);
            Knows(after, etag) && (o.Failed? ==> o.failure == Exhausted && after.attempts >= q.limit)
  {
    hide Slice;
  }

  lemma {:induction false} ReadSurvives(q: Request, w: World, b: Body, room: nat, etag: string)
    requires Reachable(w, etag) && Knows(b, etag)
    ensures var (after, n, o) := Read(q, w, b, room);
            Knows(after, etag) && (o.Failed? ==> o.failure == Exhausted && after.attempts >= q.limit)
    decreases Max(0, q.limit - b.attempts)
  {
    hide Recover, ConnectionRead;
    var (n, signal) := ConnectionRead(w, b, room);
    var got := Advance(b, n);
    if signal != Fine {
      RecoverSurvives(q, w, got, signal, etag);
      var (after, o) := Recover(q, w, got, signal);
      if o.Ok? && n == 0 {
        ReadSurvives(q, w, after, room, etag);
      }
    }
  }

  /** Main result: broken connections alone never surface as an error before every allowed connection has been
      opened and has failed. */
  lemma {:induction false} OnlyExhaustionFails(q: Request, w: World, b: Body, rooms: seq<nat>, etag: string)
    requires Reachable(w, etag) && Knows(b, etag)
    ensures var (after, o) := ReadAll(q, w, b, rooms);
            o.Failed? ==> o.failure == Exhausted && after.attempts >= q.limit
    decreases |rooms|
  {
    hide Read;
    if rooms != [] {
      ReadSurvives(q, w, b, rooms[0], etag);
      var (after, n, o) := Read(q, w, b, rooms[0]);
      if o.Ok? {
        OnlyExhaustionFails(q, w, after, rooms[1..], etag);
      }
    }
  }

  /* ---------- Connections over the life of a body ---------- */

  datatype Call = ReadCall(room: nat) | CloseCall

  function Life(q: Request, w: World, b: Body, calls: seq<Call>): Body
    decreases |calls|
  {
    if calls == [] then b
    else
      var after := match calls[0]
        case ReadCall(room) => Read(q, w, b, room).0
        case CloseCall => Close(b);
      Life(q, w, after, calls[1..])
  }

  ghost predicate NoReadAfterClose(calls: seq<Call>) {
    forall i, j :: 0 <= i < j < |calls| && calls[i].CloseCall? ==> calls[j].CloseCall?
  }

  ghost predicate WithinBudget(q: Request, b: Body) {
    && 1 <= b.attempts <= Max(1, q.limit)
    && (forall c :: c in b.live ==> c == b.attempts)
    && (b.closed ==> b.live == {})
  }

  lemma {:induction false} ReadWithinBudget(q: Request, w: World, b: Body, room: nat)
    requires WithinBudget(q, b) && !b.closed
    ensures WithinBudget(q, Read(q, w, b, room).0) && !Read(q, w, b, room).0.closed
    decreases Max(0, q.limit - b.attempts)
  {
    hide Slice, ConnectionRead, Guard;
    var (n, signal) := ConnectionRead(w, b, room);
    var got := Advance(b, n);
    var (after, o) := Recover(q, w, got, signal);
    if signal != Fine && o.Ok? && n == 0 {
      ReadWithinBudget(q, w, after, room);
    }
  }

  /** At most max(1, Attempts) connections are ever opened, at most the latest one is open, and none is
      once the body was closed. */
  lemma {:induction false} LifeWithinBudget(q: Request, w: World, b: Body, calls: seq<Call>)
    requires WithinBudget(q, b) && NoReadAfterClose(calls)
    requires b.closed ==> forall i :: 0 <= i < |calls| ==> calls[i].CloseCall?
    ensures WithinBudget(q, Life(q, w, b, calls))
    ensures CloseCall in calls ==> Life(q, w, b, calls).closed
    ensures b.closed ==> Life(q, w, b, calls).closed
    decreases |calls|
  {
    if calls != [] {
      if calls[0].ReadCall? {
        ReadWithinBudget(q, w, b, calls[0].room);
        LifeWithinBudget(q, w, Read(q, w, b, calls[0].room).0, calls[1..]);
      } else {
        LifeWithinBudget(q, w, Close(b), calls[1..]);
      }
    }
  }

  /* ---------- Exactly which calls are safe ---------- */

  /** A fixed object whose connections bring nothing, and break only at time `k`. */
  function Silent(content: Bytes, k: nat): World {
    World(t => Version(content, ""), t => Version(content, ""),
          t => Answer(0, if t == k then Break else Fine, false), false)
  }

  /** How many Reads come before the first Close. */
  function Leading(calls: seq<Call>): nat {
    if calls == [] || calls[0].CloseCall? then 0 else 1 + Leading(calls[1..])
  }

  predicate Leaked(b: Body) {
    b.closed && b.live == {2}
  }

  lemma QuietRead(q: Request, content: Bytes, k: nat, b: Body, room: nat)
    requires b.clock != k
    ensures Read(q, Silent(content, k), b, room).0 == b.(clock := b.clock + 1)
  {
    assert ConnectionRead(Silent(content, k), b, room) == (0, Fine);
  }

  /** A Read on a closed body whose connection breaks opens a second connection. */
  lemma BrokenRead(q: Request, content: Bytes, b: Body, room: nat)
    requires q.limit >= 2 && b.closed && b.live == {} && b.attempts == 1 && b.consumed == 0 && b.etag == ""
    ensures var after := Read(q, Silent(content, b.clock), b, room).0;
            Leaked(after) && after.clock > b.clock
  {
    var w := Silent(content, b.clock);
    hide Slice;
    assert ConnectionRead(w, b, room) == (0, Break);
    var (healed, o) := Recover(q, w, Advance(b, 0), Break);
    assert o == Ok && Leaked(healed) && healed.clock > b.clock;
    hide Recover, Read;
    QuietRead(q, content, b.clock, healed, room);
    assert Read(q, w, b, room) == Read(q, w, healed, room) by { ReadsOn(q, w, b, room); }
  }

  lemma ReadsOn(q: Request, w: World, b: Body, room: nat)
    requires ConnectionRead(w, b, room) == (0, Break) && Recover(q, w, Advance(b, 0), Break).1.Ok?
    ensures Read(q, w, b, room) == Read(q, w, Recover(q, w, Advance(b, 0), Break).0, room)
  {
    hide Recover, ConnectionRead;
  }

  lemma {:induction false} LeakStays(q: Request, content: Bytes, k: nat, b: Body, calls: seq<Call>)
    requires Leaked(b) && b.clock > k
    ensures Leaked(Life(q, Silent(content, k), b, calls))
    decreases |calls|
  {
    hide Read;
    if calls != [] {
      if calls[0].ReadCall? {
        QuietRead(q, content, k, b, calls[0].room);
        LeakStays(q, content, k, b.(clock := b.clock + 1), calls[1..]);
      } else {
        LeakStays(q, content, k, b, calls[1..]);
      }
    }
  }

  lemma {:induction false} ShutLeaks(q: Request, content: Bytes, b: Body, calls: seq<Call>, j: nat)
    requires q.limit >= 2 && b.closed && b.live == {} && b.attempts == 1 && b.consumed == 0 && b.etag == ""
    requires j < |calls| && calls[j].ReadCall?
    ensures Leaked(Life(q, Silent(content, b.clock), b, calls))
    decreases |calls|
  {
    hide Read;
    if calls[0].ReadCall? {
      BrokenRead(q, content, b, calls[0].room);
      LeakStays(q, content, b.clock, Read(q, Silent(content, b.clock), b, calls[0].room).0, calls[1..]);
    } else {
      ShutLeaks(q, content, b, calls[1..], j - 1);
    }
  }

  lemma {:induction false} OpenLeaks(q: Request, content: Bytes, b: Body, calls: seq<Call>)
    requires q.limit >= 2 && !b.closed && b.live == {1} && b.attempts == 1 && b.consumed == 0 && b.etag == ""
    requires !NoReadAfterClose(calls)
    ensures Leaked(Life(q, Silent(content, b.clock + Leading(calls)), b, calls))
    decreases |calls|
  {
    hide Read;
    var i, j :| 0 <= i < j < |calls| && calls[i].CloseCall? && !calls[j].CloseCall?;
    if calls[0].ReadCall? {
      QuietRead(q, content, b.clock + Leading(calls), b, calls[0].room);
      assert calls[1..][i - 1].CloseCall? && !calls[1..][j - 1].CloseCall?;
      OpenLeaks(q, content, b.(clock := b.clock + 1), calls[1..]);
    } else {
      ShutLeaks(q, content, Close(b), calls[1..], j - 1);
    }
  }

  /** With a second connection allowed, every sequence of calls that reads after a Close can leave a connection
      open for good. */
  lemma ReadAfterCloseLeaks(q: Request, content: Bytes, calls: seq<Call>)
    requires q.limit >= 2 && !NoReadAfterClose(calls)
    ensures Leaked(Life(q, Silent(content, Leading(calls)), Opened(q, content, ""), calls))
  {
    OpenLeaks(q, content, Opened(q, content, ""), calls);
  }

  /** A budget of one connection opens no other. */
  lemma {:induction false} SingleConnection(q: Request, w: World, b: Body, calls: seq<Call>)
    requires q.limit <= 1 && b.attempts == 1 && b.live <= {1} && (b.closed ==> b.live == {})
    ensures var after := Life(q, w, b, calls); after.closed ==> after.live == {}
    decreases |calls|
  {
    if calls != [] {
      if calls[0].ReadCall? {
        ReadOnSingle(q, w, b, calls[0].room);
        SingleConnection(q, w, Read(q, w, b, calls[0].room).0, calls[1..]);
      } else {
        SingleConnection(q, w, Close(b), calls[1..]);
      }
    }
  }

  lemma ReadOnSingle(q: Request, w: World, b: Body, room: nat)
    requires q.limit <= 1 && b.attempts == 1
    ensures var after := Read(q, w, b, room).0;
            after.attempts == 1 && after.live <= b.live && after.closed == b.closed
  {
    hide Slice, Guard, ConnectionRead;
  }

  /** Whatever the object and the network, a closed body has no connection left open. */
  ghost predicate AlwaysReleases(q: Request, calls: seq<Call>) {
    forall content: Bytes, w: World, etag: string ::
      Life(q, w, Opened(q, content, etag), calls).closed ==> Life(q, w, Opened(q, content, etag), calls).live == {}
  }

  /** Main result: every connection is closed once the body was, if and only if nobody reads after a Close or the
      budget allows a single connection. */
  lemma CallsAreSafeExactlyWhen(q: Request, calls: seq<Call>)
    ensures AlwaysReleases(q, calls) <==> NoReadAfterClose(calls) || q.limit <= 1
  {
    if NoReadAfterClose(calls) || q.limit <= 1 {
      forall content: Bytes, w: World, etag: string
        ensures var b := Life(q, w, Opened(q, content, etag), calls); b.closed ==> b.live == {}
      {
        if q.limit <= 1 {
          SingleConnection(q, w, Opened(q, content, etag), calls);
        } else {
          LifeWithinBudget(q, w, Opened(q, content, etag), calls);
        }
      }
    } else {
      ReadAfterCloseLeaks(q, [], calls);
      LeakRefutes(q, Silent([], Leading(calls)), calls);
    }
  }

  lemma LeakRefutes(q: Request, w: World, calls: seq<Call>)
    requires Leaked(Life(q, w, Opened(q, [], ""), calls))
    ensures !AlwaysReleases(q, calls)
  {
    hide Life, Opened;
  }
}
