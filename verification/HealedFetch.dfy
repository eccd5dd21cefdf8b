/**
 The intended composition: the concurrent download over a healing bucket. Every part is read through a
 self-healing body over its own world, in which connections may break or end early at any point; the bytes
 such a body returns are the bytes written.
 */
module HealedFetch {
  import opened Objects
  import opened Parts
  import F = FetchParts
  import H = Healing

  /** `worlds(i)` is the network as part `i` sees it, `limit` the connection budget of one body. */
  datatype Network = Network(worlds: nat -> H.World, limit: int)

  datatype State = State(fetch: F.State, bodies: map<nat, H.Body>)

  /** Either a step of the download that does not copy, or one turn of the copy of part `i`: a read with a buffer of
      `room` bytes and the write of what it returned, which fails after `written` bytes unless that is None. A
      failed read or write is reported as `error`. */
  datatype Event = Step(e: F.Event) | ReadPart(i: nat, room: nat, written: Option<nat>, error: F.Error)

  /** How a turn of the copy leaves it. */
  datatype CopyEnd = GoesOn | EndsCleanly | Fails(error: F.Error)

  ghost predicate SameObject(c: F.Setup, net: Network) {
    forall i :: H.Fixed(net.worlds(i), c.content)
  }

  function PartRequest(net: Network, span: Span): H.Request {
    H.Request(span.off, span.len, net.limit)
  }

  function Start(c: F.Setup): State {
    State(F.Start(c), map[])
  }

  function Stepped(c: F.Setup, net: Network, s: State, e: F.Event): State {
    if e.WritePart? || e.EndPart? then
      s
    else if e.OpenPart? && e.error.None? && F.At(s.fetch, e.i, F.Opening) then
      var q := PartRequest(net, s.fetch.workers[e.i].span);
      State(F.Next(c, s.fetch, e), s.bodies[e.i := H.Opened(q, c.content, "")])
    else
      State(F.Next(c, s.fetch, e), s.bodies)
  }

  /** Writes the bytes at the part's offset, then leaves the copy as told. */
  function Copied(c: F.Setup, s: F.State, i: nat, bytes: Bytes, end: CopyEnd): (t: F.State)
    requires F.At(s, i, F.Copying)
    ensures |t.workers| == |s.workers| && forall k :: 0 <= k < |s.workers| && k != i ==> t.workers[k] == s.workers[k]
    ensures t.workers[i].span == s.workers[i].span && t.workers[i].n == s.workers[i].n + |bytes|
    ensures t.workers[i].stage != F.Opening && (t.workers[i].stage == F.Copying ==> end == GoesOn)
    ensures end == EndsCleanly && t.workers[i].n == t.workers[i].span.len ==> t.workers[i].stage == F.Finished
  {
    var w := s.workers[i];
    var t := s.(workers := s.workers[i := w.(n := w.n + |bytes|)], dst := F.Written(s.dst, w.span.off + w.n, bytes));
    match end
    case GoesOn => t
    case EndsCleanly => F.Next(c, t, F.EndPart(i, None))
    case Fails(error) => F.Next(c, t, F.EndPart(i, Some(error)))
  }

  /** How many of the `n` bytes read are written, and how that leaves the copy. */
  function Turn(n: nat, o: H.Outcome, written: Option<nat>, error: F.Error): (r: (nat, CopyEnd))
    ensures r.0 <= n && (r.1 == GoesOn ==> r.0 == n && o.Ok?) && (r.1 == EndsCleanly ==> r.0 == n && o.Eof?)
    ensures written.None? && o.Eof? ==> r == (n, EndsCleanly)
    ensures written.None? && o.Ok? ==> r == (n, GoesOn)
    ensures written.None? && o.Failed? ==> r == (n, Fails(error))
  {
    if n > 0 && written.Some? then (Min(n, written.value), Fails(error))
    else match o
      case Ok => (n, GoesOn)
      case Eof => (n, EndsCleanly)
      case Failed(_) => (n, Fails(error))
  }

  function Next(c: F.Setup, net: Network, s: State, e: Event): State {
    match e
    case Step(step) => Stepped(c, net, s, step)
    case ReadPart(i, room, written, error) =>
      if !(F.At(s.fetch, i, F.Copying) && i in s.bodies) then s
      else
        var q := PartRequest(net, s.fetch.workers[i].span);
        var (after, n, o) := H.Read(q, net.worlds(i), s.bodies[i], room);
        var before := |s.bodies[i].delivered|;
        if before + n != |after.delivered| then s
        else
          var (m, end) := Turn(n, o, written, error);
          State(Copied(c, s.fetch, i, after.delivered[before..before + m], end), s.bodies[i := after])
  }

  function Run(c: F.Setup, net: Network, s: State, es: seq<Event>): State
    decreases |es|
  {
    if es == [] then s else Run(c, net, Next(c, net, s, es[0]), es[1..])
  }

  /** The body of a part still being copied is where its worker is. */
  ghost predicate BodyOk(c: F.Setup, net: Network, s: State, i: nat)
    requires i < |s.fetch.workers|
  {
    var w := s.fetch.workers[i];
    && (w.stage == F.Opening ==> w.n == 0)
    && (w.stage == F.Copying && i in s.bodies ==>
      && H.Tracks(Slice(c.content, w.span.off, w.span.len), s.bodies[i])
      && H.Steady(net.worlds(i), s.bodies[i].etag, c.content)
      && s.bodies[i].consumed == w.n)
  }

  ghost predicate Inv(c: F.Setup, net: Network, s: State) {
    && F.Inv(c, s.fetch)
    && forall i: nat :: i < |s.fetch.workers| ==> BodyOk(c, net, s, i)
  }

  /** Every part is a non-empty range inside the object, where short ends are recognised. */
  lemma PartIsSafe(c: F.Setup, s: F.State, i: nat)
    requires F.Cut(c, s) && i < |s.workers|
    ensures var span := s.workers[i].span;
            && span.len > 0 && span.off + span.len <= |c.content|
            && H.SafeRange(span.off, span.len, |c.content|, true)
            && H.SafeRange(span.off, span.len, |c.content|, false)
  {
    assert SpansOf(s.workers, F.SpanOf)[i] == s.workers[i].span;
    assert SpansOf(s.workers, F.SpanOf)[i] == Spans(|c.content|, c.part, 0)[i];
    SpansPartition(|c.content|, c.part);
  }

  /** One read of a healed part returns the next bytes of the part, and a clean end comes only after the last. */
  ghost predicate CopiesPart(c: F.Setup, net: Network, s: State, i: nat, room: nat)
    requires i < |s.fetch.workers| && i in s.bodies
  {
    var w := s.fetch.workers[i];
    var b := s.bodies[i];
    var want := Slice(c.content, w.span.off, w.span.len);
    var (after, n, o) := H.Read(PartRequest(net, w.span), net.worlds(i), b, room);
    && |b.delivered| + n == |after.delivered|
    && H.Tracks(want, after)
    && H.Steady(net.worlds(i), after.etag, c.content)
    && after.consumed == w.n + n <= |want|
    && after.delivered[|b.delivered|..] == want[w.n..w.n + n]
    && (o.Eof? ==> after.consumed == |want|)
  }

  lemma ReadCopiesPart(c: F.Setup, net: Network, s: State, i: nat, room: nat)
    requires Inv(c, net, s) && SameObject(c, net)
    requires F.At(s.fetch, i, F.Copying) && i in s.bodies
    ensures CopiesPart(c, net, s, i, room)
  {
    PartIsSafe(c, s.fetch, i);
    assert BodyOk(c, net, s, i);
    assert H.Fixed(net.worlds(i), c.content);
    assert H.SizesKnown(net.worlds(i), c.content);
    var q := PartRequest(net, s.fetch.workers[i].span);
    hide Slice, H.Read, H.SafeRange, H.Steady, H.SizesKnown, H.Fixed, Inv, SameObject, BodyOk;
    H.ReadTracks(q, net.worlds(i), c.content, s.bodies[i], room, Slice(c.content, q.off, q.length));
    H.ReadReturnsNext(q, net.worlds(i), c.content, s.bodies[i], room, Slice(c.content, q.off, q.length));
  }

  /** The steps of the download that a turn of the copy amounts to. */
  function Chunk(i: nat, m: nat, end: CopyEnd): seq<F.Event> {
    match end
    case GoesOn => [F.WritePart(i, m)]
    case EndsCleanly => [F.WritePart(i, m)] + [F.EndPart(i, None)]
    case Fails(error) => [F.WritePart(i, m)] + [F.EndPart(i, Some(error))]
  }

  function Simulated(c: F.Setup, net: Network, s: State, e: Event): seq<F.Event> {
    match e
    case Step(step) => if step.WritePart? || step.EndPart? then [] else [step]
    case ReadPart(i, room, written, error) =>
      if !(F.At(s.fetch, i, F.Copying) && i in s.bodies) then []
      else
        var (after, n, o) := H.Read(PartRequest(net, s.fetch.workers[i].span), net.worlds(i), s.bodies[i], room);
        Chunk(i, Turn(n, o, written, error).0, Turn(n, o, written, error).1)
  }

  lemma RunOne(c: F.Setup, s: F.State, e: F.Event)
    ensures F.Run(c, s, [e]) == F.Next(c, s, e)
  {
    assert [e][1..] == [];
  }

  lemma RunTwo(c: F.Setup, s: F.State, e: F.Event, f: F.Event)
    ensures F.Run(c, s, [e] + [f]) == F.Next(c, F.Next(c, s, e), f)
  {
    assert ([e] + [f])[1..] == [f];
    RunOne(c, F.Next(c, s, e), f);
  }

  lemma ReadSimulates(c: F.Setup, net: Network, s: State, e: Event)
    requires Inv(c, net, s) && SameObject(c, net) && e.ReadPart?
    ensures Next(c, net, s, e).fetch == F.Run(c, s.fetch, Simulated(c, net, s, e))
  {
    var i := e.i;
    if F.At(s.fetch, i, F.Copying) && i in s.bodies {
      ReadCopiesPart(c, net, s, i, e.room);
      PartIsSafe(c, s.fetch, i);
      CopySimulates(c, net, s, e);
    }
  }

  lemma ChunkIsWrite(c: F.Setup, s: F.State, i: nat, bytes: Bytes, end: CopyEnd)
    requires F.At(s, i, F.Copying)
    requires var w := s.workers[i];
             && w.n + |bytes| <= w.span.len && w.span.off + w.span.len <= |c.content|
             && bytes == c.content[w.span.off + w.n..w.span.off + w.n + |bytes|]
    ensures Copied(c, s, i, bytes, end) == F.Run(c, s, Chunk(i, |bytes|, end))
  {
    hide F.Run, F.Written;
    RunOne(c, s, F.WritePart(i, |bytes|));
    RunTwo(c, s, F.WritePart(i, |bytes|), F.EndPart(i, None));
    if end.Fails? {
      RunTwo(c, s, F.WritePart(i, |bytes|), F.EndPart(i, Some(end.error)));
    }
  }

  /** What is written of one read are the next bytes of the object, inside the part. */
  lemma WrittenBytes(c: F.Setup, net: Network, s: State, i: nat, room: nat, m: nat)
    requires i < |s.fetch.workers| && i in s.bodies && CopiesPart(c, net, s, i, room)
    requires s.fetch.workers[i].span.len > 0
    requires s.fetch.workers[i].span.off + s.fetch.workers[i].span.len <= |c.content|
    requires m <= H.Read(PartRequest(net, s.fetch.workers[i].span), net.worlds(i), s.bodies[i], room).1
    ensures var w, before := s.fetch.workers[i], |s.bodies[i].delivered|;
            var (after, n, o) := H.Read(PartRequest(net, w.span), net.worlds(i), s.bodies[i], room);
            && before + n == |after.delivered| && w.n + m <= w.span.len
            && after.delivered[before..before + m] == c.content[w.span.off + w.n..w.span.off + w.n + m]
  {
    var w, b := s.fetch.workers[i], s.bodies[i];
    var (after, n, o) := H.Read(PartRequest(net, w.span), net.worlds(i), b, room);
    hide H.Read, H.Tracks, H.Steady, Slice;
    SliceInside(c.content, w.span.off, w.span.len, w.n, w.n);
    SliceInside(c.content, w.span.off, w.span.len, w.n, w.n + m);
    FrontPart(after.delivered, |b.delivered|, n, m, Slice(c.content, w.span.off, w.span.len), w.n);
  }

  lemma CopySimulates(c: F.Setup, net: Network, s: State, e: Event)
    requires e.ReadPart? && F.At(s.fetch, e.i, F.Copying) && e.i in s.bodies && CopiesPart(c, net, s, e.i, e.room)
    requires s.fetch.workers[e.i].span.len > 0
    requires s.fetch.workers[e.i].span.off + s.fetch.workers[e.i].span.len <= |c.content|
    ensures Next(c, net, s, e).fetch == F.Run(c, s.fetch, Simulated(c, net, s, e))
  {
    var w, b := s.fetch.workers[e.i], s.bodies[e.i];
    var (after, n, o) := H.Read(PartRequest(net, w.span), net.worlds(e.i), b, e.room);
    var (m, end) := Turn(n, o, e.written, e.error);
    WrittenBytes(c, net, s, e.i, e.room, m);
    hide H.Read, F.Run, F.Next, F.Written, Copied, Chunk, CopiesPart, Turn, PartRequest;
    var bytes := after.delivered[|b.delivered|..|b.delivered| + m];
    assert Next(c, net, s, e).fetch == Copied(c, s.fetch, e.i, bytes, end);
    assert Simulated(c, net, s, e) == Chunk(e.i, m, end);
    ChunkIsWrite(c, s.fetch, e.i, bytes, end);
  }

  /** A front part of equal stretches is equal. */
  lemma FrontPart(xs: Bytes, a: nat, n: nat, m: nat, ys: Bytes, b: nat)
    requires m <= n && a + n == |xs| && b + n <= |ys| && xs[a..] == ys[b..b + n]
    ensures xs[a..a + m] == ys[b..b + m]
  {
    assert xs[a..a + m] == xs[a..][..m] && ys[b..b + m] == ys[b..b + n][..m];
  }

  lemma Simulates(c: F.Setup, net: Network, s: State, e: Event)
    requires Inv(c, net, s) && SameObject(c, net)
    ensures Next(c, net, s, e).fetch == F.Run(c, s.fetch, Simulated(c, net, s, e))
  {
    if e.ReadPart? {
      ReadSimulates(c, net, s, e);
    } else {
      RunOne(c, s.fetch, e.e);
    }
  }

  lemma ReadKeepsBodies(c: F.Setup, net: Network, s: State, e: Event, k: nat)
    requires Inv(c, net, s) && SameObject(c, net) && e.ReadPart?
    requires k < |Next(c, net, s, e).fetch.workers|
    ensures BodyOk(c, net, Next(c, net, s, e), k)
  {
    var i := e.i;
    if k < |s.fetch.workers| {
      assert BodyOk(c, net, s, k);
    }
    if F.At(s.fetch, i, F.Copying) && i in s.bodies {
      ReadCopiesPart(c, net, s, i, e.room);
      hide H.Read, Copied, H.Tracks, H.Steady, Inv, Slice, SameObject;
    }
  }

  lemma StepKeepsOthers(c: F.Setup, net: Network, s: State, e: F.Event, k: nat)
    requires Inv(c, net, s) && k < |Stepped(c, net, s, e).fetch.workers|
    requires k != F.Concerns(s.fetch, e)
    ensures BodyOk(c, net, Stepped(c, net, s, e), k)
  {
    if e.WritePart? || e.EndPart? {
      assert BodyOk(c, net, s, k);
    } else {
      F.OthersUnchanged(c, s.fetch, e, k);
      assert BodyOk(c, net, s, k);
      hide F.Next, F.Inv, Inv, Slice;
    }
  }

  lemma StepKeepsConcerned(c: F.Setup, net: Network, s: State, e: F.Event, k: nat)
    requires Inv(c, net, s) && H.Fixed(net.worlds(k), c.content)
    requires k < |Stepped(c, net, s, e).fetch.workers| && k == F.Concerns(s.fetch, e)
    ensures BodyOk(c, net, Stepped(c, net, s, e), k)
  {
    if k < |s.fetch.workers| {
      assert BodyOk(c, net, s, k);
    }
    hide F.Written, F.Inv, F.AllLeft, F.WriteChunk, Inv, Slice;
  }

  lemma StepKeepsBodies(c: F.Setup, net: Network, s: State, e: F.Event, k: nat)
    requires Inv(c, net, s) && SameObject(c, net)
    requires k < |Stepped(c, net, s, e).fetch.workers|
    ensures BodyOk(c, net, Stepped(c, net, s, e), k)
  {
    if k == F.Concerns(s.fetch, e) {
      StepKeepsConcerned(c, net, s, e, k);
    } else {
      StepKeepsOthers(c, net, s, e, k);
    }
  }

  lemma NextKeeps(c: F.Setup, net: Network, s: State, e: Event)
    requires Inv(c, net, s) && SameObject(c, net)
    ensures Inv(c, net, Next(c, net, s, e))
  {
    Simulates(c, net, s, e);
    F.RunInv(c, s.fetch, Simulated(c, net, s, e));
    var t := Next(c, net, s, e);
    forall k: nat | k < |t.fetch.workers|
      ensures BodyOk(c, net, t, k)
    {
      if e.ReadPart? {
        ReadKeepsBodies(c, net, s, e, k);
      } else {
        StepKeepsBodies(c, net, s, e.e, k);
      }
    }
  }

  lemma {:induction false} RunConcat(c: F.Setup, s: F.State, es: seq<F.Event>, fs: seq<F.Event>)
    ensures F.Run(c, s, es + fs) == F.Run(c, F.Run(c, s, es), fs)
    decreases |es|
  {
    if es == [] {
      assert es + fs == fs;
    } else {
      assert (es + fs)[1..] == es[1..] + fs;
      RunConcat(c, F.Next(c, s, es[0]), es[1..], fs);
    }
  }

  /** Refinement: every run over healing bodies is a run of the plain download. */
  lemma {:induction false} HealedRunIsPlainRun(c: F.Setup, net: Network, s: State, es: seq<Event>)
    returns (fs: seq<F.Event>)
    requires Inv(c, net, s) && SameObject(c, net)
    ensures Run(c, net, s, es).fetch == F.Run(c, s.fetch, fs)
    decreases |es|
  {
    fs := [];
    if es != [] {
      NextKeeps(c, net, s, es[0]);
      Simulates(c, net, s, es[0]);
      var rest := HealedRunIsPlainRun(c, net, Next(c, net, s, es[0]), es[1..]);
      RunConcat(c, s.fetch, Simulated(c, net, s, es[0]), rest);
      fs := Simulated(c, net, s, es[0]) + rest;
    }
  }

  /** Main result: over a fixed object, however the parts' connections break or end early, a nil error means
      that the destination holds exactly the object, unless the caller cancelled. */
  lemma HealedDownloadIsWhole(c: F.Setup, net: Network, es: seq<Event>)
    requires SameObject(c, net)
    requires var s := Run(c, net, Start(c), es).fetch; s.pc == F.Done(None) && !s.abandoned
    ensures var dst := Run(c, net, Start(c), es).fetch.dst;
            forall x: nat :: if x < |c.content| then x in dst && dst[x] == c.content[x] else x !in dst
  {
    F.StartInv(c);
    var fs := HealedRunIsPlainRun(c, net, Start(c), es);
    F.NilMeansWholeObject(c, fs);
  }

  /** What healing adds: a part whose connections end early is never taken for complete, nor given up because
      of it. Every clean end a worker sees finishes the part. */
  lemma CleanEndFinishesPart(c: F.Setup, net: Network, es: seq<Event>, i: nat, room: nat, error: F.Error)
    requires SameObject(c, net)
    requires var s := Run(c, net, Start(c), es);
             && F.At(s.fetch, i, F.Copying) && i in s.bodies
             && H.Read(PartRequest(net, s.fetch.workers[i].span), net.worlds(i), s.bodies[i], room).2.Eof?
    ensures var t := Next(c, net, Run(c, net, Start(c), es), ReadPart(i, room, None, error));
            F.At(t.fetch, i, F.Finished) && t.fetch.workers[i].n == t.fetch.workers[i].span.len
  {
    F.StartInv(c);
    RunKeeps(c, net, Start(c), es);
    ReadCopiesPart(c, net, Run(c, net, Start(c), es), i, room);
    PartIsSafe(c, Run(c, net, Start(c), es).fetch, i);
    var span := Run(c, net, Start(c), es).fetch.workers[i].span;
    SliceInside(c.content, span.off, span.len, 0, 0);
    hide Run, Inv, H.Read, Copied, H.Tracks, H.Steady, Slice, SameObject;
  }

  lemma {:induction false} RunKeeps(c: F.Setup, net: Network, s: State, es: seq<Event>)
    requires Inv(c, net, s) && SameObject(c, net)
    ensures Inv(c, net, Run(c, net, s, es))
    decreases |es|
  {
    if es != [] {
      NextKeeps(c, net, s, es[0]);
      RunKeeps(c, net, Next(c, net, s, es[0]), es[1..]);
    }
  }
}
