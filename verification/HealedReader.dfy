/**
 The streaming reader over a healing bucket: every fetch fills its buffer through a self-healing body over its own
 world, in which connections may break or end early at any point. The bytes such a body returns are the bytes sent
 to the reader.
 */
module HealedReader {
  import opened Objects
  import opened Parts
  import H = Healing
  import R = OrderedReader

  /** `worlds(i)` is the network as the fetch of part `i` sees it, `limit` the connection budget of one body. */
  datatype Network = Network(worlds: nat -> H.World, limit: int)

  datatype State = State(pipe: R.State, bodies: map<nat, H.Body>)

  /** A step of the pipeline other than the end of a fetch; the fetch of part `i` opens its range; or it reads once
      more into what is left of its buffer. `error` is what a failure is reported as. */
  datatype Event = Step(e: R.Event) | OpenPart(i: nat, refused: Option<R.Error>) | ReadPart(i: nat, error: R.Error)

  ghost predicate SameObject(c: R.Setup, net: Network) {
    forall i :: H.Fixed(net.worlds(i), c.content)
  }

  predicate Fetching(s: State, i: nat) {
    i < |s.pipe.jobs| && s.pipe.jobs[i].stage == R.Running
  }

  function PartRequest(net: Network, span: Span): H.Request {
    H.Request(span.off, span.len, net.limit)
  }

  /** One read into what is left of the buffer of part `i`. */
  function Reading(net: Network, s: State, i: nat): (H.Body, nat, H.Outcome)
    requires i < |s.pipe.jobs| && i in s.bodies
  {
    var span, b := s.pipe.jobs[i].span, s.bodies[i];
    H.Read(PartRequest(net, span), net.worlds(i), b, Max(0, span.len - |b.delivered|))
  }

  /** The fetch sends its result. */
  function Sends(s: R.State, i: nat, r: R.Result): R.State
    requires i < |s.jobs|
  {
    s.(jobs := s.jobs[i := s.jobs[i].(stage := R.Sent, slot := Some(r))])
  }

  function Start(): State {
    State(R.Start(), map[])
  }

  /** The buffer is filled by reads of what is left of it, until it is full or a read fails. */
  function Next(c: R.Setup, net: Network, s: State, e: Event): State {
    match e
    case Step(step) => if step.FetchEnds? then s else State(R.Next(c, s.pipe, step), s.bodies)
    case OpenPart(i, refused) =>
      if !Fetching(s, i) || i in s.bodies then s
      else if refused.Some? then State(Sends(s.pipe, i, R.Bad(refused.value)), s.bodies)
      else State(s.pipe, s.bodies[i := H.Opened(PartRequest(net, s.pipe.jobs[i].span), c.content, "")])
    case ReadPart(i, error) =>
      if !Fetching(s, i) || i !in s.bodies then s
      else
        var (after, n, o) := Reading(net, s, i);
        var bodies := s.bodies[i := after];
        if |after.delivered| >= s.pipe.jobs[i].span.len then State(Sends(s.pipe, i, R.Good(after.delivered)), bodies)
        else if o.Ok? then State(s.pipe, bodies)
        else State(Sends(s.pipe, i, R.Bad(error)), bodies)
  }

  function Run(c: R.Setup, net: Network, s: State, es: seq<Event>): State
    decreases |es|
  {
    if es == [] then s else Run(c, net, Next(c, net, s, es[0]), es[1..])
  }

  /* ---------- Invariant ---------- */

  function Want(c: R.Setup, span: Span): Bytes {
    Slice(c.content, span.off, span.len)
  }

  /** The body of a fetch still running is where its buffer is. */
  ghost predicate BodyOk(c: R.Setup, net: Network, s: State, i: nat) {
    i in s.bodies ==>
      && i < |s.pipe.jobs| && s.pipe.jobs[i].stage != R.Waiting
      && (s.pipe.jobs[i].stage == R.Running ==>
           && H.Tracks(Want(c, s.pipe.jobs[i].span), s.bodies[i])
           && H.Steady(net.worlds(i), s.bodies[i].etag, c.content))
  }

  ghost predicate Inv(c: R.Setup, net: Network, s: State) {
    R.Inv(c, s.pipe) && forall i: nat :: BodyOk(c, net, s, i)
  }

  /** Every part is a non-empty range inside the object, where short ends are recognised. */
  lemma PartIsSafe(c: R.Setup, s: R.State, i: nat)
    requires R.Cut(c, s) && R.Queue(c, s) && R.Jobs(c, s) && i < |s.jobs|
    ensures var span := s.jobs[i].span;
            && span.len > 0 && span.off + span.len <= |c.content|
            && H.SafeRange(span.off, span.len, |c.content|, true)
            && H.SafeRange(span.off, span.len, |c.content|, false)
            && |Want(c, span)| == span.len && Want(c, span) == c.content[span.off..span.off + span.len]
  {
    assert SpansOf(s.jobs, R.SpanOf)[i] == s.jobs[i].span;
    assert SpansOf(s.jobs, R.SpanOf)[i] == R.All(c)[i];
    SpansPartition(|c.content|, c.part);
    var span := s.jobs[i].span;
    SliceInside(c.content, span.off, span.len, 0, span.len);
    assert Want(c, span)[0..span.len] == Want(c, span);
  }

  /** What one read of a healed part leaves: the body in place, a full buffer only with the part's bytes, and a clean
      end only with a full buffer. */
  ghost predicate FillsPart(c: R.Setup, net: Network, s: State, i: nat)
    requires i < |s.pipe.jobs| && i in s.bodies
  {
    var want := Want(c, s.pipe.jobs[i].span);
    var (after, n, o) := Reading(net, s, i);
    && H.Tracks(want, after) && H.Steady(net.worlds(i), after.etag, c.content)
    && (|after.delivered| >= |want| ==> after.delivered == want)
    && (o.Eof? ==> |after.delivered| >= |want|)
  }

  /** What a read of the part needs. */
  lemma ReadyToRead(c: R.Setup, net: Network, s: State, i: nat)
    requires Inv(c, net, s) && SameObject(c, net) && Fetching(s, i) && i in s.bodies
    ensures var span, w := s.pipe.jobs[i].span, net.worlds(i);
            && H.SafeRange(span.off, span.len, |c.content|, w.earlyEof)
            && H.SizesKnown(w, c.content) && H.Steady(w, s.bodies[i].etag, c.content)
            && H.Tracks(Want(c, span), s.bodies[i]) && |Want(c, span)| == span.len
  {
    PartIsSafe(c, s.pipe, i);
    assert BodyOk(c, net, s, i);
    assert H.Fixed(net.worlds(i), c.content);
    hide R.Inv, H.SafeRange, H.Steady, H.Tracks, Want;
  }

  lemma ReadFillsPart(c: R.Setup, net: Network, s: State, i: nat)
    requires Inv(c, net, s) && SameObject(c, net) && Fetching(s, i) && i in s.bodies
    ensures FillsPart(c, net, s, i)
  {
    hide Slice, H.Read, H.SafeRange, H.Steady, H.SizesKnown, H.Tracks, Inv, SameObject;
    var span, b := s.pipe.jobs[i].span, s.bodies[i];
    ReadyToRead(c, net, s, i);
    H.ReadTracks(PartRequest(net, span), net.worlds(i), c.content, b, Max(0, span.len - |b.delivered|), Want(c, span));
    TrackedWhole(Want(c, span), Reading(net, s, i).0);
  }

  lemma TrackedWhole(want: Bytes, b: H.Body)
    requires H.Tracks(want, b)
    ensures |b.delivered| == b.consumed && (|b.delivered| >= |want| ==> b.delivered == want)
  {
  }

  /* ---------- Refinement ---------- */

  /** The step of the plain pipeline that an event amounts to, if any. */
  function Simulated(c: R.Setup, net: Network, s: State, e: Event): seq<R.Event> {
    match e
    case Step(step) => if step.FetchEnds? then [] else [step]
    case OpenPart(i, refused) =>
      if !Fetching(s, i) || i in s.bodies || refused.None? then [] else [R.FetchEnds(i, 0, refused)]
    case ReadPart(i, error) =>
      if !Fetching(s, i) || i !in s.bodies then []
      else
        var (after, n, o) := Reading(net, s, i);
        if |after.delivered| >= s.pipe.jobs[i].span.len then [R.FetchEnds(i, s.pipe.jobs[i].span.len, None)]
        else if o.Ok? then []
        else [R.FetchEnds(i, 0, Some(error))]
  }

  lemma RunOne(c: R.Setup, s: R.State, e: R.Event)
    ensures R.Run(c, s, [e]) == R.Next(c, s, e)
  {
    assert [e][1..] == [];
  }

  lemma EndsAs(c: R.Setup, s: R.State, i: nat, got: nat, error: Option<R.Error>)
    requires i < |s.jobs| && s.jobs[i].stage == R.Running
    ensures R.Run(c, s, [R.FetchEnds(i, got, error)]) == Sends(s, i, R.Fetched(c.content, s.jobs[i].span, got, error))
  {
    RunOne(c, s, R.FetchEnds(i, got, error));
    hide R.Run, R.Fetched;
  }

  lemma Simulates(c: R.Setup, net: Network, s: State, e: Event)
    requires Inv(c, net, s) && SameObject(c, net)
    ensures Next(c, net, s, e).pipe == R.Run(c, s.pipe, Simulated(c, net, s, e))
  {
    match e
    case Step(step) =>
      RunOne(c, s.pipe, step);
    case OpenPart(i, refused) =>
      if Fetching(s, i) {
        EndsAs(c, s.pipe, i, 0, refused);
      }
    case ReadPart(i, error) =>
      if Fetching(s, i) && i in s.bodies {
        ReadSimulates(c, net, s, i, error);
      }
  }

  lemma ReadSimulates(c: R.Setup, net: Network, s: State, i: nat, error: R.Error)
    requires Inv(c, net, s) && SameObject(c, net) && Fetching(s, i) && i in s.bodies
    ensures Next(c, net, s, ReadPart(i, error)).pipe == R.Run(c, s.pipe, Simulated(c, net, s, ReadPart(i, error)))
  {
    var span := s.pipe.jobs[i].span;
    ReadFillsPart(c, net, s, i);
    PartIsSafe(c, s.pipe, i);
    EndsAs(c, s.pipe, i, 0, Some(error));
    EndsAs(c, s.pipe, i, span.len, None);
    assert R.Fetched(c.content, span, span.len, None) == R.Good(c.content[span.off..span.off + span.len]);
    assert R.Fetched(c.content, span, 0, Some(error)) == R.Bad(error);
    hide R.Run, R.Fetched, Reading, H.Tracks, H.Steady, Inv, SameObject, Sends, H.SafeRange, Want;
  }

  /** A pipeline step leaves the span of a part alone, and makes only a waiting fetch run. */
  lemma StepKeepsJob(c: R.Setup, s: R.State, e: R.Event, i: nat)
    requires i < |s.jobs| && R.Jobs(c, s)
    ensures var t := R.Next(c, s, e);
            && i < |t.jobs| && t.jobs[i].span == s.jobs[i].span
            && (s.jobs[i].stage != R.Waiting ==> t.jobs[i].stage != R.Waiting)
            && (t.jobs[i].stage == R.Running ==> s.jobs[i].stage == R.Waiting || s.jobs[i].stage == R.Running)
  {
    if s.producer == R.AtToken && s.jobs != [] {
      assert R.JobOk(c, s, |s.jobs| - 1);
    }
    hide R.Received, R.Fetched, R.Jobs, R.JobOk;
  }

  lemma StepKeepsBody(c: R.Setup, net: Network, s: State, e: R.Event, k: nat)
    requires R.Jobs(c, s.pipe) && BodyOk(c, net, s, k) && !e.FetchEnds?
    ensures BodyOk(c, net, State(R.Next(c, s.pipe, e), s.bodies), k)
  {
    if k in s.bodies {
      StepKeepsJob(c, s.pipe, e, k);
    }
    hide R.Next, R.Jobs, H.Tracks, H.Steady, Want;
  }

  lemma OpenKeepsBody(c: R.Setup, net: Network, s: State, i: nat, refused: Option<R.Error>, k: nat)
    requires SameObject(c, net) && BodyOk(c, net, s, k)
    ensures BodyOk(c, net, Next(c, net, s, OpenPart(i, refused)), k)
  {
    if i == k && Fetching(s, i) {
      OpenedOk(c, net, s, i);
    }
    hide H.Tracks, H.Steady, Want, H.Opened;
  }

  lemma ReadKeepsBody(c: R.Setup, net: Network, s: State, i: nat, error: R.Error, k: nat)
    requires Inv(c, net, s) && SameObject(c, net) && BodyOk(c, net, s, k)
    ensures BodyOk(c, net, Next(c, net, s, ReadPart(i, error)), k)
  {
    if Fetching(s, i) && i in s.bodies {
      ReadFillsPart(c, net, s, i);
      hide Inv, SameObject;
      if k == i {
        ReadKeepsOwn(c, net, s, i, error);
      } else {
        ReadKeepsOther(c, net, s, i, error, k);
      }
    }
  }

  lemma ReadKeepsOwn(c: R.Setup, net: Network, s: State, i: nat, error: R.Error)
    requires Fetching(s, i) && i in s.bodies && FillsPart(c, net, s, i)
    ensures BodyOk(c, net, Next(c, net, s, ReadPart(i, error)), i)
  {
    var (after, n, o) := Reading(net, s, i);
    SendsOne(s.pipe, i, R.Good(after.delivered), i);
    SendsOne(s.pipe, i, R.Bad(error), i);
    hide Reading, H.Tracks, H.Steady, Want, Sends;
  }

  lemma ReadKeepsOther(c: R.Setup, net: Network, s: State, i: nat, error: R.Error, k: nat)
    requires Fetching(s, i) && i in s.bodies && k != i && BodyOk(c, net, s, k)
    ensures BodyOk(c, net, Next(c, net, s, ReadPart(i, error)), k)
  {
    var (after, n, o) := Reading(net, s, i);
    SendsOne(s.pipe, i, R.Good(after.delivered), k);
    SendsOne(s.pipe, i, R.Bad(error), k);
    hide Reading, H.Tracks, H.Steady, Want, Sends;
  }

  lemma SendsOne(s: R.State, i: nat, r: R.Result, k: nat)
    requires i < |s.jobs|
    ensures |Sends(s, i, r).jobs| == |s.jobs|
    ensures k < |s.jobs| ==>
      Sends(s, i, r).jobs[k] == if k == i then s.jobs[i].(stage := R.Sent, slot := Some(r)) else s.jobs[k]
  {
  }

  lemma OpenedOk(c: R.Setup, net: Network, s: State, i: nat)
    requires SameObject(c, net) && i < |s.pipe.jobs|
    ensures var span := s.pipe.jobs[i].span;
            var b := H.Opened(PartRequest(net, span), c.content, "");
            H.Tracks(Want(c, span), b) && H.Steady(net.worlds(i), b.etag, c.content)
  {
    assert H.Fixed(net.worlds(i), c.content);
    hide Slice;
  }

  lemma {:induction false} RunKeeps(c: R.Setup, s: R.State, es: seq<R.Event>)
    requires R.Inv(c, s)
    ensures R.Inv(c, R.Run(c, s, es))
  {
    R.RunBounded(c, s, es);
  }

  lemma NextKeeps(c: R.Setup, net: Network, s: State, e: Event)
    requires Inv(c, net, s) && SameObject(c, net)
    ensures Inv(c, net, Next(c, net, s, e))
  {
    Simulates(c, net, s, e);
    RunKeeps(c, s.pipe, Simulated(c, net, s, e));
    forall k: nat
      ensures BodyOk(c, net, Next(c, net, s, e), k)
    {
      assert BodyOk(c, net, s, k);
      match e
      case Step(step) =>
        if !step.FetchEnds? {
          StepKeepsBody(c, net, s, step, k);
        }
        hide R.Next;
      case OpenPart(i, refused) => OpenKeepsBody(c, net, s, i, refused, k);
      case ReadPart(i, error) => ReadKeepsBody(c, net, s, i, error, k);
    }
    hide Next, BodyOk, R.Inv, R.Run;
  }

  lemma {:induction false} RunConcat(c: R.Setup, s: R.State, es: seq<R.Event>, fs: seq<R.Event>)
    ensures R.Run(c, s, es + fs) == R.Run(c, R.Run(c, s, es), fs)
    decreases |es|
  {
    if es == [] {
      assert es + fs == fs;
    } else {
      assert (es + fs)[1..] == es[1..] + fs;
      RunConcat(c, R.Next(c, s, es[0]), es[1..], fs);
    }
  }

  /** Refinement: every run over healing bodies is a run of the plain pipeline. */
  lemma {:induction false} HealedRunIsPlainRun(c: R.Setup, net: Network, s: State, es: seq<Event>)
    returns (fs: seq<R.Event>)
    requires Inv(c, net, s) && SameObject(c, net)
    ensures Run(c, net, s, es).pipe == R.Run(c, s.pipe, fs)
    ensures Inv(c, net, Run(c, net, s, es))
    decreases |es|
  {
    fs := [];
    if es != [] {
      NextKeeps(c, net, s, es[0]);
      Simulates(c, net, s, es[0]);
      hide Inv, Next, SameObject;
      var rest := HealedRunIsPlainRun(c, net, Next(c, net, s, es[0]), es[1..]);
      RunConcat(c, s.pipe, Simulated(c, net, s, es[0]), rest);
      fs := Simulated(c, net, s, es[0]) + rest;
    }
  }

  lemma StartInv(c: R.Setup, net: Network)
    ensures Inv(c, net, Start())
  {
    R.StartInv(c);
  }

  /** Main result: over a fixed object, however the parts' connections break or end early, the bytes the reader
      returns before its first error are a prefix of the object, and all of it at end of file, unless the caller
      cancelled. */
  lemma HealedReaderDeliversObject(c: R.Setup, net: Network, es: seq<Event>)
    requires SameObject(c, net)
    ensures var s := Run(c, net, Start(), es).pipe;
            s.delivered <= c.content && (s.reader == R.Ended(None) && !s.abandoned ==> s.delivered == c.content)
  {
    StartInv(c, net);
    var fs := HealedRunIsPlainRun(c, net, Start(), es);
    hide R.Run, Run;
    R.ReaderDeliversObject(c, fs);
  }

  /** What healing adds: an early clean end is never taken for a failure. A read ends a fetch badly only when the
      healing body itself gave up. */
  lemma OnlyHealingFailureFailsFetch(c: R.Setup, net: Network, es: seq<Event>, i: nat, error: R.Error)
    requires SameObject(c, net)
    requires var s := Run(c, net, Start(), es); Fetching(s, i) && i in s.bodies
    ensures FetchGoesOn(c, net, Run(c, net, Start(), es), i, error)
  {
    StartInv(c, net);
    var fs := HealedRunIsPlainRun(c, net, Start(), es);
    hide Run, R.Run;
    GoesOn(c, net, Run(c, net, Start(), es), i, error);
  }

  /** The read leaves the fetch running, or sends the whole part, or the healing body reported an error, which is sent.
      A clean end sends the part. */
  ghost predicate FetchGoesOn(c: R.Setup, net: Network, s: State, i: nat, error: R.Error)
    requires Fetching(s, i) && i in s.bodies
  {
    var t, o := Next(c, net, s, ReadPart(i, error)), Reading(net, s, i).2;
    var sent := Sends(s.pipe, i, R.Good(Want(c, s.pipe.jobs[i].span)));
    match o
    case Ok => t.pipe == s.pipe || t.pipe == sent
    case Eof => t.pipe == sent
    case Failed(_) => t.pipe == sent || t.pipe == Sends(s.pipe, i, R.Bad(error))
  }

  lemma GoesOn(c: R.Setup, net: Network, s: State, i: nat, error: R.Error)
    requires Inv(c, net, s) && SameObject(c, net) && Fetching(s, i) && i in s.bodies
    ensures FetchGoesOn(c, net, s, i, error)
  {
    ReadFillsPart(c, net, s, i);
    PartIsSafe(c, s.pipe, i);
    hide Inv, Reading, H.Tracks, H.Steady, SameObject, H.SafeRange, Sends, Want;
  }
}
