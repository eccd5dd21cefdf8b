/** How the streaming reader ends: its end of file or error follows from the first part that failed, and from nothing
    else. */
module ReaderResults {
  import opened Objects
  import opened Parts
  import opened OrderedReader

  /** A failed part, by its place in the object. */
  datatype Failure = Failure(part: nat, error: Error)

  /** The failure an event means for a part: its request or its body fails, or too few bytes came. */
  function PartFailure(s: State, e: Event): set<Failure> {
    match e
    case FetchEnds(i, got, error) =>
      if !(i < |s.jobs| && s.jobs[i].stage == Running) then {}
      else if error.Some? then {Failure(i, error.value)}
      else if got < s.jobs[i].span.len then {Failure(i, Other(0))}
      else {}
    case _ => {}
  }

  /** The failure an event means for the single stream: its request fails, or a read of it. */
  function StreamFailure(c: Setup, s: State, e: Event): set<Error> {
    match e
    case Receive(Some(error)) => if FirstPartFailed(s) then {error} else {}
    case DeliverWhole(n, false, Some(error)) =>
      if s.reader.Whole? && s.reader.pos + n <= |c.content| then {error} else {}
    case _ => {}
  }

  function PartFailures(c: Setup, s: State, es: seq<Event>): set<Failure>
    decreases |es|
  {
    if es == [] then {} else PartFailure(s, es[0]) + PartFailures(c, Next(c, s, es[0]), es[1..])
  }

  function StreamFailures(c: Setup, s: State, es: seq<Event>): set<Error>
    decreases |es|
  {
    if es == [] then {} else StreamFailure(c, s, es[0]) + StreamFailures(c, Next(c, s, es[0]), es[1..])
  }

  ghost predicate IsFirst(f: Failure, failures: set<Failure>) {
    f in failures && forall g :: g in failures ==> f == g || f.part < g.part
  }

  predicate FromStream(failures: set<Error>, end: Option<Error>) {
    match end
    case None => failures == {}
    case Some(error) => error in failures
  }

  predicate Degrades(f: Failure) {
    f.part == 0 && f.error != NotFound
  }

  /** What the reader ends with after these failures: end of file after none; what the single stream comes to when the
      first part failed, unless the object is missing; else the error of the first part that failed. */
  ghost predicate EndsRightly(failures: set<Failure>, streamed: set<Error>, end: Option<Error>) {
    && (failures == {} ==> end == None)
    && (forall f :: IsFirst(f, failures) ==> if Degrades(f) then FromStream(streamed, end) else end == Some(f.error))
    && (failures != {} ==> exists f :: IsFirst(f, failures))
  }

  /* ---------- Failures are on record ---------- */

  /** A failure belongs to a fetch that is over; while the reader reads parts its result is in its channel, unread, and
      every bad result is a failure. */
  ghost predicate OnRecord(s: State, failures: set<Failure>) {
    && (forall f :: f in failures ==> f.part < |s.jobs| && Over(s.jobs[f.part]))
    && (forall f, g :: f in failures && g in failures && f.part == g.part ==> f == g)
    && (s.reader.Ready? || s.reader.Awaiting? ==>
         && (forall f :: f in failures ==> Unread(s, f.part) && s.jobs[f.part].slot == Some(Bad(f.error)))
         && (forall k: nat :: k < |s.jobs| && s.jobs[k].slot.Some? && s.jobs[k].slot.value.Bad? ==>
              Failure(k, s.jobs[k].slot.value.error) in failures))
  }

  /** Every part up to the first failed one has been fetched, so no other failure can come before it. */
  ghost predicate Settled(s: State, failures: set<Failure>) {
    if failures == {} then s.producer == Returned && forall k :: 0 <= k < |s.jobs| ==> Over(s.jobs[k])
    else exists f :: IsFirst(f, failures) && SettledAt(s, f.part)
  }

  ghost predicate SettledAt(s: State, part: nat) {
    part < |s.jobs| && forall k :: 0 <= k <= part ==> Over(s.jobs[k])
  }

  /** How the reader got where it is. */
  ghost predicate Explains(s: State, failures: set<Failure>, streamed: set<Error>) {
    match s.reader
    case Ready => streamed == {}
    case Awaiting(_) => streamed == {}
    case Whole(_) => streamed == {} && exists f :: IsFirst(f, failures) && SettledAt(s, f.part) && Degrades(f)
    case Ended(end) => Settled(s, failures) && EndsRightly(failures, streamed, end)
  }

  /** A fetch that ends sends what its failure says. */
  lemma FetchRecords(c: Setup, s: State, e: Event, failures: set<Failure>)
    requires e.FetchEnds? && Jobs(c, s) && Cut(c, s) && OnRecord(s, failures)
    ensures OnRecord(NextBehind(c, s, e), failures + PartFailure(s, e))
  {
    var i, t := e.i, NextBehind(c, s, e);
    if i < |s.jobs| && s.jobs[i].stage == Running {
      assert JobOk(c, s, i);
      PartInside(c, s, i);
      assert t.jobs[i].slot == Some(Fetched(c.content, s.jobs[i].span, e.got, e.error));
      assert forall k :: 0 <= k < |s.jobs| && k != i ==> t.jobs[k] == s.jobs[k];
      hide Fetched, NextBehind, Jobs, JobOk;
      assert PartFailure(s, e) <= {Failure(i, Other(0))} || e.error.Some?;
    }
  }

  lemma PartInside(c: Setup, s: State, i: nat)
    requires Cut(c, s) && i < |s.jobs|
    ensures s.jobs[i].span.off + s.jobs[i].span.len <= |c.content|
    ensures s.jobs[i].span.off == i * c.part
  {
    assert SpansOf(s.jobs, SpanOf)[i] == s.jobs[i].span;
    assert SpansOf(s.jobs, SpanOf)[i] == All(c)[i];
    SpanAt(|c.content|, c.part, 0, i);
  }

  lemma ProducerRecords(c: Setup, s: State, e: Event, failures: set<Failure>)
    requires !e.FetchEnds? && Queue(c, s) && Jobs(c, s) && OnRecord(s, failures)
    ensures OnRecord(NextBehind(c, s, e), failures)
  {
    hide Fetched, Front, All;
    assert s.producer == AtToken && s.jobs != [] ==> JobOk(c, s, |s.jobs| - 1);
  }

  lemma ReaderRecords(c: Setup, s: State, e: Event, failures: set<Failure>)
    requires Queue(c, s) && Jobs(c, s) && OnRecord(s, failures)
    ensures OnRecord(NextReader(c, s, e), failures)
  {
    hide Received, Front, All, Jobs;
  }

  lemma RecordStep(c: Setup, s: State, e: Event, failures: set<Failure>)
    requires Inv(c, s) && OnRecord(s, failures)
    ensures OnRecord(Next(c, s, e), failures + PartFailure(s, e))
  {
    hide NextBehind, NextReader, Position;
    if e.FetchEnds? {
      FetchRecords(c, s, e, failures);
    } else {
      assert failures + PartFailure(s, e) == failures;
      if e.Abandon? {
      } else if ByReader(e) {
        ReaderRecords(c, s, e, failures);
      } else {
        ProducerRecords(c, s, e, failures);
      }
    }
  }

  /* ---------- The end follows from the record ---------- */

  lemma OverStays(c: Setup, s: State, e: Event, k: nat)
    requires Jobs(c, s) && k < |s.jobs| && Over(s.jobs[k])
    ensures k < |Next(c, s, e).jobs| && Over(Next(c, s, e).jobs[k])
  {
    assert JobOk(c, s, |s.jobs| - 1);
    hide Received, Fetched, Jobs;
  }

  /** A failure that comes later is one of a later part. */
  lemma FirstStays(c: Setup, s: State, e: Event, failures: set<Failure>, f: Failure)
    requires Jobs(c, s) && IsFirst(f, failures) && SettledAt(s, f.part)
    ensures IsFirst(f, failures + PartFailure(s, e)) && SettledAt(Next(c, s, e), f.part)
  {
    forall k: nat | k <= f.part
      ensures k < |Next(c, s, e).jobs| && Over(Next(c, s, e).jobs[k])
    {
      OverStays(c, s, e, k);
    }
    assert forall g :: g in PartFailure(s, e) ==> g.part < |s.jobs| && !Over(s.jobs[g.part]);
    hide Next, PartFailure, Over, Jobs;
  }

  lemma NothingAfterAll(c: Setup, s: State, e: Event)
    requires s.producer == Returned && forall k :: 0 <= k < |s.jobs| ==> Over(s.jobs[k])
    ensures PartFailure(s, e) == {} && Next(c, s, e).producer == Returned
    ensures forall k :: 0 <= k < |Next(c, s, e).jobs| ==> Over(Next(c, s, e).jobs[k])
  {
    hide Received, Fetched;
  }

  lemma EndStays(c: Setup, s: State, e: Event, failures: set<Failure>, streamed: set<Error>, end: Option<Error>)
    requires Jobs(c, s) && Settled(s, failures) && EndsRightly(failures, streamed, end)
    ensures Settled(Next(c, s, e), failures + PartFailure(s, e))
    ensures EndsRightly(failures + PartFailure(s, e), streamed, end)
  {
    if failures == {} {
      NothingAfterAll(c, s, e);
    } else {
      var f :| IsFirst(f, failures) && SettledAt(s, f.part);
      FirstStays(c, s, e, failures, f);
    }
    hide Next, PartFailure, Over, Jobs;
  }

  /** When the queue is closed and empty nothing has failed. */
  lemma ClosedMeansNone(c: Setup, s: State, failures: set<Failure>)
    requires Queue(c, s) && Jobs(c, s) && OnRecord(s, failures)
    requires s.reader.Ready? && s.slots == [] && s.producer == Returned
    ensures failures == {} && Settled(s, failures)
  {
    forall k: nat | k < |s.jobs|
      ensures Over(s.jobs[k])
    {
      assert JobOk(c, s, k);
    }
    hide JobOk;
  }

  /** A bad result that is received is the first failure. */
  lemma BadIsFirst(c: Setup, s: State, failures: set<Failure>)
    requires Queue(c, s) && Jobs(c, s) && OnRecord(s, failures) && s.reader.Awaiting? && s.reader.i < |s.jobs|
    requires s.jobs[s.reader.i].slot.Some? && s.jobs[s.reader.i].slot.value.Bad?
    ensures var f := Failure(s.reader.i, s.jobs[s.reader.i].slot.value.error);
            IsFirst(f, failures) && SettledAt(s, f.part)
  {
    var f := Failure(s.reader.i, s.jobs[s.reader.i].slot.value.error);
    assert f in failures;
    forall k | 0 <= k <= f.part
      ensures Over(s.jobs[k])
    {
      assert JobOk(c, s, k);
    }
    hide JobOk, Over;
  }

  /** The reader has consumed nothing exactly at the first part. */
  lemma FirstIsAtStart(c: Setup, s: State)
    requires Inv(c, s) && s.reader.Awaiting? && s.reader.i < |s.jobs|
    ensures (s.consumed == 0 <==> s.reader.i == 0) && (s.jobs[s.reader.i].span.off == 0 <==> s.reader.i == 0)
    ensures !s.stopped
  {
    AtFirstPart(c, s);
    PartInside(c, s, s.reader.i);
    assert s.reader.i > 0 ==> s.reader.i * c.part >= 1 * c.part;
    hide Front, All;
  }

  lemma ReceiveExplains(c: Setup, s: State, whole: Option<Error>, failures: set<Failure>)
    requires Inv(c, s) && OnRecord(s, failures) && !s.abandoned
    requires s.reader.Awaiting? && s.reader.i < |s.jobs| && s.jobs[s.reader.i].slot.Some?
    ensures Explains(NextReader(c, s, Receive(whole)), failures, StreamFailure(c, s, Receive(whole)))
  {
    var i, t := s.reader.i, NextReader(c, s, Receive(whole));
    FirstIsAtStart(c, s);
    if s.jobs[i].slot.value.Bad? {
      var f := Failure(i, s.jobs[i].slot.value.error);
      BadIsFirst(c, s, failures);
      FirstStays(c, s, Receive(whole), failures, f);
      assert PartFailure(s, Receive(whole)) == {};
      assert failures + {} == failures;
      assert Degrades(f) <==> FirstPartFailed(s);
      hide Inv, OnRecord, NextBehind, Over, PartFailure;
      assert forall g :: IsFirst(g, failures) ==> g == f;
    } else {
      hide Inv, OnRecord;
    }
  }

  lemma ExplainReader(c: Setup, s: State, e: Event, failures: set<Failure>, streamed: set<Error>)
    requires Inv(c, s) && OnRecord(s, failures) && Explains(s, failures, streamed) && !s.abandoned && ByReader(e)
    ensures Explains(NextReader(c, s, e), failures, streamed + StreamFailure(c, s, e))
  {
    if e.Receive? && s.reader.Awaiting? && s.reader.i < |s.jobs| && s.jobs[s.reader.i].slot.Some? {
      ReceiveExplains(c, s, e.whole, failures);
      assert {} + StreamFailure(c, s, e) == StreamFailure(c, s, e);
    } else {
      if e.SeeClosed? && NextReader(c, s, e) != s {
        ClosedMeansNone(c, s, failures);
      }
      assert !s.reader.Whole? ==> StreamFailure(c, s, e) == {};
      assert streamed + {} == streamed;
      hide Cut, Queue, Jobs, OnRecord, Received, SettledAt;
    }
  }

  lemma ExplainStep(c: Setup, s: State, e: Event, failures: set<Failure>, streamed: set<Error>)
    requires Inv(c, s) && OnRecord(s, failures) && Explains(s, failures, streamed) && !s.abandoned && !e.Abandon?
    ensures Explains(Next(c, s, e), failures + PartFailure(s, e), streamed + StreamFailure(c, s, e))
  {
    if ByReader(e) {
      ExplainReader(c, s, e, failures, streamed);
      assert failures + PartFailure(s, e) == failures;
    } else {
      assert streamed + StreamFailure(c, s, e) == streamed;
      assert Next(c, s, e).reader == s.reader;
      match s.reader
      case Whole(_) =>
        var f :| IsFirst(f, failures) && SettledAt(s, f.part) && Degrades(f);
        FirstStays(c, s, e, failures, f);
      case Ended(end) =>
        EndStays(c, s, e, failures, streamed, end);
      case _ =>
    }
  }

  lemma {:induction false} RunExplains(c: Setup, s: State, es: seq<Event>, failures: set<Failure>, streamed: set<Error>)
    requires Inv(c, s) && OnRecord(s, failures) && Explains(s, failures, streamed) && !s.abandoned && Abandon !in es
    ensures Explains(Run(c, s, es), failures + PartFailures(c, s, es), streamed + StreamFailures(c, s, es))
    decreases |es|
  {
    if es == [] {
      assert failures + {} == failures && streamed + {} == streamed;
    } else {
      var e := es[0];
      assert e in es;
      RecordStep(c, s, e, failures);
      ExplainStep(c, s, e, failures, streamed);
      Keeps(c, s, e);
      KeepsGoing(c, s, e);
      hide Inv, OnRecord, Explains, Next, PartFailure, StreamFailure;
      RunExplains(c, Next(c, s, e), es[1..], failures + PartFailure(s, e), streamed + StreamFailure(c, s, e));
      assert failures + PartFailure(s, e) + PartFailures(c, Next(c, s, e), es[1..])
          == failures + PartFailures(c, s, es);
      assert streamed + StreamFailure(c, s, e) + StreamFailures(c, Next(c, s, e), es[1..])
          == streamed + StreamFailures(c, s, es);
    }
  }

  /** Main result: in every interleaving without cancellation by the caller, the reader ends with the end of file if no
      part failed, and otherwise as the first part in the object that failed says: with what the single stream comes to
      if it is the one at offset 0 and the object is not missing, else with its error. */
  lemma EndFollowsFirstFailure(c: Setup, es: seq<Event>)
    requires Run(c, Start(), es).reader.Ended? && Abandon !in es
    ensures EndsRightly(PartFailures(c, Start(), es), StreamFailures(c, Start(), es), Run(c, Start(), es).reader.error)
  {
    StartInv(c);
    hide Inv, Run, PartFailures, StreamFailures, EndsRightly;
    RunExplains(c, Start(), es, {}, {});
    assert {} + PartFailures(c, Start(), es) == PartFailures(c, Start(), es);
    assert {} + StreamFailures(c, Start(), es) == StreamFailures(c, Start(), es);
  }

  /** A part whose body fell short, or that failed otherwise, is never handed out: the end of file then comes from the
      single stream. */
  lemma FailureIsNeverHidden(c: Setup, es: seq<Event>)
    requires Run(c, Start(), es).reader == Ended(None) && Abandon !in es && PartFailures(c, Start(), es) != {}
    ensures Failed(PartFailures(c, Start(), es), 0) && StreamFailures(c, Start(), es) == {}
  {
    hide Run, PartFailures, StreamFailures;
    EndFollowsFirstFailure(c, es);
  }

  ghost predicate Failed(failures: set<Failure>, part: nat) {
    exists f :: f in failures && f.part == part
  }

  /** After the caller's cancellation, a reader still reading parts ends with the end of file or as cancelled; it asks
      for no single stream. */
  lemma {:induction false} CancelledReaderEnds(c: Setup, s: State, es: seq<Event>)
    requires s.abandoned && (s.reader.Ready? || s.reader.Awaiting? || s.reader.Ended?)
    requires s.reader.Ended? ==> s.reader.error in {None, Some(Cancelled)}
    ensures var t := Run(c, s, es);
            !t.reader.Whole? && (t.reader.Ended? ==> t.reader.error in {None, Some(Cancelled)})
    decreases |es|
  {
    hide Fetched;
    if es != [] {
      CancelledReaderEnds(c, Next(c, s, es[0]), es[1..]);
    }
  }
}
