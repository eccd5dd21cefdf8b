/** What the ranged download returns: which failures of the parts and of the single stream its result comes from. */
module FetchResults {
  import opened FetchParts
  import opened Objects
  import opened Parts

  /** The failure an event means for a part: its request fails, its copy does, or its body comes to a short end. */
  function PartFailure(s: State, e: Event): set<Error> {
    match e
    case OpenPart(i, Some(error)) => if At(s, i, Opening) then {error} else {}
    case EndPart(i, Some(error)) => if At(s, i, Copying) then {error} else {}
    case EndPart(i, None) =>
      if At(s, i, Copying) && s.workers[i].n != s.workers[i].span.len then {Other(0)} else {}
    case _ => {}
  }

  function StreamFailure(s: State, e: Event): set<Error> {
    match e
    case OpenWhole(Some(error)) => if s.pc == GetWhole then {error} else {}
    case EndWhole(Some(error)) => if s.pc.CopyWhole? then {error} else {}
    case _ => {}
  }

  function PartFailures(c: Setup, s: State, es: seq<Event>): set<Error>
    decreases |es|
  {
    if es == [] then {} else PartFailure(s, es[0]) + PartFailures(c, Next(c, s, es[0]), es[1..])
  }

  function StreamFailures(c: Setup, s: State, es: seq<Event>): set<Error>
    decreases |es|
  {
    if es == [] then {} else StreamFailure(s, es[0]) + StreamFailures(c, Next(c, s, es[0]), es[1..])
  }

  /** The recorded error is one of the parts' failures, and no failure is lost: it is recorded, or its worker is still
      to report it. */
  ghost predicate Recorded(s: State, failures: set<Error>) {
    && (forall i :: 0 <= i < |s.workers| && s.workers[i].stage.Failing? ==> s.workers[i].stage.error in failures)
    && (s.firstErr.Some? ==> s.firstErr.value in failures)
    && (failures != {} ==> s.firstErr.Some? || exists i :: 0 <= i < |s.workers| && s.workers[i].stage.Failing?)
  }

  /** What the single stream returned, if it was read. */
  predicate FromStream(failures: set<Error>, result: Option<Error>) {
    match result
    case None => failures == {}
    case Some(error) => error in failures
  }

  /** The single stream is read for a small object or after a failure other than a missing object; otherwise the result
      is the recorded error. */
  ghost predicate Decided(c: Setup, s: State, streamed: set<Error>) {
    var degrades := s.firstErr.Some? && s.firstErr.value != NotFound;
    match s.pc
    case GetWhole => (Small(c) || degrades) && streamed == {}
    case CopyWhole(_) => (Small(c) || degrades) && streamed == {}
    case Done(result) =>
      || ((Small(c) || degrades) && FromStream(streamed, result))
      || (!Small(c) && (s.abandoned || !degrades) && streamed == {} && result == s.firstErr)
    case _ => !Small(c) && streamed == {}
  }

  /** A step changes one worker; a failure that leaves it has been recorded. */
  lemma WorkerRecords(c: Setup, s: State, e: Event)
    requires 0 <= Concerns(s, e) < |s.workers|
    ensures var i, t := Concerns(s, e), Next(c, s, e);
            && |t.workers| == |s.workers| && t.workers == s.workers[i := t.workers[i]]
            && (s.workers[i].stage.Failing? ==> t.workers[i].stage == s.workers[i].stage || t.firstErr.Some?)
            && (t.workers[i].stage.Failing? ==>
                 t.workers[i].stage == s.workers[i].stage || t.workers[i].stage.error in PartFailure(s, e))
            && (PartFailure(s, e) != {} ==> t.workers[i].stage.Failing?)
            && (s.firstErr.Some? ==> t.firstErr == s.firstErr)
            && (s.firstErr.None? && t.firstErr.Some? ==>
                 s.workers[i].stage.Failing? && t.firstErr.value == s.workers[i].stage.error)
  {
    hide Written, AllLeft;
    OneWorkerMoves(c, s, e);
  }

  lemma OthersRecord(c: Setup, s: State, e: Event)
    requires !(0 <= Concerns(s, e) < |s.workers|)
    ensures var t := Next(c, s, e);
            && PartFailure(s, e) == {} && t.firstErr == s.firstErr
            && |s.workers| <= |t.workers| && t.workers[..|s.workers|] == s.workers
            && forall k :: |s.workers| <= k < |t.workers| ==> !t.workers[k].stage.Failing?
  {
    hide Written, AllLeft;
  }

  lemma RecordedStep(c: Setup, s: State, e: Event, failures: set<Error>)
    requires Recorded(s, failures)
    ensures Recorded(Next(c, s, e), failures + PartFailure(s, e))
  {
    hide Next, PartFailure;
    var i, t := Concerns(s, e), Next(c, s, e);
    if 0 <= i < |s.workers| {
      WorkerRecords(c, s, e);
      if k :| 0 <= k < |s.workers| && s.workers[k].stage.Failing? {
        assert k != i ==> t.workers[k].stage.Failing?;
        assert k == i ==> t.workers[i].stage.Failing? || t.firstErr.Some?;
      }
    } else {
      OthersRecord(c, s, e);
      assert forall k :: 0 <= k < |s.workers| ==> t.workers[..|s.workers|][k] == t.workers[k] == s.workers[k];
    }
  }

  /** Once every worker has left, nothing is recorded any more. */
  lemma DecidedStep(c: Setup, s: State, e: Event, streamed: set<Error>)
    requires Control(c, s) && Decided(c, s, streamed)
    ensures Decided(c, Next(c, s, e), streamed + StreamFailure(s, e))
  {
    hide Written;
    if e.Report? && (s.pc.GetWhole? || s.pc.CopyWhole? || s.pc.Done?) {
      assert Next(c, s, e) == s;
    }
  }

  lemma {:induction false} RunDecides(c: Setup, s: State, es: seq<Event>, failures: set<Error>, streamed: set<Error>)
    requires Inv(c, s) && Recorded(s, failures) && Decided(c, s, streamed)
    ensures var t := Run(c, s, es);
            && Inv(c, t) && Recorded(t, failures + PartFailures(c, s, es))
            && Decided(c, t, streamed + StreamFailures(c, s, es))
    decreases |es|
  {
    if es == [] {
      assert failures + {} == failures && streamed + {} == streamed;
    } else {
      var e := es[0];
      RecordedStep(c, s, e, failures);
      DecidedStep(c, s, e, streamed);
      RunInv(c, s, [e]);
      assert Run(c, s, [e]) == Next(c, s, e) by { assert [e][1..] == []; }
      hide Inv, Recorded, Decided, Next, PartFailure, StreamFailure;
      RunDecides(c, Next(c, s, e), es[1..], failures + PartFailure(s, e), streamed + StreamFailure(s, e));
      assert failures + PartFailure(s, e) + PartFailures(c, Next(c, s, e), es[1..])
          == failures + PartFailures(c, s, es);
      assert streamed + StreamFailure(s, e) + StreamFailures(c, Next(c, s, e), es[1..])
          == streamed + StreamFailures(c, s, es);
    }
  }

  lemma StartDecides(c: Setup, es: seq<Event>)
    ensures var s := Run(c, Start(c), es);
            && Inv(c, s) && Recorded(s, PartFailures(c, Start(c), es))
            && Decided(c, s, StreamFailures(c, Start(c), es))
  {
    StartInv(c);
    assert {} + PartFailures(c, Start(c), es) == PartFailures(c, Start(c), es);
    assert {} + StreamFailures(c, Start(c), es) == StreamFailures(c, Start(c), es);
    hide Inv, Run, PartFailures, StreamFailures;
    RunDecides(c, Start(c), es, {}, {});
  }

  /** Main result: in every interleaving without cancellation by the caller, the result is nil if no part failed, the
      missing object if the parts failed for nothing else, and what the single stream came to if they failed for
      anything else. */
  lemma ResultFollowsFailures(c: Setup, es: seq<Event>)
    requires Run(c, Start(c), es).pc.Done? && Abandon !in es
    ensures var result := Run(c, Start(c), es).pc.result;
            var failures, streamed := PartFailures(c, Start(c), es), StreamFailures(c, Start(c), es);
            && (!Small(c) && failures == {} ==> result == None)
            && (!Small(c) && failures == {NotFound} ==> result == Some(NotFound))
            && (Small(c) || (failures != {} && NotFound !in failures) ==> FromStream(streamed, result))
            && ((result == Some(NotFound) && NotFound in failures) || FromStream(streamed, result))
  {
    StartDecides(c, es);
    NeverAbandoned(c, Start(c), es);
    hide Run, PartFailures, StreamFailures, Cut, Right, Workers;
    var s := Run(c, Start(c), es);
    var failures := PartFailures(c, Start(c), es);
    assert AllLeft(s.workers);
    assert failures != {} <==> s.firstErr.Some?;
  }

  /** A failed part costs the download nothing: unless the object is missing or the single stream fails, too, the
      result is nil. */
  lemma DegradesRatherThanFails(c: Setup, es: seq<Event>)
    requires Run(c, Start(c), es).pc.Done? && Abandon !in es
    requires NotFound !in PartFailures(c, Start(c), es) && StreamFailures(c, Start(c), es) == {}
    ensures Run(c, Start(c), es).pc == Done(None)
  {
    hide Run, PartFailures, StreamFailures;
    ResultFollowsFailures(c, es);
  }

  /* ---------- The first error, and cancellation ---------- */

  /** The error on record is the first one reported. */
  lemma {:induction false} FirstErrorStays(c: Setup, s: State, es: seq<Event>)
    requires s.firstErr.Some?
    ensures Run(c, s, es).firstErr == s.firstErr
    decreases |es|
  {
    hide Written, AllLeft;
    if es != [] {
      assert Next(c, s, es[0]).firstErr == s.firstErr;
      FirstErrorStays(c, Next(c, s, es[0]), es[1..]);
    }
  }

  /** Once a part has failed or the caller cancelled, no further part is handed out. */
  lemma {:induction false} CancelStopsLaunching(c: Setup, s: State, es: seq<Event>)
    requires Cancelled(s)
    ensures |Run(c, s, es).workers| == |s.workers|
    decreases |es|
  {
    hide Written, AllLeft;
    if es != [] {
      assert Cancelled(Next(c, s, es[0])) && |Next(c, s, es[0]).workers| == |s.workers|;
      CancelStopsLaunching(c, Next(c, s, es[0]), es[1..]);
    }
  }

  /** A caller that cancels before the workers have left gets no single stream, but the error on record. */
  lemma {:induction false} CancelledIsNotDegraded(c: Setup, s: State, es: seq<Event>)
    requires s.abandoned && (s.pc.Done? ==> s.pc.result == s.firstErr && AllLeft(s.workers))
    requires !s.pc.GetWhole? && !s.pc.CopyWhole?
    ensures var t := Run(c, s, es);
            !t.pc.GetWhole? && !t.pc.CopyWhole? && (t.pc.Done? ==> t.pc.result == t.firstErr)
    decreases |es|
  {
    hide Written;
    if es != [] {
      CancelledIsNotDegraded(c, Next(c, s, es[0]), es[1..]);
    }
  }
}
