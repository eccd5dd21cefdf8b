/**
 The concurrent ranged download: a launcher hands parts to a bounded pool of workers that write at their
 offsets, and a failed ranged path degrades to one stream. An event is one atomic step of one goroutine;
 an event that is not enabled changes nothing, so a sequence of events is one interleaving.
 */
module FetchParts {
  import opened Objects
  import opened Parts

  datatype Error = NotFound | Other(code: int)

  /** The fixed object, and the options after defaults. */
  datatype Config = Config(content: Bytes, part: nat, conc: nat, threshold: int)

  type Setup = c: Config | c.part > 0 && c.conc > 0 witness Config([], 1, 1, 0)

  /** A worker opens its range, copies it, reports a failure, gives its token back and leaves the group. */
  datatype Stage = Opening | Copying | Failing(error: Error) | Finished | Released | Left

  datatype Worker = Worker(span: Span, n: nat, stage: Stage)

  datatype Pc = Select | Check | Join | GetWhole | CopyWhole(pos: nat) | Done(result: Option<Error>)

  /** `off` is the launcher's loop variable, `tokens` the semaphore's count, `failed` says the shared
      context was cancelled by a failure, `abandoned` that the caller cancelled its own. `dst` holds the
      bytes written so far. */
  datatype State = State(pc: Pc, off: nat, tokens: nat, workers: seq<Worker>, firstErr: Option<Error>,
                         failed: bool, abandoned: bool, dst: map<nat, Byte>)

  datatype Event =
    | Acquire | GiveUp | CheckContext | LoopEnds
    | OpenPart(i: nat, error: Option<Error>)
    | WritePart(i: nat, m: nat)
    | EndPart(i: nat, error: Option<Error>)
    | Report(i: nat) | Release(i: nat) | Leave(i: nat)
    | JoinAll
    | OpenWhole(error: Option<Error>) | WriteWhole(m: nat) | EndWhole(error: Option<Error>)
    | Abandon

  function Start(c: Setup): State {
    State(if |c.content| < c.threshold then GetWhole else Select, 0, 0, [], None, false, false, map[])
  }

  predicate Cancelled(s: State) {
    s.failed || s.abandoned
  }

  predicate At(s: State, i: nat, stage: Stage) {
    i < |s.workers| && s.workers[i].stage == stage
  }

  function Move(s: State, i: nat, stage: Stage): State
    requires i < |s.workers|
  {
    s.(workers := s.workers[i := s.workers[i].(stage := stage)])
  }

  function Written(dst: map<nat, Byte>, at: nat, bytes: Bytes): map<nat, Byte> {
    dst + map x: nat {:trigger x in dst} | at <= x < at + |bytes| :: bytes[x - at]
  }

  predicate AllLeft(workers: seq<Worker>) {
    forall i :: 0 <= i < |workers| ==> workers[i].stage == Left
  }

  /** One atomic step. The bytes of a part's body are the object's, in order, but the body may break or end
      cleanly at any point; the body of the whole object ends cleanly only after its last byte. */
  function Next(c: Setup, s: State, e: Event): State {
    var size := |c.content|;
    match e
    case Acquire =>
      if s.pc == Select && s.off < size && s.tokens < c.conc then s.(pc := Check, tokens := s.tokens + 1) else s
    case GiveUp =>
      if s.pc == Select && s.off < size && Cancelled(s) then s.(pc := Check) else s
    case CheckContext =>
      if s.pc != Check then s
      else if Cancelled(s) then s.(pc := Join)
      else s.(pc := Select, off := s.off + c.part,
              workers := s.workers + [Worker(Span(s.off, Max(0, Min(c.part, size - s.off))), 0, Opening)])
    case LoopEnds =>
      if s.pc == Select && s.off >= size then s.(pc := Join) else s
    case OpenPart(i, error) =>
      if !At(s, i, Opening) then s
      else Move(s, i, if error.Some? then Failing(error.value) else Copying)
    case WritePart(i, m) =>
      if !At(s, i, Copying) then s else WriteChunk(c, s, i, m)
    case EndPart(i, error) =>
      if !At(s, i, Copying) then s
      else if error.Some? then Move(s, i, Failing(error.value))
      else if s.workers[i].n != s.workers[i].span.len then Move(s, i, Failing(Other(0)))
      else Move(s, i, Finished)
    case Report(i) =>
      if !(i < |s.workers| && s.workers[i].stage.Failing?) then s
      else Move(s, i, Finished).(failed := true,
                                 firstErr := if s.firstErr.None? then Some(s.workers[i].stage.error) else s.firstErr)
    case Release(i) =>
      if At(s, i, Finished) && s.tokens > 0 then Move(s, i, Released).(tokens := s.tokens - 1) else s
    case Leave(i) =>
      if At(s, i, Released) then Move(s, i, Left) else s
    case JoinAll =>
      if !(s.pc == Join && AllLeft(s.workers)) then s
      else if s.firstErr.Some? && s.firstErr.value != NotFound && !s.abandoned then s.(pc := GetWhole)
      else s.(pc := Done(s.firstErr))
    case OpenWhole(error) =>
      if s.pc != GetWhole then s else s.(pc := if error.Some? then Done(error) else CopyWhole(0))
    case WriteWhole(m) =>
      if !(s.pc.CopyWhole? && s.pc.pos + m <= size) then s
      else s.(pc := CopyWhole(s.pc.pos + m), dst := Written(s.dst, s.pc.pos, c.content[s.pc.pos..s.pc.pos + m]))
    case EndWhole(error) =>
      if s.pc.CopyWhole? && (error.None? ==> s.pc.pos == size) then s.(pc := Done(error)) else s
    case Abandon =>
      s.(abandoned := true)
  }

  function WriteChunk(c: Setup, s: State, i: nat, m: nat): (t: State)
    requires i < |s.workers|
    ensures t == s || t == s.(workers := t.workers, dst := t.dst)
    ensures |t.workers| == |s.workers| && t.workers == s.workers[i := s.workers[i].(n := t.workers[i].n)]
  {
    var w := s.workers[i];
    var at := w.span.off + w.n;
    if w.n + m <= w.span.len && at + m <= |c.content| then
      s.(workers := s.workers[i := w.(n := w.n + m)], dst := Written(s.dst, at, c.content[at..at + m]))
    else s
  }

  function Run(c: Setup, s: State, es: seq<Event>): State
    decreases |es|
  {
    if es == [] then s else Run(c, Next(c, s, es[0]), es[1..])
  }

  /* ---------- Invariants ---------- */

  function SpanOf(w: Worker): Span {
    w.span
  }

  /** The parts handed out and the parts to come are the parts of the object. */
  ghost predicate Cut(c: Setup, s: State) {
    SpansOf(s.workers, SpanOf) + Spans(|c.content|, c.part, s.off) == Spans(|c.content|, c.part, 0)
  }

  /** Every byte written is the object's byte at that position. */
  ghost predicate Right(c: Setup, dst: map<nat, Byte>) {
    forall x :: x in dst ==> x < |c.content| && dst[x] == c.content[x]
  }

  ghost predicate Holds(dst: map<nat, Byte>, from: nat, to: nat) {
    forall x: nat :: from <= x < to ==> x in dst
  }

  /** What a worker has copied is in place; once past the copy, either everything is or an error is on record. */
  ghost predicate WorkerOk(s: State, w: Worker) {
    && w.n <= w.span.len
    && Holds(s.dst, w.span.off, w.span.off + w.n)
    && (w.stage in {Finished, Released, Left} && s.firstErr.None? ==> w.n == w.span.len)
  }

  ghost predicate Workers(s: State) {
    forall i :: 0 <= i < |s.workers| ==> WorkerOk(s, s.workers[i])
  }

  /** The launcher stops early only because of a cancellation, and the single stream starts only after
      every worker has left. */
  ghost predicate Control(c: Setup, s: State) {
    var size := |c.content|;
    && (s.failed <==> s.firstErr.Some?)
    && (s.pc == Check ==> s.off < size)
    && (s.pc == Join && !Cancelled(s) ==> s.off >= size)
    && (s.pc.GetWhole? || s.pc.CopyWhole? || s.pc.Done? ==> AllLeft(s.workers))
    && (s.pc.CopyWhole? ==> s.pc.pos <= size && Holds(s.dst, 0, s.pc.pos))
    && (s.pc == Done(None) && !s.abandoned ==> Holds(s.dst, 0, size))
  }

  ghost predicate Inv(c: Setup, s: State) {
    Cut(c, s) && Right(c, s.dst) && Workers(s) && Control(c, s)
  }

  lemma WrittenHolds(c: Setup, dst: map<nat, Byte>, at: nat, m: nat)
    requires at + m <= |c.content| && Right(c, dst)
    ensures var after := Written(dst, at, c.content[at..at + m]);
            && Right(c, after) && Holds(after, at, at + m)
            && dst.Keys <= after.Keys
  {
  }

  lemma SpansKept(c: Setup, s: State, e: Event)
    requires e != CheckContext
    ensures Next(c, s, e).off == s.off && SpansOf(Next(c, s, e).workers, SpanOf) == SpansOf(s.workers, SpanOf)
  {
    hide Written, AllLeft;
    var t := Next(c, s, e);
    assert |t.workers| == |s.workers|;
    assert forall i :: 0 <= i < |s.workers| ==> t.workers[i].span == s.workers[i].span;
  }

  lemma CutStep(c: Setup, s: State, e: Event)
    requires Cut(c, s) && Control(c, s)
    ensures Cut(c, Next(c, s, e))
  {
    if e != CheckContext {
      SpansKept(c, s, e);
    } else if s.pc == Check && !Cancelled(s) {
      var t := Next(c, s, e);
      var w := t.workers[|s.workers|];
      assert SpansOf(t.workers, SpanOf) == SpansOf(s.workers, SpanOf) + [w.span];
      assert Spans(|c.content|, c.part, s.off) == [w.span] + Spans(|c.content|, c.part, t.off);
    }
  }

  /** Bytes are never lost, an error on record stays, and every byte written is right. */
  lemma Grows(c: Setup, s: State, e: Event)
    requires Right(c, s.dst)
    ensures var t := Next(c, s, e);
            Right(c, t.dst) && s.dst.Keys <= t.dst.Keys && (s.firstErr.Some? ==> t.firstErr.Some?)
  {
    hide Written, Right, AllLeft;
    match e
    case WritePart(i, m) =>
      if Next(c, s, e) != s {
        WrittenHolds(c, s.dst, s.workers[i].span.off + s.workers[i].n, m);
      }
    case WriteWhole(m) =>
      if Next(c, s, e) != s {
        WrittenHolds(c, s.dst, s.pc.pos, m);
      }
    case _ =>
  }

  /** The one worker an event concerns. */
  function Concerns(s: State, e: Event): int {
    match e
    case CheckContext => |s.workers|
    case OpenPart(i, _) => i
    case WritePart(i, _) => i
    case EndPart(i, _) => i
    case Report(i) => i
    case Release(i) => i
    case Leave(i) => i
    case _ => -1
  }

  lemma OthersUnchanged(c: Setup, s: State, e: Event, i: nat)
    requires i < |Next(c, s, e).workers| && i != Concerns(s, e)
    ensures i < |s.workers| && Next(c, s, e).workers[i] == s.workers[i]
  {
  }

  lemma CopierOk(c: Setup, s: State, i: nat, m: nat)
    requires Right(c, s.dst) && At(s, i, Copying) && WorkerOk(s, s.workers[i])
    ensures WorkerOk(WriteChunk(c, s, i, m), WriteChunk(c, s, i, m).workers[i])
  {
    var w := s.workers[i];
    if WriteChunk(c, s, i, m) != s {
      WrittenHolds(c, s.dst, w.span.off + w.n, m);
    }
  }

  lemma ConcernedOk(c: Setup, s: State, e: Event)
    requires Right(c, s.dst) && Workers(s)
    requires 0 <= Concerns(s, e) < |Next(c, s, e).workers|
    ensures WorkerOk(Next(c, s, e), Next(c, s, e).workers[Concerns(s, e)])
  {
    hide Written, Right, AllLeft, WriteChunk;
    var i := Concerns(s, e);
    if i < |s.workers| {
      assert WorkerOk(s, s.workers[i]);
    }
    if e.WritePart? && At(s, i, Copying) {
      CopierOk(c, s, i, e.m);
    }
  }

  lemma WorkersStep(c: Setup, s: State, e: Event)
    requires Right(c, s.dst) && Workers(s)
    ensures Workers(Next(c, s, e))
  {
    var t := Next(c, s, e);
    Grows(c, s, e);
    hide Right;
    forall i | 0 <= i < |t.workers|
      ensures WorkerOk(t, t.workers[i])
    {
      if i == Concerns(s, e) {
        ConcernedOk(c, s, e);
      } else {
        OthersUnchanged(c, s, e, i);
        assert WorkerOk(s, s.workers[i]);
        hide Next;
      }
    }
  }

  /** A clean join means every position was covered by a part that was copied in full. */
  lemma CleanJoin(c: Setup, s: State)
    requires Cut(c, s) && Workers(s)
    requires s.off >= |c.content| && AllLeft(s.workers) && s.firstErr.None?
    ensures Holds(s.dst, 0, |c.content|)
  {
    assert SpansOf(s.workers, SpanOf) == Spans(|c.content|, c.part, 0);
    forall x: nat | x < |c.content|
      ensures x in s.dst
    {
      var k := SpanCovering(|c.content|, c.part, 0, x);
      assert WorkerOk(s, s.workers[k]);
    }
  }

  lemma ControlStep(c: Setup, s: State, e: Event)
    requires Inv(c, s)
    ensures Control(c, Next(c, s, e))
  {
    hide Written, Cut, Workers;
    var t := Next(c, s, e);
    match e
    case WritePart(i, m) =>
    case WriteWhole(m) =>
      if t != s {
        WrittenHolds(c, s.dst, s.pc.pos, m);
      }
    case JoinAll =>
      if t.pc == Done(None) && s.pc == Join && !s.abandoned {
        CleanJoin(c, s);
      }
    case _ =>
  }

  lemma {:induction false} RunInv(c: Setup, s: State, es: seq<Event>)
    requires Inv(c, s)
    ensures Inv(c, Run(c, s, es))
    decreases |es|
  {
    if es != [] {
      CutStep(c, s, es[0]);
      Grows(c, s, es[0]);
      WorkersStep(c, s, es[0]);
      ControlStep(c, s, es[0]);
      RunInv(c, Next(c, s, es[0]), es[1..]);
    }
  }

  lemma StartInv(c: Setup)
    ensures Inv(c, Start(c))
  {
    assert SpansOf([], SpanOf) == [];
  }

  /** Main result: in every interleaving in which the caller has not cancelled, a nil error means that the
      destination holds exactly the object, whether the parts or the single stream wrote it. */
  lemma NilMeansWholeObject(c: Setup, es: seq<Event>)
    requires var s := Run(c, Start(c), es); s.pc == Done(None) && !s.abandoned
    ensures var dst := Run(c, Start(c), es).dst;
            forall x: nat :: if x < |c.content| then x in dst && dst[x] == c.content[x] else x !in dst
  {
    StartInv(c);
    RunInv(c, Start(c), es);
  }

  /** The parts handed out so far are the first parts of the partition, all of them once the loop has run
      out; and from the moment the single stream may write, no part writer is left. */
  lemma WritersOwnParts(c: Setup, es: seq<Event>)
    ensures var s := Run(c, Start(c), es);
            && Partition(Spans(|c.content|, c.part, 0), |c.content|)
            && SpansOf(s.workers, SpanOf) <= Spans(|c.content|, c.part, 0)
            && (s.off >= |c.content| ==> SpansOf(s.workers, SpanOf) == Spans(|c.content|, c.part, 0))
            && (s.pc.GetWhole? || s.pc.CopyWhole? || s.pc.Done? ==> AllLeft(s.workers))
  {
    StartInv(c);
    RunInv(c, Start(c), es);
    SpansPartition(|c.content|, c.part);
  }

  /* ---------- The pool ---------- */

  /** Holding a semaphore token. */
  predicate Holding(w: Worker) {
    w.stage.Opening? || w.stage.Copying? || w.stage.Failing? || w.stage.Finished?
  }

  function Token(w: Worker): nat {
    One(Holding(w))
  }

  function Busy(workers: seq<Worker>): nat {
    Total(workers, Token)
  }

  ghost predicate Bounded(c: Setup, s: State) {
    Busy(s.workers) + (if s.pc == Check && !Cancelled(s) then 1 else 0) <= s.tokens <= c.conc
  }

  lemma BoundedStep(c: Setup, s: State, e: Event)
    requires Bounded(c, s)
    ensures Bounded(c, Next(c, s, e))
  {
    hide Total, Written, AllLeft;
    var i, t := Concerns(s, e), Next(c, s, e);
    if e == CheckContext && s.pc == Check && !Cancelled(s) {
      assert t.workers[..|s.workers|] == s.workers;
      TotalAppend(s.workers, t.workers[|s.workers|], Token);
    } else if 0 <= i < |s.workers| {
      OneWorkerMoves(c, s, e);
      TotalUpdate(s.workers, i, t.workers[i], Token);
    }
  }

  lemma OneWorkerMoves(c: Setup, s: State, e: Event)
    requires 0 <= Concerns(s, e) < |s.workers|
    ensures |Next(c, s, e).workers| == |s.workers|
    ensures var i := Concerns(s, e);
            Next(c, s, e).workers == s.workers[i := Next(c, s, e).workers[i]]
  {
    hide Written, AllLeft;
  }

  /** At most `Concurrency` workers hold a token at any time. */
  lemma {:induction false} PoolIsBounded(c: Setup, s: State, es: seq<Event>)
    requires Bounded(c, s)
    ensures Bounded(c, Run(c, s, es)) && Busy(Run(c, s, es).workers) <= c.conc
    decreases |es|
  {
    if es != [] {
      BoundedStep(c, s, es[0]);
      PoolIsBounded(c, Next(c, s, es[0]), es[1..]);
    }
  }

  /** Some run brings the pool to `n` more busy workers. */
  lemma {:induction false} PoolFills(c: Setup, s: State, n: nat) returns (es: seq<Event>)
    requires s.pc == Select && !Cancelled(s) && s.tokens + n <= c.conc && n <= |Spans(|c.content|, c.part, s.off)|
    ensures Busy(Run(c, s, es).workers) == Busy(s.workers) + n
    decreases n
  {
    es := [];
    if n > 0 {
      var s1 := Next(c, s, Acquire);
      var s2 := Next(c, s1, CheckContext);
      TotalAppend(s.workers, s2.workers[|s.workers|], Token);
      var rest := PoolFills(c, s2, n - 1);
      es := [Acquire, CheckContext] + rest;
      assert es[1..] == [CheckContext] + rest && es[1..][1..] == rest;
      hide Next, Total, Spans;
    }
  }

  /** The bound is exact: with parts enough, all `Concurrency` tokens can be held at once. */
  lemma PoolIsUsed(c: Setup) returns (es: seq<Event>)
    requires c.conc <= |Spans(|c.content|, c.part, 0)| && !Small(c)
    ensures Busy(Run(c, Start(c), es).workers) == c.conc
  {
    es := PoolFills(c, Start(c), c.conc);
  }

  /* ---------- Cancellation by the caller ---------- */

  /** No part reaches beyond the launcher's position, and without an error nothing else writes. */
  ghost predicate Behind(c: Setup, s: State) {
    var reach := Min(s.off, |c.content|);
    && (forall i :: 0 <= i < |s.workers| ==> s.workers[i].span.off + s.workers[i].span.len <= reach)
    && (s.firstErr.None? ==> !s.pc.GetWhole? && !s.pc.CopyWhole? && forall x :: x in s.dst ==> x < reach)
  }

  lemma BehindStep(c: Setup, s: State, e: Event)
    requires Inv(c, s) && Behind(c, s)
    ensures Behind(c, Next(c, s, e))
  {
    hide Cut, Right, AllLeft;
    if e.CheckContext? {
    } else {
      SpansKept(c, s, e);
      assert forall i :: 0 <= i < |s.workers| ==> SpansOf(s.workers, SpanOf)[i] == s.workers[i].span;
    }
  }

  lemma {:induction false} RunBehind(c: Setup, s: State, es: seq<Event>)
    requires Inv(c, s) && Behind(c, s)
    ensures Behind(c, Run(c, s, es))
    decreases |es|
  {
    if es != [] {
      BehindStep(c, s, es[0]);
      RunInv(c, s, [es[0]]);
      assert Run(c, s, [es[0]]) == Next(c, s, es[0]) by { assert [es[0]][1..] == []; }
      RunBehind(c, Next(c, s, es[0]), es[1..]);
    }
  }

  /** The object is below the threshold: it is fetched with one stream. */
  predicate Small(c: Setup) {
    |c.content| < c.threshold
  }

  /** A nil error for a small object, or after a failed part, comes from a single stream read to its end. */
  ghost predicate WholeByStream(c: Setup, s: State) {
    && (Small(c) ==> s.pc.GetWhole? || s.pc.CopyWhole? || s.pc.Done?)
    && (s.pc == Done(None) && (s.firstErr.Some? || Small(c)) ==> Holds(s.dst, 0, |c.content|))
  }

  lemma {:induction false} RunWhole(c: Setup, s: State, es: seq<Event>)
    requires Inv(c, s) && WholeByStream(c, s)
    ensures WholeByStream(c, Run(c, s, es))
    decreases |es|
  {
    if es != [] {
      var t := Next(c, s, es[0]);
      RunInv(c, s, [es[0]]);
      assert Run(c, s, [es[0]]) == t by { assert [es[0]][1..] == []; }
      WholeStep(c, s, es[0]);
      RunWhole(c, t, es[1..]);
    }
  }

  lemma WholeStep(c: Setup, s: State, e: Event)
    requires Inv(c, s) && WholeByStream(c, s)
    ensures WholeByStream(c, Next(c, s, e))
  {
    Grows(c, s, e);
    hide Cut, Right, Workers, Written;
  }

  /** With cancellation allowed, a nil error still promises every part handed out, but the object is complete exactly
      when the launcher had reached its end or the single stream was used. */
  lemma NilIsCompleteExactlyWhen(c: Setup, es: seq<Event>)
    requires Run(c, Start(c), es).pc == Done(None)
    ensures var s := Run(c, Start(c), es);
            Holds(s.dst, 0, |c.content|) <==> s.off >= |c.content| || s.firstErr.Some? || Small(c)
  {
    StartInv(c);
    RunInv(c, Start(c), es);
    RunWhole(c, Start(c), es);
    var s := Run(c, Start(c), es);
    if s.firstErr.None? && !Small(c) {
      RunBehind(c, Start(c), es);
      PartsOnly(c, s);
    }
  }

  lemma PartsOnly(c: Setup, s: State)
    requires Inv(c, s) && Behind(c, s) && s.pc.Done? && s.firstErr.None?
    ensures Holds(s.dst, 0, |c.content|) <==> s.off >= |c.content|
  {
    if s.off >= |c.content| {
      CleanJoin(c, s);
    } else {
      assert s.off !in s.dst;
    }
  }

  /** The failing case: a caller that cancels before the first part is handed out gets nil and no bytes. */
  lemma AbandonedDownloadReportsNil(c: Setup)
    requires c.threshold <= |c.content| && |c.content| > 0
    ensures var s := Run(c, Start(c), [Abandon, GiveUp, CheckContext, JoinAll]);
            s.pc == Done(None) && s.dst == map[]
  {
    var s1 := Next(c, Start(c), Abandon);
    var s2 := Next(c, s1, GiveUp);
    var s3 := Next(c, s2, CheckContext);
    var s4 := Next(c, s3, JoinAll);
    assert [Abandon, GiveUp, CheckContext, JoinAll][1..] == [GiveUp, CheckContext, JoinAll];
    assert [GiveUp, CheckContext, JoinAll][1..] == [CheckContext, JoinAll];
    assert [CheckContext, JoinAll][1..] == [JoinAll];
    assert [JoinAll][1..] == [];
    assert Run(c, s3, [JoinAll]) == s4;
    assert Run(c, s2, [CheckContext, JoinAll]) == s4;
    assert Run(c, s1, [GiveUp, CheckContext, JoinAll]) == s4;
  }

  /* ---------- What a caller may rely on ---------- */

  /** Every nil error means that the destination holds exactly the object. */
  ghost predicate NilIsWhole(c: Setup, mayCancel: bool) {
    forall es :: (mayCancel || Abandon !in es) && Run(c, Start(c), es).pc == Done(None) ==>
      Right(c, Run(c, Start(c), es).dst) && Holds(Run(c, Start(c), es).dst, 0, |c.content|)
  }

  lemma {:induction false} NeverAbandoned(c: Setup, s: State, es: seq<Event>)
    requires !s.abandoned && Abandon !in es
    ensures !Run(c, s, es).abandoned
    decreases |es|
  {
    if es != [] {
      assert es[0] in es;
      KeepsGoing(c, s, es[0]);
      hide Next;
      NeverAbandoned(c, Next(c, s, es[0]), es[1..]);
    }
  }

  lemma KeepsGoing(c: Setup, s: State, e: Event)
    requires e != Abandon
    ensures Next(c, s, e).abandoned == s.abandoned
  {
    hide Written, AllLeft;
  }

  /** Main result, for a caller to check beforehand: nil always means the whole object if and only if the caller never
      cancels, or the object is below the threshold, or it is empty. */
  lemma NilIsWholeExactlyWhen(c: Setup, mayCancel: bool)
    ensures NilIsWhole(c, mayCancel) <==> !mayCancel || Small(c) || c.content == []
  {
    if !mayCancel || Small(c) || c.content == [] {
      forall es | (mayCancel || Abandon !in es) && Run(c, Start(c), es).pc == Done(None)
        ensures Right(c, Run(c, Start(c), es).dst) && Holds(Run(c, Start(c), es).dst, 0, |c.content|)
      {
        StartInv(c);
        RunInv(c, Start(c), es);
        if Small(c) {
          NilIsCompleteExactlyWhen(c, es);
        } else if c.content != [] {
          NeverAbandoned(c, Start(c), es);
          NilMeansWholeObject(c, es);
        }
      }
    } else {
      AbandonedDownloadReportsNil(c);
      var es := [Abandon, GiveUp, CheckContext, JoinAll];
      assert 0 !in Run(c, Start(c), es).dst;
      hide Run;
      assert !Holds(Run(c, Start(c), es).dst, 0, |c.content|);
    }
  }
}
