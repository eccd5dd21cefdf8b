/** The ranged download comes to its end: with parts that finish, no interleaving is stuck and none goes on for ever. */
module FetchProgress {
  import opened FetchParts
  import opened Objects
  import opened Parts

  /** Steps left in a worker, counting every byte of its part as one. */
  function Load(w: Worker): nat {
    Max(0, w.span.len - w.n) +
    match w.stage
    case Opening => 5
    case Copying => 4
    case Failing(_) => 3
    case Finished => 2
    case Released => 1
    case Left => 0
  }

  function Rank(size: nat, pc: Pc): nat {
    match pc
    case Select => size + 6
    case Check => size + 5
    case Join => size + 4
    case GetWhole => size + 3
    case CopyWhole(pos) => Max(0, size - pos) + 1
    case Done(_) => 0
  }

  function Measure(c: Setup, s: State): nat {
    8 * |Spans(|c.content|, c.part, s.off)| + Max(0, |c.content| - s.off)
    + Total(s.workers, Load) + Rank(|c.content|, s.pc)
  }

  /* ---------- Every effective step lowers the measure ---------- */

  lemma NothingWritten(dst: map<nat, Byte>, at: nat)
    ensures Written(dst, at, []) == dst
  {
  }

  /** Writing no bytes changes nothing. */
  lemma EmptyChunk(c: Setup, s: State, i: nat)
    ensures Next(c, s, WritePart(i, 0)) == s
  {
    if At(s, i, Copying) && s.workers[i].span.off + s.workers[i].n <= |c.content| {
      var w := s.workers[i];
      NothingWritten(s.dst, w.span.off + w.n);
      assert c.content[w.span.off + w.n..w.span.off + w.n + 0] == [];
      assert s.workers[i := w.(n := w.n + 0)] == s.workers;
    }
  }

  lemma EmptyWhole(c: Setup, s: State)
    ensures Next(c, s, WriteWhole(0)) == s
  {
    if s.pc.CopyWhole? && s.pc.pos <= |c.content| {
      NothingWritten(s.dst, s.pc.pos);
      assert c.content[s.pc.pos..s.pc.pos + 0] == [];
    }
  }

  lemma LoadOfNew(c: Setup, s: State)
    requires s.pc == Check && !Cancelled(s) && s.off < |c.content|
    ensures Measure(c, Next(c, s, CheckContext)) < Measure(c, s)
  {
    var t := Next(c, s, CheckContext);
    var size := |c.content|;
    var w := t.workers[|s.workers|];
    TotalAppend(s.workers, w, Load);
    assert Spans(size, c.part, s.off) == [w.span] + Spans(size, c.part, t.off);
    assert Load(w) == w.span.len + 5;
    assert Max(0, size - s.off) == w.span.len + Max(0, size - t.off);
    hide Total, Spans;
  }

  lemma WorkerStepDrops(c: Setup, s: State, e: Event)
    requires e != CheckContext && 0 <= Concerns(s, e) < |s.workers| && Next(c, s, e) != s
    ensures var i, t := Concerns(s, e), Next(c, s, e);
            && |t.workers| == |s.workers| && Load(t.workers[i]) < Load(s.workers[i])
            && t.off == s.off && t.pc == s.pc && t.workers == s.workers[i := t.workers[i]]
  {
    EmptyChunk(c, s, Concerns(s, e));
    hide Written, AllLeft;
  }

  lemma OtherStepDrops(c: Setup, s: State, e: Event)
    requires Control(c, s) && !e.Abandon? && Next(c, s, e) != s
    requires e == CheckContext ==> Cancelled(s)
    requires e == CheckContext || !(0 <= Concerns(s, e))
    ensures var t := Next(c, s, e);
            t.workers == s.workers && t.off == s.off && Rank(|c.content|, t.pc) < Rank(|c.content|, s.pc)
  {
    EmptyWhole(c, s);
    hide Written, AllLeft;
  }

  lemma MeasureDrops(c: Setup, s: State, e: Event)
    requires Control(c, s) && !e.Abandon? && Next(c, s, e) != s
    ensures Measure(c, Next(c, s, e)) < Measure(c, s)
  {
    if e == CheckContext && !Cancelled(s) {
      LoadOfNew(c, s);
    } else if e != CheckContext && 0 <= Concerns(s, e) {
      assert Concerns(s, e) < |s.workers|;
      WorkerStepDrops(c, s, e);
      TotalUpdate(s.workers, Concerns(s, e), Next(c, s, e).workers[Concerns(s, e)], Load);
      hide Total, Next, Rank, Load;
    } else {
      OtherStepDrops(c, s, e);
      hide Total, Next, Rank;
    }
  }

  /* ---------- No state is stuck ---------- */

  /** While the launcher may still start parts, every token taken is held by a worker or by the launcher itself. */
  ghost predicate Exact(s: State) {
    && Busy(s.workers) <= s.tokens
    && (s.pc == Select ==> s.tokens == Busy(s.workers))
    && (s.pc == Check && !Cancelled(s) ==> s.tokens == Busy(s.workers) + 1)
  }

  lemma ExactStep(c: Setup, s: State, e: Event)
    requires Exact(s)
    ensures Exact(Next(c, s, e))
  {
    hide Total, Written, AllLeft;
    var i, t := Concerns(s, e), Next(c, s, e);
    if e == CheckContext {
      if s.pc == Check && !Cancelled(s) {
        TotalAppend(s.workers, t.workers[|s.workers|], Token);
      }
    } else if 0 <= i < |s.workers| {
      OneWorkerMoves(c, s, e);
      TotalUpdate(s.workers, i, t.workers[i], Token);
    }
  }

  /** Some step of the worker is possible. */
  lemma WorkerMoves(c: Setup, s: State, i: nat) returns (e: Event)
    requires Exact(s) && i < |s.workers| && s.workers[i].stage != Left
    ensures !e.Abandon? && Next(c, s, e) != s
  {
    TotalCovers(s.workers, i, Token);
    match s.workers[i].stage
    case Opening => e := OpenPart(i, None);
    case Copying => e := EndPart(i, Some(Other(0)));
    case Failing(_) => e := Report(i);
    case Finished => e := Release(i);
    case Released => e := Leave(i);
    hide Total, Written, AllLeft;
    assert Next(c, s, e).workers[i].stage != s.workers[i].stage;
  }

  /** Unless the download has returned, some step other than cancellation changes the state. */
  lemma NotStuck(c: Setup, s: State) returns (e: Event)
    requires Control(c, s) && Exact(s) && !s.pc.Done?
    ensures !e.Abandon? && Next(c, s, e) != s
  {
    match s.pc
    case Select =>
      if s.off >= |c.content| {
        e := LoopEnds;
      } else if s.tokens < c.conc {
        e := Acquire;
      } else {
        var i := TotalPositive(s.workers, Token);
        e := WorkerMoves(c, s, i);
      }
    case Check =>
      e := CheckContext;
    case Join =>
      if AllLeft(s.workers) {
        e := JoinAll;
      } else {
        var i: nat :| i < |s.workers| && s.workers[i].stage != Left;
        e := WorkerMoves(c, s, i);
      }
    case GetWhole =>
      e := OpenWhole(None);
    case CopyWhole(pos) =>
      e := EndWhole(Some(Other(0)));
  }

  /* ---------- Every run ends ---------- */

  ghost predicate Moves(c: Setup, s: State, es: seq<Event>)
    decreases |es|
  {
    es != [] ==> !es[0].Abandon? && Next(c, s, es[0]) != s && Moves(c, Next(c, s, es[0]), es[1..])
  }

  lemma {:induction false} RunKeeps(c: Setup, s: State, es: seq<Event>)
    requires Inv(c, s) && Exact(s)
    ensures Inv(c, Run(c, s, es)) && Exact(Run(c, s, es))
    decreases |es|
  {
    hide Inv, Exact, Next;
    if es != [] {
      StepKeeps(c, s, es[0]);
      RunKeeps(c, Next(c, s, es[0]), es[1..]);
    }
  }

  lemma StepKeeps(c: Setup, s: State, e: Event)
    requires Inv(c, s) && Exact(s)
    ensures Inv(c, Next(c, s, e)) && Exact(Next(c, s, e))
  {
    RunInv(c, s, [e]);
    assert Run(c, s, [e]) == Next(c, s, e) by { assert [e][1..] == []; }
    hide Inv, Next;
    ExactStep(c, s, e);
  }

  lemma {:induction false} RunsEnd(c: Setup, s: State, es: seq<Event>)
    requires Inv(c, s) && Exact(s) && Moves(c, s, es)
    ensures |es| <= Measure(c, s)
    decreases |es|
  {
    if es != [] {
      StepKeeps(c, s, es[0]);
      MeasureDrops(c, s, es[0]);
      hide Inv, Next, Measure, Exact;
      RunsEnd(c, Next(c, s, es[0]), es[1..]);
    }
  }

  /** No step but the caller's cancellation changes anything any more. */
  ghost predicate AtRest(c: Setup, s: State) {
    forall e: Event :: !e.Abandon? ==> Next(c, s, e) == s
  }

  /** Main result: after anything that happened, parts that finish bring the download to its result: no run of
      effective steps is longer than the measure, and one that cannot go on has returned. */
  lemma DownloadAlwaysEnds(c: Setup, es: seq<Event>, more: seq<Event>)
    requires Moves(c, Run(c, Start(c), es), more)
    ensures |more| <= Measure(c, Run(c, Start(c), es))
    ensures AtRest(c, Run(c, Run(c, Start(c), es), more)) ==> Run(c, Run(c, Start(c), es), more).pc.Done?
  {
    StartInv(c);
    RunKeeps(c, Start(c), es);
    var s := Run(c, Start(c), es);
    RunsEnd(c, s, more);
    RunKeeps(c, s, more);
    RestIsDone(c, Run(c, s, more));
  }

  lemma RestIsDone(c: Setup, s: State)
    requires Inv(c, s) && Exact(s)
    ensures AtRest(c, s) ==> s.pc.Done?
  {
    if !s.pc.Done? {
      var e := NotStuck(c, s);
      hide Next, Inv, Exact;
    }
  }
}
