/**
 The streaming reader over concurrently fetched parts: a producer puts one single-use channel per part
 into a bounded queue and starts a fetch for it once it holds a semaphore token; the reader takes the
 channels in order. An event is one atomic step of one goroutine; an event that is not enabled changes
 nothing, so a sequence of events is one interleaving.
 */
module OrderedReader {
  import opened Objects
  import opened Parts

  datatype Error = NotFound | Cancelled | Other(code: int)

  datatype Config = Config(content: Bytes, part: nat, conc: nat)

  type Setup = c: Config | c.part > 0 && c.conc > 0 witness Config([], 1, 1)

  datatype Result = Good(buf: Bytes) | Bad(error: Error)

  /** A fetch waits for its token, runs, has sent its result, or has given the token back. */
  datatype Stage = Waiting | Running | Sent | Finished

  /** One part: where it lies, its fetch, and its single-use channel. */
  datatype Job = Job(span: Span, stage: Stage, slot: Option<Result>)

  /** The producer is about to send a channel, about to take a token, or has returned and closed the queue. */
  datatype Producer = AtSlots | AtToken | Returned

  /** The reader is between channels, waits for the result of part `i`, reads the single stream from `pos`,
      or has returned its first error (`None` is the end of file). */
  datatype Reader = Ready | Awaiting(i: nat) | Whole(pos: nat) | Ended(error: Option<Error>)

  /** `stopped` is the reader's own cancellation, `abandoned` the caller's. */
  datatype State = State(off: nat, producer: Producer, jobs: seq<Job>, slots: seq<nat>, tokens: nat,
                         reader: Reader, cur: Bytes, consumed: nat, stopped: bool, abandoned: bool,
                         delivered: Bytes)

  datatype Event =
    | SendSlot | TakeToken | LoopEnds | ProducerGivesUp
    | FetchEnds(i: nat, got: nat, error: Option<Error>) | GiveToken(i: nat)
    | TakeSlot | SeeClosed | Receive(whole: Option<Error>) | SeeCancelled
    | Deliver(n: nat) | DeliverWhole(n: nat, end: bool, error: Option<Error>)
    | Abandon

  function Start(): State {
    State(0, AtSlots, [], [], 0, Ready, [], 0, false, false, [])
  }

  predicate Done(s: State) {
    s.stopped || s.abandoned
  }

  /** How many bytes of a part end up in its buffer when the body brings `got`. */
  function Came(content: Bytes, span: Span, got: nat): (n: nat)
    ensures n <= got && n <= span.len && span.off + n <= Max(span.off, |content|)
  {
    Min(Min(got, span.len), Max(0, |content| - span.off))
  }

  /** The buffer of a part: what came, and zeros behind it. */
  function Filled(content: Bytes, span: Span, got: nat): (buf: Bytes)
    ensures |buf| == span.len
  {
    var n := Came(content, span, got);
    (if n == 0 then [] else content[span.off..span.off + n]) + seq(span.len - n, _ => 0)
  }

  /** The result of fetching a part: only a buffer that was filled is good. */
  function Fetched(content: Bytes, span: Span, got: nat, error: Option<Error>): (r: Result)
    ensures r.Good? <==> error.None? && Came(content, span, got) == span.len
    ensures r.Good? && span.len > 0 ==>
      span.off + span.len <= |content| && r.buf == content[span.off..span.off + span.len]
  {
    if error.Some? then Bad(error.value)
    else if Came(content, span, got) < span.len then Bad(Other(0))
    else Good(Filled(content, span, got))
  }

  /** Steps of the producer and the fetches. */
  function NextBehind(c: Setup, s: State, e: Event): State {
    var size := |c.content|;
    match e
    case SendSlot =>
      if s.producer == AtSlots && s.off < size && |s.slots| < c.conc then
        s.(producer := AtToken, slots := s.slots + [|s.jobs|],
           jobs := s.jobs + [Job(Span(s.off, Max(0, Min(c.part, size - s.off))), Waiting, None)])
      else s
    case TakeToken =>
      if s.producer == AtToken && s.tokens < c.conc && s.jobs != [] then
        var last := |s.jobs| - 1;
        s.(producer := AtSlots, tokens := s.tokens + 1, off := s.off + c.part,
           jobs := s.jobs[last := s.jobs[last].(stage := Running)])
      else s
    case LoopEnds =>
      if s.producer == AtSlots && s.off >= size then s.(producer := Returned) else s
    case ProducerGivesUp =>
      if Done(s) && (s.producer == AtToken || (s.producer == AtSlots && s.off < size))
      then s.(producer := Returned) else s
    case FetchEnds(i, got, error) =>
      if i < |s.jobs| && s.jobs[i].stage == Running then
        s.(jobs := s.jobs[i := s.jobs[i].(stage := Sent, slot := Some(Fetched(c.content, s.jobs[i].span, got, error)))])
      else s
    case GiveToken(i) =>
      if i < |s.jobs| && s.jobs[i].stage == Sent && s.tokens > 0 then
        s.(jobs := s.jobs[i := s.jobs[i].(stage := Finished)], tokens := s.tokens - 1)
      else s
    case _ => s
  }

  /** What the reader does with a received result. `whole` is the error of the single-stream request, if it
      is made and fails. */
  function Received(s: State, r: Result, whole: Option<Error>): (t: State)
    ensures t == s.(reader := t.reader, cur := t.cur, stopped := t.stopped)
    ensures (s.stopped ==> t.stopped) && (t.stopped && !s.stopped ==> t.reader.Whole? || t.reader.Ended?)
    ensures !t.reader.Awaiting? && (t.reader.Ready? <==> r.Good?)
  {
    match r
    case Good(buf) => s.(reader := Ready, cur := buf)
    case Bad(error) =>
      if Done(s) then s.(reader := Ended(Some(Cancelled)))
      else if s.consumed == 0 && error != NotFound then
        s.(stopped := true, reader := if whole.Some? then Ended(whole) else Whole(0))
      else s.(stopped := true, reader := Ended(Some(error)))
  }

  /** Steps of the goroutine that calls Read, over and over, up to its first error. */
  function NextReader(c: Setup, s: State, e: Event): State {
    match e
    case TakeSlot =>
      if s.reader.Ready? && s.cur == [] && s.slots != [] then
        s.(reader := Awaiting(s.slots[0]), slots := s.slots[1..])
      else s
    case SeeClosed =>
      if s.reader.Ready? && s.cur == [] && s.slots == [] && s.producer == Returned then
        s.(reader := Ended(None))
      else s
    case Receive(whole) =>
      if s.reader.Awaiting? && s.reader.i < |s.jobs| && s.jobs[s.reader.i].slot.Some? then
        var i := s.reader.i;
        Received(s.(jobs := s.jobs[i := s.jobs[i].(slot := None)]), s.jobs[i].slot.value, whole)
      else s
    case SeeCancelled =>
      if s.reader.Awaiting? && Done(s) then s.(reader := Ended(Some(Cancelled))) else s
    case Deliver(n) =>
      if s.reader.Ready? && s.cur != [] && n <= |s.cur| then
        s.(cur := s.cur[n..], consumed := s.consumed + n, delivered := s.delivered + s.cur[..n])
      else s
    case DeliverWhole(n, end, error) =>
      if s.reader.Whole? && s.reader.pos + n <= |c.content| && (end ==> s.reader.pos + n == |c.content|) then
        s.(reader := if end then Ended(None) else if error.Some? then Ended(error) else Whole(s.reader.pos + n),
           delivered := s.delivered + c.content[s.reader.pos..s.reader.pos + n])
      else s
    case _ => s
  }

  predicate ByReader(e: Event) {
    e.TakeSlot? || e.SeeClosed? || e.Receive? || e.SeeCancelled? || e.Deliver? || e.DeliverWhole?
  }

  function Next(c: Setup, s: State, e: Event): State {
    if e.Abandon? then s.(abandoned := true) else if ByReader(e) then NextReader(c, s, e) else NextBehind(c, s, e)
  }

  function Run(c: Setup, s: State, es: seq<Event>): State
    decreases |es|
  {
    if es == [] then s else Run(c, Next(c, s, es[0]), es[1..])
  }

  /* ---------- Invariants ---------- */

  function All(c: Setup): seq<Span> {
    Spans(|c.content|, c.part, 0)
  }

  /** Where part `k` starts; the end of the object after the last part. */
  function Front(c: Setup, k: int): (f: nat)
    ensures f <= |c.content|
  {
    if 0 <= k < |All(c)| then SpanAt(|c.content|, c.part, 0, k); All(c)[k].off else |c.content|
  }

  lemma FrontEnd(c: Setup)
    ensures Front(c, |All(c)|) == |c.content|
  {
  }

  lemma FrontStep(c: Setup, k: nat)
    requires k < |All(c)|
    ensures All(c)[k].len > 0 && Front(c, k) + All(c)[k].len == Front(c, k + 1) <= |c.content|
    ensures Front(c, k) == 0 <==> k == 0
  {
    SpanAt(|c.content|, c.part, 0, k);
    Gap(k, 0, c.part);
    if k + 1 < |All(c)| {
      SpanAt(|c.content|, c.part, 0, k + 1);
    } else {
      LastPart(|c.content|, c.part, 0, k);
    }
  }

  lemma {:induction false} LastPart(size: nat, part: nat, off: nat, k: nat)
    requires part > 0 && k + 1 == |Spans(size, part, off)|
    ensures Spans(size, part, off)[k].off + Spans(size, part, off)[k].len == size
    decreases k
  {
    if k > 0 {
      LastPart(size, part, off + part, k - 1);
    }
  }

  /** How many channels the reader has taken out of the queue. */
  function Taken(s: State): int {
    |s.jobs| - |s.slots|
  }

  function SpanOf(j: Job): Span {
    j.span
  }

  /** The parts made so far and the parts to come are the parts of the object. The producer leaves its loop
      early only because of a cancellation. */
  ghost predicate Cut(c: Setup, s: State) {
    var size := |c.content|;
    match s.producer
    case AtSlots => SpansOf(s.jobs, SpanOf) + Spans(size, c.part, s.off) == All(c)
    case AtToken =>
      s.jobs != [] && s.off < size && SpansOf(s.jobs, SpanOf) + Spans(size, c.part, s.off + c.part) == All(c)
    case Returned => SpansOf(s.jobs, SpanOf) <= All(c) && (!Done(s) ==> SpansOf(s.jobs, SpanOf) == All(c))
  }

  /** The queue holds exactly the channels not yet taken, in order. */
  ghost predicate Queue(c: Setup, s: State) {
    && |s.slots| <= c.conc
    && |s.slots| <= |s.jobs|
    && (forall j :: 0 <= j < |s.slots| ==> s.slots[j] == Taken(s) + j)
    && (s.reader.Awaiting? ==> s.reader.i == Taken(s) - 1)
  }

  predicate Over(j: Job) {
    j.stage == Sent || j.stage == Finished
  }

  /** Whether the result of part `k` is still to be received. */
  predicate Unread(s: State, k: int) {
    k >= Taken(s) || (s.reader.Awaiting? && s.reader.i == k)
  }

  /** A result in a channel is the object's bytes or an error. A fetch that is over has left a result for the
      reader or been received; only the last part may wait for its token. */
  ghost predicate JobOk(c: Setup, s: State, k: nat)
    requires k < |s.jobs|
  {
    var j := s.jobs[k];
    && j.span.len > 0
    && (j.slot.Some? ==> Over(j))
    && (j.slot.Some? && j.slot.value.Good? ==>
      j.span.off + j.span.len <= |c.content| && j.slot.value.buf == c.content[j.span.off..j.span.off + j.span.len])
    && (Over(j) && Unread(s, k) ==> j.slot.Some?)
    && (!Over(j) && (s.reader.Ready? || s.reader.Awaiting?) ==> Unread(s, k))
    && (j.stage == Waiting ==> k == |s.jobs| - 1 && (s.producer == AtToken || (s.producer == Returned && Done(s))))
    && (s.producer == AtToken && k == |s.jobs| - 1 ==> j.stage == Waiting)
  }

  ghost predicate Jobs(c: Setup, s: State) {
    forall k: nat :: k < |s.jobs| ==> JobOk(c, s, k)
  }

  /** What the caller has received is the object up to the reader's position. Nothing is cancelled by the
      reader itself while it reads parts. */
  ghost predicate Position(c: Setup, s: State) {
    match s.reader
    case Ready => s.delivered + s.cur == c.content[..Front(c, Taken(s))] && s.consumed == |s.delivered| && !s.stopped
    case Awaiting(i) =>
      s.delivered == c.content[..Front(c, i)] && s.cur == [] && s.consumed == |s.delivered| && !s.stopped
    case Whole(pos) => pos <= |c.content| && s.delivered == c.content[..pos] && s.stopped
    case Ended(error) =>
      && s.delivered <= c.content
      && (error.Some? ==> Done(s))
      && (error.None? && s.stopped ==> s.delivered == c.content)
      && (error.None? && !s.stopped ==> s.producer == Returned && s.delivered == c.content[..Front(c, |s.jobs|)])
  }

  ghost predicate Inv(c: Setup, s: State) {
    Cut(c, s) && Queue(c, s) && Jobs(c, s) && Position(c, s)
  }

  lemma CutStep(c: Setup, s: State, e: Event)
    requires Cut(c, s)
    ensures Cut(c, Next(c, s, e))
  {
    var t := Next(c, s, e);
    hide Received, Fetched;
    if e.SendSlot? {
      if t != s {
        var j := t.jobs[|s.jobs|];
        assert SpansOf(t.jobs, SpanOf) == SpansOf(s.jobs, SpanOf) + [j.span];
        assert Spans(|c.content|, c.part, s.off) == [j.span] + Spans(|c.content|, c.part, s.off + c.part);
      }
    } else {
      SpansKept(c, s, e);
    }
  }

  lemma SpansKept(c: Setup, s: State, e: Event)
    requires e != SendSlot
    ensures SpansOf(Next(c, s, e).jobs, SpanOf) == SpansOf(s.jobs, SpanOf)
  {
    var t := Next(c, s, e);
    assert |t.jobs| == |s.jobs|;
    assert forall i :: 0 <= i < |s.jobs| ==> t.jobs[i].span == s.jobs[i].span;
  }

  lemma QueueStep(c: Setup, s: State, e: Event)
    requires Queue(c, s)
    ensures Queue(c, Next(c, s, e))
  {
  }

  lemma JobsProducer(c: Setup, s: State, e: Event, k: nat)
    requires e.SendSlot? || e.TakeToken? || e.LoopEnds? || e.ProducerGivesUp?
    requires Queue(c, s) && Jobs(c, s) && k < |NextBehind(c, s, e).jobs|
    ensures JobOk(c, NextBehind(c, s, e), k)
  {
    if k < |s.jobs| {
      assert JobOk(c, s, k);
    }
  }

  lemma JobsFetch(c: Setup, s: State, e: Event, k: nat)
    requires e.FetchEnds? || e.GiveToken?
    requires Jobs(c, s) && k < |NextBehind(c, s, e).jobs|
    ensures JobOk(c, NextBehind(c, s, e), k)
  {
    hide Fetched, Front, All;
    assert JobOk(c, s, k);
  }

  lemma JobsReceive(c: Setup, s: State, e: Event, k: nat)
    requires e.Receive? && Queue(c, s) && Jobs(c, s) && k < |NextReader(c, s, e).jobs|
    ensures JobOk(c, NextReader(c, s, e), k)
  {
    hide Received, Front, All;
    assert JobOk(c, s, k);
  }

  lemma JobsReader(c: Setup, s: State, e: Event, k: nat)
    requires !e.Receive? && Queue(c, s) && Jobs(c, s) && k < |NextReader(c, s, e).jobs|
    ensures JobOk(c, NextReader(c, s, e), k)
  {
    hide Received, Front, All;
    assert JobOk(c, s, k);
  }

  lemma JobsStep(c: Setup, s: State, e: Event)
    requires Queue(c, s) && Jobs(c, s)
    ensures Jobs(c, Next(c, s, e))
  {
    var t := Next(c, s, e);
    hide NextBehind, NextReader;
    forall k: nat | k < |t.jobs|
      ensures JobOk(c, t, k)
    {
      if e.Abandon? {
        assert JobOk(c, s, k);
      } else if e.Receive? {
        JobsReceive(c, s, e, k);
      } else if ByReader(e) {
        JobsReader(c, s, e, k);
      } else if e.FetchEnds? || e.GiveToken? {
        JobsFetch(c, s, e, k);
      } else {
        JobsProducer(c, s, e, k);
      }
    }
  }

  lemma PositionBehind(c: Setup, s: State, e: Event)
    requires Queue(c, s) && Position(c, s)
    ensures Position(c, NextBehind(c, s, e))
  {
    hide Front, Fetched;
  }

  /** A good result is what follows the bytes delivered so far. */
  lemma GoodFollows(c: Setup, s: State)
    requires Cut(c, s) && Queue(c, s) && Jobs(c, s) && Position(c, s)
    requires s.reader.Awaiting? && s.reader.i < |s.jobs| && s.jobs[s.reader.i].slot.Some?
    ensures var i := s.reader.i;
            && Taken(s) == i + 1 && s.delivered <= c.content
            && (s.jobs[i].slot.value.Good? ==> s.delivered + s.jobs[i].slot.value.buf == c.content[..Front(c, i + 1)])
  {
    var i := s.reader.i;
    assert JobOk(c, s, i);
    assert SpansOf(s.jobs, SpanOf)[i] == s.jobs[i].span;
    FrontStep(c, i);
  }

  lemma PositionReceive(c: Setup, s: State, e: Event)
    requires Inv(c, s) && e.Receive?
    ensures Position(c, NextReader(c, s, e))
  {
    if NextReader(c, s, e) != s {
      GoodFollows(c, s);
      hide Inv, Cut, Queue, Jobs, Front;
    }
  }

  lemma PositionReader(c: Setup, s: State, e: Event)
    requires Inv(c, s) && !e.Receive?
    ensures Position(c, NextReader(c, s, e))
  {
    hide Jobs, Received, Cut, Front;
  }

  lemma PositionStep(c: Setup, s: State, e: Event)
    requires Inv(c, s)
    ensures Position(c, Next(c, s, e))
  {
    if e.Abandon? {
    } else if !ByReader(e) {
      PositionBehind(c, s, e);
    } else if e.Receive? {
      PositionReceive(c, s, e);
    } else {
      PositionReader(c, s, e);
    }
  }

  lemma StartInv(c: Setup)
    ensures Inv(c, Start())
  {
    assert SpansOf([], SpanOf) == [];
    if All(c) != [] {
      FrontStep(c, 0);
    }
  }

  /** Main result: in every interleaving the bytes returned before the first error are a prefix of the object,
      and if the caller has not cancelled, the end of file means every byte was delivered, once. */
  lemma ReaderDeliversObject(c: Setup, es: seq<Event>)
    ensures var s := Run(c, Start(), es);
            s.delivered <= c.content && (s.reader == Ended(None) && !s.abandoned ==> s.delivered == c.content)
  {
    StartInv(c);
    RunBounded(c, Start(), es);
    PrefixAndEnd(c, Run(c, Start(), es));
  }

  lemma PrefixAndEnd(c: Setup, s: State)
    requires Cut(c, s) && Position(c, s) && Queue(c, s)
    ensures s.delivered <= c.content && (s.reader == Ended(None) && !s.abandoned ==> s.delivered == c.content)
  {
    hide Front, All;
    if s.reader.Awaiting? || s.reader.Ready? {
      assert s.delivered <= s.delivered + s.cur;
    }
    if s.reader == Ended(None) && !Done(s) {
      FrontEnd(c);
    }
  }

  /** With cancellation by the caller allowed, an end of file of the ranged path is truthful exactly when the
      producer had made every part. */
  lemma EofIsTruthfulExactlyWhen(c: Setup, es: seq<Event>)
    requires Run(c, Start(), es).reader == Ended(None) && !Run(c, Start(), es).stopped
    ensures var s := Run(c, Start(), es);
            s.delivered == c.content <==> |s.jobs| == |All(c)|
  {
    StartInv(c);
    RunBounded(c, Start(), es);
    EofIsTruthful(c, Run(c, Start(), es));
  }

  lemma EofIsTruthful(c: Setup, s: State)
    requires Cut(c, s) && Position(c, s) && s.reader == Ended(None) && !s.stopped
    ensures s.delivered == c.content <==> |s.jobs| == |All(c)|
  {
    assert |SpansOf(s.jobs, SpanOf)| <= |All(c)|;
    if |s.jobs| < |All(c)| {
      FrontStep(c, |s.jobs|);
    }
    FrontEnd(c);
    hide All, Front;
  }

  /** The failing case: a cancelled caller may read a clean end of file before a single byte. */
  lemma AbandonedReaderReportsEof(c: Setup)
    requires c.content != []
    ensures var s := Run(c, Start(), [Abandon, ProducerGivesUp, SeeClosed]);
            s.reader == Ended(None) && s.delivered == []
  {
    var s1 := Next(c, Start(), Abandon);
    var s2 := Next(c, s1, ProducerGivesUp);
    assert [Abandon, ProducerGivesUp, SeeClosed][1..] == [ProducerGivesUp, SeeClosed];
    assert [ProducerGivesUp, SeeClosed][1..] == [SeeClosed];
    assert [SeeClosed][1..] == [];
    assert Run(c, s2, [SeeClosed]) == Next(c, s2, SeeClosed);
    assert Run(c, s1, [ProducerGivesUp, SeeClosed]) == Next(c, s2, SeeClosed);
  }

  /** Every end of file means that the whole object was delivered. */
  ghost predicate EofIsWhole(c: Setup, mayCancel: bool) {
    forall es :: (mayCancel || Abandon !in es) && Run(c, Start(), es).reader == Ended(None) ==>
      Run(c, Start(), es).delivered == c.content
  }

  lemma {:induction false} NeverAbandoned(c: Setup, s: State, es: seq<Event>)
    requires !s.abandoned && Abandon !in es
    ensures !Run(c, s, es).abandoned
    decreases |es|
  {
    if es != [] {
      assert es[0] in es;
      KeepsGoing(c, s, es[0]);
      hide Next;
      NeverAbandoned(c, Next(c, s, es[0]), es[1..]);
    }
  }

  lemma KeepsGoing(c: Setup, s: State, e: Event)
    requires e != Abandon
    ensures Next(c, s, e).abandoned == s.abandoned
  {
    hide Fetched;
  }

  /** Main result, for a caller to check beforehand: end of file always means the whole object if and only if the
      caller never cancels or the object is empty. */
  lemma EofIsWholeExactlyWhen(c: Setup, mayCancel: bool)
    ensures EofIsWhole(c, mayCancel) <==> !mayCancel || c.content == []
  {
    if !mayCancel || c.content == [] {
      forall es | (mayCancel || Abandon !in es) && Run(c, Start(), es).reader == Ended(None)
        ensures Run(c, Start(), es).delivered == c.content
      {
        ReaderDeliversObject(c, es);
        if !mayCancel {
          NeverAbandoned(c, Start(), es);
        }
      }
    } else {
      AbandonedReaderReportsEof(c);
      hide Run;
      assert Run(c, Start(), [Abandon, ProducerGivesUp, SeeClosed]).delivered != c.content;
    }
  }

  /** While the reader waits, it has consumed nothing exactly when it waits for the part at offset 0. */
  lemma AtFirstPart(c: Setup, s: State)
    requires Cut(c, s) && Position(c, s) && Queue(c, s) && s.reader.Awaiting? && s.reader.i < |s.jobs|
    ensures s.consumed == 0 <==> s.jobs[s.reader.i].span.off == 0
  {
    var i := s.reader.i;
    assert SpansOf(s.jobs, SpanOf)[i] == s.jobs[i].span;
    assert SpansOf(s.jobs, SpanOf)[i] == All(c)[i];
  }

  /** The part the reader waits for has failed, and no context is cancelled. */
  predicate AwaitsFailure(s: State) {
    && s.reader.Awaiting? && s.reader.i < |s.jobs| && !Done(s)
    && s.jobs[s.reader.i].slot.Some? && s.jobs[s.reader.i].slot.value.Bad?
  }

  ghost predicate AnsweredByPosition(c: Setup, s: State)
    requires AwaitsFailure(s)
  {
    var j := s.jobs[s.reader.i];
    var t := Next(c, s, Receive(None));
    && (t.reader.Whole? <==> j.span.off == 0 && j.slot.value.error != NotFound)
    && (!t.reader.Whole? ==> t.reader == Ended(Some(j.slot.value.error)))
  }

  lemma AnswerByPosition(c: Setup, s: State)
    requires Inv(c, s) && AwaitsFailure(s)
    ensures AnsweredByPosition(c, s)
  {
    AtFirstPart(c, s);
    hide Inv;
  }

  /** A failed part is answered by the single stream exactly when it is the one at offset 0 and the object is
      not missing; any other failure is the reader's error. */
  lemma FallbackExactlyForFirstPart(c: Setup, es: seq<Event>)
    requires AwaitsFailure(Run(c, Start(), es))
    ensures AnsweredByPosition(c, Run(c, Start(), es))
  {
    StartInv(c);
    RunBounded(c, Start(), es);
    AnswerByPosition(c, Run(c, Start(), es));
  }

  lemma FallbackOnlyOnReceive(c: Setup, s: State, e: Event)
    requires !s.reader.Whole? && Next(c, s, e).reader.Whole?
    ensures e.Receive? && s.reader.Awaiting? && !Done(s) && Next(c, s, e) == Next(c, s, Receive(None))
  {
  }

  lemma {:induction false} RunSnoc(c: Setup, s: State, es: seq<Event>, e: Event)
    ensures Run(c, s, es + [e]) == Next(c, Run(c, s, es), e)
    decreases |es|
  {
    if es == [] {
      assert [] + [e] == [e] && [e][1..] == [];
    } else {
      assert (es + [e])[1..] == es[1..] + [e];
      RunSnoc(c, Next(c, s, es[0]), es[1..], e);
    }
  }

  /** The part at offset 0 has failed, not for a missing object, and the reader waits for it. */
  predicate FirstPartFailed(s: State) {
    AwaitsFailure(s) && s.jobs[s.reader.i].span.off == 0 && s.jobs[s.reader.i].slot.value.error != NotFound
  }

  lemma WholeFollowsFailure(c: Setup, s: State, e: Event)
    requires Inv(c, s) && !s.reader.Whole? && Next(c, s, e).reader.Whole?
    ensures FirstPartFailed(s)
  {
    FallbackOnlyOnReceive(c, s, e);
    assert AwaitsFailure(s);
    AnswerByPosition(c, s);
  }

  /** The single stream is read only after the part at offset 0 failed: some state on the way waited for it. */
  lemma {:induction false} FallbackHasCause(c: Setup, es: seq<Event>) returns (k: nat)
    requires Run(c, Start(), es).reader.Whole?
    ensures k < |es| && FirstPartFailed(Run(c, Start(), es[..k]))
    decreases |es|
  {
    k := 0;
    if es != [] {
      var n := |es| - 1;
      assert es[..n] + [es[n]] == es;
      RunSnoc(c, Start(), es[..n], es[n]);
      if Run(c, Start(), es[..n]).reader.Whole? {
        k := FallbackHasCause(c, es[..n]);
        assert es[..n][..k] == es[..k];
      } else {
        StartInv(c);
        RunBounded(c, Start(), es[..n]);
        WholeFollowsFailure(c, Run(c, Start(), es[..n]), es[n]);
        k := n;
      }
    }
  }

  /* ---------- Bounds ---------- */

  predicate Holding(j: Job) {
    j.stage == Running || j.stage == Sent
  }

  function Token(j: Job): nat {
    One(Holding(j))
  }

  function Held(jobs: seq<Job>): nat {
    Total(jobs, Token)
  }

  /** Steps left in a fetch, and in all of them. */
  function Steps(j: Job): nat {
    match j.stage case Waiting => 3 case Running => 2 case Sent => 1 case Finished => 0
  }

  function Work(jobs: seq<Job>): nat {
    Total(jobs, Steps)
  }

  /** The job an event changes the stage or the channel of. */
  function Concerns(s: State, e: Event): int {
    match e
    case TakeToken => |s.jobs| - 1
    case FetchEnds(i, _, _) => i
    case GiveToken(i) => i
    case Receive(_) => if s.reader.Awaiting? then s.reader.i else -1
    case _ => -1
  }

  lemma OneJobMoves(c: Setup, s: State, e: Event)
    requires e != SendSlot
    ensures var i, t := Concerns(s, e), Next(c, s, e);
            if 0 <= i < |s.jobs| then |t.jobs| == |s.jobs| && t.jobs == s.jobs[i := t.jobs[i]] else t.jobs == s.jobs
  {
    hide Fetched;
  }

  /** Every token taken is held by one running fetch, and there are at most `Concurrency`. */
  ghost predicate Bounded(c: Setup, s: State) {
    Held(s.jobs) == s.tokens <= c.conc
  }

  lemma BoundedStep(c: Setup, s: State, e: Event)
    requires Bounded(c, s) && Cut(c, s) && Jobs(c, s)
    ensures Bounded(c, Next(c, s, e))
  {
    var i, t := Concerns(s, e), Next(c, s, e);
    if e.SendSlot? {
      SendBounded(c, s);
    } else if e.TakeToken? {
      TakeBounded(c, s);
    } else {
      OneJobMoves(c, s, e);
      hide Cut, Jobs, Total, Received, Fetched, Front;
      if 0 <= i < |s.jobs| {
        TotalUpdate(s.jobs, i, t.jobs[i], Token);
      }
    }
  }

  lemma TakeBounded(c: Setup, s: State)
    requires Bounded(c, s) && Cut(c, s) && Jobs(c, s)
    ensures Bounded(c, NextBehind(c, s, TakeToken))
  {
    if s.producer == AtToken {
      assert JobOk(c, s, |s.jobs| - 1);
      hide Cut, Jobs, Total;
      TotalUpdate(s.jobs, |s.jobs| - 1, s.jobs[|s.jobs| - 1].(stage := Running), Token);
    }
  }

  lemma SendBounded(c: Setup, s: State)
    requires Bounded(c, s)
    ensures Bounded(c, NextBehind(c, s, SendSlot))
  {
    var t := NextBehind(c, s, SendSlot);
    hide Total;
    if t != s {
      TotalAppend(s.jobs, t.jobs[|s.jobs|], Token);
    }
  }

  lemma Keeps(c: Setup, s: State, e: Event)
    requires Inv(c, s)
    ensures Inv(c, Next(c, s, e)) && (Bounded(c, s) ==> Bounded(c, Next(c, s, e)))
  {
    hide Cut, Queue, Jobs, Position, Next, Bounded;
    CutStep(c, s, e);
    QueueStep(c, s, e);
    JobsStep(c, s, e);
    PositionStep(c, s, e);
    if Bounded(c, s) {
      BoundedStep(c, s, e);
    }
  }

  lemma {:induction false} RunBounded(c: Setup, s: State, es: seq<Event>)
    requires Inv(c, s)
    ensures Inv(c, Run(c, s, es)) && (Bounded(c, s) ==> Bounded(c, Run(c, s, es)))
    decreases |es|
  {
    if es != [] {
      hide Inv, Next, Bounded;
      Keeps(c, s, es[0]);
      RunBounded(c, Next(c, s, es[0]), es[1..]);
    }
  }

  /** The parts whose fetch was started and whose bytes are not all delivered. */
  function Outstanding(s: State): set<int> {
    set k | 0 <= k < |s.jobs| && s.jobs[k].stage != Waiting
      && (k >= Taken(s) || (k == Taken(s) - 1 && (s.reader.Awaiting? || s.cur != [])))
  }

  lemma {:induction false} IntervalSize(xs: set<int>, lo: int, hi: int)
    requires lo <= hi && forall x :: x in xs ==> lo <= x < hi
    ensures |xs| <= hi - lo
    decreases hi - lo
  {
    if lo < hi {
      IntervalSize(xs - {lo}, lo + 1, hi);
    } else {
      assert xs == {};
    }
  }

  /** In every reachable state at most `Concurrency` fetches run and at most `Concurrency + 1` parts are
      buffered, in flight or being read. */
  lemma PipelineIsBounded(c: Setup, es: seq<Event>)
    ensures var s := Run(c, Start(), es);
            Held(s.jobs) <= c.conc && |s.slots| <= c.conc && |Outstanding(s)| <= c.conc + 1
  {
    StartInv(c);
    RunBounded(c, Start(), es);
    var s := Run(c, Start(), es);
    IntervalSize(Outstanding(s), Taken(s) - 1, |s.jobs|);
  }

  /** Some run brings `n` more fetches to work. */
  lemma {:induction false} PipelineFills(c: Setup, s: State, n: nat) returns (es: seq<Event>)
    requires s.producer == AtSlots && s.tokens + n <= c.conc && |s.slots| + n <= c.conc
    requires n <= |Spans(|c.content|, c.part, s.off)|
    ensures Held(Run(c, s, es).jobs) == Held(s.jobs) + n
    decreases n
  {
    es := [];
    if n > 0 {
      var s1 := Next(c, s, SendSlot);
      var s2 := Next(c, s1, TakeToken);
      TotalAppend(s.jobs, s2.jobs[|s.jobs|], Token);
      assert s2.jobs == s.jobs + [s2.jobs[|s.jobs|]];
      var rest := PipelineFills(c, s2, n - 1);
      es := [SendSlot, TakeToken] + rest;
      assert es[1..] == [TakeToken] + rest && es[1..][1..] == rest;
      hide Next, Total, Spans;
    }
  }

  /** The bound is exact: with parts enough, `Concurrency` fetches can run at once. */
  lemma PipelineIsUsed(c: Setup) returns (es: seq<Event>)
    requires c.conc <= |All(c)|
    ensures Held(Run(c, Start(), es).jobs) == c.conc
  {
    es := PipelineFills(c, Start(), c.conc);
  }

  /* ---------- Progress ---------- */

  function Measure(c: Setup, s: State): int {
    6 * (|All(c)| - |s.jobs|) + Work(s.jobs) + 2 * (|All(c)| - Taken(s)) + |c.content| - |s.delivered|
    + (match s.producer case AtToken => 2 case AtSlots => 1 case Returned => 0)
    + (match s.reader case Awaiting(_) => 2 case Ready => 1 case Whole(_) => 1 case Ended(_) => 0)
  }

  lemma MeasureBound(c: Setup, s: State)
    requires Inv(c, s)
    ensures Measure(c, s) >= 0
  {
  }

  lemma MeasureSend(c: Setup, s: State)
    requires NextBehind(c, s, SendSlot) != s
    ensures Measure(c, NextBehind(c, s, SendSlot)) < Measure(c, s)
  {
    var t := NextBehind(c, s, SendSlot);
    TotalAppend(s.jobs, t.jobs[|s.jobs|], Steps);
    hide Total, All;
  }

  lemma MeasureTake(c: Setup, s: State)
    requires Jobs(c, s) && NextBehind(c, s, TakeToken) != s
    ensures Measure(c, NextBehind(c, s, TakeToken)) < Measure(c, s)
  {
    var t := NextBehind(c, s, TakeToken);
    assert JobOk(c, s, |s.jobs| - 1);
    TotalUpdate(s.jobs, |s.jobs| - 1, t.jobs[|s.jobs| - 1], Steps);
    hide Total, Jobs, All;
  }

  lemma MeasureProducer(c: Setup, s: State, e: Event)
    requires e.SendSlot? || e.TakeToken? || e.LoopEnds? || e.ProducerGivesUp?
    requires Jobs(c, s) && NextBehind(c, s, e) != s
    ensures Measure(c, NextBehind(c, s, e)) < Measure(c, s)
  {
    hide Total, Jobs, All;
    if e.SendSlot? {
      MeasureSend(c, s);
    } else if e.TakeToken? {
      MeasureTake(c, s);
    }
  }

  lemma MeasureFetch(c: Setup, s: State, e: Event)
    requires e.FetchEnds? || e.GiveToken?
    requires NextBehind(c, s, e) != s
    ensures Measure(c, NextBehind(c, s, e)) < Measure(c, s)
  {
    var i, t := Concerns(s, e), NextBehind(c, s, e);
    hide Total, Fetched, All;
    TotalUpdate(s.jobs, i, t.jobs[i], Steps);
  }

  lemma MeasureReader(c: Setup, s: State, e: Event)
    requires Position(c, s) && NextReader(c, s, e) != s
    ensures Measure(c, NextReader(c, s, e)) < Measure(c, s)
  {
    var t := NextReader(c, s, e);
    hide Total, Received, All, Front;
    if e.Receive? {
      TotalUpdate(s.jobs, s.reader.i, t.jobs[s.reader.i], Steps);
    }
  }

  lemma MeasureDrops(c: Setup, s: State, e: Event)
    requires Inv(c, s) && !e.Abandon? && Next(c, s, e) != s
    ensures Measure(c, Next(c, s, e)) < Measure(c, s)
  {
    if ByReader(e) {
      MeasureReader(c, s, e);
    } else if e.FetchEnds? || e.GiveToken? {
      MeasureFetch(c, s, e);
    } else {
      MeasureProducer(c, s, e);
    }
  }

  /** As long as Read has not returned an error some step is possible that changes the state: a reader that
      keeps reading and fetches that end are never stuck. */
  lemma NotStuck(c: Setup, s: State) returns (e: Event)
    requires Inv(c, s) && Bounded(c, s) && !s.reader.Ended?
    ensures !e.Abandon? && Next(c, s, e) != s
  {
    match s.reader
    case Whole(pos) =>
      e := DeliverWhole(|c.content| - pos, true, None);
    case Ready =>
      e := ReadyMoves(c, s);
    case Awaiting(i) =>
      e := ResultComes(c, s);
  }

  lemma ReadyMoves(c: Setup, s: State) returns (e: Event)
    requires Cut(c, s) && Queue(c, s) && Jobs(c, s) && s.reader.Ready?
    ensures !e.Abandon? && Next(c, s, e) != s
  {
    assert s.jobs != [] ==> JobOk(c, s, |s.jobs| - 1);
    hide Jobs, All;
    e := if s.cur != [] then Deliver(1) else if s.slots != [] then TakeSlot
         else if s.producer == Returned then SeeClosed
         else if s.off < |c.content| then SendSlot else LoopEnds;
  }

  lemma ResultComes(c: Setup, s: State) returns (e: Event)
    requires Cut(c, s) && Queue(c, s) && Jobs(c, s) && Bounded(c, s) && s.reader.Awaiting?
    ensures !e.Abandon? && Next(c, s, e) != s
  {
    var i := s.reader.i;
    assert JobOk(c, s, i);
    hide Jobs, All;
    if s.jobs[i].stage == Running {
      e := FetchEnds(i, 0, None);
    } else if s.jobs[i].stage != Waiting {
      e := Receive(None);
    } else if s.producer == Returned {
      e := SeeCancelled;
    } else {
      e := TokenMoves(c, s);
    }
  }

  lemma TokenMoves(c: Setup, s: State) returns (e: Event)
    requires Bounded(c, s) && Cut(c, s) && s.producer == AtToken
    ensures !e.Abandon? && Next(c, s, e) != s
  {
    if s.tokens < c.conc {
      e := TakeToken;
    } else {
      var k := TotalPositive(s.jobs, Token);
      e := if s.jobs[k].stage == Running then FetchEnds(k, 0, None) else GiveToken(k);
    }
  }

  ghost predicate Moves(c: Setup, s: State, es: seq<Event>)
    decreases |es|
  {
    es != [] ==> !es[0].Abandon? && Next(c, s, es[0]) != s && Moves(c, Next(c, s, es[0]), es[1..])
  }

  /** Any reachable state is led to the reader's first error or end of file, and every way there is short:
      a run whose steps all change the state is at most `Measure` steps long. */
  lemma {:induction false} RunsEnd(c: Setup, s: State, es: seq<Event>)
    requires Inv(c, s) && Bounded(c, s) && Moves(c, s, es)
    ensures |es| <= Measure(c, s)
    decreases |es|
  {
    MeasureBound(c, s);
    if es != [] {
      Keeps(c, s, es[0]);
      MeasureDrops(c, s, es[0]);
      hide Inv, Next, Measure, Bounded;
      RunsEnd(c, Next(c, s, es[0]), es[1..]);
    }
  }

  lemma {:induction false} CanFinish(c: Setup, s: State) returns (es: seq<Event>)
    requires Inv(c, s) && Bounded(c, s)
    ensures Moves(c, s, es) && Run(c, s, es).reader.Ended?
    decreases Max(0, Measure(c, s))
  {
    es := [];
    if !s.reader.Ended? {
      var e := NotStuck(c, s);
      Keeps(c, s, e);
      MeasureDrops(c, s, e);
      MeasureBound(c, s);
      MeasureBound(c, Next(c, s, e));
      hide Inv, Next, Measure, Bounded;
      var rest := CanFinish(c, Next(c, s, e));
      es := [e] + rest;
      assert es[1..] == rest;
    }
  }

  /** No step but the caller's cancellation changes anything any more. */
  ghost predicate AtRest(c: Setup, s: State) {
    forall e: Event :: !e.Abandon? ==> Next(c, s, e) == s
  }

  lemma RestIsEnded(c: Setup, s: State)
    requires Inv(c, s) && Bounded(c, s) && AtRest(c, s)
    ensures s.reader.Ended?
  {
    hide Inv, Bounded, Next;
    if !s.reader.Ended? {
      var e := NotStuck(c, s);
      assert false;
    }
  }

  /** Nothing is left behind: the producer has returned, and every fetch has given its token back. */
  predicate Released(s: State) {
    s.producer == Returned && s.tokens == 0 && forall k :: 0 <= k < |s.jobs| ==> !Holding(s.jobs[k])
  }

  lemma HoldingMoves(c: Setup, s: State, k: nat)
    requires Bounded(c, s) && k < |s.jobs|
    ensures Holding(s.jobs[k]) ==> Next(c, s, FetchEnds(k, 0, None)) != s || Next(c, s, GiveToken(k)) != s
  {
    TotalCovers(s.jobs, k, Token);
    hide Total, Fetched;
    if Holding(s.jobs[k]) {
      var e := if s.jobs[k].stage == Running then FetchEnds(k, 0, None) else GiveToken(k);
      assert Next(c, s, e).jobs[k].stage != s.jobs[k].stage;
    }
  }

  lemma RestIsReleased(c: Setup, s: State)
    requires Inv(c, s) && Bounded(c, s) && AtRest(c, s)
    ensures Released(s)
  {
    RestIsEnded(c, s);
    assert Next(c, s, ProducerGivesUp) == s && Next(c, s, LoopEnds) == s;
    assert s.producer == Returned by { hide Cut, Queue, Jobs, Bounded, AtRest, Front, All; }
    forall k: nat | k < |s.jobs|
      ensures !Holding(s.jobs[k])
    {
      HoldingMoves(c, s, k);
    }
    TotalZero(s.jobs, Token);
  }

  /** Main result: after anything that happened, a reader that keeps reading and fetches that end bring Read to
      its end of file or first error: no run of effective steps is longer than the measure, and one that cannot
      go on has ended, with the producer returned and no fetch at work. */
  lemma ReaderAlwaysEnds(c: Setup, es: seq<Event>, more: seq<Event>)
    requires Moves(c, Run(c, Start(), es), more)
    ensures |more| <= Measure(c, Run(c, Start(), es))
    ensures var t := Run(c, Run(c, Start(), es), more);
            AtRest(c, t) ==> t.reader.Ended? && Released(t)
  {
    StartInv(c);
    RunBounded(c, Start(), es);
    var s := Run(c, Start(), es);
    RunsEnd(c, s, more);
    RunBounded(c, s, more);
    hide Run, Inv, Bounded, Moves, Measure, AtRest;
    if AtRest(c, Run(c, s, more)) {
      RestIsEnded(c, Run(c, s, more));
      RestIsReleased(c, Run(c, s, more));
    }
  }
}
