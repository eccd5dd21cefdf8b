/** The streaming reader as the object its caller holds. Read runs between steps of the producer and the fetches,
    and whatever those do it is a run of the step machine of module OrderedReader. */
module OrderedReaders {
  import opened Objects
  import opened OrderedReader

  /** How a call of Read ends; `Blocked` is a call still blocked when nobody else takes another step. */
  datatype Status = Blocked | Fine | End | Failed(error: Error)

  /** What the single stream answers to one read. */
  datatype Answer = Answer(n: nat, end: bool, error: Option<Error>)

  class ReadCloser {
    const c: Setup
    var pipe: State          // the queue, the parts and the contexts, shared with the other goroutines
    var cur: Bytes
    var consumed: nat
    var fellBack: Option<nat>
    ghost var reader: Reader
    ghost var delivered: Bytes
    ghost var history: seq<Event>

    ghost function View(): State
      reads this
    {
      pipe.(reader := reader, cur := cur, consumed := consumed, delivered := delivered)
    }

    ghost predicate Valid()
      reads this
    {
      && View() == Run(c, Start(), history)
      && (reader.Whole? ==> fellBack == Some(reader.pos))
      && (fellBack.Some? ==> reader.Whole? || reader.Ended?)
    }

    constructor (c: Setup)
      ensures Valid() && this.c == c && View() == Start()
    {
      this.c, pipe, cur, consumed, fellBack := c, Start(), [], 0, None;
      reader, delivered, history := Ready, [], [];
    }

    /** Another goroutine takes a step, or the caller cancels. */
    method Elsewhere(e: Event)
      requires Valid() && !ByReader(e)
      modifies this`pipe, this`history
      ensures Valid() && View() == Next(c, old(View()), e)
    {
      RunSnoc(c, Start(), history, e);
      hide Run, Start, Received, Fetched;
      pipe := if e.Abandon? then pipe.(abandoned := true) else NextBehind(c, pipe, e);
      history := history + [e];
    }

    /** Receives from the queue; `None` when it is closed and empty. */
    method TakeSlot(others: seq<Event>) returns (slot: Option<nat>, rest: seq<Event>, blocked: bool)
      requires Valid() && reader.Ready? && cur == [] && forall e :: e in others ==> !ByReader(e)
      modifies this`pipe, this`history, this`reader
      ensures Valid() && |rest| <= |others| && forall e :: e in rest ==> !ByReader(e)
      ensures blocked ==> reader.Ready?
      ensures !blocked ==> reader == if slot.Some? then Awaiting(slot.value) else Ended(None)
      ensures |rest| == |others| && !blocked && slot.Some? ==> |pipe.slots| < |old(pipe.slots)|
    {
      hide Run, Start, Received, Fetched, NextBehind;
      rest := others;
      while pipe.slots == [] && pipe.producer != Returned
        invariant Valid() && reader.Ready?
        invariant |rest| <= |others| && forall e :: e in rest ==> !ByReader(e)
        invariant |rest| == |others| ==> pipe == old(pipe)
        decreases |rest|
      {
        if rest == [] {
          return None, [], true;
        }
        Elsewhere(rest[0]);
        rest := rest[1..];
      }
      if pipe.slots == [] {
        RunSnoc(c, Start(), history, SeeClosed);
        reader, history := Ended(None), history + [SeeClosed];
        return None, rest, false;
      }
      slot := Some(pipe.slots[0]);
      RunSnoc(c, Start(), history, OrderedReader.TakeSlot);
      pipe := pipe.(slots := pipe.slots[1..]);
      reader, history := Awaiting(slot.value), history + [OrderedReader.TakeSlot];
      return slot, rest, false;
    }

    /** Waits for the result of the part or for the end of the reader's context, which may win a tie. */
    method AwaitResult(i: nat, others: seq<Event>, endWins: bool)
      returns (result: Option<Result>, rest: seq<Event>, blocked: bool)
      requires Valid() && reader == Awaiting(i) && forall e :: e in others ==> !ByReader(e)
      modifies this`pipe, this`history
      ensures Valid() && |rest| <= |others| && forall e :: e in rest ==> !ByReader(e)
      ensures i < |pipe.jobs| && (|rest| == |others| ==> pipe == old(pipe))
      ensures !blocked ==> if result.Some? then pipe.jobs[i].slot == result else Done(pipe)
    {
      rest := others;
      AwaitedPartExists(c, history);
      while pipe.jobs[i].slot.None? && !Done(pipe)
        invariant Valid() && i < |pipe.jobs|
        invariant |rest| <= |others| && forall e :: e in rest ==> !ByReader(e)
        invariant |rest| == |others| ==> pipe == old(pipe)
        decreases |rest|
      {
        if rest == [] {
          return None, [], true;
        }
        Elsewhere(rest[0]);
        AwaitedPartExists(c, history);
        rest := rest[1..];
      }
      result := if Done(pipe) && endWins then None else pipe.jobs[i].slot;
      return result, rest, false;
    }

    /** The reader's context ended while it waited. */
    ghost method GiveUp()
      requires Valid() && reader.Awaiting? && Done(pipe)
      modifies this`reader, this`history
      ensures Valid() && reader == Ended(Some(Cancelled))
    {
      RunSnoc(c, Start(), history, SeeCancelled);
      hide Run;
      reader, history := Ended(Some(Cancelled)), history + [SeeCancelled];
    }

    /** Acts on a received result: a good one is next to deliver, a bad one ends the reader or, before the first
        byte, makes it fall back to a single stream. `whole` is the error of that request, if it fails. */
    method Accept(i: nat, result: Result, whole: Option<Error>) returns (err: Option<Error>)
      requires Valid() && reader == Awaiting(i) && i < |pipe.jobs| && pipe.jobs[i].slot == Some(result)
      modifies this`pipe, this`cur, this`fellBack, this`reader, this`history
      ensures Valid() && View() == Next(c, old(View()), Receive(whole))
      ensures if err.Some? then reader == Ended(err) else reader.Ready? || reader == Whole(0)
      ensures pipe.slots == old(pipe.slots)
    {
      RunSnoc(c, Start(), history, Receive(whole));
      history := history + [Receive(whole)];
      pipe := pipe.(jobs := pipe.jobs[i := pipe.jobs[i].(slot := None)]);
      match result
      case Good(buf) =>
        cur, reader := buf, Ready;
        return None;
      case Bad(error) =>
        if Done(pipe) {
          err := Some(Cancelled);
        } else if consumed == 0 && error != NotFound {
          pipe := pipe.(stopped := true);
          if whole.None? {
            fellBack, reader := Some(0), Whole(0);
            return None;
          }
          err := whole;
        } else {
          pipe, err := pipe.(stopped := true), Some(error);
        }
        reader := Ended(err);
    }

    /** What the single stream answers to a read with a buffer of `room` bytes. */
    method ReadStream(room: nat, answer: Answer) returns (bytes: Bytes, status: Status)
      requires Valid() && reader.Whole?
      modifies this`fellBack, this`reader, this`delivered, this`history
      ensures Valid() && |bytes| <= room && delivered == old(delivered) + bytes
      ensures status == StatusOf(reader) && !reader.Ready?
    {
      var pos := fellBack.value;
      StreamInside(c, history);
      var n := Min(answer.n, Min(room, |c.content| - pos));
      bytes := c.content[pos..pos + n];
      var end := answer.end && pos + n == |c.content|;
      ghost var e := DeliverWhole(n, end, answer.error);
      RunSnoc(c, Start(), history, e);
      StreamStep(c, View(), n, end, answer.error);
      hide Run, Start, Next;
      history, delivered := history + [e], delivered + bytes;
      fellBack := Some(pos + n);
      if end {
        reader, status := Ended(None), End;
      } else if answer.error.Some? {
        reader, status := Ended(answer.error), Failed(answer.error.value);
      } else {
        reader, status := Whole(pos + n), Fine;
      }
    }

    method ReadWhole(p: array<Byte>, answer: Answer) returns (n: nat, status: Status)
      requires Valid() && reader.Whole?
      modifies this`fellBack, this`reader, this`delivered, this`history, p
      ensures Valid()
      ensures n <= p.Length && delivered == old(delivered) + p[..n] && p[n..] == old(p[n..])
      ensures status == StatusOf(reader) && !reader.Ready?
    {
      var bytes;
      bytes, status := ReadStream(p.Length, answer);
      Fill(p, bytes);
      n := |bytes|;
    }

    /** Hands out bytes of the current part. */
    method ReadCurrent(p: array<Byte>) returns (n: nat)
      requires Valid() && reader.Ready? && cur != []
      modifies this`cur, this`consumed, this`delivered, this`history, p
      ensures Valid() && reader.Ready?
      ensures n == Min(p.Length, |old(cur)|) && delivered == old(delivered) + p[..n] && p[n..] == old(p[n..])
    {
      n := Min(p.Length, |cur|);
      Fill(p, cur[..n]);
      RunSnoc(c, Start(), history, Deliver(n));
      hide Run;
      history, delivered := history + [Deliver(n)], delivered + cur[..n];
      cur, consumed := cur[n..], consumed + n;
    }

    /** One call of Read. `others` are the steps the other goroutines take while it runs, if it waits for them. */
    method Read(p: array<Byte>, others: seq<Event>, endWins: bool, whole: Option<Error>, answer: Answer)
      returns (n: nat, status: Status)
      requires Valid() && (reader.Ready? || reader.Whole?) && forall e :: e in others ==> !ByReader(e)
      modifies this, p
      ensures Valid()
      ensures n <= p.Length && delivered == old(delivered) + p[..n] && p[n..] == old(p[n..])
      ensures status.Blocked? || status == StatusOf(reader)
      ensures status.Fine? && reader.Ready? && p.Length > 0 ==> n > 0
      ensures delivered <= c.content && (status.End? && !pipe.abandoned ==> delivered == c.content)
    {
      hide Run, Next, Start;
      n := 0;
      if fellBack.Some? {
        n, status := ReadWhole(p, answer);
        ReaderDeliversObject(c, history);
        return;
      }
      var rest := others;
      while |cur| == 0
        invariant Valid() && reader.Ready? && delivered == old(delivered) && p[..] == old(p[..])
        invariant forall e :: e in rest ==> !ByReader(e)
        decreases |rest|, |pipe.slots|
      {
        ReaderDeliversObject(c, history);
        var slot, result, blocked;
        slot, rest, blocked := TakeSlot(rest);
        if blocked {
          return 0, Blocked;
        }
        if slot.None? {
          ReaderDeliversObject(c, history);
          return 0, End;
        }
        result, rest, blocked := AwaitResult(slot.value, rest, endWins);
        if blocked {
          return 0, Blocked;
        }
        if result.None? {
          GiveUp();
          return 0, Failed(Cancelled);
        }
        var err := Accept(slot.value, result.value, whole);
        if err.Some? {
          return 0, Failed(err.value);
        }
        if fellBack.Some? {
          n, status := ReadWhole(p, answer);
          ReaderDeliversObject(c, history);
          return;
        }
      }
      n := ReadCurrent(p);
      ReaderDeliversObject(c, history);
      status := Fine;
    }
  }

  /** Copies the bytes to the front of the buffer. */
  method Fill(p: array<Byte>, bytes: Bytes)
    requires |bytes| <= p.Length
    modifies p
    ensures p[..|bytes|] == bytes && p[|bytes|..] == old(p[|bytes|..])
  {
    forall k | 0 <= k < |bytes| {
      p[k] := bytes[k];
    }
  }

  /** The error a caller sees in this state of the reader. */
  function StatusOf(r: Reader): Status {
    match r
    case Ended(None) => End
    case Ended(Some(error)) => Failed(error)
    case _ => Fine
  }

  lemma StreamStep(c: Setup, s: State, n: nat, end: bool, error: Option<Error>)
    requires s.reader.Whole? && s.reader.pos + n <= |c.content| && (end ==> s.reader.pos + n == |c.content|)
    ensures Next(c, s, DeliverWhole(n, end, error)) == s.(
      reader := if end then Ended(None) else if error.Some? then Ended(error) else Whole(s.reader.pos + n),
      delivered := s.delivered + c.content[s.reader.pos..s.reader.pos + n])
  {
  }

  lemma StreamInside(c: Setup, es: seq<Event>)
    ensures var s := Run(c, Start(), es); s.reader.Whole? ==> s.reader.pos <= |c.content|
  {
    StartInv(c);
    RunBounded(c, Start(), es);
  }

  lemma AwaitedPartExists(c: Setup, es: seq<Event>)
    ensures var s := Run(c, Start(), es); s.reader.Awaiting? ==> s.reader.i < |s.jobs|
  {
    StartInv(c);
    RunBounded(c, Start(), es);
  }
}
