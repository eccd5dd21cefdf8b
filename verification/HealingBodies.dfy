/** The self-healing body as the object its callers hold, method by method against module Healing. */
module HealingBodies {
  import opened Objects
  import opened Healing
  import W = Watchdog

  class HealingBody {
    const q: Request
    const w: World
    const floor: int
    const window: nat

    var consumed: nat
    var attempts: nat
    var etag: string
    var cur: Bytes      // what the current connection has still to deliver
    var dog: W.Watchdog
    var closed: bool
    var clock: nat
    ghost var live: set<nat>
    ghost var delivered: Bytes
    ghost var since: nat   // what had been consumed when the current connection was opened

    ghost function View(): Body
      reads this
    {
      Body(consumed, attempts, etag, cur, closed, live, clock, delivered)
    }

    /** Every connection is watched, the final allowed one for progress only, and its watchdog knows of every byte. */
    ghost predicate Valid()
      reads this, dog
    {
      && dog.Valid()
      && dog.bytes == consumed - since
      && dog.interval == W.Interval(window)
      && dog.floor == W.ArmedFloor(attempts, q.limit, floor)
    }

    constructor (q: Request, w: World, content: Bytes, etag: string, floor: int, window: nat)
      ensures Valid() && fresh(dog)
      ensures this.q == q && this.w == w && this.floor == floor && this.window == window
      ensures View() == Opened(q, content, etag)
    {
      this.q, this.w, this.floor, this.window := q, w, floor, window;
      consumed, attempts, this.etag, closed, clock := 0, 1, etag, false, 0;
      cur := Slice(content, q.off, q.length);
      live, delivered, since := {1}, [], 0;
      dog := new W.Watchdog(W.ArmedFloor(1, q.limit, floor), window);
    }

    method ReadConnection(p: array<Byte>) returns (n: nat, signal: Signal)
      modifies this`cur, this`clock, this`delivered, p
      ensures (n, signal) == ConnectionRead(w, old(View()), p.Length)
      ensures View()
           == old(View()).(rest := old(cur)[n..], clock := old(clock) + 1, delivered := old(delivered + cur[..n]))
      ensures p[..n] == old(cur)[..n] && p[n..] == old(p[n..])
    {
      var a := w.answers(clock);
      n := Min(a.n, Min(p.Length, |cur|));
      signal := if a.signal == End && n < |cur| && !w.earlyEof then Fine else a.signal;
      forall i | 0 <= i < n {
        p[i] := cur[i];
      }
      delivered := delivered + cur[..n];
      cur, clock := cur[n..], clock + 1;
    }

    method CheckTruncated() returns (short: bool)
      modifies this`clock
      ensures (short, View()) == Truncated(q, w, old(View()))
    {
      if q.off < 0 || q.length == 0 || consumed >= q.length {
        return false;
      }
      var failed, size := w.answers(clock).fails, |w.stat(clock).content|;
      clock := clock + 1;
      if !failed && q.off + consumed >= size {
        return false;
      }
      return true;
    }

    predicate IsRemainingDone()
      reads this
    {
      if q.length > 0 then consumed >= q.length
      else if q.off < 0 then q.off + consumed >= 0
      else false
    }

    method Arm()
      modifies this`dog, this`since
      ensures Valid() && fresh(dog) && since == consumed
    {
      since := consumed;
      dog := new W.Watchdog(W.ArmedFloor(attempts, q.limit, floor), window);
    }

    method CheckTag() returns (err: Outcome)
      modifies this`clock, this`etag
      ensures (View(), err) == Guard(w, old(View()))
    {
      clock := clock + 1;
      if w.answers(clock - 1).fails {
        return Failed(Cancelled);
      }
      clock := clock + 1;
      if w.answers(clock - 1).fails {
        return Failed(StatFailed);
      }
      var current := w.stat(clock - 1).etag;
      if etag == "" {
        etag := current;
      } else if current != etag {
        return Failed(ObjectChanged);
      }
      return Ok;
    }

    method Reconnect() returns (err: Outcome)
      requires Valid()
      modifies this, dog
      ensures Valid() && (dog == old(dog) || fresh(dog))
      ensures dog != old(dog) ==> old(dog).stopped
      ensures (View(), err) == Heal(q, w, old(View()))
    {
      hide Slice, W.Watchdog.Valid, W.Interval, W.ArmedFloor, Guard;
      dog.Stop();
      live := live - {attempts};
      assert View() == old(View()).(live := live);
      if attempts >= q.limit {
        return Failed(Exhausted);
      }
      err := CheckTag();
      if err != Ok {
        return;
      }
      var newOff := q.off + consumed;
      var newLen := if q.length > 0 then q.length - consumed else 0;
      clock := clock + 1;
      if w.answers(clock - 1).fails {
        return Failed(RangeFailed);
      }
      ghost var asked := View();
      attempts := attempts + 1;
      cur := Slice(w.ranged(clock - 1).content, newOff, newLen);
      live := live + {attempts};
      Arm();
      assert View() == asked.(rest := cur, attempts := attempts, live := live);
    }

    /** The part of the loop after a read that ended with `signal`; `Ok` means a fresh connection is open. */
    method AfterError(signal: Signal) returns (err: Outcome)
      requires Valid()
      modifies this, dog
      ensures Valid() && (dog == old(dog) || fresh(dog))
      ensures dog != old(dog) ==> old(dog).stopped
      ensures (View(), err) == Recover(q, w, old(View()), signal)
      ensures err.Eof? ==> dog.stopped
    {
      hide Heal, Truncated, W.Watchdog.Valid;
      if signal == End {
        var short := CheckTruncated();
        if !short {
          dog.Stop();
          return Eof;
        }
      }
      clock := clock + 1;
      if w.answers(clock - 1).fails {
        return Failed(Cancelled);
      }
      if IsRemainingDone() {
        dog.Stop();
        return Eof;
      }
      err := Reconnect();
    }

    /** Fills `p` from the object, reconnecting as often as the budget allows. */
    method Read(p: array<Byte>) returns (n: nat, err: Outcome)
      requires Valid()
      modifies this, dog, p
      ensures Valid() && (dog == old(dog) || fresh(dog))
      ensures dog != old(dog) ==> old(dog).stopped
      ensures (View(), n, err) == Healing.Read(q, w, old(View()), p.Length)
      ensures n <= p.Length && delivered == old(delivered) + p[..n] && p[n..] == old(p[n..])
      ensures err.Eof? ==> dog.stopped
    {
      hide Recover, ConnectionRead, W.Watchdog.Valid;
      while true
        invariant Valid() && (dog == old(dog) || fresh(dog))
        invariant dog != old(dog) ==> old(dog).stopped
        invariant Healing.Read(q, w, View(), p.Length) == Healing.Read(q, w, old(View()), p.Length)
        invariant p[..] == old(p[..]) && delivered == old(delivered)
        decreases Max(0, q.limit - attempts)
      {
        var signal;
        n, signal := ReadConnection(p);
        if n > 0 {
          consumed := consumed + n;
          dog.Progress(n);
        }
        if signal == Fine {
          return n, Ok;
        }
        err := AfterError(signal);
        if err != Ok || n > 0 {
          return;
        }
        assert p[0..] == p[..] && old(p[0..]) == old(p[..]);
      }
    }

    method Close()
      requires Valid()
      modifies this`closed, this`live, dog
      ensures Valid() && View() == Healing.Close(old(View()))
      ensures !old(closed) ==> dog.stopped
    {
      if closed {
        return;
      }
      closed := true;
      dog.Stop();
      live := live - {attempts};
    }
  }
}
