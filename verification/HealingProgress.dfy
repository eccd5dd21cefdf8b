/** What a self-healing read survives: every heal has its cause, and with fewer broken connections than the budget
    allows a read brings the whole range. */
module HealingProgress {
  import opened Healing
  import opened Objects

  /* ---------- Clean ends ---------- */

  /** A Stat issued now works and shows the object. */
  predicate StatShows(w: World, b: Body, content: Bytes) {
    !w.answers(b.clock).fails && w.stat(b.clock).content == content
  }

  /** A clean end after all a range has is its end, and opens no connection; after all that was asked for, and where an
      end cannot be doubted, nobody is asked either. */
  lemma CleanEndIsEof(q: Request, w: World, content: Bytes, b: Body)
    requires Tracks(Slice(content, q.off, q.length), b) && b.rest == [] && StatShows(w, b, content)
    ensures var (after, o) := Recover(q, w, b, End);
            o == Eof && after == b.(clock := after.clock) && after.clock <= b.clock + 1
    ensures q.off < 0 || q.length == 0 || b.consumed >= q.length ==> Recover(q, w, b, End).0 == b
  {
    if q.off >= 0 && q.length > 0 {
      SliceLength(content, q);
    }
    hide Slice, Heal;
  }

  lemma SliceLength(content: Bytes, q: Request)
    requires q.off >= 0 && q.length > 0
    ensures |Slice(content, q.off, q.length)| < q.length ==> q.off + |Slice(content, q.off, q.length)| >= |content|
  {
  }

  /** Where early ends can be recognised they are, exactly: a clean end is the end of the file if and only if nothing
      of the range is missing. */
  lemma CleanEndIsEofExactlyWhen(q: Request, w: World, content: Bytes, b: Body)
    requires SafeRange(q.off, q.length, |content|, true)
    requires Tracks(Slice(content, q.off, q.length), b) && StatShows(w, b, content)
    ensures Recover(q, w, b, End).1.Eof? <==> b.rest == []
  {
    var want := Slice(content, q.off, q.length);
    if b.rest == [] {
      CleanEndIsEof(q, w, content, b);
    } else {
      SafeServes(q, content, true);
      assert ServesAt(q, content, want, b.consumed, true);
      hide Slice, Heal, Serves, SafeRange;
    }
  }

  /** An end before all that was asked for is never taken for the end of the file while the size cannot be had. */
  lemma UncheckedEndIsNotEof(q: Request, w: World, b: Body)
    requires q.off >= 0 && b.consumed < q.length && w.answers(b.clock).fails
    ensures !Recover(q, w, b, End).1.Eof?
  {
    hide Slice, Heal;
  }

  /* ---------- Every heal has a cause ---------- */

  /** The connection broke, or ended before its time. */
  predicate Breaks(b: Body, n: nat, signal: Signal) {
    signal == Break || (signal == End && n < |b.rest|)
  }

  /** How many connections break or end too early during one Read. */
  function BreaksInRead(q: Request, w: World, b: Body, room: nat): nat
    decreases Max(0, q.limit - b.attempts)
  {
    var (n, signal) := ConnectionRead(w, b, room);
    if signal == Fine then 0
    else
      var (after, o) := Recover(q, w, Advance(b, n), signal);
      One(Breaks(b, n, signal)) + if o.Ok? && n == 0 then BreaksInRead(q, w, after, room) else 0
  }

  function BreaksIn(q: Request, w: World, b: Body, rooms: seq<nat>): nat
    decreases |rooms|
  {
    if rooms == [] then 0
    else
      var (after, _, o) := Read(q, w, b, rooms[0]);
      BreaksInRead(q, w, b, rooms[0]) + if o.Ok? then BreaksIn(q, w, after, rooms[1..]) else 0
  }

  /** Nobody cancels, every Stat and GetRange works, and the object stays as it is. */
  ghost predicate Serene(w: World, content: Bytes, etag: string) {
    Fixed(w, content) && Reachable(w, etag)
  }

  /** Where a clean end is compared with the size, the body is where the caller is. */
  ghost predicate Placed(q: Request, content: Bytes, b: Body) {
    q.off >= 0 && q.length > 0 ==> Tracks(Slice(content, q.off, q.length), b)
  }

  lemma RecoverPlaced(q: Request, w: World, content: Bytes, etag: string, b: Body, signal: Signal)
    requires Serene(w, content, etag) && Placed(q, content, b)
    requires signal == End && !w.earlyEof ==> b.rest == []
    ensures Placed(q, content, Recover(q, w, b, signal).0)
  {
    if q.off >= 0 && q.length > 0 {
      SafeServes(q, content, w.earlyEof);
      assert Steady(w, b.etag, content);
      hide Recover, Slice, Serves, Steady;
      RecoverTracks(q, w, content, b, signal, Slice(content, q.off, q.length), 0);
    }
  }

  /** Only a break or an early end opens another connection, or uses up the last one. */
  lemma RecoverAccounts(q: Request, w: World, content: Bytes, etag: string, b: Body, signal: Signal)
    requires Serene(w, content, etag) && Knows(b, etag) && Placed(q, content, b)
    ensures var (after, o) := Recover(q, w, b, signal);
            b.attempts <= after.attempts <= b.attempts + One(signal != End || b.rest != []) - One(o.Failed?)
  {
    if signal == End && b.rest == [] {
      EndOpensNothing(q, w, content, b);
    }
    hide Slice, Guard;
  }

  lemma EndOpensNothing(q: Request, w: World, content: Bytes, b: Body)
    requires b.rest == [] && StatShows(w, b, content) && Placed(q, content, b)
    ensures Recover(q, w, b, End).1 == Eof && Recover(q, w, b, End).0.attempts == b.attempts
  {
    if q.off >= 0 && q.length > 0 {
      CleanEndIsEof(q, w, content, b);
    }
    hide Slice, Heal;
  }

  lemma {:induction false} ReadAccounts(q: Request, w: World, content: Bytes, etag: string, b: Body, room: nat)
    requires Serene(w, content, etag) && Knows(b, etag) && Placed(q, content, b)
    ensures var (after, n, o) := Read(q, w, b, room);
            && Knows(after, etag) && Placed(q, content, after)
            && (o.Failed? ==> o.failure == Exhausted && after.attempts >= q.limit)
            && b.attempts <= after.attempts <= b.attempts + BreaksInRead(q, w, b, room) - One(o.Failed?)
    decreases Max(0, q.limit - b.attempts)
  {
    hide Recover, ConnectionRead, Slice, Serene;
    var (n, signal) := ConnectionRead(w, b, room);
    var got := Advance(b, n);
    assert Placed(q, content, got);
    if signal != Fine {
      EndsInTime(w, b, room);
      SereneIsReachable(w, content, etag);
      RecoverPlaced(q, w, content, etag, got, signal);
      RecoverAccounts(q, w, content, etag, got, signal);
      RecoverSurvives(q, w, got, signal, etag);
      var (after, o) := Recover(q, w, got, signal);
      if o.Ok? && n == 0 {
        ReadAccounts(q, w, content, etag, after, room);
      }
    }
  }

  lemma SereneIsReachable(w: World, content: Bytes, etag: string)
    requires Serene(w, content, etag)
    ensures Reachable(w, etag)
  {
  }

  lemma EndsInTime(w: World, b: Body, room: nat)
    ensures var (n, signal) := ConnectionRead(w, b, room);
            && (signal == End && !w.earlyEof ==> Advance(b, n).rest == [])
            && (signal != Fine ==> (Breaks(b, n, signal) <==> signal != End || Advance(b, n).rest != []))
  {
  }

  /** While Stat and GetRange work, connections are opened and used up by breaks and early ends alone: each more than
      the first has its own, and a read that fails one more. */
  lemma {:induction false} HealsHaveCauses(q: Request, w: World, content: Bytes, etag: string, b: Body, rooms: seq<nat>)
    requires Serene(w, content, etag) && Knows(b, etag) && Placed(q, content, b)
    ensures var (after, o) := ReadAll(q, w, b, rooms);
            && b.attempts <= after.attempts <= b.attempts + BreaksIn(q, w, b, rooms) - One(o.Failed?)
            && (o.Failed? ==> o.failure == Exhausted && after.attempts >= q.limit)
    decreases |rooms|
  {
    hide Read, Serene, Placed;
    if rooms != [] {
      ReadAccounts(q, w, content, etag, b, rooms[0]);
      var (after, n, o) := Read(q, w, b, rooms[0]);
      if o.Ok? {
        HealsHaveCauses(q, w, content, etag, after, rooms[1..]);
      }
    }
  }

  /** Main result: for every range, reads fail only if at least as many connections broke or ended too early as the
      budget allows; without any, the first connection serves them all. */
  lemma FewBreaksNeverFail(q: Request, w: World, content: Bytes, etag: string, tag: string, rooms: seq<nat>)
    requires Serene(w, content, etag) && tag in {"", etag}
    ensures var b := Opened(q, content, tag);
            var (after, o) := ReadAll(q, w, b, rooms);
            && (o.Failed? ==> BreaksIn(q, w, b, rooms) >= Max(1, q.limit))
            && (BreaksIn(q, w, b, rooms) == 0 ==> after.attempts == 1)
  {
    hide ReadAll, BreaksIn, Slice;
    HealsHaveCauses(q, w, content, etag, Opened(q, content, tag), rooms);
  }

  /* ---------- Reading to the end ---------- */

  /** Every answer brings something as long as there is something, and connections end when they are empty. */
  ghost predicate Brings(w: World) {
    forall t: nat :: w.answers(t).n > 0 && w.answers(t).signal != Fine
  }

  lemma {:induction false} ReadBrings(q: Request, w: World, b: Body, room: nat)
    requires Brings(w) && room > 0
    ensures Read(q, w, b, room).2.Ok? ==> Read(q, w, b, room).1 > 0
    decreases Max(0, q.limit - b.attempts)
  {
    hide Recover;
    var (n, signal) := ConnectionRead(w, b, room);
    assert signal == Fine ==> n > 0;
    hide ConnectionRead;
    if signal != Fine {
      var (after, o) := Recover(q, w, Advance(b, n), signal);
      if o.Ok? && n == 0 {
        ReadBrings(q, w, after, room);
      }
    }
  }

  lemma {:induction false} ReadCounts(q: Request, w: World, b: Body, room: nat)
    ensures var (after, n, o) := Read(q, w, b, room);
            |after.delivered| >= |b.delivered| + n
    decreases Max(0, q.limit - b.attempts)
  {
    hide Recover, ConnectionRead;
    var (n, signal) := ConnectionRead(w, b, room);
    if signal != Fine {
      var (after, o) := Recover(q, w, Advance(b, n), signal);
      if o.Ok? && n == 0 {
        ReadCounts(q, w, after, room);
      }
    }
  }

  lemma {:induction false} EveryReadBrings(q: Request, w: World, b: Body, rooms: seq<nat>)
    requires Brings(w) && forall i :: 0 <= i < |rooms| ==> rooms[i] > 0
    ensures var (after, o) := ReadAll(q, w, b, rooms);
            o.Ok? ==> |after.delivered| >= |b.delivered| + |rooms|
    decreases |rooms|
  {
    hide Read, Brings;
    if rooms != [] {
      ReadBrings(q, w, b, rooms[0]);
      ReadCounts(q, w, b, rooms[0]);
      var (after, n, o) := Read(q, w, b, rooms[0]);
      if o.Ok? {
        EveryReadBrings(q, w, after, rooms[1..]);
      }
    }
  }

  /** Main result: when fewer connections break or end too early than the budget allows, and the connections bring what
      they have, then enough reads reach the end of the file, with the whole range delivered. */
  lemma FewBreaksDeliverAll(q: Request, w: World, content: Bytes, etag: string, tag: string, rooms: seq<nat>)
    requires Serene(w, content, etag) && tag in {"", etag} && Brings(w)
    requires SafeRange(q.off, q.length, |content|, w.earlyEof)
    requires |rooms| > |Slice(content, q.off, q.length)| && forall i :: 0 <= i < |rooms| ==> rooms[i] > 0
    requires BreaksIn(q, w, Opened(q, content, tag), rooms) < Max(1, q.limit)
    ensures var (after, o) := ReadAll(q, w, Opened(q, content, tag), rooms);
            o == Eof && after.delivered == Slice(content, q.off, q.length)
  {
    FixedObjectReads(q, w, content, tag, rooms);
    hide ReadAll, BreaksIn, Slice, SafeRange, Brings;
    FewBreaksNeverFail(q, w, content, etag, tag, rooms);
    EveryReadBrings(q, w, Opened(q, content, tag), rooms);
  }

  /* ---------- Failures ---------- */

  /** What a failure says: the budget is spent, the tag at the last Stat is another one, or the last call failed. */
  predicate Explained(q: Request, w: World, b: Body, failure: Failure) {
    match failure
    case Exhausted => b.attempts >= q.limit
    case ObjectChanged => b.clock > 0 && b.etag != "" && w.stat(b.clock - 1).etag != b.etag
    case _ => b.clock > 0 && w.answers(b.clock - 1).fails
  }

  lemma RecoverExplains(q: Request, w: World, b: Body, signal: Signal)
    ensures var (after, o) := Recover(q, w, b, signal);
            o.Failed? ==> Explained(q, w, after, o.failure)
  {
    hide Slice;
  }

  lemma {:induction false} ReadExplains(q: Request, w: World, b: Body, room: nat)
    ensures var (after, n, o) := Read(q, w, b, room);
            o.Failed? ==> Explained(q, w, after, o.failure)
    decreases Max(0, q.limit - b.attempts)
  {
    hide Recover, ConnectionRead, Explained;
    var (n, signal) := ConnectionRead(w, b, room);
    if signal != Fine {
      var (after, o) := Recover(q, w, Advance(b, n), signal);
      RecoverExplains(q, w, Advance(b, n), signal);
      if o.Ok? && n == 0 {
        ReadExplains(q, w, after, room);
      }
    }
  }

  /** Over any network and any object, a failure tells the truth. */
  lemma {:induction false} FailuresAreExplained(q: Request, w: World, b: Body, rooms: seq<nat>)
    ensures var (after, o) := ReadAll(q, w, b, rooms);
            o.Failed? ==> Explained(q, w, after, o.failure)
    decreases |rooms|
  {
    hide Read, Explained;
    if rooms != [] {
      ReadExplains(q, w, b, rooms[0]);
      var (after, n, o) := Read(q, w, b, rooms[0]);
      if o.Ok? {
        FailuresAreExplained(q, w, after, rooms[1..]);
      }
    }
  }

  /** No failing call is passed over: a break that does not end in a failure had every call answered, and a heal saw the
      tag it holds, which is the one it held before if there was one. */
  lemma NoFailureIsPassedOver(q: Request, w: World, b: Body)
    ensures var (after, o) := Recover(q, w, b, Break);
            && (!o.Failed? ==> forall t: nat :: b.clock <= t < after.clock ==> !w.answers(t).fails)
            && (o.Ok? ==> after.clock >= b.clock + 3 && w.stat(after.clock - 2).etag == after.etag
                          && (b.etag == "" || after.etag == b.etag))
  {
    hide Slice;
  }
}
