/**
 Conditional writes of the filesystem store: a writer spools its body to a private file, takes the lock of
 its handle, checks the precondition and installs the file by Link or Rename. Any number of writers run
 on any number of handles; Delete takes no lock. A key stands for the file it names. An event is one
 atomic step; one that is not enabled changes nothing, so a sequence of events is one interleaving.
 */
module CasStore {
  import opened Objects

  /** An entity tag identifies contents; any other text identifies nothing. */
  datatype Tag = Sum(of: Bytes) | Foreign(text: string)

  datatype IfMatch = Any | Absent | Match(tag: Tag)

  datatype Outcome = Ok(tag: Tag) | PreconditionFailed | IoError

  datatype Pc = Spooling | Spooled | Locked | Checked | Installed | Refused(error: Outcome) | Returned(outcome: Outcome)

  /** `declared` is the promised length, negative when unknown (PutStream). */
  datatype Op = Op(handle: nat, key: string, body: Bytes, declared: int, ifMatch: IfMatch)

  datatype Writer = Writer(op: Op, tmp: Bytes, pc: Pc)

  /** `locks` maps a handle whose lock is held to the writer holding it, `removed` counts successful Deletes. */
  datatype State = State(
    files: map<string, Bytes>, writers: seq<Writer>, locks: map<nat, nat>, removed: multiset<string>)

  datatype Event =
    | Begin(op: Op)
    | Spool(i: nat, m: nat)
    | SpoolEnds(i: nat, broken: bool)
    | Lock(i: nat)
    | Check(i: nat, broken: bool)
    | Commit(i: nat, broken: bool)
    | Unlock(i: nat)
    | Delete(key: string)

  predicate Holds(files: map<string, Bytes>, key: string, ifMatch: IfMatch) {
    match ifMatch
    case Any => true
    case Absent => key !in files
    case Match(tag) => key in files && Sum(files[key]) == tag
  }

  predicate At(s: State, i: nat, pc: Pc) {
    i < |s.writers| && s.writers[i].pc == pc
  }

  function Move(s: State, i: nat, pc: Pc): State
    requires i < |s.writers|
  {
    s.(writers := s.writers[i := s.writers[i].(pc := pc)])
  }

  /** Link fails on an existing file, Rename replaces it. */
  function Committed(s: State, i: nat): State
    requires i < |s.writers|
  {
    var w := s.writers[i];
    if w.op.ifMatch == Absent && w.op.key in s.files then Move(s, i, Refused(PreconditionFailed))
    else Move(s, i, Installed).(files := s.files[w.op.key := w.tmp])
  }

  function Next(s: State, e: Event): State {
    match e
    case Begin(op) => s.(writers := s.writers + [Writer(op, [], Spooling)])
    case Spool(i, m) =>
      if At(s, i, Spooling) && |s.writers[i].tmp| + m <= |s.writers[i].op.body| then
        var w := s.writers[i];
        s.(writers := s.writers[i := w.(tmp := w.op.body[..|w.tmp| + m])])
      else s
    case SpoolEnds(i, broken) =>
      if !At(s, i, Spooling) then s
      else
        var w := s.writers[i];
        if broken then Move(s, i, Returned(IoError))
        else if |w.tmp| < |w.op.body| then s
        else if w.op.declared >= 0 && |w.tmp| != w.op.declared then Move(s, i, Returned(IoError))
        else Move(s, i, Spooled)
    case Lock(i) =>
      if At(s, i, Spooled) && s.writers[i].op.handle !in s.locks then
        Move(s, i, Locked).(locks := s.locks[s.writers[i].op.handle := i])
      else s
    case Check(i, broken) =>
      if !At(s, i, Locked) then s
      else if broken then Move(s, i, Refused(IoError))
      else if Holds(s.files, s.writers[i].op.key, s.writers[i].op.ifMatch) then Move(s, i, Checked)
      else Move(s, i, Refused(PreconditionFailed))
    case Commit(i, broken) =>
      if !At(s, i, Checked) then s else if broken then Move(s, i, Refused(IoError)) else Committed(s, i)
    case Unlock(i) =>
      if At(s, i, Installed) then
        Move(s, i, Returned(Ok(Sum(s.writers[i].tmp)))).(locks := s.locks - {s.writers[i].op.handle})
      else if i < |s.writers| && s.writers[i].pc.Refused? then
        Move(s, i, Returned(s.writers[i].pc.error)).(locks := s.locks - {s.writers[i].op.handle})
      else s
    case Delete(key) =>
      if key in s.files then s.(files := s.files - {key}, removed := s.removed + multiset{key}) else s
  }

  /** A store opened on a root that holds these files, before anything happens. */
  function Initially(files: map<string, Bytes>): State {
    State(files, [], map[], multiset{})
  }

  function Run(s: State, es: seq<Event>): State
    decreases |es|
  {
    if es == [] then s else Run(Next(s, es[0]), es[1..])
  }

  /* ---------- The atomic register ---------- */

  /** What is known of an operation's result; it is fixed when the operation takes effect. */
  function Decided(w: Writer): Option<Outcome> {
    match w.pc
    case Installed => Some(Ok(Sum(w.op.body)))
    case Refused(error) => Some(error)
    case Returned(outcome) => Some(outcome)
    case _ => None
  }

  /** The atomic register's steps: nothing visible happens, one operation takes effect with an outcome, or a
      key is deleted. */
  datatype Action = Quiet | Decide(i: nat, outcome: Outcome) | Remove(key: string)

  /** The effect of deciding an operation: a success saw its precondition hold and installs its whole body; a
      failure changes nothing, and a failed precondition did not hold. */
  ghost predicate TakesEffect(files: map<string, Bytes>, op: Op, outcome: Outcome, after: map<string, Bytes>) {
    match outcome
    case Ok(tag) => Holds(files, op.key, op.ifMatch) && after == files[op.key := op.body] && tag == Sum(op.body)
    case PreconditionFailed => !Holds(files, op.key, op.ifMatch) && after == files
    case IoError => after == files
  }

  ghost predicate AtomicStep(s: State, t: State, a: Action) {
    OthersKeep(s, t, a) && Effect(s, t, a)
  }

  ghost predicate OthersKeep(s: State, t: State, a: Action) {
    && |s.writers| <= |t.writers|
    && (forall i :: 0 <= i < |s.writers| ==> t.writers[i].op == s.writers[i].op)
    && (forall i :: 0 <= i < |s.writers| && !(a.Decide? && a.i == i) ==> Decided(t.writers[i]) == Decided(s.writers[i]))
    && (forall i :: |s.writers| <= i < |t.writers| ==> Decided(t.writers[i]) == None)
  }

  ghost predicate Effect(s: State, t: State, a: Action) {
    match a
    case Quiet => t.files == s.files
    case Remove(key) => t.files == s.files - {key}
    case Decide(i, outcome) =>
      && i < |s.writers| && i < |t.writers|
      && Decided(s.writers[i]) == None && Decided(t.writers[i]) == Some(outcome)
      && TakesEffect(s.files, s.writers[i].op, outcome, t.files)
  }

  /* ---------- Invariants ---------- */

  predicate Inside(w: Writer) {
    w.pc == Locked || w.pc == Checked || w.pc == Installed || w.pc.Refused?
  }

  /** A body is spooled completely, with its declared length, before its precondition is looked at. */
  ghost predicate FullySpooled(w: Writer) {
    && (w.pc == Spooling ==> w.tmp <= w.op.body)
    && (w.pc == Spooled || Inside(w) || (w.pc.Returned? && w.pc.outcome != IoError) ==>
      w.tmp == w.op.body && (w.op.declared >= 0 ==> |w.op.body| == w.op.declared))
  }

  /** Between Lock and Unlock a writer is the holder of its handle's lock. */
  ghost predicate Exclusive(s: State, i: nat)
    requires i < |s.writers|
  {
    Inside(s.writers[i]) ==> s.writers[i].op.handle in s.locks && s.locks[s.writers[i].op.handle] == i
  }

  ghost predicate Inv(s: State) {
    && (forall i :: 0 <= i < |s.writers| ==> FullySpooled(s.writers[i]))
    && (forall i: nat :: i < |s.writers| ==> Exclusive(s, i))
  }

  /** The writer an event belongs to. */
  function Concerns(s: State, e: Event): int {
    match e
    case Begin(_) => |s.writers|
    case Spool(i, _) => i
    case SpoolEnds(i, _) => i
    case Lock(i) => i
    case Check(i, _) => i
    case Commit(i, _) => i
    case Unlock(i) => i
    case Delete(_) => -1
  }

  lemma OthersUnchanged(s: State, e: Event, i: nat)
    requires i < |Next(s, e).writers| && i != Concerns(s, e)
    ensures i < |s.writers| && Next(s, e).writers[i] == s.writers[i]
  {
  }

  lemma SpoolStep(s: State, e: Event, i: nat)
    requires Inv(s) && i < |Next(s, e).writers|
    ensures FullySpooled(Next(s, e).writers[i])
  {
    if i < |s.writers| {
      assert FullySpooled(s.writers[i]);
    }
    if i != Concerns(s, e) {
      OthersUnchanged(s, e, i);
      hide Next, Inv;
    }
    hide Inv;
  }

  lemma LockStep(s: State, e: Event, i: nat)
    requires Inv(s) && i < |Next(s, e).writers|
    ensures Exclusive(Next(s, e), i)
  {
    var j := Concerns(s, e);
    if i < |s.writers| {
      assert Exclusive(s, i);
    }
    if 0 <= j < |s.writers| {
      assert Exclusive(s, j);
    }
    hide Inv;
    if i != j {
      OthersUnchanged(s, e, i);
    }
  }

  lemma InvStep(s: State, e: Event)
    requires Inv(s)
    ensures Inv(Next(s, e))
  {
    var t := Next(s, e);
    forall i: nat | i < |t.writers|
      ensures FullySpooled(t.writers[i]) && Exclusive(t, i)
    {
      SpoolStep(s, e, i);
      LockStep(s, e, i);
    }
  }

  /** One handle serves every writer of a key. */
  ghost predicate OneHandle(s: State) {
    forall i, j :: 0 <= i < |s.writers| && 0 <= j < |s.writers| && s.writers[i].op.key == s.writers[j].op.key ==>
      s.writers[i].op.handle == s.writers[j].op.handle
  }

  /** What a writer has checked still holds when it commits. */
  ghost predicate CheckStands(s: State) {
    forall i :: 0 <= i < |s.writers| && s.writers[i].pc == Checked ==>
      Holds(s.files, s.writers[i].op.key, s.writers[i].op.ifMatch)
  }

  /** A Delete of a key between the check and the commit of a writer that matched a tag of it. */
  ghost predicate DeleteInWindow(s: State, e: Event) {
    e.Delete? && exists i :: 0 <= i < |s.writers| && InWindow(s.writers[i], e.key)
  }

  predicate InWindow(w: Writer, key: string) {
    w.pc == Checked && w.op.key == key && w.op.ifMatch.Match?
  }

  lemma CheckStandsStep(s: State, e: Event)
    requires Inv(s) && CheckStands(s) && OneHandle(s) && !DeleteInWindow(s, e)
    ensures CheckStands(Next(s, e))
  {
    var t := Next(s, e);
    forall i | 0 <= i < |t.writers| && t.writers[i].pc == Checked
      ensures Holds(t.files, t.writers[i].op.key, t.writers[i].op.ifMatch)
    {
      if i == Concerns(s, e) {
      } else {
        OthersUnchanged(s, e, i);
        FilesKeep(s, e, i);
      }
    }
  }

  /** While one writer of the handle is between check and commit, no other one changes files. */
  lemma FilesKeep(s: State, e: Event, i: nat)
    requires Inv(s) && OneHandle(s) && !DeleteInWindow(s, e)
    requires i < |s.writers| && i != Concerns(s, e) && s.writers[i].pc == Checked
    requires Holds(s.files, s.writers[i].op.key, s.writers[i].op.ifMatch)
    ensures Holds(Next(s, e).files, s.writers[i].op.key, s.writers[i].op.ifMatch)
  {
    match e
    case Delete(key) =>
      assert !InWindow(s.writers[i], key);
    case Commit(j, _) =>
      if At(s, j, Checked) {
        assert Exclusive(s, i) && Exclusive(s, j);
      }
    case _ =>
  }

  /** The action an event is: a decision at the check if it fails, else at the commit. */
  function ActionOf(s: State, e: Event): Action {
    match e
    case SpoolEnds(i, _) =>
      if At(s, i, Spooling) && At(Next(s, e), i, Returned(IoError)) then Decide(i, IoError) else Quiet
    case Check(i, _) => if At(s, i, Locked) && Decided(Next(s, e).writers[i]).Some?
                        then Decide(i, Decided(Next(s, e).writers[i]).value) else Quiet
    case Commit(i, _) => if At(s, i, Checked) then Decide(i, Decided(Next(s, e).writers[i]).value) else Quiet
    case Delete(key) => Remove(key)
    case _ => Quiet
  }

  /** The commit of a writer that matched a tag which is not the current one any more. */
  predicate StaleSwap(s: State, e: Event) {
    e.Commit? && !e.broken && At(s, e.i, Checked)
    && s.writers[e.i].op.ifMatch.Match? && !Holds(s.files, s.writers[e.i].op.key, s.writers[e.i].op.ifMatch)
  }

  lemma DecidedKept(s: State, e: Event, i: nat)
    requires Inv(s) && i < |s.writers|
    ensures i < |Next(s, e).writers| && Next(s, e).writers[i].op == s.writers[i].op
    ensures Decided(s.writers[i]).Some? ==> Decided(Next(s, e).writers[i]) == Decided(s.writers[i])
  {
    assert FullySpooled(s.writers[i]);
  }

  lemma StepKeepsOthers(s: State, e: Event)
    requires Inv(s)
    ensures OthersKeep(s, Next(s, e), ActionOf(s, e))
  {
    var t, a := Next(s, e), ActionOf(s, e);
    forall i: nat | i < |s.writers|
      ensures t.writers[i].op == s.writers[i].op
      ensures !(a.Decide? && a.i == i) ==> Decided(t.writers[i]) == Decided(s.writers[i])
    {
      DecidedKept(s, e, i);
      if i != Concerns(s, e) {
        OthersUnchanged(s, e, i);
      }
    }
  }

  lemma StepEffect(s: State, e: Event)
    requires Inv(s)
    ensures Effect(s, Next(s, e), ActionOf(s, e)) <==> !StaleSwap(s, e)
  {
    if e.Commit? && At(s, e.i, Checked) {
      assert FullySpooled(s.writers[e.i]);
    }
    if e.Delete? && e.key !in s.files {
      assert s.files - {e.key} == s.files;
    }
  }

  /** No Delete falls into a window. */
  ghost predicate Calm(s: State, es: seq<Event>)
    decreases |es|
  {
    es != [] ==> !DeleteInWindow(s, es[0]) && Calm(Next(s, es[0]), es[1..])
  }

  ghost predicate Refines(s: State, es: seq<Event>)
    decreases |es|
  {
    es != [] ==> AtomicStep(s, Next(s, es[0]), ActionOf(s, es[0])) && Refines(Next(s, es[0]), es[1..])
  }

  /** Every key is written by the handle that owns it. */
  ghost predicate BeginsOn(owner: string -> nat, es: seq<Event>) {
    forall e :: e in es && e.Begin? ==> e.op.handle == owner(e.op.key)
  }

  ghost predicate AllOn(owner: string -> nat, s: State) {
    forall i :: 0 <= i < |s.writers| ==> s.writers[i].op.handle == owner(s.writers[i].op.key)
  }

  lemma AllOnStep(owner: string -> nat, s: State, e: Event)
    requires Inv(s) && AllOn(owner, s) && (e.Begin? ==> e.op.handle == owner(e.op.key))
    ensures AllOn(owner, Next(s, e))
  {
    forall i: nat | i < |Next(s, e).writers|
      ensures Next(s, e).writers[i].op.handle == owner(Next(s, e).writers[i].op.key)
    {
      if i < |s.writers| {
        DecidedKept(s, e, i);
      }
    }
  }

  lemma {:induction false} RunRefines(owner: string -> nat, s: State, es: seq<Event>)
    requires Inv(s) && CheckStands(s) && AllOn(owner, s) && BeginsOn(owner, es) && Calm(s, es)
    ensures Refines(s, es)
    decreases |es|
  {
    if es != [] {
      var e := es[0];
      assert e in es;
      StepKeepsOthers(s, e);
      StepEffect(s, e);
      InvStep(s, e);
      CheckStandsStep(s, e);
      AllOnStep(owner, s, e);
      hide Inv, CheckStands, Next, AtomicStep, AllOn, OneHandle, DeleteInWindow;
      RunRefines(owner, Next(s, e), es[1..]);
    }
  }

  /** Main result: with one handle for each key and no Delete inside a window, every run is a run of an atomic
      compare-and-swap register, whatever files are there at first. */
  lemma OneHandleIsRegister(files: map<string, Bytes>, owner: string -> nat, es: seq<Event>)
    requires BeginsOn(owner, es) && Calm(Initially(files), es)
    ensures Refines(Initially(files), es)
  {
    RunRefines(owner, Initially(files), es);
  }

  /* ---------- Exactly which runs are atomic ---------- */

  /** No commit of the run is stale. */
  ghost predicate TagsCurrent(s: State, es: seq<Event>)
    decreases |es|
  {
    es != [] ==> !StaleSwap(s, es[0]) && TagsCurrent(Next(s, es[0]), es[1..])
  }

  /** A run is a run of the register, in which a write takes effect at its commit or, if refused, at its check, if and
      only if every commit that matched a tag finds it current. A run that fails this may still have another order
      of its writes: a stale commit can happen to install the bytes that are there. */
  lemma {:induction false} AtomicExactlyWhenCurrent(s: State, es: seq<Event>)
    requires Inv(s)
    ensures Refines(s, es) <==> TagsCurrent(s, es)
    decreases |es|
  {
    if es != [] {
      StepKeepsOthers(s, es[0]);
      StepEffect(s, es[0]);
      InvStep(s, es[0]);
      hide Inv, Next, StaleSwap, OthersKeep, Effect;
      AtomicExactlyWhenCurrent(Next(s, es[0]), es[1..]);
    }
  }

  /* ---------- Complete bodies ---------- */

  /** What an open of `key` sees was there at first or was installed, as the whole body, by one successful operation
      on that key. */
  ghost predicate FromOneWrite(files: map<string, Bytes>, s: State, key: string) {
    key in s.files ==>
      (key in files && files[key] == s.files[key]) ||
      exists i :: 0 <= i < |s.writers| && Wrote(s.writers[i], key, s.files[key])
  }

  predicate Wrote(w: Writer, key: string, body: Bytes) {
    w.op.key == key && w.op.body == body && Decided(w) == Some(Ok(Sum(body)))
  }

  lemma FromOneWriteStep(files: map<string, Bytes>, s: State, e: Event, key: string)
    requires Inv(s) && FromOneWrite(files, s, key)
    ensures FromOneWrite(files, Next(s, e), key)
  {
    var t := Next(s, e);
    if key in s.files && key in t.files && t.files[key] == s.files[key] {
      if !(key in files && files[key] == s.files[key]) {
        var i :| 0 <= i < |s.writers| && Wrote(s.writers[i], key, s.files[key]);
        DecidedKept(s, e, i);
        assert Wrote(t.writers[i], key, t.files[key]);
      }
    } else if key in t.files {
      assert e.Commit? && At(s, e.i, Checked);
      assert FullySpooled(s.writers[e.i]);
      assert Wrote(t.writers[e.i], key, t.files[key]);
    }
  }

  lemma {:induction false} RunFromOneWrite(files: map<string, Bytes>, s: State, es: seq<Event>, key: string)
    requires Inv(s) && FromOneWrite(files, s, key)
    ensures Inv(Run(s, es)) && FromOneWrite(files, Run(s, es), key)
    decreases |es|
  {
    if es != [] {
      InvStep(s, es[0]);
      FromOneWriteStep(files, s, es[0], key);
      hide Inv, Next, FromOneWrite;
      RunFromOneWrite(files, Next(s, es[0]), es[1..], key);
    }
  }

  /** With any number of handles and Deletes at any time: whatever is visible under a key was there at first or is the
      complete body of one successful write, and every writer past its spooling has consumed its whole body. */
  lemma OpensSeeWholeBodies(files: map<string, Bytes>, es: seq<Event>, key: string)
    ensures var s := Run(Initially(files), es);
            FromOneWrite(files, s, key) && forall i :: 0 <= i < |s.writers| ==> FullySpooled(s.writers[i])
  {
    RunFromOneWrite(files, Initially(files), es, key);
  }

  /* ---------- Errors and locks ---------- */

  /** Nothing the system does fails in this step, and a length promised is the body's. */
  predicate Works(e: Event) {
    match e
    case Begin(op) => Keeps(op)
    case SpoolEnds(_, broken) => !broken
    case Check(_, broken) => !broken
    case Commit(_, broken) => !broken
    case _ => true
  }

  predicate Keeps(op: Op) {
    op.declared < 0 || |op.body| == op.declared
  }

  ghost predicate NoIoErrors(s: State) {
    forall i :: 0 <= i < |s.writers| ==> Keeps(s.writers[i].op) && Decided(s.writers[i]) != Some(IoError)
  }

  lemma NoIoErrorsStep(s: State, e: Event)
    requires Inv(s) && NoIoErrors(s) && Works(e)
    ensures NoIoErrors(Next(s, e))
  {
    forall i: nat | i < |Next(s, e).writers|
      ensures Keeps(Next(s, e).writers[i].op) && Decided(Next(s, e).writers[i]) != Some(IoError)
    {
      if i != Concerns(s, e) {
        OthersUnchanged(s, e, i);
        hide Next, Inv;
      } else if i < |s.writers| {
        assert FullySpooled(s.writers[i]);
        hide Inv;
      }
    }
  }

  /** A write reports an I/O error only for a cause: when the system works and promised lengths are kept, every write
      succeeds or has found its precondition failed. */
  lemma {:induction false} IoErrorsHaveCauses(s: State, es: seq<Event>)
    requires Inv(s) && NoIoErrors(s) && forall e :: e in es ==> Works(e)
    ensures NoIoErrors(Run(s, es))
    decreases |es|
  {
    if es != [] {
      assert es[0] in es;
      InvStep(s, es[0]);
      NoIoErrorsStep(s, es[0]);
      hide Inv, Next, NoIoErrors;
      IoErrorsHaveCauses(Next(s, es[0]), es[1..]);
    }
  }

  /** A lock is held by a writer of its handle that is between Lock and Unlock. */
  ghost predicate LocksHeld(s: State) {
    forall h :: h in s.locks ==> LockHeld(s, h)
  }

  predicate LockHeld(s: State, h: nat)
    requires h in s.locks
  {
    s.locks[h] < |s.writers| && Inside(s.writers[s.locks[h]]) && s.writers[s.locks[h]].op.handle == h
  }

  /** Only Lock gives a lock, to its own writer. */
  lemma LocksChange(s: State, e: Event, h: nat)
    requires Inv(s) && h in Next(s, e).locks
    ensures if h in s.locks then Next(s, e).locks[h] == s.locks[h]
            else e.Lock? && Next(s, e).locks[h] == e.i && LockHeld(Next(s, e), h)
  {
    hide Inv;
  }

  lemma LockHeldStep(s: State, e: Event, h: nat)
    requires Inv(s) && h in s.locks && LockHeld(s, h) && h in Next(s, e).locks && Next(s, e).locks[h] == s.locks[h]
    ensures LockHeld(Next(s, e), h)
  {
    var i := s.locks[h];
    DecidedKept(s, e, i);
    hide Inv;
    if i != Concerns(s, e) {
      OthersUnchanged(s, e, i);
      hide Next;
    }
  }

  lemma LocksHeldStep(s: State, e: Event)
    requires Inv(s) && LocksHeld(s)
    ensures LocksHeld(Next(s, e))
  {
    forall h | h in Next(s, e).locks
      ensures LockHeld(Next(s, e), h)
    {
      LocksChange(s, e, h);
      if h in s.locks {
        LockHeldStep(s, e, h);
      }
    }
  }

  lemma {:induction false} RunLocksHeld(s: State, es: seq<Event>)
    requires Inv(s) && LocksHeld(s)
    ensures Inv(Run(s, es)) && LocksHeld(Run(s, es))
    decreases |es|
  {
    if es != [] {
      InvStep(s, es[0]);
      LocksHeldStep(s, es[0]);
      hide Inv, Next, LocksHeld;
      RunLocksHeld(Next(s, es[0]), es[1..]);
    }
  }

  /** The next step of a writer that has not returned. */
  function Ahead(w: Writer, i: nat): Event {
    match w.pc
    case Spooling => SpoolEnds(i, true)
    case Spooled => Lock(i)
    case Locked => Check(i, false)
    case Checked => Commit(i, false)
    case _ => Unlock(i)
  }

  /** No write is ever stuck: its next step is possible, or it waits for a lock whose holder's next step is. */
  lemma NoWriteIsStuck(files: map<string, Bytes>, es: seq<Event>, i: nat)
    requires i < |Run(Initially(files), es).writers| && !Run(Initially(files), es).writers[i].pc.Returned?
    ensures var s := Run(Initially(files), es);
            var w := s.writers[i];
            || Next(s, Ahead(w, i)) != s
            || (w.pc == Spooled && w.op.handle in s.locks && s.locks[w.op.handle] < |s.writers|
                && var j := s.locks[w.op.handle];
                   s.writers[j].pc != Spooled && Next(s, Ahead(s.writers[j], j)) != s)
  {
    RunLocksHeld(Initially(files), es);
    hide Run;
    var s := Run(Initially(files), es);
    var w := s.writers[i];
    if w.pc == Spooled && w.op.handle in s.locks {
      MovesAhead(s, s.locks[w.op.handle]);
    } else {
      MovesAhead(s, i);
    }
  }

  lemma MovesAhead(s: State, i: nat)
    requires i < |s.writers| && !s.writers[i].pc.Returned?
    requires s.writers[i].pc == Spooled ==> s.writers[i].op.handle !in s.locks
    ensures Next(s, Ahead(s.writers[i], i)) != s
  {
    assert Next(s, Ahead(s.writers[i], i)).writers[i].pc != s.writers[i].pc;
  }

  /* ---------- Many handles ---------- */

  predicate Won(w: Writer, key: string) {
    w.op.key == key && w.op.ifMatch == Absent && Decided(w).Some? && Decided(w).value.Ok?
  }

  /** Successful writes of `key` that required it absent. */
  function Wins(writers: seq<Writer>, key: string): nat {
    Total(writers, WinOf(key))
  }

  function WinOf(key: string): Writer -> nat {
    (w: Writer) => One(Won(w, key))
  }

  lemma OneWriterMoves(s: State, e: Event)
    requires 0 <= Concerns(s, e) < |s.writers|
    ensures |Next(s, e).writers| == |s.writers|
    ensures Next(s, e).writers == s.writers[Concerns(s, e) := Next(s, e).writers[Concerns(s, e)]]
  {
  }

  /** Each absent-only success makes the key present, and only a Delete makes it absent again. */
  ghost predicate Balanced(files: map<string, Bytes>, s: State, key: string) {
    Wins(s.writers, key) + One(key in files) <= s.removed[key] + One(key in s.files)
  }

  /** Only a commit decides a success, and only a commit that finds the key absent makes an absent-only one. */
  lemma WonStep(s: State, e: Event, key: string)
    requires Inv(s) && 0 <= Concerns(s, e) < |s.writers|
    ensures var i, t := Concerns(s, e), Next(s, e);
            && (Won(s.writers[i], key) ==> Won(t.writers[i], key))
            && (Won(t.writers[i], key) && !Won(s.writers[i], key) ==> key !in s.files && key in t.files)
            && (key in s.files ==> key in t.files) && t.removed == s.removed
  {
    assert FullySpooled(s.writers[Concerns(s, e)]);
    hide Inv;
  }

  lemma BalancedStep(files: map<string, Bytes>, s: State, e: Event, key: string)
    requires Inv(s) && Balanced(files, s, key)
    ensures Balanced(files, Next(s, e), key)
  {
    var i, t := Concerns(s, e), Next(s, e);
    if e.Begin? {
      TotalAppend(s.writers, t.writers[|s.writers|], WinOf(key));
      hide Total;
    } else if 0 <= i < |s.writers| {
      OneWriterMoves(s, e);
      TotalUpdate(s.writers, i, t.writers[i], WinOf(key));
      WonStep(s, e, key);
      hide Total, Inv, Next, Won;
    }
  }

  lemma {:induction false} RunBalanced(files: map<string, Bytes>, s: State, es: seq<Event>, key: string)
    requires Inv(s) && Balanced(files, s, key)
    ensures Balanced(files, Run(s, es), key)
    decreases |es|
  {
    if es != [] {
      InvStep(s, es[0]);
      BalancedStep(files, s, es[0], key);
      RunBalanced(files, Next(s, es[0]), es[1..], key);
    }
  }

  /** Main result for separate handles or processes: with Deletes at any step, the absent-only successes on a key are
      at most its successful Deletes, and one more if it starts absent. */
  lemma AbsentWritesAreBounded(files: map<string, Bytes>, es: seq<Event>, key: string)
    ensures var s := Run(Initially(files), es); Wins(s.writers, key) <= s.removed[key] + One(key !in files)
  {
    RunBalanced(files, Initially(files), es, key);
  }

  /* ---------- One writer with nobody else at work ---------- */

  lemma {:induction false} RunOneMore(s: State, es: seq<Event>, e: Event)
    ensures Run(s, es + [e]) == Next(Run(s, es), e)
    decreases |es|
  {
    if es == [] {
      assert [] + [e] == [e] && [e][1..] == [];
    } else {
      assert (es + [e])[1..] == es[1..] + [e];
      RunOneMore(Next(s, es[0]), es[1..], e);
    }
  }

  lemma {:induction false} RunConcat(s: State, es: seq<Event>, fs: seq<Event>)
    ensures Run(s, es + fs) == Run(Run(s, es), fs)
    decreases |es|
  {
    if es == [] {
      assert es + fs == fs;
    } else {
      assert (es + fs)[1..] == es[1..] + fs;
      RunConcat(Next(s, es[0]), es[1..], fs);
    }
  }

  lemma RunTwo(s: State, e: Event, f: Event)
    ensures Run(s, [e, f]) == Next(Next(s, e), f)
  {
    assert [e, f][1..] == [f] && [f][1..] == [];
    assert Run(Next(s, e), [f]) == Next(Next(s, e), f);
  }

  /** The state with one more writer, which has spooled its body. */
  function With(s: State, op: Op, pc: Pc, locked: bool): State {
    s.(writers := s.writers + [Writer(op, op.body, pc)],
       locks := if locked then s.locks[op.handle := |s.writers|] else s.locks)
  }

  function SpoolSteps(i: nat, op: Op, failed: bool): seq<Event> {
    [Begin(op), Spool(i, |op.body|)] + [SpoolEnds(i, failed)]
  }

  function CheckSteps(i: nat, broken: bool): seq<Event> {
    [Lock(i), Check(i, broken)]
  }

  lemma Spools(s: State, op: Op)
    ensures Next(Next(s, Begin(op)), Spool(|s.writers|, |op.body|)) == With(s, op, Spooling, false)
  {
    assert op.body[..|op.body|] == op.body;
    assert Next(s, Begin(op)) == s.(writers := s.writers + [Writer(op, [], Spooling)]);
  }

  lemma SpoolRuns(s: State, op: Op, failed: bool)
    requires !failed ==> op.declared < 0 || |op.body| == op.declared
    ensures Run(s, SpoolSteps(|s.writers|, op, failed))
         == With(s, op, if failed then Returned(IoError) else Spooled, false)
  {
    var i := |s.writers|;
    RunTwo(s, Begin(op), Spool(i, |op.body|));
    Spools(s, op);
    RunOneMore(s, [Begin(op), Spool(i, |op.body|)], SpoolEnds(i, failed));
    hide Run;
  }

  lemma CheckRuns(s: State, op: Op, broken: bool)
    requires op.handle !in s.locks
    ensures var pc := if broken then Refused(IoError)
                      else if Holds(s.files, op.key, op.ifMatch) then Checked else Refused(PreconditionFailed);
            Run(With(s, op, Spooled, false), CheckSteps(|s.writers|, broken)) == With(s, op, pc, true)
  {
    RunTwo(With(s, op, Spooled, false), Lock(|s.writers|), Check(|s.writers|, broken));
    hide Run;
    assert Next(With(s, op, Spooled, false), Lock(|s.writers|)) == With(s, op, Locked, true);
  }

  /** A writer whose handle is free and whose precondition holds can be brought behind its check. */
  lemma ReachesCheck(s: State, op: Op)
    requires op.handle !in s.locks && op.declared < 0 && Holds(s.files, op.key, op.ifMatch)
    ensures Run(s, SpoolSteps(|s.writers|, op, false) + CheckSteps(|s.writers|, false)) == With(s, op, Checked, true)
  {
    hide Run, SpoolSteps, CheckSteps, With;
    SpoolRuns(s, op, false);
    RunConcat(s, SpoolSteps(|s.writers|, op, false), CheckSteps(|s.writers|, false));
    CheckRuns(s, op, false);
  }
}
