/** The filesystem store as an object: Put, PutStream and Delete as the methods of one handle, and a Put that runs
    undisturbed as a run of the step machine of module CasStore. */
module FsStores {
  import opened Objects
  import opened CasStore

  /** What the system may refuse: the body breaks off after so many bytes, the check or the commit fails, or the
      temporary file cannot be removed, which the code ignores. */
  datatype Faults = Faults(spool: Option<nat>, check: bool, commit: bool, sweep: bool)

  predicate SpoolFails(op: Op, faults: Faults) {
    (faults.spool.Some? && faults.spool.value <= |op.body|) || (op.declared >= 0 && |op.body| != op.declared)
  }

  /** A whole Put with nobody else at work. */
  function PutAlone(files: map<string, Bytes>, op: Op, faults: Faults): (r: (map<string, Bytes>, Outcome))
    ensures TakesEffect(files, op, r.1, r.0)
    ensures faults.spool.None? && !faults.check && !faults.commit && (op.declared < 0 || op.declared == |op.body|) ==>
      r.1 == if Holds(files, op.key, op.ifMatch) then Ok(Sum(op.body)) else PreconditionFailed
  {
    if SpoolFails(op, faults) || (faults.check && op.ifMatch != Any) then (files, IoError)
    else if !Holds(files, op.key, op.ifMatch) then (files, PreconditionFailed)
    else if faults.commit then (files, IoError)
    else (files[op.key := op.body], Ok(Sum(op.body)))
  }

  datatype Removal = Removed | Missing | NotRemoved

  class Store {
    var files: map<string, Bytes>
    var temps: map<nat, Bytes>   // temporary files, by the random number in their name
    var locked: bool

    /** Opens a root that may hold files already. */
    constructor (files: map<string, Bytes>)
      ensures this.files == files && temps == map[] && !locked
    {
      this.files, temps, locked := files, map[], false;
    }

    /** Copies the body to a new file in chunks of the sizes the system chooses, then checks its length. On failure
        the file is left for the caller to remove. */
    method WriteAndSync(t: nat, op: Op, faults: Faults, chunk: nat -> nat) returns (tag: Option<Tag>)
      requires t !in temps
      modifies this`temps
      ensures t in temps && temps - {t} == old(temps)
      ensures tag.Some? <==> !SpoolFails(op, faults)
      ensures tag.Some? ==> temps[t] == op.body && tag.value == Sum(op.body)
    {
      temps := temps[t := []];
      var n := 0;
      while true
        invariant n <= |op.body| && temps == old(temps)[t := op.body[..n]]
        invariant faults.spool.Some? ==> n <= faults.spool.value
        decreases |op.body| - n
      {
        var m := Min(Max(1, chunk(n)), |op.body| - n);
        if faults.spool.Some? {
          if faults.spool.value == n {
            return None;
          }
          m := Min(m, faults.spool.value - n);
        }
        if n == |op.body| {
          break;
        }
        n := n + m;
        temps := temps[t := op.body[..n]];
      }
      assert op.body[..n] == op.body;
      if op.declared >= 0 && n != op.declared {
        return None;
      }
      return Some(Sum(op.body));
    }

    method CheckIfMatch(key: string, ifMatch: IfMatch, broken: bool) returns (err: Option<Outcome>)
      ensures err == if ifMatch == Any then None
                     else if broken then Some(IoError)
                     else if Holds(files, key, ifMatch) then None else Some(PreconditionFailed)
    {
      if ifMatch == Any {
        return None;
      }
      if broken {
        return Some(IoError);
      }
      if ifMatch == Absent {
        return if key in files then Some(PreconditionFailed) else None;
      }
      if key !in files || Sum(files[key]) != ifMatch.tag {
        return Some(PreconditionFailed);
      }
      return None;
    }

    /** Removes the temporary file, if the system lets it. */
    method Sweep(t: nat, refused: bool)
      modifies this`temps
      ensures temps == if refused then old(temps) else old(temps) - {t}
    {
      if !refused {
        temps := temps - {t};
      }
    }

    /** Link refuses an existing file and leaves a second name to remove; Rename replaces and leaves none. */
    method Install(t: nat, key: string, mustBeAbsent: bool, broken: bool, stuck: bool) returns (err: Option<Outcome>)
      requires t in temps
      modifies this`files, this`temps
      ensures err == if broken then Some(IoError)
                     else if mustBeAbsent && key in old(files) then Some(PreconditionFailed) else None
      ensures err.None? ==> files == old(files)[key := old(temps)[t]]
      ensures err.None? ==> temps == if mustBeAbsent && stuck then old(temps) else old(temps) - {t}
      ensures err.Some? ==> files == old(files) && temps == old(temps)
    {
      if broken {
        return Some(IoError);
      }
      if mustBeAbsent {
        if key in files {
          return Some(PreconditionFailed);
        }
        files := files[key := temps[t]];
        Sweep(t, stuck);
        return None;
      }
      files, temps := files[key := temps[t]], temps - {t};
      return None;
    }

    /** Put, and PutStream when no length is declared: takes effect as one atomic operation and releases the lock. A
        temporary file stays behind exactly when it could not be removed and was not renamed away. */
    method Put(op: Op, t: nat, faults: Faults, chunk: nat -> nat) returns (outcome: Outcome)
      requires !locked && t !in temps
      modifies this
      ensures (files, outcome) == PutAlone(old(files), op, faults) && !locked
      ensures temps - {t} == old(temps)
      ensures t in temps <==> faults.sweep && !(outcome.Ok? && op.ifMatch != Absent)
    {
      var tag := WriteAndSync(t, op, faults, chunk);
      if tag.None? {
        Sweep(t, faults.sweep);
        return IoError;
      }
      locked := true;
      var err := CheckIfMatch(op.key, op.ifMatch, faults.check);
      if err.None? {
        err := Install(t, op.key, op.ifMatch == Absent, faults.commit, faults.sweep);
      }
      if err.Some? {
        Sweep(t, faults.sweep);
      }
      locked := false;
      outcome := if err.Some? then err.value else Ok(tag.value);
    }

    /** Removes the key, unless it is missing or the system refuses. */
    method Delete(key: string, broken: bool) returns (removal: Removal)
      modifies this`files
      ensures removal == if broken then NotRemoved else if key in old(files) then Removed else Missing
      ensures files == if removal.Removed? then old(files) - {key} else old(files)
    {
      if broken {
        return NotRemoved;
      }
      if key !in files {
        return Missing;
      }
      files := files - {key};
      return Removed;
    }
  }

  /* ---------- The same Put as steps ---------- */

  /** The steps of a Put by the writer that begins next. */
  function StepsOf(s: State, op: Op, faults: Faults): seq<Event> {
    var i := |s.writers|;
    var broken := faults.check && op.ifMatch != Any;
    if SpoolFails(op, faults) then SpoolSteps(i, op, true)
    else if broken || !Holds(s.files, op.key, op.ifMatch) then
      SpoolSteps(i, op, false) + CheckSteps(i, broken) + [Unlock(i)]
    else SpoolSteps(i, op, false) + CheckSteps(i, broken) + [Commit(i, faults.commit), Unlock(i)]
  }

  lemma CommitRuns(s: State, op: Op, broken: bool)
    requires Holds(s.files, op.key, op.ifMatch)
    ensures Next(With(s, op, Checked, true), Commit(|s.writers|, broken))
         == if broken then With(s, op, Refused(IoError), true)
            else With(s, op, Installed, true).(files := s.files[op.key := op.body])
  {
  }

  lemma UnlockRuns(s: State, op: Op, pc: Pc)
    requires op.handle !in s.locks && (pc.Installed? || pc.Refused?)
    ensures Next(With(s, op, pc, true), Unlock(|s.writers|))
         == With(s, op, Returned(if pc.Installed? then Ok(Sum(op.body)) else pc.error), false)
  {
    assert s.locks[op.handle := |s.writers|] - {op.handle} == s.locks;
  }

  /** Refinement: a Put that runs undisturbed on a free handle is a run of the step machine, with the same files
      and the same outcome, and the lock given back. */
  lemma PutAloneIsRun(s: State, op: Op, faults: Faults)
    requires op.handle !in s.locks
    ensures var (files, outcome) := PutAlone(s.files, op, faults);
            Run(s, StepsOf(s, op, faults))
            == s.(files := files, writers := s.writers + [Writer(op, op.body, Returned(outcome))])
  {
    var i := |s.writers|;
    var broken := faults.check && op.ifMatch != Any;
    var spooled, checked := SpoolSteps(i, op, false), CheckSteps(i, broken);
    SpoolRuns(s, op, SpoolFails(op, faults));
    if !SpoolFails(op, faults) {
      RunConcat(s, spooled, checked);
      CheckRuns(s, op, broken);
      if broken || !Holds(s.files, op.key, op.ifMatch) {
        RunOneMore(s, spooled + checked, Unlock(i));
        UnlockRuns(s, op, Refused(if broken then IoError else PreconditionFailed));
      } else {
        RunConcat(s, spooled + checked, [Commit(i, faults.commit), Unlock(i)]);
        RunTwo(With(s, op, Checked, true), Commit(i, faults.commit), Unlock(i));
        CommitRuns(s, op, faults.commit);
        UnlockRuns(s, op, Refused(IoError));
        UnlockRuns(s.(files := s.files[op.key := op.body]), op, Installed);
      }
    }
    hide Run, Next, SpoolSteps, CheckSteps;
  }
}
