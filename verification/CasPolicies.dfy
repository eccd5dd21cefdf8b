/** Which callers get an atomic register: a rule that says who may write and delete which key, and how. */
module CasPolicies {
  import opened CasStore
  import opened FsStores
  import opened Objects

  /** A write that asks nothing, one that asks for absence, and one that matches a tag. */
  datatype Kind = Blind | Create | Swap

  function KindOf(ifMatch: IfMatch): Kind {
    match ifMatch
    case Any => Blind
    case Absent => Create
    case Match(_) => Swap
  }

  /** `may(h, key, kind)`: handle `h` is used for such writes of the key; `del(key)`: the key is sometimes deleted. */
  datatype Policy = Policy(may: (nat, string, Kind) -> bool, del: string -> bool)

  predicate Allows(p: Policy, e: Event) {
    match e
    case Begin(op) => Lawful(p, op)
    case Delete(key) => p.del(key)
    case _ => true
  }

  ghost predicate Obeys(p: Policy, es: seq<Event>) {
    forall e :: e in es ==> Allows(p, e)
  }

  /** Something may bring the key into being. */
  ghost predicate Creatable(p: Policy, key: string) {
    exists g: nat :: p.may(g, key, Blind) || p.may(g, key, Create)
  }

  /** On a root that holds these files, every run of obedient callers is a run of the atomic register. */
  ghost predicate AlwaysAtomic(p: Policy, files: map<string, Bytes>) {
    forall es :: Obeys(p, es) ==> Refines(Initially(files), es)
  }

  /** The key is there or may come into being. */
  ghost predicate Possible(p: Policy, files: map<string, Bytes>, key: string) {
    key in files || Creatable(p, key)
  }

  /** A key that some handle updates by matching tags is never deleted, and no other handle replaces it. Writes that
      ask for absence may come from anywhere. */
  ghost predicate OneSwapper(p: Policy, files: map<string, Bytes>) {
    forall h: nat, key: string :: p.may(h, key, Swap) && Possible(p, files, key) ==> SwapsAlone(p, h, key)
  }

  ghost predicate SwapsAlone(p: Policy, h: nat, key: string) {
    !p.del(key) && forall g: nat :: p.may(g, key, Blind) || p.may(g, key, Swap) ==> g == h
  }

  /* ---------- Such a policy is enough ---------- */

  /** Every tag that a writer past its check has matched is current. */
  ghost predicate Stands(s: State) {
    forall i :: 0 <= i < |s.writers| && s.writers[i].pc == Checked && s.writers[i].op.ifMatch.Match? ==>
      Holds(s.files, s.writers[i].op.key, s.writers[i].op.ifMatch)
  }

  predicate Lawful(p: Policy, op: Op) {
    p.may(op.handle, op.key, KindOf(op.ifMatch))
  }

  ghost predicate Permitted(p: Policy, files: map<string, Bytes>, s: State) {
    && (forall i :: 0 <= i < |s.writers| ==> Lawful(p, s.writers[i].op))
    && (forall key :: key in s.files ==> Possible(p, files, key))
  }

  lemma PermittedStep(p: Policy, files: map<string, Bytes>, s: State, e: Event)
    requires Inv(s) && Stands(s) && Permitted(p, files, s) && Allows(p, e)
    ensures Permitted(p, files, Next(s, e))
  {
    var t := Next(s, e);
    forall i: nat | i < |t.writers|
      ensures Lawful(p, t.writers[i].op)
    {
      if i < |s.writers| {
        DecidedKept(s, e, i);
      }
    }
    forall key | key in t.files && key !in s.files
      ensures Possible(p, files, key)
    {
      assert e.Commit? && At(s, e.i, Checked) && key == s.writers[e.i].op.key;
      var op := s.writers[e.i].op;
      assert Lawful(p, op);
    }
  }

  /** Between the check and the commit of a swap, nothing that is allowed touches its key. */
  lemma SwapUndisturbed(p: Policy, files: map<string, Bytes>, s: State, e: Event, i: nat)
    requires OneSwapper(p, files) && Inv(s) && Stands(s) && Permitted(p, files, s) && Allows(p, e)
    requires i < |s.writers| && s.writers[i].pc == Checked && s.writers[i].op.ifMatch.Match? && i != Concerns(s, e)
    ensures Holds(Next(s, e).files, s.writers[i].op.key, s.writers[i].op.ifMatch)
  {
    var op := s.writers[i].op;
    assert SwapsAlone(p, op.handle, op.key);
    if e.Commit? && At(s, e.i, Checked) {
      assert CasStore.Exclusive(s, i) && CasStore.Exclusive(s, e.i);
      var other := s.writers[e.i].op;
      assert Lawful(p, other);
    }
  }

  lemma StandsStep(p: Policy, files: map<string, Bytes>, s: State, e: Event)
    requires OneSwapper(p, files) && Inv(s) && Stands(s) && Permitted(p, files, s) && Allows(p, e)
    ensures Stands(Next(s, e)) && !StaleSwap(s, e)
  {
    var t := Next(s, e);
    forall i: nat | i < |t.writers| && t.writers[i].pc == Checked && t.writers[i].op.ifMatch.Match?
      ensures Holds(t.files, t.writers[i].op.key, t.writers[i].op.ifMatch)
    {
      if i != Concerns(s, e) {
        OthersUnchanged(s, e, i);
        SwapUndisturbed(p, files, s, e, i);
      } else {
        JustChecked(s, e);
      }
    }
    hide Next, Inv, Permitted, OneSwapper;
  }

  lemma JustChecked(s: State, e: Event)
    requires 0 <= Concerns(s, e) < |Next(s, e).writers| && Next(s, e).writers[Concerns(s, e)].pc == Checked && Stands(s)
    ensures var op := Next(s, e).writers[Concerns(s, e)].op;
            op.ifMatch.Match? ==> Holds(Next(s, e).files, op.key, op.ifMatch)
  {
  }

  lemma {:induction false} ObedientIsCurrent(p: Policy, files: map<string, Bytes>, s: State, es: seq<Event>)
    requires OneSwapper(p, files) && Inv(s) && Stands(s) && Permitted(p, files, s) && Obeys(p, es)
    ensures TagsCurrent(s, es)
    decreases |es|
  {
    if es != [] {
      assert es[0] in es;
      StandsStep(p, files, s, es[0]);
      PermittedStep(p, files, s, es[0]);
      InvStep(s, es[0]);
      hide Inv, Stands, Permitted, Next, StaleSwap, OneSwapper;
      ObedientIsCurrent(p, files, Next(s, es[0]), es[1..]);
    }
  }

  /* ---------- Any other policy fails ---------- */

  lemma {:induction false} StaleAtEnd(s: State, es: seq<Event>, e: Event)
    requires StaleSwap(Run(s, es), e)
    ensures !TagsCurrent(s, es + [e])
    decreases |es|
  {
    hide StaleSwap, Next;
    if es == [] {
      assert [] + [e] == [e];
    } else {
      assert (es + [e])[1..] == es[1..] + [e];
      StaleAtEnd(Next(s, es[0]), es[1..], e);
    }
  }

  lemma StaleRefutes(p: Policy, files: map<string, Bytes>, es: seq<Event>, e: Event)
    requires Obeys(p, es + [e]) && StaleSwap(Run(Initially(files), es), e)
    ensures !AlwaysAtomic(p, files)
  {
    StaleAtEnd(Initially(files), es, e);
    AtomicExactlyWhenCurrent(Initially(files), es + [e]);
    hide Refines, TagsCurrent, Obeys;
  }

  const NO_FAULTS := Faults(None, false, false, false)

  /** The writes that bring the key into being, if it is not there. */
  function Begun(files: map<string, Bytes>, g: nat, key: string, ifMatch: IfMatch): seq<Event> {
    if key in files then [] else StepsOf(Initially(files), Op(g, key, [], -1, ifMatch), NO_FAULTS)
  }

  lemma BegunRuns(files: map<string, Bytes>, g: nat, key: string, ifMatch: IfMatch)
    requires !ifMatch.Match?
    ensures var s := Run(Initially(files), Begun(files, g, key, ifMatch)); key in s.files && s.locks == map[]
  {
    PutAloneIsRun(Initially(files), Op(g, key, [], -1, ifMatch), NO_FAULTS);
    hide StepsOf;
  }

  function ToCheck(i: nat, op: Op): seq<Event> {
    SpoolSteps(i, op, false) + CheckSteps(i, false)
  }

  /** A handle replaces the current body, by its tag, with the body and one more byte. */
  function Update(s: State, h: nat, key: string, more: Byte, blind: bool): Op
    requires key in s.files
  {
    Op(h, key, s.files[key] + [more], -1, if blind then Any else Match(Sum(s.files[key])))
  }

  /** Both writes in this order, alone, explain the files. */
  predicate InOrder(files: map<string, Bytes>, first: Op, second: Op, after: map<string, Bytes>) {
    && Holds(files, first.key, first.ifMatch)
    && Holds(files[first.key := first.body], second.key, second.ifMatch)
    && after == files[first.key := first.body][second.key := second.body]
  }

  function DeletedUpdate(s: State, h: nat, key: string): seq<Event>
    requires key in s.files
  {
    ToCheck(|s.writers|, Update(s, h, key, 0, false)) + [Delete(key)]
  }

  /** A Delete inside a window: from any state in which the key is there and the handle is free, a writer that matched
      a tag succeeds although nothing is there to match. Neither order of the two explains what is left. */
  lemma DeleteInWindowBreaksMatch(s: State, h: nat, key: string)
    requires key in s.files && h !in s.locks
    ensures var t, i, op := Run(s, DeletedUpdate(s, h, key)), |s.writers|, Update(s, h, key, 0, false);
            var u := Next(t, Commit(i, false));
            && StaleSwap(t, Commit(i, false)) && key !in t.files
            && Decided(u.writers[i]) == Some(Ok(Sum(op.body)))
            && u.files != s.files[key := op.body] - {key} && !Holds(s.files - {key}, key, op.ifMatch)
  {
    var op := Update(s, h, key, 0, false);
    ReachesCheck(s, op);
    RunOneMore(s, ToCheck(|s.writers|, op), Delete(key));
    DeletedCommit(s, op);
    hide Run, SpoolSteps, CheckSteps, Next, With;
  }

  lemma DeletedCommit(s: State, op: Op)
    requires op.ifMatch.Match? && op.key in s.files
    ensures var t := Next(With(s, op, Checked, true), Delete(op.key));
            var u := Next(t, Commit(|s.writers|, false));
            && StaleSwap(t, Commit(|s.writers|, false)) && op.key !in t.files && |u.writers| == |s.writers| + 1
            && Decided(u.writers[|s.writers|]) == Some(Ok(Sum(op.body))) && op.key in u.files
  {
  }

  function LostUpdate(s: State, h: nat, other: nat, blind: bool, key: string): seq<Event>
    requires key in s.files
  {
    ToCheck(|s.writers|, Update(s, other, key, 0, blind)) + ToCheck(|s.writers| + 1, Update(s, h, key, 1, false))
    + [Commit(|s.writers|, false)]
  }

  /** Two handles: from any state in which the key is there and both are free, a writer that matched a tag succeeds
      although the other has replaced what it matched. Neither order of the two explains what is left. */
  lemma TwoHandlesLoseUpdate(s: State, h: nat, other: nat, blind: bool, key: string)
    requires key in s.files && h !in s.locks && other !in s.locks && h != other
    ensures var t, i := Run(s, LostUpdate(s, h, other, blind, key)), |s.writers|;
            var u := Next(t, Commit(i + 1, false));
            var op1, op2 := Update(s, other, key, 0, blind), Update(s, h, key, 1, false);
            && StaleSwap(t, Commit(i + 1, false))
            && Decided(u.writers[i]) == Some(Ok(Sum(op1.body))) && Decided(u.writers[i + 1]) == Some(Ok(Sum(op2.body)))
            && !InOrder(s.files, op1, op2, u.files) && !InOrder(s.files, op2, op1, u.files)
  {
    var i := |s.writers|;
    var op1, op2 := Update(s, other, key, 0, blind), Update(s, h, key, 1, false);
    BothChecked(s, op1, op2);
    RunOneMore(s, ToCheck(i, op1) + ToCheck(i + 1, op2), Commit(i, false));
    BodiesDiffer(s.files[key]);
    LostCommit(s, op1, op2);
    NoOrder(s, op1, op2);
    hide Run, ToCheck, Next, With, InOrder, StaleSwap;
  }

  /** Two writers on free handles, both past their checks. */
  lemma BothChecked(s: State, op1: Op, op2: Op)
    requires op1.handle !in s.locks && op2.handle !in s.locks && op1.handle != op2.handle
    requires op1.declared < 0 && op2.declared < 0
    requires Holds(s.files, op1.key, op1.ifMatch) && Holds(s.files, op2.key, op2.ifMatch)
    ensures Run(s, ToCheck(|s.writers|, op1) + ToCheck(|s.writers| + 1, op2))
         == With(With(s, op1, Checked, true), op2, Checked, true)
  {
    ReachesCheck(s, op1);
    RunConcat(s, ToCheck(|s.writers|, op1), ToCheck(|s.writers| + 1, op2));
    ReachesCheck(With(s, op1, Checked, true), op2);
    hide Run, SpoolSteps, CheckSteps;
  }

  lemma BodiesDiffer(body: Bytes)
    ensures body + [0] != body + [1] && body + [0] != body && body + [1] != body
  {
    assert (body + [0])[|body|] != (body + [1])[|body|];
  }

  lemma LostCommit(s: State, op1: Op, op2: Op)
    requires op1.key == op2.key && !op1.ifMatch.Absent? && op2.ifMatch.Match? && op2.ifMatch.tag != Sum(op1.body)
    ensures var i := |s.writers|;
            var t := Next(With(With(s, op1, Checked, true), op2, Checked, true), Commit(i, false));
            var u := Next(t, Commit(i + 1, false));
            && StaleSwap(t, Commit(i + 1, false)) && |u.writers| == i + 2
            && Decided(u.writers[i]) == Some(Ok(Sum(op1.body))) && Decided(u.writers[i + 1]) == Some(Ok(Sum(op2.body)))
            && u.files == s.files[op1.key := op1.body][op2.key := op2.body]
  {
  }

  lemma NoOrder(s: State, op1: Op, op2: Op)
    requires op1.key == op2.key && op1.key in s.files && op1.body != op2.body
    requires op1.body != s.files[op1.key] && op2.body != s.files[op1.key]
    requires op1.ifMatch in {Any, Match(Sum(s.files[op1.key]))} && op2.ifMatch == Match(Sum(s.files[op1.key]))
    ensures var after := s.files[op1.key := op1.body][op2.key := op2.body];
            !InOrder(s.files, op1, op2, after) && !InOrder(s.files, op2, op1, after)
  {
    var after := s.files[op1.key := op1.body][op2.key := op2.body];
    assert after[op1.key] == op2.body;
    assert s.files[op2.key := op2.body][op1.key := op1.body][op1.key] == op1.body;
  }

  lemma ObeyedDelete(p: Policy, s: State, h: nat, key: string, e: Event)
    requires key in s.files && p.may(h, key, Swap) && p.del(key) && e.Commit?
    ensures Obeys(p, DeletedUpdate(s, h, key) + [e])
  {
  }

  lemma ObeyedUpdates(p: Policy, s: State, h: nat, other: nat, blind: bool, key: string, e: Event)
    requires key in s.files && p.may(h, key, Swap) && p.may(other, key, if blind then Blind else Swap) && e.Commit?
    ensures Obeys(p, LostUpdate(s, h, other, blind, key) + [e])
  {
  }

  lemma ObeyedBegun(p: Policy, files: map<string, Bytes>, g: nat, key: string, ifMatch: IfMatch)
    requires key in files || p.may(g, key, KindOf(ifMatch))
    ensures Obeys(p, Begun(files, g, key, ifMatch))
  {
  }

  /** A run that goes stale after an obedient beginning. */
  lemma StaleAfter(p: Policy, files: map<string, Bytes>, before: seq<Event>, es: seq<Event>, e: Event)
    requires Obeys(p, before) && Obeys(p, es + [e]) && StaleSwap(Run(Run(Initially(files), before), es), e)
    ensures !AlwaysAtomic(p, files)
  {
    hide StaleSwap, AlwaysAtomic, Run;
    RunConcat(Initially(files), before, es);
    assert before + es + [e] == before + (es + [e]);
    StaleRefutes(p, files, before + es, e);
  }

  lemma OtherPolicyFails(p: Policy, files: map<string, Bytes>, h: nat, key: string)
    requires p.may(h, key, Swap) && Possible(p, files, key) && !SwapsAlone(p, h, key)
    ensures !AlwaysAtomic(p, files)
  {
    hide Obeys, AlwaysAtomic, DeletedUpdate, LostUpdate, StaleSwap, Run, Begun;
    var g: nat :| key in files || p.may(g, key, Blind) || p.may(g, key, Create);
    var first := if p.may(g, key, Blind) then Any else Absent;
    var before := Begun(files, g, key, first);
    var s := Run(Initially(files), before);
    var i := |s.writers|;
    BegunRuns(files, g, key, first);
    ObeyedBegun(p, files, g, key, first);
    if p.del(key) {
      ObeyedDelete(p, s, h, key, Commit(i, false));
      DeleteInWindowBreaksMatch(s, h, key);
      StaleAfter(p, files, before, DeletedUpdate(s, h, key), Commit(i, false));
    } else {
      var other: nat :| (p.may(other, key, Blind) || p.may(other, key, Swap)) && other != h;
      var blind := p.may(other, key, Blind);
      ObeyedUpdates(p, s, h, other, blind, key, Commit(i + 1, false));
      TwoHandlesLoseUpdate(s, h, other, blind, key);
      StaleAfter(p, files, before, LostUpdate(s, h, other, blind, key), Commit(i + 1, false));
    }
  }

  /** Main result: on a root with any files, a rule for callers gives every run an atomic register if and only if each
      key that is updated by matching tags, and is there or can come into being, is never deleted and is replaced
      through one handle only. */
  lemma PolicyIsAtomicExactlyWhen(p: Policy, files: map<string, Bytes>)
    ensures AlwaysAtomic(p, files) <==> OneSwapper(p, files)
  {
    if OneSwapper(p, files) {
      forall es | Obeys(p, es)
        ensures Refines(Initially(files), es)
      {
        ObedientIsCurrent(p, files, Initially(files), es);
        AtomicExactlyWhenCurrent(Initially(files), es);
      }
    } else {
      var h: nat, key :| p.may(h, key, Swap) && Possible(p, files, key) && !SwapsAlone(p, h, key);
      OtherPolicyFails(p, files, h, key);
    }
  }
}
