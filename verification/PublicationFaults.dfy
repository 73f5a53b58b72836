/** Failed calls after which the publisher goes on: what they can break, exactly when, and how. */
module PublicationFaults {
  import opened Prelude
  import opened Publication
  import opened PublicationProgress

  /** A call fails and the work goes on. */
  predicate IsFault(a: Action) { a.Fail? || a.FailProbe? }

  /** Neither such a failure nor outside damage; crashes and readers are free. */
  predicate IsCalm(a: Action) { !IsFault(a) && !a.DamageActive? && !a.DamagePrevious? }

  ghost predicate Calm(actions: seq<Action>) {
    forall i :: 0 <= i < |actions| ==> IsCalm(actions[i])
  }

  // ---------------------------------------------------------------------------------------
  // Applying actions
  // ---------------------------------------------------------------------------------------

  /** The states met on the way are a run. */
  lemma {:induction false} Extend(states: seq<State>, actions: seq<Action>) returns (longer: seq<State>)
    requires Run(states) && Apply(states[|states| - 1], actions).Some?
    ensures Run(longer) && longer[|longer| - 1] == Apply(states[|states| - 1], actions).value
    decreases |actions|
  {
    longer := states;
    if actions != [] {
      var t := Step(states[|states| - 1], actions[0]).value;
      OneMore(states, actions[0], t);
      hide Step, Run;
      longer := Extend(states + [t], actions[1..]);
    }
  }

  lemma OneMore(states: seq<State>, a: Action, t: State)
    requires Run(states) && Step(states[|states| - 1], a) == Some(t)
    ensures Run(states + [t])
  {
    var longer := states + [t];
    forall i | 0 < i < |longer| ensures StepsAt(longer, i) {
      if i < |states| {
        assert StepsAt(states, i);
        StepsAlike(states, longer, i);
      } else {
        assert Step(longer[i - 1], a) == Some(longer[i]);
      }
    }
  }

  lemma StepsAlike(states: seq<State>, longer: seq<State>, i: nat)
    requires 0 < i < |states| <= |longer| && states[i - 1] == longer[i - 1] && states[i] == longer[i]
    requires StepsAt(states, i)
    ensures StepsAt(longer, i)
  {
  }

  // ---------------------------------------------------------------------------------------
  // Without failures
  // ---------------------------------------------------------------------------------------

  /** No failure has left a trace, and none is under way. */
  ghost predicate Unfaulted(s: State) {
    && s.log.stranded == {} && !s.log.unkept && !s.log.misjudged
    && match s.pc
       case ReadingPrevious(_) => !s.active.Valid?
       case Deciding(_, local, repair) =>
         if repair then !s.active.Valid? else s.active.Valid? ==> local == Some(s.active.p)
       case RemovingLease(file) => file !in s.files
       case Locking(_, _, file, orphan) => orphan ==> file !in s.files
       case UnlinkingLease(_, _, file) => file !in s.files
       case _ => true
  }

  lemma CalmPrepare(s: State, a: Action)
    requires Unfaulted(s) && !IsFault(a) && IsPreparing(s.pc) && Prepare(s, a).Some?
    ensures Unfaulted(Prepare(s, a).value)
  {
  }

  lemma CalmPublish(s: State, a: Action)
    requires Unfaulted(s) && !IsFault(a) && IsPublishing(s.pc) && Publish(s, a).Some?
    ensures Unfaulted(Publish(s, a).value)
  {
  }

  lemma CalmActivate(s: State, a: Action)
    requires Unfaulted(s) && !IsFault(a) && IsActivating(s.pc) && Activate(s, a).Some?
    ensures Unfaulted(Activate(s, a).value)
  {
  }

  lemma CalmPrune(s: State, a: Action)
    requires Unfaulted(s) && !IsFault(a) && IsPruning(s.pc) && Prune(s, a).Some?
    ensures Unfaulted(Prune(s, a).value)
  {
  }

  lemma CalmStep(s: State, a: Action)
    requires Unfaulted(s) && !IsFault(a) && Step(s, a).Some?
    ensures Unfaulted(Step(s, a).value)
  {
    hide Prepare, Publish, Activate, Prune, Reading;
    if IsReading(a) {
      ReadingIsLocal(s, a.r, a);
    } else if IsOutside(a) {
    } else if IsPreparing(s.pc) {
      CalmPrepare(s, a);
    } else if IsPublishing(s.pc) {
      CalmPublish(s, a);
    } else if IsActivating(s.pc) {
      CalmActivate(s, a);
    } else {
      CalmPrune(s, a);
    }
  }

  ghost predicate FaultFree(states: seq<State>) {
    states != [] && states[0] == Initial() && forall i :: 0 < i < |states| ==> FreeAt(states, i)
  }

  ghost predicate FreeAt(states: seq<State>, i: nat)
    requires 0 < i < |states|
  {
    LeadsFree(states[i - 1], states[i])
  }

  ghost predicate LeadsFree(s: State, t: State) {
    exists a: Action :: !IsFault(a) && Step(s, a) == Some(t)
  }

  lemma FreeActionBefore(states: seq<State>, i: nat) returns (a: Action)
    requires FaultFree(states) && 0 < i < |states|
    ensures !IsFault(a) && Step(states[i - 1], a) == Some(states[i])
  {
    assert FreeAt(states, i);
    a :| !IsFault(a) && Step(states[i - 1], a) == Some(states[i]);
  }

  lemma {:induction false} FaultFreeIsUnfaulted(states: seq<State>, i: nat)
    requires FaultFree(states) && i < |states|
    ensures Unfaulted(states[i])
  {
    assert Unfaulted(Initial());
    if i > 0 {
      FaultFreeIsUnfaulted(states, i - 1);
      var a := FreeActionBefore(states, i);
      hide Step, Unfaulted;
      CalmStep(states[i - 1], a);
    }
  }

  lemma FaultFreeIsRun(states: seq<State>)
    requires FaultFree(states)
    ensures Run(states)
  {
    forall i | 0 < i < |states| ensures StepsAt(states, i) {
      var a := FreeActionBefore(states, i);
      assert Leads(states[i - 1], states[i]);
    }
  }

  /** With crashes anywhere but no such failure: both pointers name intact files, every open reader
      holds its lease, and, unless damaged from outside, activations ascend. */
  lemma FaultFreeIsSafe(states: seq<State>, i: nat)
    requires FaultFree(states) && i < |states|
    ensures var s := states[i];
            && PointerOk(s, s.active) && PointerOk(s, s.previous)
            && (forall n :: n in s.files ==> n in s.leases)
            && (forall r :: r in s.readers && s.readers[r].Opened? ==> (r, s.readers[r].file) in s.shared)
            && (!s.log.damaged ==> Ascending(s.log.history))
  {
    FaultFreeIsRun(states);
    FaultFreeIsUnfaulted(states, i);
    RunKeepsInv(states, i);
    forall r | r in states[i].readers && states[i].readers[r].Opened?
      ensures (r, states[i].readers[r].file) in states[i].shared
    {
      OpenReadersAreSafe(states, i, r);
    }
  }

  // ---------------------------------------------------------------------------------------
  // A failed read of `active`
  // ---------------------------------------------------------------------------------------

  /** Activations may still step back, though nothing more fails. */
  ghost predicate CanStepBack(s: State) {
    exists actions :: StepsBack(s, actions)
  }

  ghost predicate StepsBack(s: State, actions: seq<Action>) {
    Calm(actions) && Apply(s, actions).Some? && !Ascending(Apply(s, actions).value.log.history)
  }

  /** No release has been misjudged, and none is being judged past a readable `active`. */
  ghost predicate WellJudged(s: State) {
    && !s.log.damaged && !s.log.misjudged
    && match s.pc
       case ReadingPrevious(_) => !s.active.Valid?
       case Deciding(_, _, repair) => repair ==> !s.active.Valid?
       case _ => true
  }

  lemma WellJudgedPrepare(s: State, a: Action)
    requires PointersInv(s) && WellJudged(s) && IsCalm(a) && IsPreparing(s.pc) && Prepare(s, a).Some?
    ensures WellJudged(Prepare(s, a).value)
  {
  }

  lemma OnlyPreparingJudges(s: State, a: Action)
    requires IsCalm(a) && !IsReading(a) && !IsOutside(a) && !IsPreparing(s.pc) && Publisher(s, a).Some?
    ensures var t := Publisher(s, a).value;
            t.log.damaged == s.log.damaged && t.log.misjudged == s.log.misjudged
            && !t.pc.ReadingPrevious? && !t.pc.Deciding?
  {
    if IsPublishing(s.pc) {
    } else if IsActivating(s.pc) {
    } else {
      PruneMovesNoPointer(s, a);
    }
  }

  lemma WellJudgedStep(s: State, a: Action)
    requires Inv(s) && WellJudged(s) && IsCalm(a) && Step(s, a).Some?
    ensures WellJudged(Step(s, a).value)
  {
    hide Reading, Prepare;
    if IsReading(a) {
      ReadingIsLocal(s, a.r, a);
    } else if IsOutside(a) {
    } else if IsPreparing(s.pc) {
      WellJudgedPrepare(s, a);
    } else {
      OnlyPreparingJudges(s, a);
    }
  }

  lemma {:induction false} WellJudgedAscends(s: State, actions: seq<Action>)
    requires Inv(s) && WellJudged(s) && Calm(actions) && Apply(s, actions).Some?
    ensures Ascending(Apply(s, actions).value.log.history)
    decreases |actions|
  {
    if actions != [] {
      assert IsCalm(actions[0]);
      WellJudgedStep(s, actions[0]);
      StepKeepsInv(s, actions[0]);
      hide Step, Inv, WellJudged, Ascending, IsCalm;
      WellJudgedAscends(Step(s, actions[0]).value, actions[1..]);
    }
  }

  lemma {:induction false} SwitchAnyway(s: State, target: Pointer) returns (actions: seq<Action>)
    requires s.pc == ReadingOld(target)
    ensures Calm(actions) && Apply(s, actions) == Some(Switched(s, target))
  {
    if s.active.Valid? && s.active.p.file != target.file && s.active.p.sha != target.sha {
      actions := [ReadOld, HashOld(false), WriteActive];
      var s1, s2 := s.(pc := HashingOld(target, s.active.p)), s.(pc := WritingActive(target));
      assert Step(s, ReadOld) == Some(s1);
      assert Step(s1, HashOld(false)) == Some(s2);
      assert Step(s2, WriteActive) == Some(Switched(s, target));
      hide Step, Apply, Switched;
      Rest(Switched(s, target));
      Then(s2, WriteActive, Switched(s, target), []);
      Then(s1, HashOld(false), s2, [WriteActive]);
      Then(s, ReadOld, s1, [HashOld(false), WriteActive]);
    } else {
      actions := [ReadOld, WriteActive];
      TargetIsActivated(s, target);
    }
  }

  lemma SwitchStepsBack(s: State, target: Pointer)
    requires HistoryInv(s) && !s.log.damaged && !Allows(s.active, target.gen, target.sha)
    ensures !Ascending(Switched(s, target).log.history)
  {
    var h := Switched(s, target).log.history;
    assert h[|h| - 2] == s.active.p && h[|h| - 1] == target;
    assert !Follows(h[|h| - 2], h[|h| - 1]);
  }

  lemma {:induction false} FreshSuffix(used: set<Name>, sha: Digest) returns (suffix: nat)
    ensures forall k :: k >= suffix ==> Name(sha, k) !in used
    decreases |used|
  {
    if used == {} {
      suffix := 0;
    } else {
      var n :| n in used;
      suffix := FreshSuffix(used - {n}, sha);
      if suffix <= n.suffix { suffix := n.suffix + 1; }
    }
  }

  lemma {:induction false} PlaceAnyway(s: State, m: Manifest) returns (actions: seq<Action>, suffix: nat)
    requires s.pc == LookingUp(m)
    ensures Calm(actions) && Apply(s, actions) == Some(Placed(s, m, suffix))
  {
    suffix := FreshSuffix(s.log.used, m.sha);
    var s1 := s.(pc := CreatingLease(m));
    assert Step(s, LookUp(None)) == Some(s1);
    assert Placed(s, m, suffix) == Placed(s1, m, suffix);
    FileIsPlaced(s1, m, suffix);
    hide Step, Apply, Placed;
    Then(s, LookUp(None), s1, [CreateLease(suffix), Place(m.sha), Verify(true)]);
    actions := [LookUp(None)] + [CreateLease(suffix), Place(m.sha), Verify(true)];
  }

  lemma {:induction false} PublishAnyway(s: State, m: Manifest) returns (actions: seq<Action>)
    requires HistoryInv(s) && !s.log.damaged && s.pc == LookingUp(m) && !Allows(s.active, m.gen, m.sha)
    ensures StepsBack(s, actions)
  {
    var place, suffix := PlaceAnyway(s, m);
    var t, target := Placed(s, m, suffix), Pointer(Name(m.sha, suffix), m.gen, m.sha);
    assert HistoryInv(t) && t.pc == ReadingOld(target) && t.active == s.active && !t.log.damaged;
    hide Step, Apply, HistoryInv, Allows, Ascending, Switched, Placed;
    var last := SwitchAnyway(t, target);
    SwitchStepsBack(t, target);
    ApplyConcat(s, place, last);
    actions := place + last;
  }

  /** Exactly when a judgement lets activations step back: `active` could not be read, the pointer read
      in its place does not refuse the release, and what is to be activated, that pointer or the
      release, may not follow the `active` that was there. */
  lemma MisjudgementExactly(s: State, m: Manifest, local: Option<Pointer>, repair: bool, intact: bool)
    requires Inv(s) && !s.log.damaged && !s.log.misjudged && s.pc == Deciding(m, local, repair)
    requires Step(s, Decide(intact)).Some?
    ensures var refused := local.Some? && !Allows(Valid(local.value), m.gen, m.sha);
            var served := local.Some? && local.value.sha == m.sha && intact;
            CanStepBack(Step(s, Decide(intact)).value) <==>
              && repair && !refused
              && !(if served then Allows(s.active, local.value.gen, m.sha) else Allows(s.active, m.gen, m.sha))
  {
    var t := Step(s, Decide(intact)).value;
    StepKeepsInv(s, Decide(intact));
    var refused := local.Some? && !Allows(Valid(local.value), m.gen, m.sha);
    var served := local.Some? && local.value.sha == m.sha && intact;
    var blind := repair && !refused
      && !(if served then Allows(s.active, local.value.gen, m.sha) else Allows(s.active, m.gen, m.sha));
    JudgeOutcome(s, m, local, repair, intact);
    hide Step, Inv, Allows;
    if blind {
      if served {
        var actions := SwitchAnyway(t, local.value);
        SwitchStepsBack(t, local.value);
        assert StepsBack(t, actions);
      } else {
        var actions := PublishAnyway(t, m);
        assert StepsBack(t, actions);
      }
    } else if CanStepBack(t) {
      var actions :| StepsBack(t, actions);
      WellJudgedAscends(t, actions);
    }
  }

  lemma JudgeOutcome(s: State, m: Manifest, local: Option<Pointer>, repair: bool, intact: bool)
    requires PointersInv(s) && HistoryInv(s) && !s.log.damaged && !s.log.misjudged && s.pc == Deciding(m, local, repair)
    requires Step(s, Decide(intact)).Some?
    ensures var t := Step(s, Decide(intact)).value;
            var refused := local.Some? && !Allows(Valid(local.value), m.gen, m.sha);
            var served := local.Some? && local.value.sha == m.sha && intact;
            var blind := repair && !refused
              && !(if served then Allows(s.active, local.value.gen, m.sha) else Allows(s.active, m.gen, m.sha));
            if !blind then WellJudged(t)
            else HistoryInv(t) && !t.log.damaged && t.active == s.active
                 && t.pc == (if served then ReadingOld(local.value) else LookingUp(m))
  {
  }

  // ---------------------------------------------------------------------------------------
  // A failed read of `previous`
  // ---------------------------------------------------------------------------------------

  /** `previous` may still lose its file, though nothing more fails. */
  ghost predicate CanLosePrevious(s: State) {
    exists actions :: LosesPrevious(s, actions)
  }

  ghost predicate LosesPrevious(s: State, actions: seq<Action>) {
    Calm(actions) && Apply(s, actions).Some? && !PointerOk(Apply(s, actions).value, Apply(s, actions).value.previous)
  }

  lemma CalmPruneKeeps(s: State, a: Action)
    requires !s.log.unkept && IsCalm(a) && IsPruning(s.pc) && Prune(s, a).Some?
    ensures !Prune(s, a).value.log.unkept
  {
  }

  lemma CalmKeeps(s: State, a: Action)
    requires !s.log.unkept && IsCalm(a) && Step(s, a).Some?
    ensures !Step(s, a).value.log.unkept
  {
    hide Reading, Prepare, Prune;
    if IsReading(a) {
      ReadingIsLocal(s, a.r, a);
    } else if IsOutside(a) {
    } else if IsPreparing(s.pc) {
      PrepareMovesOnly(s, a);
    } else if IsPublishing(s.pc) {
    } else if IsActivating(s.pc) {
    } else {
      CalmPruneKeeps(s, a);
    }
  }

  lemma {:induction false} KeptStaysIntact(s: State, actions: seq<Action>)
    requires Inv(s) && !s.log.unkept && Calm(actions) && Apply(s, actions).Some?
    ensures PointerOk(Apply(s, actions).value, Apply(s, actions).value.previous)
    decreases |actions|
  {
    if actions != [] {
      assert IsCalm(actions[0]);
      CalmKeeps(s, actions[0]);
      StepKeepsInv(s, actions[0]);
      hide Step, Inv, IsCalm, PointerOk;
      KeptStaysIntact(Step(s, actions[0]).value, actions[1..]);
    }
  }

  lemma CloseReader(s: State, r: nat, file: Name)
    requires LockInv(s) && (r, file) in s.shared
    ensures var t := s.(readers := s.readers[r := Gone(file)], shared := s.shared - {(r, file)});
            Step(s, Close(r)) == Some(t) && LockInv(t)
  {
    ReadingKeepsLocks(s, r, Close(r));
  }

  function Holders(s: State, file: Name): set<(nat, Name)> {
    set h | h in s.shared && h.1 == file
  }

  /** Every reader of a file may close it. */
  lemma {:induction false} CloseReaders(s: State, file: Name) returns (actions: seq<Action>, t: State)
    requires LockInv(s)
    ensures Calm(actions) && Apply(s, actions) == Some(t) && LockInv(t) && !Held(t, file)
    ensures t == s.(readers := t.readers, shared := t.shared)
    decreases |Holders(s, file)|
  {
    if Held(s, file) {
      var r :| r in s.readers && (r, file) in s.shared;
      CloseReader(s, r, file);
      var s1 := s.(readers := s.readers[r := Gone(file)], shared := s.shared - {(r, file)});
      assert (r, file) in Holders(s, file);
      assert Holders(s1, file) == Holders(s, file) - {(r, file)};
      var rest: seq<Action>;
      hide Step, LockInv, Held;
      rest, t := CloseReaders(s1, file);
      Then(s, Close(r), s1, rest);
      actions := [Close(r)] + rest;
    } else {
      actions, t := [], s;
    }
  }

  lemma {:induction false} OverlookedIsLost(s: State, current: Name)
    requires LockInv(s) && s.pc == Pruning(current, None) && s.exclusive.None? && Overlooks(s, current)
    requires s.previous.p.file in s.files
    ensures CanLosePrevious(s)
  {
    var file := s.previous.p.file;
    hide Step, LockInv, Apply;
    var close, t := CloseReaders(s, file);
    PruneTakesTheUnpinned(t, file);
    var prune := [PruneFile(file), TryLock, UnlinkFile, UnlinkLease, Unlock];
    ApplyConcat(s, close, prune);
    assert Calm(close + prune);
    assert LosesPrevious(s, close + prune);
  }

  lemma FailedRead(s: State, current: Name)
    requires Inv(s) && s.pc == ReadingKept(current)
    ensures var t := s.(pc := Pruning(current, None), log := s.log.(unkept := s.log.unkept || Overlooks(s, current)));
            Step(s, Fail) == Some(t) && Inv(t) && LockInv(t) && t.exclusive.None?
            && (!s.log.unkept && s.previous.Valid? ==> s.previous.p.file in t.files)
  {
    StepKeepsInv(s, Fail);
  }

  /** Exactly when a failed read of `previous` before a pruning may cost `previous` its file: it can be
      read otherwise, and names another file than `active`, one that still has its lease. */
  lemma OversightExactly(s: State, current: Name)
    requires Inv(s) && !s.log.unkept && s.pc == ReadingKept(current)
    ensures Step(s, Fail).Some?
    ensures CanLosePrevious(Step(s, Fail).value) <==>
              s.previous.Valid? && s.previous.p.file != current && s.previous.p.file in s.leases
  {
    FailedRead(s, current);
    hide Step, Inv, LockInv;
    var t := Step(s, Fail).value;
    if Overlooks(s, current) {
      OverlookedIsLost(t, current);
    } else if CanLosePrevious(t) {
      var actions :| LosesPrevious(t, actions);
      KeptStaysIntact(t, actions);
    }
  }

  // ---------------------------------------------------------------------------------------
  // A lease removed from a linked file
  // ---------------------------------------------------------------------------------------

  /** The file may still lose its lease while it is linked, though nothing more fails. */
  ghost predicate CanStrand(s: State, file: Name) {
    exists actions :: Strands(s, file, actions)
  }

  ghost predicate Strands(s: State, file: Name, actions: seq<Action>) {
    Calm(actions) && Apply(s, actions).Some? && file in Apply(s, actions).value.log.stranded
  }

  /** The publisher is about to remove the lease of this file, which is linked and has one. */
  predicate AboutToStrand(s: State, file: Name) {
    && file in s.files && file in s.leases
    && match s.pc
       case RemovingLease(f) => f == file
       case Locking(_, _, f, orphan) => orphan && f == file
       case UnlinkingLease(_, _, f) => f == file
       case _ => false
  }

  ghost predicate Safe(s: State, file: Name) {
    file !in s.log.stranded && !AboutToStrand(s, file)
  }

  lemma SafePublish(s: State, a: Action, file: Name)
    requires Safe(s, file) && IsCalm(a) && IsPublishing(s.pc) && Publish(s, a).Some?
    ensures Safe(Publish(s, a).value, file)
  {
  }

  lemma SafePrune(s: State, a: Action, file: Name)
    requires Safe(s, file) && IsCalm(a) && IsPruning(s.pc) && Prune(s, a).Some?
    ensures Safe(Prune(s, a).value, file)
  {
  }

  lemma SafeStep(s: State, a: Action, file: Name)
    requires Safe(s, file) && IsCalm(a) && Step(s, a).Some?
    ensures Safe(Step(s, a).value, file)
  {
    hide Reading, Prepare, Publish, Prune;
    if IsReading(a) {
      ReadingIsLocal(s, a.r, a);
    } else if IsOutside(a) {
    } else if IsPreparing(s.pc) {
      PrepareMovesOnly(s, a);
    } else if IsPublishing(s.pc) {
      SafePublish(s, a, file);
    } else if IsActivating(s.pc) {
    } else {
      SafePrune(s, a, file);
    }
  }

  lemma {:induction false} SafeStays(s: State, file: Name, actions: seq<Action>)
    requires Safe(s, file) && Calm(actions) && Apply(s, actions).Some?
    ensures file !in Apply(s, actions).value.log.stranded
    decreases |actions|
  {
    if actions != [] {
      assert IsCalm(actions[0]);
      SafeStep(s, actions[0], file);
      hide Step, Safe, IsCalm;
      SafeStays(Step(s, actions[0]).value, file, actions[1..]);
    }
  }

  lemma {:induction false} LeaseIsTaken(s: State, file: Name, a: Action)
    requires AboutToStrand(s, file) && !s.pc.Locking?
    requires a == if s.pc.RemovingLease? then RemoveLease else UnlinkLease
    ensures Strands(s, file, [a])
  {
    var t := Step(s, a).value;
    assert file in t.log.stranded;
    hide Step;
    Rest(t);
    Then(s, a, t, []);
    assert [a] + [] == [a];
  }

  /** Behind a lookup that failed: once every reader has closed the file, its lease goes. */
  lemma {:induction false} OrphanIsTaken(s: State, file: Name)
    requires LockInv(s) && AboutToStrand(s, file) && s.pc.Locking?
    ensures CanStrand(s, file)
  {
    var current, kept := s.pc.current, s.pc.kept;
    var close, t := CloseReaders(s, file);
    var u := t.(exclusive := Some(file), pc := UnlinkingLease(current, kept, file));
    assert Step(t, TryLock) == Some(u);
    hide Step, LockInv, Held;
    LeaseIsTaken(u, file, UnlinkLease);
    Then(t, TryLock, u, [UnlinkLease]);
    ApplyConcat(s, close, [TryLock] + [UnlinkLease]);
    assert Strands(s, file, close + ([TryLock] + [UnlinkLease]));
  }

  /** Exactly in these states may the file lose its lease without a further failure. */
  lemma StrandingIsPending(s: State, file: Name)
    requires Inv(s) && file !in s.log.stranded
    ensures CanStrand(s, file) <==> AboutToStrand(s, file)
  {
    assert LockInv(s);
    hide Inv, LockInv, Apply;
    if AboutToStrand(s, file) {
      if s.pc.Locking? {
        OrphanIsTaken(s, file);
      } else {
        var a := if s.pc.RemovingLease? then RemoveLease else UnlinkLease;
        LeaseIsTaken(s, file, a);
      }
    } else if CanStrand(s, file) {
      var actions :| Strands(s, file, actions);
      SafeStays(s, file, actions);
    }
  }

  /** Exactly which failed calls may cost a linked file its lease, whichever file it is: the unlink of a
      refused file, and the lookup of a file in a pruning, retained or not, while the lease is there. */
  lemma StrandingExactly(s: State, a: Action, file: Name)
    requires Inv(s) && IsFault(a) && Step(s, a).Some? && file !in s.log.stranded
    ensures CanStrand(Step(s, a).value, file) <==>
              && (s.pc == RemovingFile(file) || (s.pc.Pruning? && a == FailProbe(file)))
              && file in s.files && file in s.leases
  {
    var t := Step(s, a).value;
    StepKeepsInv(s, a);
    FaultPends(s, a, file);
    hide Inv, Step;
    StrandingIsPending(t, file);
  }

  lemma FaultPends(s: State, a: Action, file: Name)
    requires IsFault(a) && Step(s, a).Some? && file !in s.log.stranded
    ensures var t := Step(s, a).value;
            && file !in t.log.stranded
            && (AboutToStrand(t, file) <==>
                  && (s.pc == RemovingFile(file) || (s.pc.Pruning? && a == FailProbe(file)))
                  && file in s.files && file in s.leases)
  {
  }

  /** Exactly when an uninterrupted reader opens without a lock: the file has no lease. */
  lemma {:induction false} ReaderOpensUnleasedExactly(s: State, r: nat, file: Name)
    requires r in s.readers && s.readers[r] == Chosen(file) && file in s.files
    ensures var t := Apply(s, [Observe(r), OpenLease(r), Connect(r), Recheck(r)]);
            t == Some(Move(s, r, Opened(file, false))) <==> file !in s.leases
  {
    var s1 := Move(s, r, Observed(file));
    assert Step(s, Observe(r)) == Some(s1);
    Then(s, Observe(r), s1, [OpenLease(r), Connect(r), Recheck(r)]);
    if file !in s.leases {
      UnleasedReaderOpens(s1, r, file);
      assert Move(s1, r, Opened(file, false)) == Move(s, r, Opened(file, false));
    } else {
      var s2 := Move(s1, r, LeaseFound(file));
      assert Step(s1, OpenLease(r)) == Some(s2);
      assert Step(s2, Connect(r)).None?;
      Then(s1, OpenLease(r), s2, [Connect(r), Recheck(r)]);
      assert [Connect(r)] + [Recheck(r)] == [Connect(r), Recheck(r)];
      assert Apply(s2, [Connect(r), Recheck(r)]).None?;
    }
  }

  lemma {:induction false} UnleasedReaderOpens(s: State, r: nat, file: Name)
    requires r in s.readers && s.readers[r] == Observed(file) && file in s.files && file !in s.leases
    ensures Apply(s, [OpenLease(r), Connect(r), Recheck(r)]) == Some(Move(s, r, Opened(file, false)))
  {
    var s1, s2 := Move(s, r, WithoutLease(file)), Move(s, r, Connected(file, false));
    var s3 := Move(s, r, Opened(file, false));
    assert Step(s, OpenLease(r)) == Some(s1);
    assert s1.readers[r := Connected(file, false)] == s2.readers && s2.readers[r := Opened(file, false)] == s3.readers;
    assert Step(s1, Connect(r)) == Some(s2);
    assert Step(s2, Recheck(r)) == Some(s3);
    hide Step, Apply;
    Rest(s3);
    Then(s2, Recheck(r), s3, []);
    Then(s1, Connect(r), s2, [Recheck(r)]);
    Then(s, OpenLease(r), s1, [Connect(r), Recheck(r)]);
  }

  // ---------------------------------------------------------------------------------------
  // Three runs
  // ---------------------------------------------------------------------------------------

  const OLDER := Manifest(Generation("a", 1), 1)
  const NEWER := Manifest(Generation("a", 2), 2)

  /** Two synchronizations, the second one before its pruning. */
  lemma TwoGenerations() returns (states: seq<State>)
    ensures Run(states)
    ensures var s := states[|states| - 1];
            && s.pc == ReadingKept(Name(2, 0)) && s.leases == {Name(1, 0), Name(2, 0)} && s.log.history != []
            && s.active == Valid(Pointer(Name(2, 0), NEWER.gen, 2))
            && s.previous == Valid(Pointer(Name(1, 0), OLDER.gen, 1))
            && s.shared == {} && !s.log.damaged && !s.log.misjudged && !s.log.unkept
  {
    states := [Initial()];
    SyncApplies(Initial(), OLDER, 0);
    var s1 := Synchronized(Initial(), OLDER, 0);
    states := Extend(states, SyncActions(Initial(), OLDER, 0));
    var s2 := Finished(s1);
    states := Extend(states, [ReadKept, Finish]);
    RunKeepsInv(states, |states| - 1);
    hide Run, Apply, Step, HistoryInv, ReadersInv, LockInv, SyncActions;
    SyncApplies(s2, NEWER, 0);
    states := Extend(states, SyncActions(s2, NEWER, 0));
    assert states[|states| - 1] == Synchronized(s2, NEWER, 0);
  }

  /** A pruning that finds nothing to do. */
  lemma {:induction false} Finished(s: State) returns (t: State)
    requires s.pc.ReadingKept?
    ensures t == s.(pc := Idle) && Apply(s, [ReadKept, Finish]) == Some(t)
  {
    t := s.(pc := Idle);
    var kept := if s.previous.Valid? then Some(s.previous.p.file) else None;
    var s1 := s.(pc := Pruning(s.pc.current, kept));
    assert Step(s, ReadKept) == Some(s1);
    assert Step(s1, Finish) == Some(t);
    hide Step, Apply;
    Rest(t);
    Then(s1, Finish, t, []);
    Then(s, ReadKept, s1, [Finish]);
  }

  lemma {:induction false} MisreadStepsBack(s: State, m: Manifest) returns (actions: seq<Action>, t: State)
    requires HistoryInv(s) && s.pc.Idle? && !s.log.damaged && !Allows(s.active, m.gen, m.sha)
    requires s.previous.Valid? && s.previous.p.gen == m.gen && s.previous.p.sha == m.sha
    requires Intact(s, s.previous.p.file, m.sha)
    ensures Apply(s, actions) == Some(t) && !Ascending(t.log.history) && !t.log.damaged
  {
    var p := s.previous.p;
    var s1, s2 := s.(pc := ReadingActive(m)), s.(pc := ReadingPrevious(m));
    var s3 := s.(pc := Deciding(m, Some(p), true));
    var s4 := LetThrough(s3, p.gen, p.sha, ReadingOld(p));
    VersionOrder(m.gen.version, m.gen.version, m.gen.version);
    assert Step(s, Begin(m)) == Some(s1);
    assert Step(s1, Fail) == Some(s2);
    assert Step(s2, ReadPrevious) == Some(s3);
    assert Step(s3, Decide(true)) == Some(s4);
    assert s4.active == s.active && HistoryInv(s4) && s4.pc == ReadingOld(p) && !s4.log.damaged;
    hide Step, HistoryInv, Allows, Apply, Ascending, LetThrough;
    Rest(s4);
    Then(s3, Decide(true), s4, []);
    Then(s2, ReadPrevious, s3, [Decide(true)]);
    Then(s1, Fail, s2, [ReadPrevious, Decide(true)]);
    Then(s, Begin(m), s1, [Fail, ReadPrevious, Decide(true)]);
    var last := SwitchAnyway(s4, p);
    SwitchStepsBack(s4, p);
    t := Switched(s4, p);
    actions := [Begin(m), Fail, ReadPrevious, Decide(true)] + last;
    ApplyConcat(s, [Begin(m), Fail, ReadPrevious, Decide(true)], last);
  }

  /** Nothing is damaged and one read of `active` fails: the older generation, still named by
      `previous` and offered again as the release, replaces the newer one. */
  lemma MisreadRun() returns (states: seq<State>)
    ensures Run(states) && !states[|states| - 1].log.damaged && !Ascending(states[|states| - 1].log.history)
  {
    states := TwoGenerations();
    var s := Finished(states[|states| - 1]);
    states := Extend(states, [ReadKept, Finish]);
    RunKeepsInv(states, |states| - 1);
    assert HistoryInv(s) && Intact(s, s.previous.p.file, 1);
    assert !Allows(s.active, OLDER.gen, 1);
    hide Step, Inv, HistoryInv, Apply, Run, Ascending;
    var actions, t := MisreadStepsBack(s, OLDER);
    states := Extend(states, actions);
  }

  lemma {:induction false} OversightPrunes(s: State, current: Name) returns (actions: seq<Action>, t: State)
    requires s.pc == ReadingKept(current) && s.exclusive.None? && s.shared == {}
    requires s.previous.Valid? && s.previous.p.file != current
    requires s.previous.p.file in s.files && s.previous.p.file in s.leases
    ensures Apply(s, actions) == Some(t)
    ensures t.previous == s.previous && s.previous.p.file !in t.files && t.log.damaged == s.log.damaged
  {
    var file := s.previous.p.file;
    var s1 := s.(pc := Pruning(current, None), log := s.log.(unkept := true));
    assert Step(s, Fail) == Some(s1);
    assert !Held(s1, file);
    hide Step, Apply;
    PruneTakesTheUnpinned(s1, file);
    t := s1.(files := s1.files - {file}, leases := s1.leases - {file});
    var prune := [PruneFile(file), TryLock, UnlinkFile, UnlinkLease, Unlock];
    actions := [Fail] + prune;
    Then(s, Fail, s1, prune);
  }

  /** Nothing is damaged and one read of `previous` fails: the pruning takes the file it names. */
  lemma OversightRun() returns (states: seq<State>)
    ensures Run(states)
    ensures var s := states[|states| - 1]; !s.log.damaged && s.previous.Valid? && s.previous.p.file !in s.files
  {
    states := TwoGenerations();
    var s := states[|states| - 1];
    RunKeepsInv(states, |states| - 1);
    assert s.exclusive.None? && s.previous.p.file in s.files;
    hide Step, Inv, Apply, Run;
    var actions, t := OversightPrunes(s, Name(2, 0));
    states := Extend(states, actions);
  }

  lemma {:induction false} LeaseGoesFirst(s: State, file: Name) returns (t: State)
    requires s.pc == RemovingFile(file)
    ensures t == Unlease(s, file).(pc := Idle) && Apply(s, [Fail, RemoveLease]) == Some(t)
  {
    var s1 := s.(pc := RemovingLease(file));
    t := Unlease(s, file).(pc := Idle);
    assert Unlease(s1, file).(pc := Idle) == t;
    assert Step(s, Fail) == Some(s1);
    assert Step(s1, RemoveLease) == Some(t);
    hide Step, Apply, Unlease;
    Rest(t);
    Then(s1, RemoveLease, t, []);
    Then(s, Fail, s1, [RemoveLease]);
  }

  /** A verification fails, then the unlink of the file does, and the lease goes. */
  lemma {:induction false} CleanUpStrands(s: State, m: Manifest, suffix: nat) returns (t: State)
    requires s.pc == CreatingLease(m) && Name(m.sha, suffix) !in s.log.used
    ensures Apply(s, [CreateLease(suffix), Place(m.sha), Verify(false), Fail, RemoveLease]) == Some(t)
    ensures var file := Name(m.sha, suffix);
            && t.pc.Idle? && t.files == s.files[file := m.sha] && t.log.stranded == s.log.stranded + {file}
            && t == s.(pc := t.pc, files := t.files, leases := t.leases, log := t.log)
            && t.log.damaged == s.log.damaged
  {
    var file := Name(m.sha, suffix);
    var s1 := s.(leases := s.leases + {file}, log := s.log.(used := s.log.used + {file}), pc := Placing(m, file));
    var s2 := s1.(files := s1.files[file := m.sha], pc := Verifying(m, file));
    var s3 := s2.(pc := RemovingFile(file));
    assert Step(s, CreateLease(suffix)) == Some(s1);
    assert Step(s1, Place(m.sha)) == Some(s2);
    assert Step(s2, Verify(false)) == Some(s3);
    hide Step, Apply;
    t := LeaseGoesFirst(s3, file);
    Then(s2, Verify(false), s3, [Fail, RemoveLease]);
    Then(s1, Place(m.sha), s2, [Verify(false), Fail, RemoveLease]);
    Then(s, CreateLease(suffix), s1, [Place(m.sha), Verify(false), Fail, RemoveLease]);
  }

  /** The next synchronization finds the file by its name and content. */
  lemma {:induction false} StrandedIsFound(s: State, m: Manifest, file: Name) returns (t: State)
    requires s.pc.Idle? && s.active.Absent? && file.sha == m.sha && Intact(s, file, m.sha)
    ensures t == s.(pc := ReadingOld(Pointer(file, m.gen, m.sha)))
    ensures Apply(s, [Begin(m), ReadActive, Decide(false), LookUp(Some(file))]) == Some(t)
  {
    var s1, s2 := s.(pc := ReadingActive(m)), s.(pc := Deciding(m, None, false));
    var s3 := s.(pc := LookingUp(m));
    t := s.(pc := ReadingOld(Pointer(file, m.gen, m.sha)));
    assert Step(s, Begin(m)) == Some(s1);
    assert Step(s1, ReadActive) == Some(s2);
    assert Step(s2, Decide(false)) == Some(s3);
    assert Step(s3, LookUp(Some(file))) == Some(t);
    hide Step, Apply, Intact;
    Rest(t);
    Then(s3, LookUp(Some(file)), t, []);
    Then(s2, Decide(false), s3, [LookUp(Some(file))]);
    Then(s1, ReadActive, s2, [Decide(false), LookUp(Some(file))]);
    Then(s, Begin(m), s1, [ReadActive, Decide(false), LookUp(Some(file))]);
  }

  /** A stranded file that is active. */
  lemma StrandedIsActive() returns (states: seq<State>)
    ensures Run(states)
    ensures var s, file := states[|states| - 1], Name(1, 0);
            && s.active == Valid(Pointer(file, OLDER.gen, 1)) && file in s.log.stranded && file in s.files
            && s.readers == map[] && s.shared == {} && !s.log.damaged
  {
    states := [Initial()];
    var file, s := Name(1, 0), Initial();
    ReleaseIsWanted(s, OLDER);
    states := Extend(states, [Begin(OLDER), ReadActive, Decide(false), LookUp(None)]);
    hide Apply, Run, Step;
    var s1 := CleanUpStrands(s.(pc := CreatingLease(OLDER)), OLDER, 0);
    states := Extend(states, [CreateLease(0), Place(1), Verify(false), Fail, RemoveLease]);
    var s2 := StrandedIsFound(s1, OLDER, file);
    states := Extend(states, [Begin(OLDER), ReadActive, Decide(false), LookUp(Some(file))]);
    var last := SwitchAnyway(s2, Pointer(file, OLDER.gen, 1));
    states := Extend(states, last);
  }

  /** An unlink fails and the lease goes: the file is found again, activated, and opened without a lock. */
  lemma StrandedRun() returns (states: seq<State>)
    ensures Run(states)
    ensures var s := states[|states| - 1];
            0 in s.readers && s.readers[0].Opened? && (0, s.readers[0].file) !in s.shared && !s.log.damaged
  {
    states := StrandedIsActive();
    var s, file := states[|states| - 1], Name(1, 0);
    var s1 := Move(s, 0, Chosen(file));
    assert Step(s, Choose(0, false)) == Some(s1);
    Rest(s1);
    Then(s, Choose(0, false), s1, []);
    states := Extend(states, [Choose(0, false)]);
    RunKeepsInv(states, |states| - 1);
    hide Apply, Run, Step, Inv;
    ReaderOpensUnleasedExactly(s1, 0, file);
    states := Extend(states, [Observe(0), OpenLease(0), Connect(0), Recheck(0)]);
  }
}
