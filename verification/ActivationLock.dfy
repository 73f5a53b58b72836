/**
 The directory lease lock around archive activation: mkdir to acquire, an owner file whose time is
 refreshed by heartbeats, quarantine of stale locks, and release only while still owner. Checking
 a lock and renaming it away, and reading the owner file and removing the lock, are single steps.
 */
module ActivationLock {
  import opened Prelude

  datatype Timing = Timing(staleMs: nat, ownerGraceMs: nat)

  const DEFAULT_TIMING := Timing(30 * 60_000, 10_000)

  datatype Owner = Owner(pid: nat, time: nat)

  /** The directory now standing at the lock's path; `id` tells apart directories made there. */
  datatype Directory = Directory(id: nat, born: nat, owner: Option<Owner>)

  /** `made` is the directory a process created, `wrote` the one its owner file went into. */
  datatype Phase =
    | Waiting
    | Created(made: nat, since: nat)
    | Cleaning(made: nat, since: nat)
    | Running(made: nat, wrote: nat, beat: nat)
    | Releasing(made: nat, wrote: nat)
    | Done

  /** Each acquisition has its own random owner text, so processes are identified by it. */
  datatype State = State(now: nat, lock: Option<Directory>, next: nat, procs: map<nat, Phase>)

  datatype Action =
    | Start(p: nat)
    | Make(p: nat)
    | Quarantine(p: nat)
    | GiveUp(p: nat)
    | WriteOwner(p: nat)
    | FailToWrite(p: nat)
    | CleanUp(p: nat)
    | Heartbeat(p: nat)
    | Finish(p: nat)
    | Release(p: nat)
    | Die(p: nat)
    | Pass(ms: nat)

  function Initial(): State {
    State(0, None, 0, map[])
  }

  /** `lock_age_ms`: the owner file's time when there is one, the directory's otherwise. */
  function Age(d: Directory, now: nat): nat {
    var since := if d.owner.Some? then d.owner.value.time else d.born;
    if now < since then 0 else now - since
  }

  predicate Expired(d: Directory, now: nat, t: Timing) {
    Age(d, now) > t.staleMs || (d.owner.None? && Age(d, now) > t.ownerGraceMs)
  }

  predicate Owns(s: State, p: nat) {
    s.lock.Some? && s.lock.value.owner.Some? && s.lock.value.owner.value.pid == p
  }

  function To(s: State, p: nat, phase: Phase): State {
    s.(procs := s.procs[p := phase])
  }

  function Step(s: State, a: Action, t: Timing): Option<State> {
    if a.Pass? then Some(s.(now := s.now + a.ms))
    else if a.Start? then if a.p in s.procs then None else Some(To(s, a.p, Waiting))
    else if a.p !in s.procs then None
    else
      match (s.procs[a.p], a)
      case (Waiting, Make(p)) =>
        if s.lock.Some? then None
        else Some(To(s, p, Created(s.next, s.now)).(lock := Some(Directory(s.next, s.now, None)), next := s.next + 1))
      case (Waiting, Quarantine(p)) =>
        if s.lock.Some? && Expired(s.lock.value, s.now, t) then Some(s.(lock := None)) else None
      case (Waiting, GiveUp(p)) => Some(To(s, p, Done))
      case (Created(made, since), WriteOwner(p)) =>
        if s.lock.None? then Some(To(s, p, Cleaning(made, since)))
        else Some(To(s, p, Running(made, s.lock.value.id, s.now))
                  .(lock := Some(s.lock.value.(owner := Some(Owner(p, s.now))))))
      case (Created(made, since), FailToWrite(p)) => Some(To(s, p, Cleaning(made, since)))
      case (Cleaning(_, _), CleanUp(p)) => Some(To(s, p, Done).(lock := None))
      case (Running(made, wrote, _), Heartbeat(p)) =>
        var beaten := To(s, p, Running(made, wrote, s.now));
        Some(if Owns(s, p) then beaten.(lock := Some(s.lock.value.(owner := Some(Owner(p, s.now))))) else beaten)
      case (Running(made, wrote, _), Finish(p)) => Some(To(s, p, Releasing(made, wrote)))
      case (Releasing(_, _), Release(p)) =>
        Some(if Owns(s, p) then To(s, p, Done).(lock := None) else To(s, p, Done))
      case (_, Die(p)) => Some(To(s, p, Done))
      case _ => None
  }

  ghost predicate Run(states: seq<State>, t: Timing) {
    states != [] && states[0] == Initial() && forall i :: 0 < i < |states| ==> StepsAt(states, t, i)
  }

  ghost predicate StepsAt(states: seq<State>, t: Timing, i: nat)
    requires 0 < i < |states|
  {
    Leads(states[i - 1], states[i], t)
  }

  ghost predicate Leads(s: State, later: State, t: Timing) {
    exists a: Action :: Step(s, a, t) == Some(later)
  }

  lemma ActionBefore(states: seq<State>, t: Timing, i: nat) returns (a: Action)
    requires Run(states, t) && 0 < i < |states|
    ensures Step(states[i - 1], a, t) == Some(states[i])
  {
    assert StepsAt(states, t, i);
    a :| Step(states[i - 1], a, t) == Some(states[i]);
  }

  // ---------------------------------------------------------------------------------------
  // What single steps do
  // ---------------------------------------------------------------------------------------

  /** A process runs on until it finishes or dies by itself, whatever happens to its lock. */
  lemma RunningGoesOn(s: State, a: Action, t: Timing, p: nat)
    requires Step(s, a, t).Some? && p in s.procs && s.procs[p].Running? && a != Finish(p) && a != Die(p)
    ensures var later := Step(s, a, t).value;
            && p in later.procs && later.procs[p].Running?
            && later.procs[p].made == s.procs[p].made && later.procs[p].wrote == s.procs[p].wrote
  {
  }

  /** A heartbeat of an owner makes its lock new again, the directory staying the same; any other
      heartbeat leaves the lock alone. */
  lemma HeartbeatRefreshes(s: State, t: Timing, p: nat)
    requires p in s.procs && s.procs[p].Running?
    ensures var later := Step(s, Heartbeat(p), t);
            && later.Some? && later.value.procs[p].beat == s.now
            && (if Owns(s, p) then
                  && later.value.lock.Some? && later.value.lock.value.id == s.lock.value.id
                  && Owns(later.value, p) && Age(later.value.lock.value, s.now) == 0
                else later.value.lock == s.lock)
  {
  }

  /** Exactly when a waiting process may take a standing directory away: its owner file, or without
      one the directory itself, is older than the stale time, or without one than the grace time. */
  lemma QuarantinedExactly(s: State, t: Timing, p: nat)
    requires p in s.procs && s.procs[p].Waiting?
    ensures Step(s, Quarantine(p), t) ==
            match s.lock
            case None => None
            case Some(Directory(_, born, None)) =>
              if s.now > born + t.staleMs || s.now > born + t.ownerGraceMs then Some(s.(lock := None)) else None
            case Some(Directory(_, _, Some(owner))) =>
              if s.now > owner.time + t.staleMs then Some(s.(lock := None)) else None
    ensures Step(s, Make(p), t).Some? <==> s.lock.None?
  {
  }

  /** A whole turn, undisturbed: a waiting process that finds no directory makes one, writes, beats,
      finishes and releases, and leaves the path free. */
  lemma {:induction false} WholeTurn(s: State, t: Timing, p: nat)
    requires p in s.procs && s.procs[p].Waiting? && s.lock.None?
    ensures Follow(s, [Make(p), WriteOwner(p), Heartbeat(p), Finish(p), Release(p)], t)
            == Some(s.(next := s.next + 1, procs := s.procs[p := Done]))
  {
    var s1 := Step(s, Make(p), t).value;
    var s2 := Step(s1, WriteOwner(p), t).value;
    var s3 := Step(s2, Heartbeat(p), t).value;
    var s4 := Step(s3, Finish(p), t).value;
    var s5 := s.(next := s.next + 1, procs := s.procs[p := Done]);
    assert Owns(s2, p) && Owns(s3, p) && Owns(s4, p);
    assert Step(s4, Release(p), t).value.procs == s5.procs;
    assert Step(s4, Release(p), t) == Some(s5);
    hide Step;
    FollowStep(s, Make(p), t, [WriteOwner(p), Heartbeat(p), Finish(p), Release(p)]);
    FollowStep(s1, WriteOwner(p), t, [Heartbeat(p), Finish(p), Release(p)]);
    FollowStep(s2, Heartbeat(p), t, [Finish(p), Release(p)]);
    FollowStep(s3, Finish(p), t, [Release(p)]);
    FollowStep(s4, Release(p), t, []);
    assert [Release(p)] + [] == [Release(p)];
  }

  lemma {:induction false} FollowStep(s: State, a: Action, t: Timing, rest: seq<Action>)
    ensures Follow(s, [a] + rest, t) == if Step(s, a, t).None? then None else Follow(Step(s, a, t).value, rest, t)
  {
    assert ([a] + rest)[1..] == rest;
  }

  /** A process whose owner file cannot be written cleans up, and the path is free. */
  lemma CleanUpFreesThePath(s: State, t: Timing, p: nat)
    requires p in s.procs && s.procs[p].Created?
    ensures var failed := Step(s, FailToWrite(p), t);
            && failed.Some? && failed.value.lock == s.lock
            && Step(failed.value, CleanUp(p), t) == Some(s.(lock := None, procs := s.procs[p := Done]))
    ensures s.lock.None? ==> Step(s, WriteOwner(p), t) == Step(s, FailToWrite(p), t)
  {
    var failed := Step(s, FailToWrite(p), t).value;
    assert failed.procs[p := Done] == s.procs[p := Done];
  }

  // ---------------------------------------------------------------------------------------
  // Assumptions on timing
  // ---------------------------------------------------------------------------------------

  /** The directory was made, and its owner file is not in place or about to be removed with it. */
  ghost predicate Unwritten(s: State, p: nat) {
    p in s.procs && (s.procs[p].Created? || s.procs[p].Cleaning?)
  }

  /** A process that has made the directory writes its owner file, or cleans up, within the grace
      time and the stale time. */
  ghost predicate OwnersPrompt(s: State, t: Timing) {
    forall p :: Unwritten(s, p) ==>
      s.now <= s.procs[p].since + t.ownerGraceMs && s.now <= s.procs[p].since + t.staleMs
  }

  /** A running process has beaten within the stale time. */
  ghost predicate HeartbeatsPrompt(s: State, t: Timing) {
    forall p :: p in s.procs && s.procs[p].Running? ==> s.now <= s.procs[p].beat + t.staleMs
  }

  // ---------------------------------------------------------------------------------------
  // Without any assumption
  // ---------------------------------------------------------------------------------------

  /** The owner file in the standing directory was written by its owner's only write, and nothing
      there is dated in the future. */
  ghost predicate OwnerInv(s: State) {
    && (s.lock.Some? ==> s.lock.value.id < s.next && s.lock.value.born <= s.now)
    && (s.lock.Some? && s.lock.value.owner.Some? ==> s.lock.value.owner.value.time <= s.now)
    && (s.lock.Some? && s.lock.value.owner.Some? ==>
          var p := s.lock.value.owner.value.pid;
          p in s.procs && !s.procs[p].Waiting? && !s.procs[p].Created? && !s.procs[p].Cleaning?
          && (s.procs[p].Running? || s.procs[p].Releasing? ==> s.procs[p].wrote == s.lock.value.id))
  }

  lemma {:induction false} StepKeepsOwner(s: State, a: Action, t: Timing)
    requires OwnerInv(s) && Step(s, a, t).Some?
    ensures OwnerInv(Step(s, a, t).value)
  {
  }

  lemma {:induction false} RunKeepsOwner(states: seq<State>, t: Timing, i: nat)
    requires Run(states, t) && i < |states|
    ensures OwnerInv(states[i])
  {
    if i > 0 {
      RunKeepsOwner(states, t, i - 1);
      var a := ActionBefore(states, t, i);
      StepKeepsOwner(states[i - 1], a, t);
    }
  }

  /** The directory that a process has made and not yet given up. */
  function Own(phase: Phase): Option<nat> {
    if phase.Created? || phase.Cleaning? || phase.Running? || phase.Releasing? then Some(phase.made) else None
  }

  /** A directory stands at the path, but not the one the process made. */
  ghost predicate Displaced(s: State, p: nat) {
    p in s.procs && s.lock.Some? && Own(s.procs[p]).Some? && Own(s.procs[p]).value != s.lock.value.id
  }

  /** The process writes its owner file in the step from `j`. */
  ghost predicate WritesAt(states: seq<State>, t: Timing, p: nat, j: nat) {
    && j + 1 < |states| && p in states[j].procs && states[j].procs[p].Created? && states[j].lock.Some?
    && Step(states[j], WriteOwner(p), t) == Some(states[j + 1])
  }

  ghost predicate Wrote(s: State, p: nat, made: nat, wrote: nat) {
    && p in s.procs && !s.procs[p].Waiting? && !s.procs[p].Created?
    && (s.procs[p].Running? || s.procs[p].Releasing? ==> s.procs[p].made == made && s.procs[p].wrote == wrote)
  }

  lemma {:induction false} StepKeepsWrote(s: State, a: Action, t: Timing, p: nat, made: nat, wrote: nat)
    requires Wrote(s, p, made, wrote) && !s.procs[p].Cleaning? && Step(s, a, t).Some?
    ensures Wrote(Step(s, a, t).value, p, made, wrote)
    ensures !Step(s, a, t).value.procs[p].Cleaning?
  {
  }

  /** A process remembers what stood at the path when it wrote. */
  lemma {:induction false} WriteIsRemembered(states: seq<State>, t: Timing, p: nat, j: nat, i: nat)
    requires Run(states, t) && WritesAt(states, t, p, j) && j < i < |states|
    ensures Wrote(states[i], p, states[j].procs[p].made, states[j].lock.value.id) && !states[i].procs[p].Cleaning?
    decreases i
  {
    if i > j + 1 {
      WriteIsRemembered(states, t, p, j, i - 1);
      var a := ActionBefore(states, t, i);
      hide Run;
      StepKeepsWrote(states[i - 1], a, t, p, states[j].procs[p].made, states[j].lock.value.id);
    }
  }

  lemma {:induction false} StartsRunning(s: State, a: Action, t: Timing, p: nat)
    requires Step(s, a, t).Some? && p in Step(s, a, t).value.procs
    requires var phase := Step(s, a, t).value.procs[p]; phase.Running? || phase.Releasing?
    ensures p in s.procs
    ensures s.procs[p].Running? || s.procs[p].Releasing? || (s.procs[p].Created? && s.lock.Some? && a == WriteOwner(p))
  {
  }

  /** Whoever runs or releases has written its owner file. */
  lemma {:induction false} RunnersWrote(states: seq<State>, t: Timing, p: nat, i: nat) returns (j: nat)
    requires Run(states, t) && i < |states|
    requires p in states[i].procs && (states[i].procs[p].Running? || states[i].procs[p].Releasing?)
    ensures j < i && WritesAt(states, t, p, j)
    decreases i
  {
    assert i > 0;
    var a := ActionBefore(states, t, i);
    StartsRunning(states[i - 1], a, t, p);
    hide Step, Run;
    if states[i - 1].procs[p].Created? {
      j := i - 1;
    } else {
      j := RunnersWrote(states, t, p, i - 1);
    }
  }

  /** The step takes the directory at the path away, and its process did not make that. */
  ghost predicate RemovesForeign(s: State, a: Action, t: Timing) {
    && Step(s, a, t).Some? && !a.Quarantine?
    && s.lock.Some? && Step(s, a, t).value.lock.None?
    && Displaced(s, a.p)
  }

  /** When the owner file was written, another directory stood at the path. */
  ghost predicate WroteDisplaced(states: seq<State>, t: Timing, p: nat, i: nat) {
    exists j: nat :: j < i && WritesAt(states, t, p, j) && Displaced(states[j], p)
  }

  lemma {:induction false} RemovalsAre(s: State, a: Action, t: Timing)
    requires Step(s, a, t).Some? && !a.Quarantine? && s.lock.Some? && Step(s, a, t).value.lock.None?
    ensures a.p in s.procs && ((a.CleanUp? && s.procs[a.p].Cleaning?) || (a.Release? && s.procs[a.p].Releasing? && Owns(s, a.p)))
  {
  }

  lemma {:induction false} RemovalsHappen(s: State, p: nat, t: Timing)
    requires p in s.procs && s.lock.Some?
    ensures s.procs[p].Cleaning? ==> Step(s, CleanUp(p), t).Some? && Step(s, CleanUp(p), t).value.lock.None?
    ensures s.procs[p].Releasing? && Owns(s, p) ==> Step(s, Release(p), t).Some? && Step(s, Release(p), t).value.lock.None?
  {
  }

  lemma {:induction false} OwnersWrote(s: State, p: nat)
    requires OwnerInv(s) && Owns(s, p) && s.procs[p].Releasing?
    ensures s.procs[p].wrote == s.lock.value.id
  {
  }

  /** Whatever the timing: exactly when a step other than a quarantine takes away a directory that its
      process did not make. Either the process still owns the lock by an owner file that went to a
      path where another directory stood; or it cleans up, owner file or not, where one stands. */
  lemma ForeignRemovalExactly(states: seq<State>, t: Timing, i: nat, a: Action)
    requires Run(states, t) && i < |states| && Step(states[i], a, t).Some? && !a.Quarantine?
    ensures RemovesForeign(states[i], a, t) <==>
              || (a.Release? && Owns(states[i], a.p) && WroteDisplaced(states, t, a.p, i))
              || (a.CleanUp? && Displaced(states[i], a.p))
  {
    var s := states[i];
    RunKeepsOwner(states, t, i);
    if s.lock.Some? && Step(s, a, t).value.lock.None? {
      RemovalsAre(s, a, t);
    }
    if a.Release? && Owns(s, a.p) {
      ReleasersAre(s, a.p, t);
      RemovalsHappen(s, a.p, t);
      OwnersWrote(s, a.p);
      var j := RunnersWrote(states, t, a.p, i);
      WriteIsRemembered(states, t, a.p, j, i);
      hide Step, Run, OwnerInv;
      forall k: nat | k < i && WritesAt(states, t, a.p, k)
        ensures Displaced(states[k], a.p) <==> Displaced(s, a.p)
      {
        WriteIsRemembered(states, t, a.p, k, i);
      }
    } else if a.CleanUp? && Displaced(s, a.p) {
      CleanersAre(s, a.p, t);
      RemovalsHappen(s, a.p, t);
    }
  }

  lemma {:induction false} ReleasersAre(s: State, p: nat, t: Timing)
    requires Step(s, Release(p), t).Some?
    ensures p in s.procs && s.procs[p].Releasing?
  {
  }

  lemma {:induction false} CleanersAre(s: State, p: nat, t: Timing)
    requires Step(s, CleanUp(p), t).Some?
    ensures p in s.procs && s.procs[p].Cleaning?
  {
  }

  /** A superseded holder whose owner file went into its own directory leaves any successor alone,
      whatever it still does. */
  lemma SupersededHolderLeaves(states: seq<State>, t: Timing, i: nat, j: nat, a: Action)
    requires Run(states, t) && j < i < |states| && Step(states[i], a, t).Some? && !a.Quarantine? && !a.Pass?
    requires WritesAt(states, t, a.p, j) && !Displaced(states[j], a.p)
    requires Displaced(states[i], a.p)
    ensures Step(states[i], a, t).value.lock.Some?
  {
    WriteIsRemembered(states, t, a.p, j, i);
    ForeignRemovalExactly(states, t, i, a);
    hide Step, Run;
    if WroteDisplaced(states, t, a.p, i) {
      var k: nat :| k < i && WritesAt(states, t, a.p, k) && Displaced(states[k], a.p);
      WriteIsRemembered(states, t, a.p, k, i);
    }
  }

  // ---------------------------------------------------------------------------------------
  // With prompt owner files
  // ---------------------------------------------------------------------------------------

  /** While a process has yet to write, its own ownerless directory stands at the path; so every
      owner file goes into its writer's directory. */
  ghost predicate GraceInv(s: State) {
    && OwnerInv(s)
    && (forall p :: Unwritten(s, p) ==>
          s.lock == Some(Directory(s.procs[p].made, s.procs[p].since, None)))
    && (forall p, q :: Unwritten(s, p) && Unwritten(s, q) ==> p == q)
    && (forall p :: p in s.procs && (s.procs[p].Running? || s.procs[p].Releasing?) ==>
          s.procs[p].wrote == s.procs[p].made)
  }

  lemma {:induction false} StepKeepsGrace(s: State, a: Action, t: Timing)
    requires GraceInv(s) && OwnersPrompt(s, t) && Step(s, a, t).Some?
    ensures GraceInv(Step(s, a, t).value)
  {
    StepKeepsOwner(s, a, t);
    var later := Step(s, a, t).value;
    assert !a.Pass? && Unwritten(s, a.p) ==> s.lock.Some?;
    forall p | Unwritten(later, p) ensures Unwritten(s, p) || (a == Make(p) && s.lock.None?) {
    }
  }

  lemma {:induction false} RunKeepsGrace(states: seq<State>, t: Timing, i: nat)
    requires Run(states, t) && i < |states| && forall j :: 0 <= j < i ==> OwnersPrompt(states[j], t)
    ensures GraceInv(states[i])
  {
    if i > 0 {
      RunKeepsGrace(states, t, i - 1);
      var a := ActionBefore(states, t, i);
      StepKeepsGrace(states[i - 1], a, t);
    }
  }

  /** With prompt owner files, and however late the heartbeats, no process ever removes a directory
      it did not make, except by quarantining an expired one. */
  lemma OnlyOwnDirectoriesAreRemoved(states: seq<State>, t: Timing, i: nat, a: Action)
    requires Run(states, t) && i < |states| && forall j :: 0 <= j < i ==> OwnersPrompt(states[j], t)
    requires Step(states[i], a, t).Some? && !a.Quarantine?
    requires states[i].lock.Some? && Step(states[i], a, t).value.lock.None?
    ensures (a.CleanUp? || a.Release?) && states[i].procs[a.p].made == states[i].lock.value.id
  {
    RunKeepsGrace(states, t, i);
    hide Run, OwnersPrompt;
    assert Unwritten(states[i], a.p) || (a.p in states[i].procs && states[i].procs[a.p].Releasing?);
  }

  // ---------------------------------------------------------------------------------------
  // With prompt owner files and heartbeats
  // ---------------------------------------------------------------------------------------

  ghost predicate Holds(s: State, p: nat) {
    Unwritten(s, p) || (p in s.procs && s.procs[p].Running?)
  }

  ghost predicate HoldInv(s: State) {
    && GraceInv(s)
    && (forall p :: p in s.procs && s.procs[p].Running? ==>
          s.lock.Some? && s.lock.value.id == s.procs[p].made && s.lock.value.owner == Some(Owner(p, s.procs[p].beat)))
    && (forall p, q :: Holds(s, p) && Holds(s, q) ==> p == q)
  }

  lemma {:induction false} StepKeepsHold(s: State, a: Action, t: Timing)
    requires HoldInv(s) && OwnersPrompt(s, t) && HeartbeatsPrompt(s, t) && Step(s, a, t).Some?
    ensures HoldInv(Step(s, a, t).value)
  {
    StepKeepsGrace(s, a, t);
  }

  lemma {:induction false} RunKeepsHold(states: seq<State>, t: Timing, i: nat)
    requires Run(states, t) && i < |states|
    requires forall j :: 0 <= j < i ==> OwnersPrompt(states[j], t) && HeartbeatsPrompt(states[j], t)
    ensures HoldInv(states[i])
  {
    if i > 0 {
      RunKeepsHold(states, t, i - 1);
      var a := ActionBefore(states, t, i);
      StepKeepsHold(states[i - 1], a, t);
    }
  }

  /** Mutual exclusion: with prompt owner files and heartbeats at most one process is in the
      protected section, and the directory at the path is its own. */
  lemma AtMostOneRuns(states: seq<State>, t: Timing, i: nat, p: nat, q: nat)
    requires Run(states, t) && i < |states|
    requires forall j :: 0 <= j < i ==> OwnersPrompt(states[j], t) && HeartbeatsPrompt(states[j], t)
    requires p in states[i].procs && states[i].procs[p].Running?
    requires q in states[i].procs && states[i].procs[q].Running?
    ensures p == q && Owns(states[i], p) && states[i].lock.value.id == states[i].procs[p].made
  {
    RunKeepsHold(states, t, i);
    assert Holds(states[i], p) && Holds(states[i], q);
  }

  /** With prompt owner files and heartbeats only abandoned locks may be quarantined: while anyone
      holds the lock, the directory at the path has not expired. */
  lemma OnlyAbandonedLocksExpire(states: seq<State>, t: Timing, i: nat, p: nat)
    requires Run(states, t) && i < |states|
    requires forall j :: 0 <= j <= i ==> OwnersPrompt(states[j], t) && HeartbeatsPrompt(states[j], t)
    requires Holds(states[i], p) && states[i].lock.Some?
    ensures !Expired(states[i].lock.value, states[i].now, t)
  {
    RunKeepsHold(states, t, i);
    hide Run;
    assert OwnersPrompt(states[i], t) && HeartbeatsPrompt(states[i], t);
  }

  lemma Acquire(s: State, t: Timing, p: nat) returns (actions: seq<Action>, later: State)
    requires p in s.procs && s.procs[p].Waiting? && s.lock.None?
    ensures actions == [Make(p), WriteOwner(p)] && Follow(s, actions, t) == Some(later)
    ensures p in later.procs && later.procs[p] == Running(s.next, s.next, s.now) && Owns(later, p) && later.lock.value.id == s.next
  {
    var made := Step(s, Make(p), t).value;
    later := Step(made, WriteOwner(p), t).value;
    actions := [Make(p), WriteOwner(p)];
    assert actions[1..] == [WriteOwner(p)] && actions[1..][1..] == [];
    assert Follow(later, [], t) == Some(later);
    assert Follow(made, [WriteOwner(p)], t) == Some(later) by { assert [WriteOwner(p)][1..] == []; }
  }

  function Follow(s: State, actions: seq<Action>, t: Timing): Option<State>
    decreases |actions|
  {
    if actions == [] then Some(s)
    else
      var later := Step(s, actions[0], t);
      if later.None? then None else Follow(later.value, actions[1..], t)
  }

  /** No lock is held for ever by a process that has died: from every reachable state, once the stale
      time has passed with nobody acting, any waiting process gets into the protected section, in a
      directory of its own that no directory before it was. */
  lemma AbandonedLockIsAcquired(states: seq<State>, t: Timing, i: nat, p: nat) returns (actions: seq<Action>, s: State)
    requires Run(states, t) && i < |states|
    requires p in states[i].procs && states[i].procs[p].Waiting? && states[i].lock.Some?
    ensures actions == [Pass(t.staleMs + 1), Quarantine(p), Make(p), WriteOwner(p)]
    ensures Follow(states[i], actions, t) == Some(s)
    ensures p in s.procs && s.procs[p].Running? && Owns(s, p)
    ensures s.lock.value.id == s.procs[p].made && s.procs[p].made > states[i].lock.value.id
  {
    RunKeepsOwner(states, t, i);
    var s0 := states[i];
    var s1 := s0.(now := s0.now + t.staleMs + 1);
    var s2 := s1.(lock := None);
    assert Expired(s0.lock.value, s1.now, t);
    assert Step(s0, Pass(t.staleMs + 1), t) == Some(s1) && Step(s1, Quarantine(p), t) == Some(s2);
    var last;
    last, s := Acquire(s2, t, p);
    actions := [Pass(t.staleMs + 1), Quarantine(p), Make(p), WriteOwner(p)];
    assert actions[1..] == [Quarantine(p)] + last && actions[1..][1..] == last;
    hide Step, Run, OwnerInv;
    assert Follow(s1, actions[1..], t) == Follow(s2, actions[1..][1..], t);
  }

  // ---------------------------------------------------------------------------------------
  // A late owner file breaks it
  // ---------------------------------------------------------------------------------------

  lemma ActionsLead(states: seq<State>, actions: seq<Action>, t: Timing)
    requires |states| == |actions| + 1 && states[0] == Initial()
    requires forall i :: 0 <= i < |actions| ==> Step(states[i], actions[i], t) == Some(states[i + 1])
    ensures Run(states, t)
  {
    forall i | 0 < i < |states| ensures StepsAt(states, t, i) {
      assert Step(states[i - 1], actions[i - 1], t) == Some(states[i]);
    }
  }

  /** A process that stalls between mkdir and its owner file for longer than the grace time writes
      into its successor's directory: both then run, and its release removes the successor's lock. */
  lemma LateOwnerBreaksTheLock() returns (states: seq<State>)
    ensures Run(states, DEFAULT_TIMING)
    ensures exists i :: 0 <= i < |states| && 0 in states[i].procs && 1 in states[i].procs
                        && states[i].procs[0].Running? && states[i].procs[1].Running?
    ensures var s := states[|states| - 1];
            s.lock.None? && 1 in s.procs && s.procs[1].Running? && 0 in s.procs && s.procs[0].Done?
  {
    var t := DEFAULT_TIMING;
    var s0 := Initial();
    var s1 := Step(s0, Start(0), t).value;
    var s2 := Step(s1, Start(1), t).value;
    var s3 := Step(s2, Make(0), t).value;
    var s4 := Step(s3, Pass(10_001), t).value;
    var s5 := Step(s4, Quarantine(1), t).value;
    var s6 := Step(s5, Make(1), t).value;
    var s7 := Step(s6, WriteOwner(1), t).value;
    var s8 := Step(s7, WriteOwner(0), t).value;
    var s9 := Step(s8, Finish(0), t).value;
    var s10 := Step(s9, Release(0), t).value;
    assert Step(s0, Start(0), t) == Some(s1) && Step(s1, Start(1), t) == Some(s2) && Step(s2, Make(0), t) == Some(s3);
    assert Step(s3, Pass(10_001), t) == Some(s4) && Step(s4, Quarantine(1), t) == Some(s5);
    assert Step(s5, Make(1), t) == Some(s6) && Step(s6, WriteOwner(1), t) == Some(s7);
    assert Step(s7, WriteOwner(0), t) == Some(s8) && s8.procs[0].Running? && s8.procs[1].Running?;
    assert Step(s8, Finish(0), t) == Some(s9) && Step(s9, Release(0), t) == Some(s10);
    assert s10.lock.None? && s10.procs[1].Running? && s10.procs[0].Done?;
    hide Step;
    states := [s0, s1, s2, s3, s4, s5, s6, s7, s8, s9, s10];
    assert states[8] == s8;
    var actions := [Start(0), Start(1), Make(0), Pass(10_001), Quarantine(1), Make(1), WriteOwner(1),
                    WriteOwner(0), Finish(0), Release(0)];
    ActionsLead(states, actions, t);
  }

  /** A process that stalls so long that its owner file finds no directory at all cleans up after
      itself, and takes its successor's directory, though it never wrote one anywhere. */
  lemma LateCleanUpBreaksTheLock() returns (states: seq<State>)
    ensures Run(states, DEFAULT_TIMING) && |states| > 1
    ensures var s, later := states[|states| - 2], states[|states| - 1];
            && 0 in s.procs && s.procs[0].Cleaning? && 1 in s.procs && s.procs[1].Running? && Owns(s, 1)
            && s.lock.value.id == s.procs[1].made
            && 1 in later.procs && later.procs[1].Running? && later.lock.None?
  {
    var t := DEFAULT_TIMING;
    var s0 := Initial();
    var s1 := Step(s0, Start(0), t).value;
    var s2 := Step(s1, Start(1), t).value;
    var s3 := Step(s2, Make(0), t).value;
    var s4 := Step(s3, Pass(10_001), t).value;
    var s5 := Step(s4, Quarantine(1), t).value;
    var s6 := Step(s5, WriteOwner(0), t).value;
    var s7 := Step(s6, Make(1), t).value;
    var s8 := Step(s7, WriteOwner(1), t).value;
    var s9 := Step(s8, CleanUp(0), t).value;
    assert Step(s0, Start(0), t) == Some(s1) && Step(s1, Start(1), t) == Some(s2) && Step(s2, Make(0), t) == Some(s3);
    assert Step(s3, Pass(10_001), t) == Some(s4) && Step(s4, Quarantine(1), t) == Some(s5);
    assert Step(s5, WriteOwner(0), t) == Some(s6) && Step(s6, Make(1), t) == Some(s7);
    assert Step(s7, WriteOwner(1), t) == Some(s8) && Step(s8, CleanUp(0), t) == Some(s9);
    assert s8.procs[0].Cleaning? && s8.procs[1].Running? && Owns(s8, 1) && s8.lock.value.id == s8.procs[1].made;
    assert s9.procs[1].Running? && s9.lock.None?;
    hide Step;
    states := [s0, s1, s2, s3, s4, s5, s6, s7, s8, s9];
    var actions := [Start(0), Start(1), Make(0), Pass(10_001), Quarantine(1), WriteOwner(0), Make(1),
                    WriteOwner(1), CleanUp(0)];
    ActionsLead(states, actions, t);
  }
}
