/** What the publication steps achieve when nothing disturbs them. */
module PublicationProgress {
  import opened Prelude
  import opened Publication

  function Apply(s: State, actions: seq<Action>): Option<State>
    decreases |actions|
  {
    if actions == [] then Some(s)
    else
      var t := Step(s, actions[0]);
      if t.None? then None else Apply(t.value, actions[1..])
  }

  lemma {:induction false} ApplyConcat(s: State, a: seq<Action>, b: seq<Action>)
    requires Apply(s, a).Some?
    ensures Apply(s, a + b) == Apply(Apply(s, a).value, b)
    decreases |a|
  {
    hide Step;
    if a == [] {
      assert a + b == b;
    } else {
      ApplyConcat(Step(s, a[0]).value, a[1..], b);
      assert (a + b)[1..] == a[1..] + b;
    }
  }

  lemma {:induction false} Then(s: State, a: Action, t: State, rest: seq<Action>)
    requires Step(s, a) == Some(t)
    ensures Apply(s, [a] + rest) == Apply(t, rest)
  {
    assert ([a] + rest)[1..] == rest;
  }

  lemma {:induction false} Rest(s: State)
    ensures Apply(s, []) == Some(s)
  {
  }

  lemma {:induction false} ReleaseIsDecided(s: State, m: Manifest, local: Option<Pointer>)
    requires s.pc == Deciding(m, local, false)
    requires local.Some? ==> Newer(m.gen, local.value.gen) && local.value.sha != m.sha
    requires Allows(s.active, m.gen, m.sha)
    ensures Apply(s, [Decide(false), LookUp(None)]) == Some(s.(pc := CreatingLease(m)))
  {
    var s1 := s.(pc := LookingUp(m));
    var s2 := s.(pc := CreatingLease(m));
    if local.Some? {
      VersionOrder(m.gen.version, local.value.gen.version, m.gen.version);
    }
    assert Step(s, Decide(false)) == Some(s1);
    assert Step(s1, LookUp(None)) == Some(s2);
    hide Step, Apply;
    Rest(s2);
    Then(s1, LookUp(None), s2, []);
    Then(s, Decide(false), s1, [LookUp(None)]);
  }

  /** A newer release with another digest is not found locally, so it is to be published. */
  lemma {:induction false} ReleaseIsWanted(s: State, m: Manifest)
    requires s.pc.Idle? && !s.active.Damaged?
    requires s.active.Valid? ==> Newer(m.gen, s.active.p.gen) && s.active.p.sha != m.sha
    ensures Apply(s, [Begin(m), ReadActive, Decide(false), LookUp(None)]) == Some(s.(pc := CreatingLease(m)))
  {
    var local := if s.active.Valid? then Some(s.active.p) else None;
    var s1 := s.(pc := ReadingActive(m));
    var s2 := s.(pc := Deciding(m, local, false));
    if s.active.Valid? {
      VersionOrder(m.gen.version, s.active.p.gen.version, m.gen.version);
    }
    assert Allows(s2.active, m.gen, m.sha);
    assert Step(s, Begin(m)) == Some(s1);
    assert Step(s1, ReadActive) == Some(s2);
    hide Step, Apply, Newer, Allows;
    ReleaseIsDecided(s2, m, local);
    Then(s1, ReadActive, s2, [Decide(false), LookUp(None)]);
    Then(s, Begin(m), s1, [ReadActive, Decide(false), LookUp(None)]);
  }

  /** Lease, file, verification: the new generation is in place before any pointer changes. */
  lemma {:induction false} FileIsPlaced(s: State, m: Manifest, suffix: nat)
    requires s.pc == CreatingLease(m) && Name(m.sha, suffix) !in s.log.used
    ensures var file := Name(m.sha, suffix);
            Apply(s, [CreateLease(suffix), Place(m.sha), Verify(true)])
            == Some(s.(leases := s.leases + {file}, log := s.log.(used := s.log.used + {file}), files := s.files[file := m.sha],
                       pc := ReadingOld(Pointer(file, m.gen, m.sha))))
  {
    var file := Name(m.sha, suffix);
    var s1 := s.(leases := s.leases + {file}, log := s.log.(used := s.log.used + {file}), pc := Placing(m, file));
    var s2 := s1.(files := s1.files[file := m.sha], pc := Verifying(m, file));
    var s3 := s2.(pc := ReadingOld(Pointer(file, m.gen, m.sha)));
    assert Step(s, CreateLease(suffix)) == Some(s1);
    assert Step(s1, Place(m.sha)) == Some(s2) && Step(s2, Verify(true)) == Some(s3);
    hide Step, Apply;
    Rest(s3);
    Then(s2, Verify(true), s3, []);
    Then(s1, Place(m.sha), s2, [Verify(true)]);
    Then(s, CreateLease(suffix), s1, [Place(m.sha), Verify(true)]);
  }

  /** The state after switching `active` from a state that is about to. */
  function Switched(s: State, target: Pointer): State {
    s.(active := Valid(target), pc := ReadingKept(target.file),
       log := s.log.(activated := s.log.activated + {target.file}, history := s.log.history + [target]))
  }

  /** The same, with the outgoing generation kept as `previous`. */
  function Kept(s: State, outgoing: Pointer, target: Pointer): State {
    Switched(s.(previous := Valid(outgoing),
                log := s.log.(activated := s.log.activated + {outgoing.file}, unkept := false)), target)
  }

  /** Switching `active` with nothing to keep: `previous` stays. */
  lemma {:induction false} TargetIsActivated(s: State, target: Pointer)
    requires s.pc == ReadingOld(target)
    requires s.active.Valid? ==> s.active.p.file == target.file || s.active.p.sha == target.sha
    ensures Apply(s, [ReadOld, WriteActive]) == Some(Switched(s, target))
  {
    var s1 := s.(pc := WritingActive(target));
    assert Step(s, ReadOld) == Some(s1);
    assert Step(s1, WriteActive) == Some(Switched(s, target));
    hide Step, Apply, Switched;
    Rest(Switched(s, target));
    Then(s1, WriteActive, Switched(s, target), []);
    Then(s, ReadOld, s1, [WriteActive]);
  }

  lemma {:induction false} PointersAreWritten(s: State, target: Pointer, outgoing: Pointer)
    requires s.pc == WritingPrevious(target, outgoing)
    ensures Apply(s, [WritePrevious, WriteActive]) == Some(Kept(s, outgoing, target))
  {
    var s1 := s.(previous := Valid(outgoing), pc := WritingActive(target),
                 log := s.log.(activated := s.log.activated + {outgoing.file}, unkept := false));
    assert Step(s, WritePrevious) == Some(s1);
    assert Step(s1, WriteActive) == Some(Kept(s, outgoing, target));
    hide Step, Apply, Kept;
    Rest(Kept(s, outgoing, target));
    Then(s1, WriteActive, Kept(s, outgoing, target), []);
    Then(s, WritePrevious, s1, [WriteActive]);
  }

  /** Switching `active` away from an intact generation leaves that behind as `previous`. */
  lemma {:induction false} OutgoingIsKept(s: State, target: Pointer)
    requires s.pc == ReadingOld(target) && s.active.Valid?
    requires s.active.p.file != target.file && s.active.p.sha != target.sha
    requires Intact(s, s.active.p.file, s.active.p.sha)
    ensures Apply(s, [ReadOld, HashOld(true), WritePrevious, WriteActive]) == Some(Kept(s, s.active.p, target))
  {
    var s1 := s.(pc := HashingOld(target, s.active.p));
    var s2 := s.(pc := WritingPrevious(target, s.active.p));
    assert Step(s, ReadOld) == Some(s1);
    assert Step(s1, HashOld(true)) == Some(s2);
    assert Kept(s2, s.active.p, target) == Kept(s, s.active.p, target);
    hide Step, Apply, Intact, Kept;
    PointersAreWritten(s2, target, s.active.p);
    Then(s1, HashOld(true), s2, [WritePrevious, WriteActive]);
    Then(s, ReadOld, s1, [HashOld(true), WritePrevious, WriteActive]);
  }

  function SwitchActions(s: State): seq<Action> {
    if s.active.Valid? then [ReadOld, HashOld(true), WritePrevious, WriteActive] else [ReadOld, WriteActive]
  }

  function SyncActions(s: State, m: Manifest, suffix: nat): seq<Action> {
    [Begin(m), ReadActive, Decide(false), LookUp(None)]
    + ([CreateLease(suffix), Place(m.sha), Verify(true)] + SwitchActions(s))
  }

  function Placed(s: State, m: Manifest, suffix: nat): State {
    var file := Name(m.sha, suffix);
    s.(leases := s.leases + {file}, log := s.log.(used := s.log.used + {file}), files := s.files[file := m.sha],
       pc := ReadingOld(Pointer(file, m.gen, m.sha)))
  }

  /** What a synchronization with a newer release leaves, before it prunes. */
  function Synchronized(s: State, m: Manifest, suffix: nat): State {
    var placed, target := Placed(s, m, suffix), Pointer(Name(m.sha, suffix), m.gen, m.sha);
    if s.active.Valid? then Kept(placed, s.active.p, target) else Switched(placed, target)
  }

  lemma {:induction false} SyncApplies(s: State, m: Manifest, suffix: nat)
    requires FilesInv(s) && PointersInv(s) && s.pc.Idle? && !s.active.Damaged? && Name(m.sha, suffix) !in s.log.used
    requires s.active.Valid? ==> Newer(m.gen, s.active.p.gen) && s.active.p.sha != m.sha
    ensures Apply(s, SyncActions(s, m, suffix)) == Some(Synchronized(s, m, suffix))
  {
    var file := Name(m.sha, suffix);
    var s1, s2 := s.(pc := CreatingLease(m)), Placed(s, m, suffix);
    ReleaseIsWanted(s, m);
    FileIsPlaced(s1, m, suffix);
    assert s.active.Valid? ==> s.active.p.file in s.log.used && Intact(s, s.active.p.file, s.active.p.sha);
    assert s2.active == s.active && (s.active.Valid? ==> Intact(s2, s.active.p.file, s.active.p.sha));
    hide Apply, Step, FilesInv, PointersInv, Kept, Switched;
    if s.active.Valid? {
      OutgoingIsKept(s2, Pointer(file, m.gen, m.sha));
    } else {
      TargetIsActivated(s2, Pointer(file, m.gen, m.sha));
    }
    ApplyConcat(s1, [CreateLease(suffix), Place(m.sha), Verify(true)], SwitchActions(s));
    ApplyConcat(s, [Begin(m), ReadActive, Decide(false), LookUp(None)],
                [CreateLease(suffix), Place(m.sha), Verify(true)] + SwitchActions(s));
  }

  /** An undisturbed synchronization with a newer release ends with the release active, its file in
      place, and the generation it replaced as `previous`. */
  lemma {:induction false} SynchronizationSucceeds(s: State, m: Manifest, suffix: nat)
    requires Inv(s) && s.pc.Idle? && !s.active.Damaged? && Name(m.sha, suffix) !in s.log.used
    requires s.active.Valid? ==> Newer(m.gen, s.active.p.gen) && s.active.p.sha != m.sha
    ensures var file, t := Name(m.sha, suffix), Apply(s, SyncActions(s, m, suffix));
            && t.Some? && t.value.active == Valid(Pointer(file, m.gen, m.sha))
            && t.value.files == s.files[file := m.sha]
            && t.value.previous == (if s.active.Valid? then s.active else s.previous)
  {
    hide Apply;
    SyncApplies(s, m, suffix);
  }

  /** A pinned database is passed over. */
  lemma {:induction false} PrunePassesThePinned(s: State, file: Name)
    requires s.pc.Pruning? && file != s.pc.current && s.pc.kept != Some(file) && file in s.leases && Held(s, file)
    ensures Apply(s, [PruneFile(file), TryLock]) == Some(s)
  {
    var s1 := s.(pc := Locking(s.pc.current, s.pc.kept, file, false));
    assert Step(s, PruneFile(file)) == Some(s1) && Step(s1, TryLock) == Some(s);
    hide Step, Apply;
    Rest(s);
    Then(s1, TryLock, s, []);
    Then(s, PruneFile(file), s1, [TryLock]);
  }

  lemma {:induction false} LeaseIsUnlinked(s: State, current: Name, kept: Option<Name>, file: Name)
    requires s.pc == UnlinkingLease(current, kept, file) && file !in s.files
    ensures Apply(s, [UnlinkLease, Unlock])
            == Some(s.(leases := s.leases - {file}, exclusive := None, pc := Pruning(current, kept)))
  {
    var s1 := s.(leases := s.leases - {file}, pc := Unlocking(current, kept, file));
    var s2 := s1.(exclusive := None, pc := Pruning(current, kept));
    assert Step(s, UnlinkLease) == Some(s1);
    assert Step(s1, Unlock) == Some(s2);
    hide Step, Apply;
    Rest(s2);
    Then(s1, Unlock, s2, []);
    Then(s, UnlinkLease, s1, [Unlock]);
  }

  lemma {:induction false} LockedIsUnlinked(s: State, current: Name, kept: Option<Name>, file: Name)
    requires s.pc == UnlinkingFile(current, kept, file) && file in s.files
    ensures Apply(s, [UnlinkFile, UnlinkLease, Unlock])
            == Some(s.(files := s.files - {file}, leases := s.leases - {file}, exclusive := None,
                       pc := Pruning(current, kept)))
  {
    var s1 := s.(files := s.files - {file}, pc := UnlinkingLease(current, kept, file));
    assert Step(s, UnlinkFile) == Some(s1);
    hide Step, Apply;
    LeaseIsUnlinked(s1, current, kept, file);
    Then(s, UnlinkFile, s1, [UnlinkLease, Unlock]);
  }

  /** Pruning takes a database that neither pointer names and no reader pins, with its lease, and
      nothing else. */
  lemma {:induction false} PruneTakesTheUnpinned(s: State, file: Name)
    requires s.exclusive.None? && s.pc.Pruning? && file != s.pc.current && s.pc.kept != Some(file)
    requires file in s.files && file in s.leases && !Held(s, file)
    ensures Apply(s, [PruneFile(file), TryLock, UnlinkFile, UnlinkLease, Unlock])
            == Some(s.(files := s.files - {file}, leases := s.leases - {file}))
  {
    var current, kept := s.pc.current, s.pc.kept;
    var s1 := s.(pc := Locking(current, kept, file, false));
    var s2 := s.(exclusive := Some(file), pc := UnlinkingFile(current, kept, file));
    assert Step(s, PruneFile(file)) == Some(s1);
    assert Step(s1, TryLock) == Some(s2);
    hide Step, Apply, Held;
    LockedIsUnlinked(s2, current, kept, file);
    Then(s1, TryLock, s2, [UnlinkFile, UnlinkLease, Unlock]);
    Then(s, PruneFile(file), s1, [TryLock, UnlinkFile, UnlinkLease, Unlock]);
  }

  lemma {:induction false} LockedReaderOpens(s: State, r: nat, file: Name)
    requires r in s.readers && s.readers[r] == Locked(file) && file in s.files
    ensures Apply(s, [Connect(r), Recheck(r)]) == Some(Move(s, r, Opened(file, true)))
  {
    var s1, s2 := Move(s, r, Connected(file, true)), Move(s, r, Opened(file, true));
    assert Step(s, Connect(r)) == Some(s1);
    assert s1.readers[r := Opened(file, true)] == s2.readers;
    assert Step(s1, Recheck(r)) == Some(s2);
    hide Step, Apply;
    Rest(s2);
    Then(s1, Recheck(r), s2, []);
    Then(s, Connect(r), s1, [Recheck(r)]);
  }

  lemma {:induction false} LeasedReaderOpens(s: State, r: nat, file: Name)
    requires r in s.readers && s.readers[r] == LeaseFound(file) && file in s.files && s.exclusive != Some(file)
    ensures Apply(s, [LockShared(r), Connect(r), Recheck(r)])
            == Some(Move(s, r, Opened(file, true)).(shared := s.shared + {(r, file)}))
  {
    var s1 := Move(s, r, Locked(file)).(shared := s.shared + {(r, file)});
    assert Step(s, LockShared(r)) == Some(s1);
    assert s1.readers[r := Opened(file, true)] == s.readers[r := Opened(file, true)];
    hide Step, Apply;
    LockedReaderOpens(s1, r, file);
    Then(s, LockShared(r), s1, [Connect(r), Recheck(r)]);
  }

  /** A reader that is not interrupted opens the file it chose, with a shared lock on its lease. */
  lemma {:induction false} ReaderOpens(s: State, r: nat, file: Name)
    requires r in s.readers && s.readers[r] == Chosen(file)
    requires file in s.files && file in s.leases && s.exclusive != Some(file)
    ensures Apply(s, [Observe(r), OpenLease(r), LockShared(r), Connect(r), Recheck(r)])
            == Some(Move(s, r, Opened(file, true)).(shared := s.shared + {(r, file)}))
  {
    var s1, s2 := Move(s, r, Observed(file)), Move(s, r, LeaseFound(file));
    assert Step(s, Observe(r)) == Some(s1);
    assert s1.readers[r := LeaseFound(file)] == s2.readers;
    assert Step(s1, OpenLease(r)) == Some(s2);
    assert s2.readers[r := Opened(file, true)] == s.readers[r := Opened(file, true)];
    hide Step, Apply;
    LeasedReaderOpens(s2, r, file);
    Then(s1, OpenLease(r), s2, [LockShared(r), Connect(r), Recheck(r)]);
    Then(s, Observe(r), s1, [OpenLease(r), LockShared(r), Connect(r), Recheck(r)]);
  }
}
