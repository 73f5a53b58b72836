/** What each decision of publisher and readers leads to, in every case. */
module PublicationDecisions {
  import opened Prelude
  import opened Publication
  import opened PublicationProgress

  // ---------------------------------------------------------------------------------------
  // Preparing a synchronization
  // ---------------------------------------------------------------------------------------

  /** The pointer that is consulted: `active`, or `previous` when `active` does not parse. */
  function Consulted(s: State): Option<Pointer> {
    if s.active.Valid? then Some(s.active.p)
    else if s.active.Damaged? && s.previous.Valid? then Some(s.previous.p)
    else None
  }

  function PrepareActions(s: State, m: Manifest, intact: bool): seq<Action> {
    if s.active.Damaged? then [Begin(m), ReadActive, ReadPrevious, Decide(intact)]
    else [Begin(m), ReadActive, Decide(intact)]
  }

  /** The version text is smaller at the first difference, or ends there. */
  ghost predicate SmallerText(a: string, b: string) {
    exists i: nat :: FirstDifference(a, b, i)
  }

  predicate FirstDifference(a: string, b: string, i: nat) {
    i <= |a| && i < |b| && a[..i] == b[..i] && (i == |a| || a[i] < b[i])
  }

  lemma {:induction false} VersionLessIsSmaller(a: string, b: string)
    ensures VersionLess(a, b) <==> SmallerText(a, b)
  {
    if a != [] && b != [] && a[0] == b[0] {
      VersionLessIsSmaller(a[1..], b[1..]);
      if i: nat :| FirstDifference(a[1..], b[1..], i) {
        assert a[..i + 1] == [a[0]] + a[1..][..i] && b[..i + 1] == [b[0]] + b[1..][..i];
        assert FirstDifference(a, b, i + 1);
      }
      if i: nat :| FirstDifference(a, b, i) {
        if i == 0 { assert false; }
        assert a[1..][..i - 1] == a[..i][1..] && b[1..][..i - 1] == b[..i][1..];
        assert FirstDifference(a[1..], b[1..], i - 1);
      }
    } else if b != [] && (a == [] || a[0] < b[0]) {
      assert FirstDifference(a, b, 0);
    } else {
      forall i: nat | 0 < i <= |a| && i <= |b| && a[..i] == b[..i] ensures a[0] == b[0] {
        SameStart(a, b, i);
      }
    }
  }

  lemma SameStart(a: string, b: string, i: nat)
    requires 0 < i <= |a| && i <= |b| && a[..i] == b[..i]
    ensures a[0] == b[0]
  {
    assert a[..i][0] == b[..i][0];
  }

  /** A release is refused by a pointer of a later generation, or of the same with another digest. */
  ghost predicate Refuses(p: Pointer, m: Manifest) {
    || SmallerText(m.gen.version, p.gen.version)
    || (m.gen.version == p.gen.version && m.gen.revision < p.gen.revision)
    || (m.gen == p.gen && p.sha != m.sha)
  }

  /** The whole decision, from any idle state. The consulted pointer refuses the release, and nothing
      changes; or it has the release's digest and its file passes the verification, and the release is
      served from there, with nothing but the pruning to do for an `active`, and an activation for a
      `previous`; otherwise the release is looked up. */
  lemma PreparationExactly(s: State, m: Manifest, intact: bool)
    requires Inv(s) && s.pc.Idle?
    requires intact && Consulted(s).Some? && Consulted(s).value.sha == m.sha ==> Intact(s, Consulted(s).value.file, m.sha)
    ensures var p := Consulted(s);
            Apply(s, PrepareActions(s, m, intact)) ==
            if p.Some? && Refuses(p.value, m) then Some(s)
            else if p.Some? && p.value.sha == m.sha && intact then
              Some(s.(pc := if s.active.Valid? then ReadingKept(p.value.file) else ReadingOld(p.value)))
            else Some(s.(pc := LookingUp(m)))
  {
    var p, repair := Consulted(s), s.active.Damaged?;
    var s1, s2 := s.(pc := ReadingActive(m)), s.(pc := Deciding(m, p, repair));
    assert Step(s, Begin(m)) == Some(s1);
    Judged(s2, m, p, repair, intact);
    if repair {
      var s3 := s.(pc := ReadingPrevious(m));
      assert Step(s1, ReadActive) == Some(s3);
      assert Step(s3, ReadPrevious) == Some(s2);
      hide Step, Apply, Inv, Refuses;
      Then(s3, ReadPrevious, s2, [Decide(intact)]);
      Then(s1, ReadActive, s3, [ReadPrevious, Decide(intact)]);
      Then(s, Begin(m), s1, [ReadActive, ReadPrevious, Decide(intact)]);
    } else {
      assert Step(s1, ReadActive) == Some(s2);
      hide Step, Apply, Inv, Refuses;
      Then(s1, ReadActive, s2, [Decide(intact)]);
      Then(s, Begin(m), s1, [ReadActive, Decide(intact)]);
    }
  }

  lemma {:induction false} Judged(s: State, m: Manifest, p: Option<Pointer>, repair: bool, intact: bool)
    requires s.pc == Deciding(m, p, repair) && p == Consulted(s) && repair == s.active.Damaged?
    requires intact && p.Some? && p.value.sha == m.sha ==> Intact(s, p.value.file, m.sha)
    ensures Apply(s, [Decide(intact)]) ==
            if p.Some? && Refuses(p.value, m) then Some(s.(pc := Idle))
            else if p.Some? && p.value.sha == m.sha && intact then
              Some(s.(pc := if s.active.Valid? then ReadingKept(p.value.file) else ReadingOld(p.value)))
            else Some(s.(pc := LookingUp(m)))
  {
    if p.Some? {
      VersionLessIsSmaller(m.gen.version, p.value.gen.version);
      RefusesExactly(p.value, m);
    }
    var t := Step(s, Decide(intact));
    hide SmallerText, Refuses;
    assert t.Some?;
    Then(s, Decide(intact), t.value, []);
    Rest(t.value);
    assert [Decide(intact)] + [] == [Decide(intact)];
  }

  lemma RefusesExactly(p: Pointer, m: Manifest)
    ensures Refuses(p, m) <==> Newer(p.gen, m.gen) || (p.gen == m.gen && p.sha != m.sha)
  {
    VersionLessIsSmaller(m.gen.version, p.gen.version);
    hide SmallerText;
  }

  // ---------------------------------------------------------------------------------------
  // Publishing and activating
  // ---------------------------------------------------------------------------------------

  lemma {:induction false} FileGoesWithLease(s: State, file: Name)
    requires s.pc == RemovingFile(file)
    ensures Apply(s, [RemoveFile, RemoveLease])
            == Some(s.(files := s.files - {file}, leases := s.leases - {file}, pc := Idle))
  {
    var s1, s2 := s.(files := s.files - {file}, pc := RemovingLease(file)),
                  s.(files := s.files - {file}, leases := s.leases - {file}, pc := Idle);
    assert Step(s, RemoveFile) == Some(s1) && Step(s1, RemoveLease) == Some(s2);
    hide Step, Apply;
    Rest(s2);
    Then(s1, RemoveLease, s2, []);
    Then(s, RemoveFile, s1, [RemoveLease]);
  }

  /** A database that does not verify goes again, with its lease; only its name is used up. */
  lemma {:induction false} RefusedFileGoes(s: State, m: Manifest, suffix: nat, content: Digest)
    requires FilesInv(s) && s.pc == CreatingLease(m) && Name(m.sha, suffix) !in s.log.used
    ensures Name(m.sha, suffix) !in s.files
    ensures Apply(s, [CreateLease(suffix), Place(content), Verify(false)] + [RemoveFile, RemoveLease])
            == Some(s.(pc := Idle, log := s.log.(used := s.log.used + {Name(m.sha, suffix)})))
  {
    var file := Name(m.sha, suffix);
    var log := s.log.(used := s.log.used + {file});
    var s1 := s.(leases := s.leases + {file}, log := log, pc := Placing(m, file));
    var s2 := s1.(files := s1.files[file := content], pc := Verifying(m, file));
    var s3 := s2.(pc := RemovingFile(file));
    assert s2.files - {file} == s.files && s.leases + {file} - {file} == s.leases;
    assert Step(s, CreateLease(suffix)) == Some(s1) && Step(s1, Place(content)) == Some(s2);
    assert Step(s2, Verify(false)) == Some(s3);
    hide Step, Apply, FilesInv;
    FileGoesWithLease(s3, file);
    Rest(s3);
    Then(s2, Verify(false), s3, []);
    Then(s1, Place(content), s2, [Verify(false)]);
    Then(s, CreateLease(suffix), s1, [Place(content), Verify(false)]);
    ApplyConcat(s, [CreateLease(suffix), Place(content), Verify(false)], [RemoveFile, RemoveLease]);
  }

  function ActivateActions(s: State, target: Pointer): seq<Action> {
    if s.active.Valid? && s.active.p.file != target.file && s.active.p.sha != target.sha then
      if Intact(s, s.active.p.file, s.active.p.sha) then [ReadOld, HashOld(true), WritePrevious, WriteActive]
      else [ReadOld, HashOld(false), WriteActive]
    else [ReadOld, WriteActive]
  }

  /** Activation in every case: `active` names the target, and the pointer it replaces becomes
      `previous` exactly when it could be read and names another, intact file with another digest. */
  lemma {:induction false} ActivationExactly(s: State, target: Pointer)
    requires s.pc == ReadingOld(target)
    ensures var t := Apply(s, ActivateActions(s, target));
            && t.Some? && t.value.active == Valid(target) && t.value.pc == ReadingKept(target.file)
            && t.value.files == s.files && t.value.leases == s.leases
            && t.value.log.history == s.log.history + [target]
            && t.value.previous ==
               if s.active.Valid? && s.active.p.file != target.file && s.active.p.sha != target.sha
                  && Intact(s, s.active.p.file, s.active.p.sha)
               then s.active else s.previous
  {
    if s.active.Valid? && s.active.p.file != target.file && s.active.p.sha != target.sha {
      if Intact(s, s.active.p.file, s.active.p.sha) {
        OutgoingIsKept(s, target);
      } else {
        var s1, s2 := s.(pc := HashingOld(target, s.active.p)), s.(pc := WritingActive(target));
        assert Step(s, ReadOld) == Some(s1) && Step(s1, HashOld(false)) == Some(s2);
        assert Step(s2, WriteActive) == Some(Switched(s, target));
        hide Step, Apply, Intact;
        Rest(Switched(s, target));
        Then(s2, WriteActive, Switched(s, target), []);
        Then(s1, HashOld(false), s2, [WriteActive]);
        Then(s, ReadOld, s1, [HashOld(false), WriteActive]);
      }
    } else {
      TargetIsActivated(s, target);
    }
  }

  // ---------------------------------------------------------------------------------------
  // Pruning
  // ---------------------------------------------------------------------------------------

  /** What pruning retains is what `previous` names, if it can be read, beside the current file. */
  lemma {:induction false} PruningRetains(s: State, current: Name)
    requires s.pc == ReadingKept(current)
    ensures Apply(s, [ReadKept])
            == Some(s.(pc := Pruning(current, if s.previous.Valid? then Some(s.previous.p.file) else None)))
  {
    var t := s.(pc := Pruning(current, if s.previous.Valid? then Some(s.previous.p.file) else None));
    assert Step(s, ReadKept) == Some(t);
    hide Step, Apply;
    Rest(t);
    Then(s, ReadKept, t, []);
    assert [ReadKept] + [] == [ReadKept];
  }

  /** A database that is retained, or has no lease, is not touched. */
  lemma {:induction false} PrunePassesTheRetained(s: State, file: Name)
    requires s.pc.Pruning? && (file == s.pc.current || s.pc.kept == Some(file) || file !in s.leases)
    ensures Apply(s, [PruneFile(file)]) == Some(s)
  {
    assert Step(s, PruneFile(file)) == Some(s);
    hide Step, Apply;
    Rest(s);
    Then(s, PruneFile(file), s, []);
    assert [PruneFile(file)] + [] == [PruneFile(file)];
  }

  /** The lease of a file that is there is passed over; one without its file goes unless a reader holds it. */
  lemma {:induction false} OrphanLeaseGoes(s: State, file: Name)
    requires s.pc.Pruning? && s.exclusive.None? && file in s.leases
    ensures file in s.files ==> Apply(s, [PruneOrphan(file)]) == Some(s)
    ensures file !in s.files && Held(s, file) ==> Apply(s, [PruneOrphan(file), TryLock]) == Some(s)
    ensures file !in s.files && !Held(s, file) ==>
              Apply(s, [PruneOrphan(file), TryLock, UnlinkLease, Unlock]) == Some(s.(leases := s.leases - {file}))
  {
    var current, kept := s.pc.current, s.pc.kept;
    if file in s.files {
      assert Step(s, PruneOrphan(file)) == Some(s);
      hide Step, Apply;
      Rest(s);
      Then(s, PruneOrphan(file), s, []);
      assert [PruneOrphan(file)] + [] == [PruneOrphan(file)];
    } else {
      var s1 := s.(pc := Locking(current, kept, file, true));
      var s2 := s.(exclusive := Some(file), pc := UnlinkingLease(current, kept, file));
      assert Step(s, PruneOrphan(file)) == Some(s1);
      assert Step(s1, TryLock) == if Held(s, file) then Some(s) else Some(s2);
      hide Step, Apply, Held;
      if Held(s, file) {
        Rest(s);
        Then(s1, TryLock, s, []);
        Then(s, PruneOrphan(file), s1, [TryLock]);
      } else {
        LeaseIsUnlinked(s2, current, kept, file);
        Then(s1, TryLock, s2, [UnlinkLease, Unlock]);
        Then(s, PruneOrphan(file), s1, [TryLock, UnlinkLease, Unlock]);
      }
    }
  }

  // ---------------------------------------------------------------------------------------
  // Readers
  // ---------------------------------------------------------------------------------------

  /** A reader chooses what a pointer names, `active` or `previous`, if that parses. */
  lemma ReaderChooses(s: State, r: nat, fromPrevious: bool)
    requires r !in s.readers
    ensures var pointer := if fromPrevious then s.previous else s.active;
            Step(s, Choose(r, fromPrevious)) == if pointer.Valid? then Some(Move(s, r, Chosen(pointer.p.file))) else None
  {
  }

  /** A reader turns back, and lets its lock go, at every step that finds the file gone, and where the
      publisher has the lease locked. */
  lemma ReaderTurnsBack(s: State, r: nat)
    requires r in s.readers
    ensures var reader := s.readers[r];
            var gone := Some(Leave(s, r, reader.file));
            && (reader.Chosen? && reader.file !in s.files ==> Step(s, Observe(r)) == gone)
            && (reader.LeaseFound? && s.exclusive == Some(reader.file) ==> Step(s, LockShared(r)) == gone)
            && ((reader.Locked? || reader.WithoutLease?) && reader.file !in s.files ==> Step(s, Connect(r)) == gone)
            && (reader.Connected? && reader.file !in s.files ==> Step(s, Recheck(r)) == gone)
            && Step(s, Close(r)) == gone
            && gone.value.readers[r] == Gone(reader.file) && (r, reader.file) !in gone.value.shared
  {
  }
}
