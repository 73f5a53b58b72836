/**
 Publication, activation and pruning of immutable database generations, with readers of other
 processes opening them. Every system call is one action; the publisher may crash, and its calls
 may fail, between any two of them. The publisher side runs under sync.lock, so there is one.
 */
module Publication {
  import opened Prelude

  type Digest = nat

  /** A managed file is named after the digest it should have and a fresh suffix. Its lease file
      is created at most once, so the name also identifies the lease's inode. */
  datatype Name = Name(sha: Digest, suffix: nat)

  datatype Generation = Generation(version: string, revision: nat)
  datatype Manifest = Manifest(gen: Generation, sha: Digest)
  datatype Pointer = Pointer(file: Name, gen: Generation, sha: Digest)

  /** The text of a pointer file; `Damaged` is a text that does not parse. */
  datatype PointerFile = Absent | Damaged | Valid(p: Pointer)

  // ---------------------------------------------------------------------------------------
  // Generation order
  // ---------------------------------------------------------------------------------------

  predicate VersionLess(a: string, b: string) {
    if b == [] then false
    else if a == [] then true
    else a[0] < b[0] || (a[0] == b[0] && VersionLess(a[1..], b[1..]))
  }

  /** Tuple comparison: version text first, revision second. */
  predicate Newer(a: Generation, b: Generation) {
    VersionLess(b.version, a.version) || (a.version == b.version && a.revision > b.revision)
  }

  lemma {:induction false} VersionOrder(a: string, b: string, c: string)
    ensures !VersionLess(a, a)
    ensures VersionLess(a, b) || a == b || VersionLess(b, a)
    ensures VersionLess(a, b) ==> !VersionLess(b, a)
    ensures VersionLess(a, b) && VersionLess(b, c) ==> VersionLess(a, c)
  {
    if a != [] && b != [] && c != [] {
      VersionOrder(a[1..], b[1..], c[1..]);
      assert a == [a[0]] + a[1..] && b == [b[0]] + b[1..];
    } else if a != [] && b != [] {
      VersionOrder(a[1..], b[1..], []);
      assert a == [a[0]] + a[1..] && b == [b[0]] + b[1..];
    } else if a != [] {
      VersionOrder(a[1..], [], []);
    }
  }

  /** `newer` may follow `older`: it is not older, and the same generation keeps its digest. */
  predicate Follows(older: Pointer, newer: Pointer) {
    !Newer(older.gen, newer.gen) && (older.gen == newer.gen ==> older.sha == newer.sha)
  }

  lemma FollowsTransitive(a: Pointer, b: Pointer, c: Pointer)
    requires Follows(a, b) && Follows(b, c)
    ensures Follows(a, c)
  {
    VersionOrder(a.gen.version, b.gen.version, c.gen.version);
    VersionOrder(b.gen.version, c.gen.version, a.gen.version);
    VersionOrder(c.gen.version, a.gen.version, b.gen.version);
    VersionOrder(c.gen.version, b.gen.version, a.gen.version);
  }

  // ---------------------------------------------------------------------------------------
  // States
  // ---------------------------------------------------------------------------------------

  /** Where the publisher stands; the arguments are its local variables. */
  datatype Pc =
    | Idle
    | ReadingActive(m: Manifest)
    | ReadingPrevious(m: Manifest)
    | Deciding(m: Manifest, local: Option<Pointer>, repair: bool)
    | LookingUp(m: Manifest)
    | CreatingLease(m: Manifest)
    | Placing(m: Manifest, file: Name)
    | Verifying(m: Manifest, file: Name)
    | RemovingFile(file: Name)
    | RemovingLease(file: Name)
    | ReadingOld(target: Pointer)
    | HashingOld(target: Pointer, outgoing: Pointer)
    | WritingPrevious(target: Pointer, outgoing: Pointer)
    | WritingActive(target: Pointer)
    | ReadingKept(current: Name)
    | Pruning(current: Name, kept: Option<Name>)
    | Locking(current: Name, kept: Option<Name>, file: Name, orphan: bool)
    | UnlinkingFile(current: Name, kept: Option<Name>, file: Name)
    | UnlinkingLease(current: Name, kept: Option<Name>, file: Name)
    | Unlocking(current: Name, kept: Option<Name>, file: Name)

  datatype Reader =
    | Chosen(file: Name)
    | Observed(file: Name)
    | WithoutLease(file: Name)
    | LeaseFound(file: Name)
    | Locked(file: Name)
    | Connected(file: Name, leased: bool)
    | Opened(file: Name, leased: bool)
    | Gone(file: Name)

  /** What has happened so far; only the choice of fresh names depends on it. */
  datatype Log = Log(
    used: set<Name>,                // every name ever created
    activated: set<Name>,           // every name a pointer ever held
    history: seq<Pointer>,          // activations in order
    damaged: bool,                  // `active` or `previous` was damaged from outside
    stranded: set<Name>,            // linked when their lease was removed
    misjudged: bool,                // a release was let through that a readable `active` forbids
    unkept: bool)                   // a pruning overlooked what `previous` now names

  datatype State = State(
    files: map<Name, Digest>,       // linked database files and what they contain
    leases: set<Name>,              // linked lease files
    shared: set<(nat, Name)>,       // shared locks: reader and lease
    exclusive: Option<Name>,        // the publisher's exclusive lock
    active: PointerFile,
    previous: PointerFile,
    pc: Pc,
    readers: map<nat, Reader>,
    log: Log)

  datatype Action =
    | Begin(m: Manifest)
    | ReadActive
    | ReadPrevious
    | Decide(intact: bool)
    | LookUp(found: Option<Name>)
    | CreateLease(suffix: nat)
    | Place(content: Digest)
    | Verify(intact: bool)
    | RemoveFile
    | RemoveLease
    | ReadOld
    | HashOld(intact: bool)
    | WritePrevious
    | WriteActive
    | ReadKept
    | PruneFile(file: Name)
    | PruneOrphan(file: Name)
    | TryLock
    | UnlinkFile
    | UnlinkLease
    | Unlock
    | Finish
    | Fail
    | FailProbe(file: Name)
    | Crash
    | DamageActive
    | DamagePrevious
    | Choose(r: nat, fromPrevious: bool)
    | Observe(r: nat)
    | OpenLease(r: nat)
    | LockShared(r: nat)
    | Connect(r: nat)
    | Recheck(r: nat)
    | Close(r: nat)

  function Initial(): State {
    State(map[], {}, {}, None, Absent, Absent, Idle, map[], Log({}, {}, [], false, {}, false, false))
  }

  // ---------------------------------------------------------------------------------------
  // Steps
  // ---------------------------------------------------------------------------------------

  predicate Intact(s: State, file: Name, sha: Digest) {
    file in s.files && s.files[file] == sha
  }

  /** A generation may take the place of `active`: not an older one, and not another digest of the same. */
  predicate Allows(active: PointerFile, gen: Generation, sha: Digest) {
    active.Valid? ==> !Newer(active.p.gen, gen) && (active.p.gen == gen ==> active.p.sha == sha)
  }

  /** Reading the pointers and deciding what the release asks for. A failed read of `active` starts
      the repair from `previous`, as a damaged one does; a failed read of `previous` finds nothing. */
  function Prepare(s: State, a: Action): Option<State> {
    match s.pc
    case Idle => if a.Begin? then Some(s.(pc := ReadingActive(a.m))) else None
    case ReadingActive(m) =>
      if a.Fail? || (a.ReadActive? && s.active.Damaged?) then Some(s.(pc := ReadingPrevious(m)))
      else if a.ReadActive? then
        Some(s.(pc := Deciding(m, if s.active.Valid? then Some(s.active.p) else None, false)))
      else None
    case ReadingPrevious(m) =>
      if a.ReadPrevious? then
        Some(s.(pc := Deciding(m, if s.previous.Valid? then Some(s.previous.p) else None, true)))
      else if a.Fail? then Some(s.(pc := Deciding(m, None, true)))
      else None
    case Deciding(m, local, repair) => if a.Decide? then Judge(s, m, local, repair, a.intact) else None
    case LookingUp(m) =>
      if !a.LookUp? then None
      else if a.found.None? then Some(s.(pc := CreatingLease(m)))
      else if a.found.value.sha != m.sha || !Intact(s, a.found.value, m.sha) then None
      else Some(s.(pc := ReadingOld(Pointer(a.found.value, m.gen, m.sha))))
    case _ => None
  }

  /** The local pointer, when there is one, may refuse the release or serve it. */
  function Judge(s: State, m: Manifest, local: Option<Pointer>, repair: bool, intact: bool): Option<State> {
    if local.None? then Some(LetThrough(s, m.gen, m.sha, LookingUp(m)))
    else if Newer(local.value.gen, m.gen) then Some(s.(pc := Idle))
    else if local.value.gen == m.gen && local.value.sha != m.sha then Some(s.(pc := Idle))
    else if local.value.sha != m.sha || !intact then Some(LetThrough(s, m.gen, m.sha, LookingUp(m)))
    else if !Intact(s, local.value.file, m.sha) then None
    else if repair then Some(LetThrough(s, local.value.gen, local.value.sha, ReadingOld(local.value)))
    else Some(s.(pc := ReadingKept(local.value.file)))
  }

  /** The publisher goes on to activate this generation, whatever `active` says. */
  function LetThrough(s: State, gen: Generation, sha: Digest, pc: Pc): State {
    s.(pc := pc, log := s.log.(misjudged := s.log.misjudged || !Allows(s.active, gen, sha)))
  }

  /** The lease file goes; a database still linked then is stranded. */
  function Unlease(s: State, file: Name): State {
    s.(leases := s.leases - {file},
       log := if file in s.files && file in s.leases then s.log.(stranded := s.log.stranded + {file}) else s.log)
  }

  /** Moving a decoded file in, and out again when it does not verify. Failures of the clean-up are
      ignored. */
  function Publish(s: State, a: Action): Option<State> {
    match s.pc
    case CreatingLease(m) =>
      if !a.CreateLease? || Name(m.sha, a.suffix) in s.log.used then None
      else
        var file := Name(m.sha, a.suffix);
        Some(s.(leases := s.leases + {file}, log := s.log.(used := s.log.used + {file}), pc := Placing(m, file)))
    case Placing(m, file) =>
      if a.Place? then Some(s.(files := s.files[file := a.content], pc := Verifying(m, file))) else None
    case Verifying(m, file) =>
      if !a.Verify? then None
      else if !a.intact then Some(s.(pc := RemovingFile(file)))
      else if !Intact(s, file, m.sha) then None
      else Some(s.(pc := ReadingOld(Pointer(file, m.gen, m.sha))))
    case RemovingFile(file) =>
      if a.RemoveFile? then Some(s.(files := s.files - {file}, pc := RemovingLease(file)))
      else if a.Fail? then Some(s.(pc := RemovingLease(file)))
      else None
    case RemovingLease(file) =>
      if a.RemoveLease? then Some(Unlease(s, file).(pc := Idle))
      else if a.Fail? then Some(s.(pc := Idle))
      else None
    case _ => None
  }

  /** Keeping the old pointer as `previous` and switching `active`. When the old pointer cannot be
      read or hashed, nothing is kept. */
  function Activate(s: State, a: Action): Option<State> {
    match s.pc
    case ReadingOld(target) =>
      if a.Fail? then Some(s.(pc := WritingActive(target)))
      else if !a.ReadOld? then None
      else if s.active.Valid? && s.active.p.file != target.file && s.active.p.sha != target.sha
      then Some(s.(pc := HashingOld(target, s.active.p)))
      else Some(s.(pc := WritingActive(target)))
    case HashingOld(target, outgoing) =>
      if !a.HashOld? then None
      else if !a.intact then Some(s.(pc := WritingActive(target)))
      else if !Intact(s, outgoing.file, outgoing.sha) then None
      else Some(s.(pc := WritingPrevious(target, outgoing)))
    case WritingPrevious(target, outgoing) =>
      if !a.WritePrevious? then None
      else Some(s.(previous := Valid(outgoing), pc := WritingActive(target),
                   log := s.log.(activated := s.log.activated + {outgoing.file}, unkept := false)))
    case WritingActive(target) =>
      if !a.WriteActive? then None
      else Some(s.(active := Valid(target), pc := ReadingKept(target.file),
                   log := s.log.(activated := s.log.activated + {target.file}, history := s.log.history + [target])))
    case _ => None
  }

  /** Removing what neither pointer names and no reader pins, entry by entry in any order. When
      `previous` cannot be read, nothing is known to be kept; when a database cannot be looked up, its
      lease counts as an orphan; failed locks and removals are passed over. */
  function Prune(s: State, a: Action): Option<State> {
    match s.pc
    case ReadingKept(current) =>
      if a.ReadKept? then
        Some(s.(pc := Pruning(current, if s.previous.Valid? then Some(s.previous.p.file) else None)))
      else if a.Fail? then
        Some(s.(pc := Pruning(current, None), log := s.log.(unkept := s.log.unkept || Overlooks(s, current))))
      else None
    case Pruning(current, kept) =>
      if a.PruneFile? then
        if a.file == current || kept == Some(a.file) || a.file !in s.leases then Some(s)
        else Some(s.(pc := Locking(current, kept, a.file, false)))
      else if a.PruneOrphan? || a.FailProbe? then
        if (a.PruneOrphan? && a.file in s.files) || a.file !in s.leases then Some(s)
        else Some(s.(pc := Locking(current, kept, a.file, true)))
      else if a.Finish? then Some(s.(pc := Idle))
      else None
    case Locking(current, kept, file, orphan) =>
      if a.Fail? || (a.TryLock? && Held(s, file)) then Some(s.(pc := Pruning(current, kept)))
      else if a.TryLock? then
        Some(s.(exclusive := Some(file),
                pc := if orphan then UnlinkingLease(current, kept, file) else UnlinkingFile(current, kept, file)))
      else None
    case UnlinkingFile(current, kept, file) =>
      if a.Fail? || (a.UnlinkFile? && file !in s.files) then Some(s.(pc := Unlocking(current, kept, file)))
      else if a.UnlinkFile? then Some(s.(files := s.files - {file}, pc := UnlinkingLease(current, kept, file)))
      else None
    case UnlinkingLease(current, kept, file) =>
      if a.UnlinkLease? then Some(Unlease(s, file).(pc := Unlocking(current, kept, file)))
      else if a.Fail? then Some(s.(pc := Unlocking(current, kept, file)))
      else None
    case Unlocking(current, kept, file) =>
      if a.Unlock? then Some(s.(exclusive := None, pc := Pruning(current, kept))) else None
    case _ => None
  }

  /** A reader holds the lease. */
  predicate Held(s: State, file: Name) {
    exists r | r in s.readers :: (r, file) in s.shared
  }

  /** A pruning that retains only `current` may take the file that `previous` names. */
  predicate Overlooks(s: State, current: Name) {
    s.previous.Valid? && s.previous.p.file != current && s.previous.p.file in s.leases
  }

  /** A crash, or a failed call that ends the work, drops the publisher's locks; pointers may be
      damaged from outside. */
  function Outside(s: State, a: Action): Option<State> {
    if a.Crash? then Some(s.(exclusive := None, pc := Idle))
    else if a.DamageActive? then Some(s.(active := Damaged, log := s.log.(damaged := true)))
    else if a.DamagePrevious? then Some(s.(previous := Damaged, log := s.log.(damaged := true)))
    else None
  }

  predicate IsOutside(a: Action) { a.Crash? || a.DamageActive? || a.DamagePrevious? }
  predicate IsPreparing(pc: Pc) { pc.Idle? || pc.ReadingActive? || pc.ReadingPrevious? || pc.Deciding? || pc.LookingUp? }
  predicate IsPublishing(pc: Pc) {
    pc.CreatingLease? || pc.Placing? || pc.Verifying? || pc.RemovingFile? || pc.RemovingLease?
  }
  predicate IsActivating(pc: Pc) { pc.ReadingOld? || pc.HashingOld? || pc.WritingPrevious? || pc.WritingActive? }

  /** The publisher's next state; none when the action is not possible. */
  function Publisher(s: State, a: Action): Option<State> {
    if IsOutside(a) then Outside(s, a)
    else if IsPreparing(s.pc) then Prepare(s, a)
    else if IsPublishing(s.pc) then Publish(s, a)
    else if IsActivating(s.pc) then Activate(s, a)
    else Prune(s, a)
  }

  function Move(s: State, r: nat, to: Reader): State {
    s.(readers := s.readers[r := to])
  }

  /** A reader that gives up or closes lets its lock go. */
  function Leave(s: State, r: nat, file: Name): State {
    Move(s, r, Gone(file)).(shared := s.shared - {(r, file)})
  }

  function Reading(s: State, r: nat, a: Action): Option<State> {
    if a.Choose? then
      var pointer := if a.fromPrevious then s.previous else s.active;
      if r in s.readers || !pointer.Valid? then None else Some(Move(s, r, Chosen(pointer.p.file)))
    else if r !in s.readers then None
    else if a.Close? then Some(Leave(s, r, s.readers[r].file))
    else
      match s.readers[r]
      case Chosen(file) =>
        if !a.Observe? then None else Some(if file in s.files then Move(s, r, Observed(file)) else Leave(s, r, file))
      case Observed(file) =>
        if !a.OpenLease? then None
        else Some(Move(s, r, if file in s.leases then LeaseFound(file) else WithoutLease(file)))
      case LeaseFound(file) =>
        if !a.LockShared? then None
        else Some(if s.exclusive == Some(file) then Leave(s, r, file)
                  else Move(s, r, Locked(file)).(shared := s.shared + {(r, file)}))
      case Locked(file) =>
        if !a.Connect? then None
        else Some(if file in s.files then Move(s, r, Connected(file, true)) else Leave(s, r, file))
      case WithoutLease(file) =>
        if !a.Connect? then None
        else Some(if file in s.files then Move(s, r, Connected(file, false)) else Leave(s, r, file))
      case Connected(file, leased) =>
        if !a.Recheck? then None
        else Some(if file in s.files then Move(s, r, Opened(file, leased)) else Leave(s, r, file))
      case _ => None
  }

  predicate IsReading(a: Action) {
    a.Choose? || a.Observe? || a.OpenLease? || a.LockShared? || a.Connect? || a.Recheck? || a.Close?
  }

  function Step(s: State, a: Action): Option<State> {
    if IsReading(a) then Reading(s, a.r, a) else Publisher(s, a)
  }

  /** A run: any actions of the publisher, its crashes, outside damage and any readers. */
  ghost predicate Run(states: seq<State>) {
    states != [] && states[0] == Initial() && forall i :: 0 < i < |states| ==> StepsAt(states, i)
  }

  ghost predicate StepsAt(states: seq<State>, i: nat)
    requires 0 < i < |states|
  {
    Leads(states[i - 1], states[i])
  }

  ghost predicate Leads(s: State, t: State) {
    exists a: Action :: Step(s, a) == Some(t)
  }

  // ---------------------------------------------------------------------------------------
  // Invariant
  // ---------------------------------------------------------------------------------------

  /** A linked database has its lease unless it is stranded, and names are never reused. */
  ghost predicate FilesInv(s: State) {
    && (forall n :: n in s.files ==> n in s.leases || n in s.log.stranded)
    && (forall n :: n in s.log.stranded ==> n !in s.leases)
    && s.leases <= s.log.used && s.log.stranded <= s.log.used && s.log.activated <= s.log.used
    && match s.pc
       case Placing(_, file) => file in s.leases && file !in s.files && file !in s.log.activated
       case Verifying(_, file) => file in s.log.used && file !in s.log.activated
       case RemovingFile(file) => file in s.log.used && file !in s.log.activated
       case Locking(_, _, file, _) => file in s.leases
       case UnlinkingFile(_, _, file) => file in s.leases
       case _ => true
  }

  /** The files that the pointers name have been activated, which no unfinished publication has. */
  ghost predicate NamedInv(s: State) {
    (s.active.Valid? ==> s.active.p.file in s.log.activated) && (s.previous.Valid? ==> s.previous.p.file in s.log.activated)
  }

  ghost predicate PointerOk(s: State, f: PointerFile) {
    f.Valid? ==> Intact(s, f.p.file, f.p.sha)
  }

  /** What pruning must not touch: what the pointers name, unless it has no lease to prune it by. */
  ghost predicate Retains(s: State, current: Name, kept: Option<Name>) {
    && (s.active.Valid? ==> s.active.p.file == current)
    && (s.previous.Valid? && !s.log.unkept ==>
          kept == Some(s.previous.p.file) || s.previous.p.file == current || s.previous.p.file !in s.leases)
  }

  ghost predicate PointersInv(s: State) {
    && NamedInv(s)
    && PointerOk(s, s.active) && (!s.log.unkept ==> PointerOk(s, s.previous))
    && (s.active.Damaged? ==> s.log.damaged)
    && match s.pc
       case Deciding(_, local, repair) => s.active.Valid? && !repair ==> local == Some(s.active.p)
       case ReadingOld(target) => Intact(s, target.file, target.sha)
       case HashingOld(target, _) => Intact(s, target.file, target.sha)
       case WritingPrevious(target, outgoing) => Intact(s, target.file, target.sha) && Intact(s, outgoing.file, outgoing.sha)
       case WritingActive(target) => Intact(s, target.file, target.sha)
       case ReadingKept(current) => s.active.Valid? ==> s.active.p.file == current
       case Pruning(current, kept) => Retains(s, current, kept)
       case Locking(current, kept, file, orphan) =>
         Retains(s, current, kept) && (!orphan ==> file != current && kept != Some(file))
       case UnlinkingFile(current, kept, file) => Retains(s, current, kept) && file != current && kept != Some(file)
       case UnlinkingLease(current, kept, _) => Retains(s, current, kept)
       case Unlocking(current, kept, _) => Retains(s, current, kept)
       case _ => true
  }

  ghost predicate LockInv(s: State) {
    && (s.exclusive.Some? ==> forall r :: (r, s.exclusive.value) !in s.shared)
    && (forall r, n :: (r, n) in s.shared ==> r in s.readers && s.readers[r].file == n)
    && match s.pc
       case UnlinkingFile(_, _, file) => s.exclusive == Some(file)
       case UnlinkingLease(_, _, file) => s.exclusive == Some(file)
       case Unlocking(_, _, file) => s.exclusive == Some(file)
       case _ => s.exclusive == None
  }

  /** An open file is linked, and pinned by a shared lock or by the absence of its lease, without
      which pruning passes it over. */
  ghost predicate Pins(s: State, r: nat, file: Name, leased: bool) {
    file in s.files && if leased then (r, file) in s.shared else file !in s.leases
  }

  /** What a reader may rely on at each of its steps. */
  ghost predicate ReaderOk(s: State, r: nat, reader: Reader) {
    && reader.file in s.log.activated
    && match reader
       case WithoutLease(file) => file !in s.leases
       case Locked(file) => (r, file) in s.shared
       case Connected(file, leased) => Pins(s, r, file, leased)
       case Opened(file, leased) => Pins(s, r, file, leased)
       case _ => true
  }

  ghost predicate ReadersInv(s: State) {
    forall r :: r in s.readers ==> ReaderOk(s, r, s.readers[r])
  }

  ghost predicate Ascending(history: seq<Pointer>) {
    forall i, j :: 0 <= i < j < |history| ==> Follows(history[i], history[j])
  }

  /** Without outside damage `active` is the last activation, and without a misjudged release the
      activations form one line of generations. */
  ghost predicate HistoryInv(s: State) {
    !s.log.damaged ==>
      && (s.active.Valid? <==> s.log.history != [])
      && (s.log.history != [] ==> s.active.p == s.log.history[|s.log.history| - 1])
      && (!s.log.misjudged ==> Ascending(s.log.history) && NextFollows(s))
  }

  ghost predicate NextFollows(s: State) {
    match s.pc
    case LookingUp(m) => Allows(s.active, m.gen, m.sha)
    case CreatingLease(m) => Allows(s.active, m.gen, m.sha)
    case Placing(m, _) => Allows(s.active, m.gen, m.sha)
    case Verifying(m, _) => Allows(s.active, m.gen, m.sha)
    case ReadingOld(target) => Allows(s.active, target.gen, target.sha)
    case HashingOld(target, _) => Allows(s.active, target.gen, target.sha)
    case WritingPrevious(target, _) => Allows(s.active, target.gen, target.sha)
    case WritingActive(target) => Allows(s.active, target.gen, target.sha)
    case _ => true
  }

  ghost predicate Inv(s: State) {
    FilesInv(s) && PointersInv(s) && LockInv(s) && ReadersInv(s) && HistoryInv(s)
  }

  // ---------------------------------------------------------------------------------------
  // Preservation
  // ---------------------------------------------------------------------------------------

  lemma SameReaders(s: State, t: State)
    requires ReadersInv(s) && t.readers == s.readers && t.shared == s.shared && t.log.activated >= s.log.activated
    requires forall r :: r in s.readers ==> (s.readers[r].file in s.files ==> s.readers[r].file in t.files)
                                            && (s.readers[r].file in t.leases ==> s.readers[r].file in s.leases)
    ensures ReadersInv(t)
  {
    forall r | r in t.readers ensures ReaderOk(t, r, t.readers[r]) {
      assert ReaderOk(s, r, s.readers[r]);
    }
  }

  lemma DecideKeepsPointers(s: State, intact: bool)
    requires PointersInv(s) && s.pc.Deciding? && Prepare(s, Decide(intact)).Some?
    ensures PointersInv(Prepare(s, Decide(intact)).value)
  {
    hide Newer, Allows;
  }

  lemma PrepareKeepsPointers(s: State, a: Action)
    requires PointersInv(s) && IsPreparing(s.pc) && Prepare(s, a).Some?
    ensures PointersInv(Prepare(s, a).value)
  {
    hide Newer, Allows;
    if s.pc.Deciding? {
      DecideKeepsPointers(s, a.intact);
    }
  }

  lemma PrepareKeepsHistory(s: State, a: Action)
    requires PointersInv(s) && HistoryInv(s) && IsPreparing(s.pc) && Prepare(s, a).Some?
    ensures HistoryInv(Prepare(s, a).value)
  {
  }

  lemma PrepareMovesOnly(s: State, a: Action)
    requires IsPreparing(s.pc) && Prepare(s, a).Some?
    ensures var t := Prepare(s, a).value;
            t == s.(pc := t.pc, log := s.log.(misjudged := t.log.misjudged)) && (IsPreparing(t.pc) || t.pc.CreatingLease? || t.pc.ReadingOld? || t.pc.ReadingKept?)
  {
  }

  lemma PrepareKeepsInv(s: State, a: Action)
    requires Inv(s) && IsPreparing(s.pc) && Prepare(s, a).Some?
    ensures Inv(Prepare(s, a).value)
  {
    var t := Prepare(s, a).value;
    PrepareMovesOnly(s, a);
    PrepareKeepsPointers(s, a);
    PrepareKeepsHistory(s, a);
    SameReaders(s, t);
    assert FilesInv(t) && LockInv(t);
  }

  lemma PublishKeepsFiles(s: State, a: Action)
    requires FilesInv(s) && LockInv(s) && IsPublishing(s.pc) && Publish(s, a).Some?
    ensures FilesInv(Publish(s, a).value) && LockInv(Publish(s, a).value)
  {
  }

  lemma PublishKeepsPointers(s: State, a: Action)
    requires FilesInv(s) && PointersInv(s) && IsPublishing(s.pc) && Publish(s, a).Some?
    ensures PointersInv(Publish(s, a).value)
  {
  }

  lemma PublishKeepsHistory(s: State, a: Action)
    requires HistoryInv(s) && IsPublishing(s.pc) && Publish(s, a).Some?
    ensures HistoryInv(Publish(s, a).value)
  {
  }

  lemma PublishKeepsReaders(s: State, a: Action)
    requires FilesInv(s) && ReadersInv(s) && IsPublishing(s.pc) && Publish(s, a).Some?
    ensures ReadersInv(Publish(s, a).value)
  {
    var t := Publish(s, a).value;
    forall r | r in s.readers
      ensures s.readers[r].file in s.files ==> s.readers[r].file in t.files
      ensures s.readers[r].file in t.leases ==> s.readers[r].file in s.leases
    {
      assert ReaderOk(s, r, s.readers[r]);
    }
    SameReaders(s, t);
  }

  lemma PublishKeepsInv(s: State, a: Action)
    requires Inv(s) && IsPublishing(s.pc) && Publish(s, a).Some?
    ensures Inv(Publish(s, a).value)
  {
    PublishKeepsFiles(s, a);
    PublishKeepsPointers(s, a);
    PublishKeepsHistory(s, a);
    PublishKeepsReaders(s, a);
  }

  lemma HistoryGrows(s: State, target: Pointer)
    requires HistoryInv(s) && !s.log.damaged && !s.log.misjudged && Allows(s.active, target.gen, target.sha)
    ensures Ascending(s.log.history + [target])
  {
    forall i | 0 <= i < |s.log.history| ensures Follows(s.log.history[i], target) {
      if i < |s.log.history| - 1 {
        FollowsTransitive(s.log.history[i], s.active.p, target);
      }
    }
  }

  lemma ActivateKeepsFiles(s: State, a: Action)
    requires FilesInv(s) && PointersInv(s) && LockInv(s) && ReadersInv(s)
    requires IsActivating(s.pc) && Activate(s, a).Some?
    ensures var t := Activate(s, a).value; FilesInv(t) && LockInv(t) && ReadersInv(t)
  {
    SameReaders(s, Activate(s, a).value);
  }

  lemma ActivateKeepsPointers(s: State, a: Action)
    requires PointersInv(s) && IsActivating(s.pc) && Activate(s, a).Some?
    ensures PointersInv(Activate(s, a).value)
  {
  }

  lemma ActivateKeepsHistory(s: State, a: Action)
    requires PointersInv(s) && HistoryInv(s) && IsActivating(s.pc) && Activate(s, a).Some?
    ensures HistoryInv(Activate(s, a).value)
  {
    if s.pc.WritingActive? && !s.log.damaged && !s.log.misjudged {
      HistoryGrows(s, s.pc.target);
    }
  }

  lemma ActivateKeepsInv(s: State, a: Action)
    requires Inv(s) && IsActivating(s.pc) && Activate(s, a).Some?
    ensures Inv(Activate(s, a).value)
  {
    ActivateKeepsFiles(s, a);
    ActivateKeepsPointers(s, a);
    ActivateKeepsHistory(s, a);
  }

  predicate IsPruning(pc: Pc) {
    pc.ReadingKept? || pc.Pruning? || pc.Locking? || pc.UnlinkingFile? || pc.UnlinkingLease? || pc.Unlocking?
  }

  lemma PruneKeepsLocks(s: State, a: Action)
    requires LockInv(s) && IsPruning(s.pc) && Prune(s, a).Some?
    ensures LockInv(Prune(s, a).value)
  {
  }

  lemma UnleaseKeepsFiles(s: State, a: Action)
    requires FilesInv(s) && s.pc.UnlinkingLease? && Prune(s, a).Some?
    ensures FilesInv(Prune(s, a).value)
  {
  }

  lemma PruneKeepsFiles(s: State, a: Action)
    requires FilesInv(s) && IsPruning(s.pc) && Prune(s, a).Some?
    ensures FilesInv(Prune(s, a).value)
  {
    if s.pc.UnlinkingLease? {
      UnleaseKeepsFiles(s, a);
    } else if s.pc.UnlinkingFile? || s.pc.Unlocking? {
    } else {
    }
  }

  lemma PruneMovesNoPointer(s: State, a: Action)
    requires IsPruning(s.pc) && Prune(s, a).Some?
    ensures var t := Prune(s, a).value;
            && t.active == s.active && t.previous == s.previous && t.readers == s.readers && t.shared == s.shared
            && t.log == s.log.(stranded := t.log.stranded, unkept := t.log.unkept)
            && (t.pc.Idle? || IsPruning(t.pc))
  {
  }

  lemma PruneKeepsHistory(s: State, a: Action)
    requires HistoryInv(s) && IsPruning(s.pc) && Prune(s, a).Some?
    ensures HistoryInv(Prune(s, a).value)
  {
    PruneMovesNoPointer(s, a);
    hide Prune;
  }

  lemma UnlinkKeepsPointers(s: State, a: Action)
    requires FilesInv(s) && PointersInv(s) && s.pc.UnlinkingFile? && Prune(s, a).Some?
    ensures PointersInv(Prune(s, a).value)
  {
  }

  lemma PruneKeepsPointers(s: State, a: Action)
    requires FilesInv(s) && PointersInv(s) && IsPruning(s.pc) && Prune(s, a).Some?
    ensures PointersInv(Prune(s, a).value)
  {
    if s.pc.UnlinkingFile? {
      UnlinkKeepsPointers(s, a);
    } else {
      var t := Prune(s, a).value;
      assert t.files == s.files && t.active == s.active && t.previous == s.previous && t.leases <= s.leases;
    }
  }

  lemma PruneKeepsReaders(s: State, a: Action)
    requires FilesInv(s) && LockInv(s) && ReadersInv(s) && IsPruning(s.pc) && Prune(s, a).Some?
    ensures ReadersInv(Prune(s, a).value)
  {
    var t := Prune(s, a).value;
    PruneMovesNoPointer(s, a);
    forall r | r in t.readers ensures ReaderOk(t, r, t.readers[r]) {
      assert ReaderOk(s, r, s.readers[r]);
    }
  }

  lemma OutsideKeepsInv(s: State, a: Action)
    requires Inv(s) && Outside(s, a).Some?
    ensures Inv(Outside(s, a).value)
  {
    SameReaders(s, Outside(s, a).value);
  }

  lemma PublisherKeepsInv(s: State, a: Action)
    requires Inv(s) && Publisher(s, a).Some?
    ensures Inv(Publisher(s, a).value)
  {
    if IsOutside(a) {
      OutsideKeepsInv(s, a);
    } else if IsPreparing(s.pc) {
      PrepareKeepsInv(s, a);
    } else if IsPublishing(s.pc) {
      PublishKeepsInv(s, a);
    } else if IsActivating(s.pc) {
      ActivateKeepsInv(s, a);
    } else {
      PruneKeepsLocks(s, a);
      PruneKeepsFiles(s, a);
      PruneKeepsHistory(s, a);
      PruneKeepsPointers(s, a);
      PruneKeepsReaders(s, a);
    }
  }

  /** A reader's step changes nothing but its own place and its own lock. */
  lemma ReadingIsLocal(s: State, r: nat, a: Action)
    requires Reading(s, r, a).Some?
    ensures var t := Reading(s, r, a).value;
            && t == s.(readers := t.readers, shared := t.shared)
            && r in t.readers && t.readers == s.readers[r := t.readers[r]]
            && (forall q, n :: q != r ==> ((q, n) in t.shared <==> (q, n) in s.shared))
            && (forall n :: (r, n) in t.shared ==> (r, n) in s.shared || s.exclusive != Some(n))
            && (r in s.readers ==> t.readers[r].file == s.readers[r].file)
            && (forall n :: (r, n) in t.shared ==> (r, n) in s.shared || n == t.readers[r].file)
  {
  }

  lemma ReadingKeepsFiles(s: State, r: nat, a: Action)
    requires FilesInv(s) && PointersInv(s) && HistoryInv(s) && Reading(s, r, a).Some?
    ensures var t := Reading(s, r, a).value; FilesInv(t) && PointersInv(t) && HistoryInv(t)
  {
    ReadingIsLocal(s, r, a);
  }

  lemma ReadingKeepsLocks(s: State, r: nat, a: Action)
    requires LockInv(s) && Reading(s, r, a).Some?
    ensures LockInv(Reading(s, r, a).value)
  {
    ReadingIsLocal(s, r, a);
  }

  lemma MovedReaderOk(s: State, r: nat, a: Action)
    requires NamedInv(s) && Reading(s, r, a).Some?
    requires r in s.readers ==> ReaderOk(s, r, s.readers[r])
    ensures var t := Reading(s, r, a).value; r in t.readers && ReaderOk(t, r, t.readers[r])
  {
    hide NamedInv;
    if a.Choose? {
      ChosenReaderOk(s, r, a);
    } else if s.readers[r].Connected? || s.readers[r].Opened? || s.readers[r].Gone? {
    } else if s.readers[r].Locked? || s.readers[r].WithoutLease? {
    } else {
    }
  }

  lemma ChosenReaderOk(s: State, r: nat, a: Action)
    requires NamedInv(s) && a.Choose? && Reading(s, r, a).Some?
    ensures var t := Reading(s, r, a).value; r in t.readers && ReaderOk(t, r, t.readers[r])
  {
  }

  lemma ReadingKeepsReaders(s: State, r: nat, a: Action)
    requires FilesInv(s) && PointersInv(s) && ReadersInv(s) && Reading(s, r, a).Some?
    ensures ReadersInv(Reading(s, r, a).value)
  {
    var t := Reading(s, r, a).value;
    ReadingIsLocal(s, r, a);
    MovedReaderOk(s, r, a);
    forall q | q in t.readers ensures ReaderOk(t, q, t.readers[q]) {
      if q != r {
        assert t.readers[q] == s.readers[q];
        assert ReaderOk(s, q, s.readers[q]);
      }
    }
  }

  lemma StepKeepsInv(s: State, a: Action)
    requires Inv(s) && Step(s, a).Some?
    ensures Inv(Step(s, a).value)
  {
    if IsReading(a) {
      ReadingKeepsFiles(s, a.r, a);
      ReadingKeepsLocks(s, a.r, a);
      ReadingKeepsReaders(s, a.r, a);
    } else {
      PublisherKeepsInv(s, a);
    }
  }

  lemma ActionBefore(states: seq<State>, i: nat) returns (a: Action)
    requires Run(states) && 0 < i < |states|
    ensures Step(states[i - 1], a) == Some(states[i])
  {
    assert StepsAt(states, i);
    a :| Step(states[i - 1], a) == Some(states[i]);
  }

  lemma {:induction false} RunKeepsInv(states: seq<State>, i: nat)
    requires Run(states) && i < |states|
    ensures Inv(states[i])
  {
    if i > 0 {
      RunKeepsInv(states, i - 1);
      var a := ActionBefore(states, i);
      StepKeepsInv(states[i - 1], a);
    }
  }

  // ---------------------------------------------------------------------------------------
  // Results
  // ---------------------------------------------------------------------------------------

  /** A reader whose open succeeded has its file linked; and unless the file is stranded, it holds the
      shared lock on the file's lease, which is linked too. */
  lemma OpenReadersAreSafe(states: seq<State>, i: nat, r: nat)
    requires Run(states) && i < |states|
    requires r in states[i].readers && states[i].readers[r].Opened?
    ensures var s, file := states[i], states[i].readers[r].file;
            && file in s.files
            && (file !in s.log.stranded ==>
                  s.readers[r].leased && (r, file) in s.shared && file in s.leases && s.exclusive != Some(file))
  {
    RunKeepsInv(states, i);
    assert ReaderOk(states[i], r, states[i].readers[r]);
  }

  lemma PublishKeepsActivated(s: State, a: Action, file: Name)
    requires FilesInv(s) && IsPublishing(s.pc) && Publish(s, a).Some? && file in s.files && file in s.log.activated
    ensures var t := Publish(s, a).value; t.readers == s.readers && file in t.files && t.files[file] == s.files[file]
  {
  }

  lemma PruneKeepsPinned(s: State, a: Action, r: nat, file: Name, leased: bool)
    requires FilesInv(s) && LockInv(s) && IsPruning(s.pc) && Prune(s, a).Some? && Pins(s, r, file, leased)
    ensures var t := Prune(s, a).value; t.readers == s.readers && file in t.files && t.files[file] == s.files[file]
  {
  }

  lemma ActivateMovesNoFile(s: State, a: Action)
    requires IsActivating(s.pc) && Activate(s, a).Some?
    ensures Activate(s, a).value.readers == s.readers && Activate(s, a).value.files == s.files
  {
  }

  /** No step of the publisher unlinks a file that an open reader pins. */
  lemma PinnedFileSurvives(s: State, a: Action, r: nat, file: Name, leased: bool)
    requires FilesInv(s) && LockInv(s) && !IsReading(a) && Publisher(s, a).Some?
    requires Pins(s, r, file, leased) && file in s.log.activated
    ensures var t := Publisher(s, a).value;
            t.readers == s.readers && file in t.files && t.files[file] == s.files[file]
  {
    assert file in s.files;
    hide Prepare, Publish, Activate, Prune, FilesInv, LockInv, Pins;
    if IsOutside(a) {
    } else if IsPreparing(s.pc) {
      PrepareMovesOnly(s, a);
    } else if IsPublishing(s.pc) {
      PublishKeepsActivated(s, a, file);
    } else if IsActivating(s.pc) {
      ActivateMovesNoFile(s, a);
    } else {
      PruneKeepsPinned(s, a, r, file, leased);
    }
  }

  /** An open reader stays open on the same file contents until it leaves by itself. */
  lemma OpenReadersStayOpen(s: State, a: Action, r: nat)
    requires Inv(s) && Step(s, a).Some? && r in s.readers && s.readers[r].Opened?
    ensures var t, file := Step(s, a).value, s.readers[r].file;
            && r in t.readers && file in t.files && t.files[file] == s.files[file]
            && (t.readers[r] == s.readers[r] || (a == Close(r) && t.readers[r] == Gone(file)))
  {
    assert ReaderOk(s, r, s.readers[r]);
    if IsReading(a) {
      ReadingIsLocal(s, a.r, a);
    } else {
      PinnedFileSurvives(s, a, r, s.readers[r].file, s.readers[r].leased);
    }
  }

  lemma PublisherMovesNoReader(s: State, a: Action)
    requires Publisher(s, a).Some?
    ensures Publisher(s, a).value.readers == s.readers
  {
    hide Prepare, Activate, Prune, Intact;
    if IsOutside(a) {
    } else if IsPreparing(s.pc) {
      PrepareMovesOnly(s, a);
    } else if IsPublishing(s.pc) {
    } else if IsActivating(s.pc) {
      ActivateMovesNoFile(s, a);
    } else {
      PruneMovesNoPointer(s, a);
    }
  }

  lemma GoneStaysGone(s: State, a: Action, r: nat)
    requires Step(s, a).Some? && r in s.readers && s.readers[r].Gone?
    ensures r in Step(s, a).value.readers && Step(s, a).value.readers[r] == s.readers[r]
  {
    hide Publisher;
    if IsReading(a) {
      ReadingIsLocal(s, a.r, a);
    } else {
      PublisherMovesNoReader(s, a);
    }
  }

  /** From any open to any later state: the reader has left, or is open on the same linked file with
      the contents it had, whatever failed or crashed meanwhile. */
  lemma {:induction false} OpenUntilClosed(states: seq<State>, i: nat, j: nat, r: nat)
    requires Run(states) && i <= j < |states|
    requires r in states[i].readers && states[i].readers[r].Opened?
    ensures var s, t, file := states[i], states[j], states[i].readers[r].file;
            && file in s.files && r in t.readers
            && (t.readers[r] == Gone(file)
                || (t.readers[r] == s.readers[r] && file in t.files && t.files[file] == s.files[file]))
    decreases j
  {
    hide Step, Inv, Run;
    if i == j {
      OpenReadersAreSafe(states, i, r);
    } else {
      OpenUntilClosed(states, i, j - 1, r);
      RunKeepsInv(states, j - 1);
      var a := ActionBefore(states, j);
      if states[j - 1].readers[r].Opened? {
        OpenReadersStayOpen(states[j - 1], a, r);
      } else {
        GoneStaysGone(states[j - 1], a, r);
      }
    }
  }

  /** Whatever crashed or failed before, an `active` that can be read names an intact file; and so does
      `previous`, unless a pruning overlooked it. */
  lemma PointersAreIntact(states: seq<State>, i: nat)
    requires Run(states) && i < |states|
    ensures var s := states[i];
            && (s.active.Valid? ==> Intact(s, s.active.p.file, s.active.p.sha))
            && (s.previous.Valid? && !s.log.unkept ==> Intact(s, s.previous.p.file, s.previous.p.sha))
  {
    RunKeepsInv(states, i);
  }

  /** A database to try: the configured path, one that a pointer names, the root's own or the bundled one. */
  datatype Candidate = Custom(path: string) | Managed(p: Pointer) | Rooted | Bundled(path: string)

  /** `candidates`: a configured path stands alone; a pointer that cannot be read is passed over. */
  function Candidates(s: State, custom: Option<string>, bundle: Option<string>,
                      activeRead: bool, previousRead: bool): seq<Candidate> {
    if custom.Some? then [Custom(custom.value)]
    else
      (if activeRead && s.active.Valid? then [Managed(s.active.p)] else [])
      + (if previousRead && s.previous.Valid? then [Managed(s.previous.p)] else [])
      + [Rooted] + (if bundle.Some? then [Bundled(bundle.value)] else [])
  }

  /** Unless a path is configured, managed databases come first and are intact, save what a pruning
      overlooked; and once a database was activated, an undamaged root offers the last activated one
      before all others, whenever `active` can be read. */
  lemma CandidatesAreIntact(states: seq<State>, i: nat, custom: Option<string>, bundle: Option<string>,
                            activeRead: bool, previousRead: bool)
    requires Run(states) && i < |states|
    ensures var s, cs := states[i], Candidates(states[i], custom, bundle, activeRead, previousRead);
            && (forall j, k :: 0 <= j < k < |cs| && cs[k].Managed? ==> cs[j].Managed?)
            && (forall k :: 0 <= k < |cs| && cs[k].Managed? ==>
                  custom.None? && (Intact(s, cs[k].p.file, cs[k].p.sha) || (s.log.unkept && s.previous == Valid(cs[k].p))))
            && (custom.None? && activeRead && !s.log.damaged && s.log.history != [] ==>
                  && cs[0] == Managed(s.log.history[|s.log.history| - 1])
                  && Intact(s, cs[0].p.file, cs[0].p.sha))
  {
    RunKeepsInv(states, i);
  }

  /** What is offered, whatever the state: a configured path alone, or what each readable pointer names,
      `active` first, and then the root's own database and the bundled one. */
  lemma CandidatesAre(s: State, custom: Option<string>, bundle: Option<string>, activeRead: bool, previousRead: bool)
    ensures var cs := Candidates(s, custom, bundle, activeRead, previousRead);
            && (custom.Some? ==> cs == [Custom(custom.value)])
            && (custom.None? ==>
                  && (forall p :: Managed(p) in cs <==>
                        (activeRead && s.active == Valid(p)) || (previousRead && s.previous == Valid(p)))
                  && Rooted in cs && (bundle.Some? ==> Bundled(bundle.value) in cs)
                  && (activeRead && s.active.Valid? ==> cs[0] == Managed(s.active.p))
                  && cs[|cs| - 1] == if bundle.Some? then Bundled(bundle.value) else Rooted)
  {
  }

  /** Without outside damage and without a misjudged release, activations never step back to an older
      generation, and one generation never changes its digest. */
  lemma GenerationsAscend(states: seq<State>, i: nat, j: nat, k: nat)
    requires Run(states) && i < |states| && !states[i].log.damaged && !states[i].log.misjudged
    requires j < k < |states[i].log.history|
    ensures var h := states[i].log.history;
            !Newer(h[j].gen, h[k].gen) && (h[j].gen == h[k].gen ==> h[j].sha == h[k].sha)
  {
    RunKeepsInv(states, i);
  }
}
