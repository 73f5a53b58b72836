/**
 Admission of dataset files: when a full content check may be skipped. Other processes, and other
 threads of this one, may act between any two of the steps below.
 */
module Admission {
  import opened Prelude

  type Path = nat
  type Digest = nat

  /** What a database file holds, as far as admission looks. `sound` is the integrity check's verdict,
      `supported` what opening asks of the header, the metadata and the schema. */
  datatype Content = Content(sha: Digest, size: nat, ready: bool, sourceVersion: string, revision: nat,
                             compiler: string, sound: bool, supported: bool)

  datatype File = File(token: nat, content: Content)
  datatype Expected = Expected(sha: Digest, size: nat, sourceVersion: string, revision: nat, compiler: Option<string>)
  datatype Stamp = Stamp(engine: nat, sha: Digest, size: nat)

  /** A full content check: who made it, on which identity of which path, and the digest there. */
  datatype Check = Check(process: nat, path: Path, token: nat, sha: Digest)

  /** A process-local proof about one identity of one path. */
  datatype Receipt = Receipt(path: Path, token: nat, sha: Option<Digest>, full: bool)

  /** An open database handle is bound to the identity it was opened on. */
  datatype Db = Db(path: Path, token: nat)

  datatype Failure =
    Unavailable | Changed | Unsupported | DigestMismatch | NotReady | MetadataMismatch | Unsound | LeaseHeld

  type Seen = map<(Path, nat), Content>

  const LIMIT := 8

  /** The source version, the revision and, when it is known, the compiler are the expected ones. */
  predicate MetadataMatches(c: Content, expected: Expected) {
    && c.sourceVersion == expected.sourceVersion && c.revision == expected.revision
    && (expected.compiler.Some? ==> c.compiler == expected.compiler.value)
  }

  predicate IsCurrent(files: map<Path, File>, path: Path, token: nat) {
    path in files && files[path].token == token
  }

  /** The receipts whose file still has the identity they speak of, in order. */
  function Live(receipts: seq<Receipt>, files: map<Path, File>): seq<Receipt> {
    if receipts == [] then []
    else
      var last, before := receipts[|receipts| - 1], Live(receipts[..|receipts| - 1], files);
      if IsCurrent(files, last.path, last.token) then before + [last] else before
  }

  function Without(receipts: seq<Receipt>, path: Path): seq<Receipt> {
    if receipts == [] then []
    else
      var last, before := receipts[|receipts| - 1], Without(receipts[..|receipts| - 1], path);
      if last.path != path then before + [last] else before
  }

  /** A current receipt proves the digest at the path, in strict mode a full one. */
  ghost predicate Vouches(receipts: seq<Receipt>, files: map<Path, File>, path: Path, sha: Digest, strict: bool) {
    exists r :: r in receipts && r.path == path && r.sha == Some(sha) && (strict ==> r.full) && IsCurrent(files, path, r.token)
  }

  /** The last `n`: receipts stand oldest first. */
  function Newest(receipts: seq<Receipt>, n: nat): seq<Receipt> {
    if |receipts| <= n then receipts else receipts[|receipts| - n..]
  }

  ghost predicate OnePerPath(receipts: seq<Receipt>) {
    forall i, j :: 0 <= i < j < |receipts| ==> receipts[i].path != receipts[j].path
  }

  lemma {:induction false} LiveKeeps(receipts: seq<Receipt>, files: map<Path, File>)
    ensures |Live(receipts, files)| <= |receipts|
    ensures forall r :: r in Live(receipts, files) <==> r in receipts && IsCurrent(files, r.path, r.token)
    ensures OnePerPath(receipts) ==> OnePerPath(Live(receipts, files))
  {
    if receipts != [] {
      var n := |receipts| - 1;
      LiveKeeps(receipts[..n], files);
      assert receipts == receipts[..n] + [receipts[n]];
      forall r | OnePerPath(receipts) && r in Live(receipts[..n], files) ensures r.path != receipts[n].path {
        assert r in receipts[..n];
      }
    }
  }

  lemma {:induction false} WithoutKeeps(receipts: seq<Receipt>, path: Path)
    ensures |Without(receipts, path)| <= |receipts|
    ensures forall r :: r in Without(receipts, path) <==> r in receipts && r.path != path
    ensures OnePerPath(receipts) ==> OnePerPath(Without(receipts, path))
  {
    if receipts != [] {
      var n := |receipts| - 1;
      WithoutKeeps(receipts[..n], path);
      assert receipts == receipts[..n] + [receipts[n]];
      forall r | OnePerPath(receipts) && r in Without(receipts[..n], path) ensures r.path != receipts[n].path {
        assert r in receipts[..n];
      }
    }
  }

  lemma NewestAndNew(receipts: seq<Receipt>, n: nat, r: Receipt)
    requires OnePerPath(receipts) && forall q :: q in receipts ==> q.path != r.path
    ensures var kept := Newest(receipts, n) + [r];
            |kept| <= n + 1 && OnePerPath(kept) && forall q :: q in kept ==> q == r || q in receipts
  {
    var kept := Newest(receipts, n);
    forall q | q in kept ensures q in receipts {
    }
    forall i | 0 <= i < |kept| ensures kept[i].path != r.path {
      assert kept[i] in kept;
    }
  }

  lemma PopKeepsNewest(receipts: seq<Receipt>, n: nat)
    requires n < |receipts|
    ensures Newest(receipts[1..], n) == Newest(receipts, n)
  {
    var k := |receipts| - n;
    assert receipts[1..][k - 1..] == receipts[k..];
  }

  /** Pops the oldest receipts until another one fits. */
  method MakeRoom(receipts: seq<Receipt>) returns (kept: seq<Receipt>)
    ensures kept == Newest(receipts, LIMIT - 1)
  {
    kept := receipts;
    while |kept| >= LIMIT
      invariant Newest(kept, LIMIT - 1) == Newest(receipts, LIMIT - 1)
    {
      PopKeepsNewest(kept, LIMIT - 1);
      kept := kept[1..];
    }
  }

  /** What every step of anyone keeps: identities only grow, contents stay tied to them, and the
      record of checks is not shortened. */
  ghost predicate Later(latest: map<Path, nat>, seen: Seen, checks: set<Check>,
                        latest': map<Path, nat>, seen': Seen, checks': set<Check>)
  {
    && (forall p :: p in latest ==> p in latest' && latest[p] <= latest'[p])
    && (forall k :: k in seen ==> k in seen' && seen'[k] == seen[k])
    && checks <= checks'
  }

  /** The shared file system. A path's identity token grows with every change, removal included,
      and never recurs; `seen` remembers what stood behind each identity. */
  class World {
    var files: map<Path, File>
    var stamps: map<Path, Stamp>
    var leases: map<Path, bool>      // lease files, and whether another process has one locked
    ghost var latest: map<Path, nat>
    ghost var seen: Seen
    ghost var checks: set<Check>

    ghost predicate Valid()
      reads this
    {
      && (forall p :: p in files ==> p in latest && latest[p] == files[p].token
                                     && (p, files[p].token) in seen && seen[(p, files[p].token)] == files[p].content)
      && (forall p :: p in latest && p !in files ==> (p, latest[p]) !in seen)
      && (forall c :: c in checks ==> (c.path, c.token) in seen
                                      && seen[(c.path, c.token)].sound && seen[(c.path, c.token)].sha == c.sha)
      && (forall p :: p in stamps ==> Traced(stamps[p].sha))
    }

    /** A full check of a file with this digest is on record. */
    ghost predicate Traced(sha: Digest)
      reads this
    {
      exists c :: c in checks && c.sha == sha
    }

    constructor ()
      ensures Valid()
    {
      files, stamps, leases, latest, seen, checks := map[], map[], map[], map[], map[], {};
    }

    /** The identity a path has now. */
    method Identify(path: Path) returns (token: Option<nat>)
      ensures token == if path in files then Some(files[path].token) else None
    {
      token := if path in files then Some(files[path].token) else None;
    }

    /** Another process locks the path's lease. */
    method LockLease(path: Path)
      requires Valid()
      modifies this`leases
      ensures Valid() && leases == old(leases)[path := true]
    {
      leases := leases[path := true];
    }

    /** Anyone puts a file at a path, in place of another or not, or removes what is there. The path's
        identity is a new one. */
    method Replace(path: Path, token: nat, content: Option<Content>)
      requires Valid() && (path in latest ==> latest[path] < token) && (path, token) !in seen
      modifies this`files, this`latest, this`seen
      ensures Valid() && latest == old(latest)[path := token]
      ensures files == if content.Some? then old(files)[path := File(token, content.value)] else old(files) - {path}
      ensures seen == if content.Some? then old(seen)[(path, token) := content.value] else old(seen)
    {
      latest := latest[path := token];
      if content.Some? {
        files, seen := files[path := File(token, content.value)], seen[(path, token) := content.value];
      } else {
        files := files - {path};
      }
    }
  }

  /** One process: its receipts, oldest first, and its live handles with their check levels. */
  class Process {
    const id: nat
    const engine: nat
    const world: World
    var receipts: seq<Receipt>
    var handles: map<Db, nat>
    ghost const alone: bool          // nobody else acts on the disk or on this process's tables

    constructor (id: nat, engine: nat, world: World, ghost alone: bool)
      requires world.Valid()
      ensures Valid() && this.world == world && this.id == id && this.engine == engine && this.alone == alone
    {
      this.id, this.engine, this.world, this.alone := id, engine, world, alone;
      receipts, handles := [], map[];
    }

    ghost predicate GoodReceipt(r: Receipt)
      reads world
    {
      && (r.path, r.token) in world.seen
      && (r.sha.Some? ==> world.seen[(r.path, r.token)].sha == r.sha.value && world.Traced(r.sha.value)
                          && (r.full ==> Check(id, r.path, r.token, r.sha.value) in world.checks))
    }

    /** A handle checked to level 2 was fully checked by this process, on its own identity. */
    ghost predicate GoodHandle(db: Db, level: nat)
      reads world
    {
      && (db.path, db.token) in world.seen && world.seen[(db.path, db.token)].supported
      && (level >= 2 ==> FullyChecked(db))
    }

    ghost predicate FullyChecked(db: Db)
      reads world
    {
      (db.path, db.token) in world.seen
      && Check(id, db.path, db.token, world.seen[(db.path, db.token)].sha) in world.checks
    }

    ghost predicate Valid()
      reads this, world
    {
      && world.Valid()
      && |receipts| <= LIMIT
      && OnePerPath(receipts)
      && (forall r :: r in receipts ==> GoodReceipt(r))
      && (forall db :: db in handles ==> GoodHandle(db, handles[db]))
    }

    /** Anything the others may do meanwhile, if there are any. The body does nothing; callers know
        only the contract. */
    method Interfere()
      requires Valid()
      modifies this, world
      ensures Valid()
      ensures Later(old(world.latest), old(world.seen), old(world.checks), world.latest, world.seen, world.checks)
      ensures alone ==> receipts == old(receipts) && handles == old(handles) && Untouched(old(world.files), old(world.leases))
    {
    }

    ghost predicate Untouched(files: map<Path, File>, leases: map<Path, bool>)
      reads world
    {
      world.files == files && world.leases == leases
    }

    /** The path has had another identity since. */
    ghost predicate Grown(path: Path, token: nat)
      reads world
    {
      path in world.latest && token < world.latest[path]
    }

    predicate IsLocked(path: Path)
      reads world
    {
      path in world.leases && world.leases[path]
    }

    /** `observed.check()`: the path still has the observed identity. */
    predicate Current(path: Path, token: nat)
      reads world
    {
      IsCurrent(world.files, path, token)
    }

    /** Drops receipts of changed files, as every use of the receipt list does first. */
    method Retain()
      requires Valid()
      modifies this`receipts
      ensures Valid() && receipts == Live(old(receipts), world.files)
    {
      var kept: seq<Receipt> := [];
      for i := 0 to |receipts|
        invariant kept == Live(receipts[..i], world.files)
      {
        assert receipts[..i + 1][..i] == receipts[..i];
        if Current(receipts[i].path, receipts[i].token) {
          kept := kept + [receipts[i]];
        }
      }
      assert receipts[..|receipts|] == receipts;
      LiveKeeps(receipts, world.files);
      receipts := kept;
    }

    /** `verified_digest`: a current receipt for this path and digest, in strict mode a full one. */
    method VerifiedDigest(path: Path, sha: Digest, strict: bool) returns (found: bool)
      requires Valid()
      modifies this`receipts
      ensures Valid()
      ensures found ==> path in world.files && world.files[path].content.sha == sha && world.Traced(sha)
      ensures found && strict ==> Check(id, path, world.files[path].token, sha) in world.checks
      ensures found <==> Vouches(old(receipts), world.files, path, sha, strict)
      ensures found ==> Vouches(receipts, world.files, path, sha, strict)
    {
      LiveKeeps(receipts, world.files);
      Retain();
      found := exists r | r in receipts :: r.path == path && r.sha == Some(sha) && (!strict || r.full);
      if found {
        ghost var r :| r in receipts && r.path == path && r.sha == Some(sha) && (!strict || r.full);
        assert GoodReceipt(r);
      }
    }

    /** `forget` */
    method Forget(path: Path)
      requires Valid()
      modifies this`receipts
      ensures Valid() && receipts == Without(old(receipts), path)
    {
      var kept: seq<Receipt> := [];
      for i := 0 to |receipts|
        invariant kept == Without(receipts[..i], path)
      {
        assert receipts[..i + 1][..i] == receipts[..i];
        if receipts[i].path != path {
          kept := kept + [receipts[i]];
        }
      }
      assert receipts[..|receipts|] == receipts;
      WithoutKeeps(receipts, path);
      receipts := kept;
    }

    /** `remember_proof`: the identity must be current and the lease not locked; without a lease file
        nothing is remembered. At most one receipt per path stays, and the oldest make room. */
    method RememberProof(path: Path, token: nat, sha: Option<Digest>, full: bool) returns (ok: bool)
      requires Valid() && GoodReceipt(Receipt(path, token, sha, full))
      modifies this`receipts
      ensures Valid()
      ensures ok <==> Current(path, token) && !IsLocked(path)
      ensures receipts == if ok && path in world.leases
                          then Newest(Without(Live(old(receipts), world.files), path), LIMIT - 1)
                               + [Receipt(path, token, sha, full)]
                          else old(receipts)
    {
      if !Current(path, token) { return false; }
      if path !in world.leases { return true; }
      if world.leases[path] { return false; }
      Retain();
      WithoutKeeps(receipts, path);
      Forget(path);
      NewestAndNew(receipts, LIMIT - 1, Receipt(path, token, sha, full));
      var kept := MakeRoom(receipts);
      receipts := kept + [Receipt(path, token, sha, full)];
      return true;
    }

    // -------------------------------------------------------------------------------------
    // Reading through an identity
    // -------------------------------------------------------------------------------------

    /** The identity was the path's at some instant, and could still be. */
    ghost predicate Witnessed(path: Path, token: nat)
      reads world
    {
      (path, token) in world.seen && path in world.latest && token <= world.latest[path]
    }

    ghost function ContentOf(path: Path, token: nat): Content
      reads world
      requires Witnessed(path, token)
    {
      world.seen[(path, token)]
    }

    /** While an identity is still the path's, it has been so ever since it was witnessed. */
    lemma StillCurrent(path: Path, token: nat)
      requires Valid() && Witnessed(path, token) && !Grown(path, token)
      ensures Current(path, token) && world.files[path].content == ContentOf(path, token)
    {
    }

    /** What an open handle reads now; arbitrary once its identity is no longer the path's. */
    method ReadPages(db: Db) returns (c: Content)
      requires Valid()
      ensures Current(db.path, db.token) ==> c == world.seen[(db.path, db.token)]
    {
      c := *;
      if Current(db.path, db.token) {
        c := world.files[db.path].content;
      }
    }

    /** The size of the path's file, at an instant whose identity is remembered. */
    method Measure(path: Path, token: nat, size: nat) returns (ok: bool, ghost at: nat)
      requires Valid() && Witnessed(path, token)
      modifies this, world
      ensures Valid() && Witnessed(path, token)
      ensures Later(old(world.latest), old(world.seen), old(world.checks), world.latest, world.seen, world.checks)
      ensures alone ==> receipts == old(receipts) && handles == old(handles) && Untouched(old(world.files), old(world.leases))
      ensures ok ==> Witnessed(path, at) && world.seen[(path, at)].size == size && token <= at
      ensures !ok ==> Grown(path, token) || ContentOf(path, token).size != size
    {
      Interfere();
      if !Grown(path, token) { StillCurrent(path, token); }
      if path !in world.files || world.files[path].content.size != size { return false, 0; }
      at := world.files[path].token;
      Interfere();
      return true, at;
    }

    /** A read through a handle, with the others acting before and after it: if the handle's identity
        is still the path's afterwards, it was so during the read. */
    method ReadBetween(db: Db) returns (c: Content)
      requires Valid() && Witnessed(db.path, db.token)
      modifies this, world
      ensures Valid() && Witnessed(db.path, db.token)
      ensures Later(old(world.latest), old(world.seen), old(world.checks), world.latest, world.seen, world.checks)
      ensures alone ==> receipts == old(receipts) && handles == old(handles) && Untouched(old(world.files), old(world.leases))
      ensures !Grown(db.path, db.token) ==> c == ContentOf(db.path, db.token)
    {
      Interfere();
      ghost var content := ContentOf(db.path, db.token);
      c := ReadPages(db);
      ghost var grown := Grown(db.path, db.token);
      assert !grown ==> c == content by {
        if !grown { StillCurrent(db.path, db.token); }
      }
      Interfere();
      assert grown ==> Grown(db.path, db.token);
    }

    /** Size and digest of what the path holds, unless a receipt vouches for the digest; at the end
        the observed identity must still be the path's. */
    method Authenticate(path: Path, token: nat, expected: Expected, strict: bool, anew: bool)
      returns (r: Result<bool, Failure>)
      requires Valid() && Witnessed(path, token)
      modifies this, world
      ensures Valid() && Witnessed(path, token)
      ensures Later(old(world.latest), old(world.seen), old(world.checks), world.latest, world.seen, world.checks)
      ensures alone ==> handles == old(handles) && Untouched(old(world.files), old(world.leases))
      ensures r.Ok? ==> ContentOf(path, token).sha == expected.sha && ContentOf(path, token).size == expected.size
      ensures r.Ok? && r.value ==> !anew && world.Traced(expected.sha)
      ensures r.Ok? && r.value && strict ==> Check(id, path, token, expected.sha) in world.checks
      ensures r.Ok? && alone ==> (r.value <==> !anew && Vouches(old(receipts), old(world.files), path, expected.sha, strict))
      ensures r.Ok? && r.value && alone ==> Vouches(receipts, world.files, path, expected.sha, strict)
      ensures r == Err(DigestMismatch) ==>
                Grown(path, token) || ContentOf(path, token).size != expected.size || ContentOf(path, token).sha != expected.sha
      ensures r.Err? ==> r.error == DigestMismatch || (r.error == Changed && Grown(path, token))
    {
      var sized, measured := Measure(path, token, expected.size);
      if !sized { return Err(DigestMismatch); }
      var right, reused, digested := CompareDigest(path, token, expected.sha, strict, anew);
      if !right { return Err(DigestMismatch); }
      ghost var checked := reused && strict;
      Interfere();
      Unfound(path, token);
      if !Current(path, token) { return Err(Changed); }
      assert measured == token && digested == token;
      assert checked ==> Check(id, path, token, expected.sha) in world.checks;
      return Ok(reused);
    }

    /** The digest of what the path holds at this instant: vouched for by a receipt, or computed. */
    method CompareDigest(path: Path, token: nat, sha: Digest, strict: bool, anew: bool)
      returns (right: bool, reused: bool, ghost at: nat)
      requires Valid() && Witnessed(path, token)
      modifies this`receipts
      ensures Valid()
      ensures reused <==> !anew && Vouches(old(receipts), world.files, path, sha, strict)
      ensures reused ==> Vouches(receipts, world.files, path, sha, strict)
      ensures right ==> Witnessed(path, at) && ContentOf(path, at).sha == sha && token <= at
      ensures reused ==> right && world.Traced(sha) && (strict ==> Check(id, path, at, sha) in world.checks)
      ensures !right ==> Grown(path, token) || ContentOf(path, token).sha != sha
    {
      reused := false;
      if !anew {
        reused := VerifiedDigest(path, sha, strict);
      }
      if !Grown(path, token) { StillCurrent(path, token); }
      right := reused || (path in world.files && world.files[path].content.sha == sha);
      at := if path in world.files then world.files[path].token else 0;
    }

    /** A live handle of the path's present identity, or a new one opened and re-checked. */
    method OpenHandle(path: Path, ghost was: nat) returns (r: Result<Db, Failure>, level: nat)
      requires Valid() && Witnessed(path, was)
      modifies this, world
      ensures Valid() && Witnessed(path, was)
      ensures Later(old(world.latest), old(world.seen), old(world.checks), world.latest, world.seen, world.checks)
      ensures alone ==> receipts == old(receipts) && Untouched(old(world.files), old(world.leases))
      ensures r.Ok? ==>
                && r.value.path == path && Witnessed(path, r.value.token) && was <= r.value.token
                && (!Grown(path, r.value.token) ==> ContentOf(path, r.value.token).supported)
                && (level >= 2 ==> FullyChecked(r.value))
      ensures alone && Db(path, was) in old(handles) && old(Current(path, was)) ==>
                r == Ok(Db(path, was)) && level == old(handles)[Db(path, was)]
      ensures r.Err? ==>
                || (r.error in {Unavailable, Changed} && Grown(path, was))
                || (r.error == Unsupported && (Grown(path, was) || !ContentOf(path, was).supported))
                || (r.error == LeaseHeld && IsLocked(path))
    {
      level := 0;
      Interfere();
      Unfound(path, was);
      var token := world.Identify(path);
      if token.None? { return Err(Unavailable), 0; }
      var db := Db(path, token.value);
      if db in handles {
        level := handles[db];
        assert GoodHandle(db, level);
        return Ok(db), level;
      }
      r := OpenNew(path, was);
      return r, 0;
    }

    method OpenNew(path: Path, ghost was: nat) returns (r: Result<Db, Failure>)
      requires Valid() && Witnessed(path, was)
      modifies this, world
      ensures Valid() && Witnessed(path, was)
      ensures Later(old(world.latest), old(world.seen), old(world.checks), world.latest, world.seen, world.checks)
      ensures alone ==> receipts == old(receipts) && Untouched(old(world.files), old(world.leases))
      ensures r.Ok? ==>
                && r.value.path == path && Witnessed(path, r.value.token) && was <= r.value.token
                && (!Grown(path, r.value.token) ==> ContentOf(path, r.value.token).supported)
      ensures r.Err? ==>
                || (r.error in {Unavailable, Changed} && Grown(path, was))
                || (r.error == Unsupported && (Grown(path, was) || !ContentOf(path, was).supported))
                || (r.error == LeaseHeld && IsLocked(path))
    {
      Interfere();
      Unfound(path, was);
      var token := world.Identify(path);
      if token.None? { return Err(Unavailable); }
      var db := Db(path, token.value);
      Interfere();
      if IsLocked(path) { return Err(LeaseHeld); }
      var c := ReadBetween(db);
      if !c.supported { return Err(Unsupported); }
      Unfound(path, db.token);
      if !Current(path, db.token) { return Err(Changed); }
      return Ok(db);
    }

    /** Where a witnessed identity is not found any more, the path has had another one since. */
    lemma Unfound(path: Path, token: nat)
      requires Valid() && Witnessed(path, token)
      ensures !Current(path, token) ==> Grown(path, token)
    {
      if !Grown(path, token) { StillCurrent(path, token); }
    }

    /** `verify_contents` and the identity check behind it. A pass means that the handle's pages
        were those of the observed identity, so the check goes on record. */
    method FullCheck(db: Db, token: nat) returns (ok: bool)
      requires Valid() && Witnessed(db.path, db.token) && Witnessed(db.path, token) && token <= db.token
      modifies this, world
      ensures Valid() && Witnessed(db.path, db.token) && Witnessed(db.path, token)
      ensures Later(old(world.latest), old(world.seen), old(world.checks), world.latest, world.seen, world.checks)
      ensures alone ==> receipts == old(receipts) && Untouched(old(world.files), old(world.leases))
      ensures ok ==> Current(db.path, token) && db.token == token && FullyChecked(db) && ContentOf(db.path, db.token).ready
      ensures !ok ==> Grown(db.path, token) || !ContentOf(db.path, token).sound || !ContentOf(db.path, token).ready
    {
      var c := ReadBetween(db);
      Unfound(db.path, token);
      if !c.sound || !c.ready || !Current(db.path, token) { return false; }
      RecordCheck(db);
      return true;
    }

    ghost predicate Ready(db: Db)
      reads world
    {
      && (db.path, db.token) in world.seen
      && world.seen[(db.path, db.token)].ready && world.seen[(db.path, db.token)].supported
    }

    /** Writes down a full check that has been made. */
    ghost method RecordCheck(db: Db)
      requires Valid() && (db.path, db.token) in world.seen && world.seen[(db.path, db.token)].sound
      modifies world`checks
      ensures Valid() && FullyChecked(db) && old(world.checks) <= world.checks
    {
      world.checks := world.checks + {Check(id, db.path, db.token, world.seen[(db.path, db.token)].sha)};
    }

    // -------------------------------------------------------------------------------------
    // The admission decision
    // -------------------------------------------------------------------------------------

    ghost predicate Matches(db: Db, expected: Expected)
      reads world
    {
      (db.path, db.token) in world.seen &&
      var c := world.seen[(db.path, db.token)];
      && c.sourceVersion == expected.sourceVersion && c.revision == expected.revision
      && (expected.compiler == None || expected.compiler == Some(c.compiler))
    }

    /** Readiness and, for a managed file, its metadata, read through the handle. */
    method CheckPages(db: Db, expected: Option<Expected>) returns (failure: Option<Failure>)
      requires Valid() && Witnessed(db.path, db.token)
      requires !Grown(db.path, db.token) ==> ContentOf(db.path, db.token).supported
      modifies this, world
      ensures Valid() && Witnessed(db.path, db.token)
      ensures Later(old(world.latest), old(world.seen), old(world.checks), world.latest, world.seen, world.checks)
      ensures alone ==> receipts == old(receipts) && Untouched(old(world.files), old(world.leases))
      ensures failure.None? && !Grown(db.path, db.token) ==> Ready(db) && (expected.Some? ==> Matches(db, expected.value))
      ensures failure.Some? ==>
                || Grown(db.path, db.token)
                || (failure.value == NotReady && !ContentOf(db.path, db.token).ready)
                || (failure.value == MetadataMismatch && expected.Some? && !Matches(db, expected.value))
      ensures failure.Some? ==> failure.value in {NotReady, MetadataMismatch}
    {
      var c := ReadBetween(db);
      if !c.ready { return Some(NotReady); }
      if expected.Some? && !MetadataMatches(c, expected.value) { return Some(MetadataMismatch); }
      return None;
    }

    /** The check a file without a pointer gets: a full one in strict mode, a quick one otherwise,
        unless this handle has had it. The quick check finds fault only with what the full one does. */
    method CheckCustom(db: Db, level: nat, strict: bool, token: nat) returns (ok: bool, reached: nat)
      requires Valid() && Witnessed(db.path, db.token) && Witnessed(db.path, token) && token <= db.token
      requires level >= 2 ==> FullyChecked(db)
      modifies this, world
      ensures Valid() && Witnessed(db.path, token)
      ensures Later(old(world.latest), old(world.seen), old(world.checks), world.latest, world.seen, world.checks)
      ensures alone ==> receipts == old(receipts) && Untouched(old(world.files), old(world.leases))
      ensures ok ==> Current(db.path, token) && db.token == token
      ensures ok ==> reached >= level && (reached >= 2 ==> FullyChecked(db)) && reached >= if strict then 2 else 1
      ensures !ok ==> || Grown(db.path, token)
                      || (level < (if strict then 2 else 1)
                          && (!ContentOf(db.path, token).sound || !ContentOf(db.path, token).ready))
    {
      reached := level;
      if strict && level < 2 {
        ok := FullCheck(db, token);
        return ok, 2;
      }
      if !strict && level < 1 {
        var c := ReadBetween(db);
        if !c.sound {
          if * { return false, level; }
        }
        reached := 1;
      }
      Interfere();
      ok := Current(db.path, token);
      Unfound(db.path, token);
    }

    /** `stamp::matches`: a stamp of this engine for exactly these bytes. */
    method StampMatches(path: Path, expected: Expected) returns (found: bool)
      requires Valid()
      ensures found <==> path in world.stamps && world.stamps[path] == Stamp(engine, expected.sha, expected.size)
      ensures found ==> world.Traced(expected.sha)
    {
      found := path in world.stamps && world.stamps[path] == Stamp(engine, expected.sha, expected.size);
    }

    /** Keeps a stamp and a receipt of the proof; the stamp may fail to be written, the receipt may
        find its lease locked. */
    method Remember(path: Path, token: nat, expected: Expected, full: bool) returns (ok: bool)
      requires Valid() && GoodReceipt(Receipt(path, token, Some(expected.sha), full))
      modifies this`receipts, world`stamps
      ensures Valid()
      ensures world.stamps == old(world.stamps)
              || (full && world.stamps == old(world.stamps)[path := Stamp(engine, expected.sha, expected.size)])
      ensures ok <==> Current(path, token) && !IsLocked(path)
      ensures receipts == if ok && path in world.leases
                          then Newest(Without(Live(old(receipts), world.files), path), LIMIT - 1)
                               + [Receipt(path, token, Some(expected.sha), full)]
                          else old(receipts)
      ensures ok && path in world.leases ==> Vouches(receipts, world.files, path, expected.sha, full)
    {
      if full {
        if * { world.stamps := world.stamps[path := Stamp(engine, expected.sha, expected.size)]; }
      }
      ok := RememberProof(path, token, Some(expected.sha), full);
      assert ok && path in world.leases ==> Receipt(path, token, Some(expected.sha), full) in receipts;
    }

    /** What a successful admission of an expected file rests on. */
    ghost predicate Admitted(db: Db, expected: Expected, demanding: bool)
      reads world
    {
      && Ready(db) && Matches(db, expected)
      && world.seen[(db.path, db.token)].sha == expected.sha && world.seen[(db.path, db.token)].size == expected.size
      && world.Traced(expected.sha)
      && (demanding ==> Check(id, db.path, db.token, expected.sha) in world.checks)
    }

    /** What a refusal rests on, for a path that had this identity: that it has had another one since,
        or a fault of the content it had, or a lease that is locked. */
    ghost predicate Justified(failure: Failure, path: Path, token: nat, expected: Option<Expected>)
      reads world
      requires Witnessed(path, token)
    {
      var c := ContentOf(path, token);
      Grown(path, token) ||
      match failure
      case Unsupported => !c.supported
      case DigestMismatch => expected.Some? && (c.size != expected.value.size || c.sha != expected.value.sha)
      case NotReady => !c.ready
      case MetadataMismatch => expected.Some? && !Matches(Db(path, token), expected.value)
      case Unsound => !c.sound || !c.ready
      case LeaseHeld => IsLocked(path)
      case Unavailable => false
      case Changed => false
    }

    /** `admit`. Every admission of an expected file authenticates its bytes and is traceable to a
        full check of a file with that digest; a strict or fresh admission to one made by this
        process on this very identity. A strict admission without expectation is fully checked. Every
        refusal is justified by the file the path had. */
    method Admit(path: Path, expected: Option<Expected>, strict: bool, anew: bool) returns (r: Result<Db, Failure>)
      requires Valid()
      modifies this, world
      ensures Valid()
      ensures Later(old(world.latest), old(world.seen), old(world.checks), world.latest, world.seen, world.checks)
      ensures alone ==> Untouched(old(world.files), old(world.leases))
      ensures r.Ok? ==> r.value.path == path && Current(path, r.value.token) && Ready(r.value) && r.value in handles
      ensures r.Ok? && expected.Some? ==> Admitted(r.value, expected.value, strict || anew)
      ensures r.Ok? && expected.None? && strict ==> FullyChecked(r.value)
      ensures path !in old(world.files) ==> r == Err(Unavailable)
      ensures path in old(world.files) && r.Err? ==>
                var token := old(world.files)[path].token;
                Witnessed(path, token) && Justified(r.error, path, token, expected)
      ensures path in old(world.files) && alone && !anew && expected.Some?
              && Vouches(old(receipts), old(world.files), path, expected.value.sha, strict) ==>
                r != Err(Unsound) && (Db(path, old(world.files)[path].token) in old(handles) ==> r != Err(LeaseHeld))
      ensures r.Ok? && expected.Some? && alone && path in world.leases ==>
                Vouches(receipts, world.files, path, expected.value.sha, strict)
    {
      var observed := world.Identify(path);
      if observed.None? { return Err(Unavailable); }
      var token, reused := observed.value, false;
      if expected.Some? {
        var authentic := Authenticate(path, token, expected.value, strict, anew);
        if authentic.Err? { return Err(authentic.error); }
        reused := authentic.value;
      }
      var handle, level := OpenHandle(path, token);
      if handle.Err? { return Err(handle.error); }
      var db := handle.value;
      var failure := CheckPages(db, expected);
      if failure.Some? { return Err(failure.value); }
      if expected.None? {
        r := AdmitCustom(db, level, strict, token);
      } else if reused {
        r := AdmitReused(db, level, expected.value, strict, token);
      } else {
        r := AdmitChecked(db, level, expected.value, strict || anew, token);
      }
    }

    method AdmitCustom(db: Db, level: nat, strict: bool, token: nat) returns (r: Result<Db, Failure>)
      requires Valid() && Witnessed(db.path, db.token) && Witnessed(db.path, token) && token <= db.token
      requires level >= 2 ==> FullyChecked(db)
      requires !Grown(db.path, db.token) ==> Ready(db)
      modifies this, world
      ensures Valid() && Witnessed(db.path, token)
      ensures Later(old(world.latest), old(world.seen), old(world.checks), world.latest, world.seen, world.checks)
      ensures alone ==> receipts == old(receipts) && Untouched(old(world.files), old(world.leases))
      ensures r.Ok? ==> r.value == db && db.token == token && Current(db.path, db.token) && Ready(db) && db in handles
      ensures r.Ok? && strict ==> FullyChecked(db)
      ensures r.Err? ==> r.error == Unsound && Justified(Unsound, db.path, token, None)
    {
      var ok, reached := CheckCustom(db, level, strict, token);
      if !ok { return Err(Unsound); }
      handles := handles[db := reached];
      return Ok(db);
    }

    method AdmitReused(db: Db, level: nat, expected: Expected, strict: bool, token: nat) returns (r: Result<Db, Failure>)
      requires Valid() && Witnessed(db.path, db.token) && token <= db.token && (level >= 2 ==> FullyChecked(db))
      requires !Grown(db.path, db.token) ==> Ready(db) && Matches(db, expected)
      requires Witnessed(db.path, token) && world.seen[(db.path, token)].sha == expected.sha
      requires world.seen[(db.path, token)].size == expected.size && world.Traced(expected.sha)
      requires strict ==> Check(id, db.path, token, expected.sha) in world.checks
      modifies this, world
      ensures Valid() && Witnessed(db.path, token)
      ensures Later(old(world.latest), old(world.seen), old(world.checks), world.latest, world.seen, world.checks)
      ensures alone ==> receipts == old(receipts) && Untouched(old(world.files), old(world.leases))
      ensures r.Ok? ==> r.value == db && Current(db.path, db.token) && Admitted(db, expected, strict) && db in handles
      ensures r.Err? ==> r.error == Changed && Grown(db.path, token)
    {
      Interfere();
      Unfound(db.path, token);
      if !Current(db.path, token) { return Err(Changed); }
      handles := handles[db := level];
      return Ok(db);
    }

    /** The full check, or the stamp that stands for an earlier one where that is allowed. */
    method Prove(db: Db, expected: Expected, demanding: bool, token: nat) returns (failure: Option<Failure>, full: bool)
      requires Valid() && Witnessed(db.path, db.token) && Witnessed(db.path, token) && token <= db.token
      modifies this, world
      ensures Valid() && Witnessed(db.path, token)
      ensures Later(old(world.latest), old(world.seen), old(world.checks), world.latest, world.seen, world.checks)
      ensures alone ==> receipts == old(receipts) && Untouched(old(world.files), old(world.leases))
      ensures full <==> demanding || db.path !in old(world.stamps)
                        || old(world.stamps)[db.path] != Stamp(engine, expected.sha, expected.size)
      ensures failure.None? ==> Current(db.path, token) && db.token == token
      ensures failure.None? && full ==> FullyChecked(db)
      ensures failure.None? && !full ==> world.Traced(expected.sha)
      ensures failure.Some? ==> failure.value in {Unsound, Changed} && Justified(failure.value, db.path, token, Some(expected))
    {
      var stamped := StampMatches(db.path, expected);
      full := demanding || !stamped;
      if full {
        var ok := FullCheck(db, token);
        return if ok then None else Some(Unsound), full;
      }
      ghost var trace :| trace in world.checks && trace.sha == expected.sha;
      Interfere();
      Unfound(db.path, token);
      assert trace in world.checks;
      return if Current(db.path, token) then None else Some(Changed), full;
    }

    method AdmitChecked(db: Db, level: nat, expected: Expected, demanding: bool, token: nat)
      returns (r: Result<Db, Failure>)
      requires Valid() && Witnessed(db.path, db.token) && token <= db.token && (level >= 2 ==> FullyChecked(db))
      requires !Grown(db.path, db.token) ==> Ready(db) && Matches(db, expected)
      requires Witnessed(db.path, token) && world.seen[(db.path, token)].sha == expected.sha
      requires world.seen[(db.path, token)].size == expected.size
      modifies this, world
      ensures Valid() && Witnessed(db.path, token)
      ensures Later(old(world.latest), old(world.seen), old(world.checks), world.latest, world.seen, world.checks)
      ensures alone ==> Untouched(old(world.files), old(world.leases))
      ensures r.Ok? ==> r.value == db && Current(db.path, db.token) && Admitted(db, expected, demanding) && db in handles
      ensures r.Err? ==> r.error in {Unsound, Changed, LeaseHeld} && Justified(r.error, db.path, token, Some(expected))
      ensures r.Ok? && db.path in world.leases ==> Vouches(receipts, world.files, db.path, expected.sha, demanding)
    {
      var failure, full := Prove(db, expected, demanding, token);
      if failure.Some? { return Err(failure.value); }
      assert world.Traced(expected.sha) by {
        if full { assert Check(id, db.path, db.token, expected.sha) in world.checks; }
      }
      r := Finish(db, level, expected, full);
    }

    /** Keeps the proof and the handle of a file that has passed. */
    method Finish(db: Db, level: nat, expected: Expected, full: bool) returns (r: Result<Db, Failure>)
      requires Valid() && Current(db.path, db.token) && GoodReceipt(Receipt(db.path, db.token, Some(expected.sha), full))
      requires ContentSupported(db) && (level >= 2 ==> FullyChecked(db))
      modifies this`receipts, this`handles, world`stamps
      ensures Valid()
      ensures r == if IsLocked(db.path) then Err(LeaseHeld) else Ok(db)
      ensures r.Ok? ==> handles == old(handles)[db := level]
      ensures r.Ok? && db.path in world.leases ==> Vouches(receipts, world.files, db.path, expected.sha, full)
    {
      var ok := Remember(db.path, db.token, expected, full);
      if !ok { return Err(LeaseHeld); }
      handles := handles[db := level];
      return Ok(db);
    }

    ghost predicate ContentSupported(db: Db)
      reads world
    {
      (db.path, db.token) in world.seen && world.seen[(db.path, db.token)].supported
    }
  }

  /** A process stays valid while others act and leave its fields alone. */
  twostate lemma StaysValid(p: Process)
    requires old(p.Valid()) && p.receipts == old(p.receipts) && p.handles == old(p.handles) && p.world.Valid()
    requires Later(old(p.world.latest), old(p.world.seen), old(p.world.checks),
                   p.world.latest, p.world.seen, p.world.checks)
    ensures p.Valid()
  {
    forall receipt | receipt in p.receipts ensures p.GoodReceipt(receipt) {
      assert old(p.GoodReceipt(receipt));
      if receipt.sha.Some? {
        ghost var c :| c in old(p.world.checks) && c.sha == receipt.sha.value;
        assert c in p.world.checks;
      }
    }
  }

  /** A file replaced or removed on disk is one of the things that `Interfere` allows for; no receipt
      of a process speaks of the path's new identity. */
  method ReplaceBeside(p: Process, path: Path, token: nat, content: Option<Content>)
    requires p.Valid() && (path in p.world.latest ==> p.world.latest[path] < token)
    requires (path, token) !in p.world.seen
    modifies p.world
    ensures p.Valid() && p.receipts == old(p.receipts) && p.handles == old(p.handles)
    ensures Later(old(p.world.latest), old(p.world.seen), old(p.world.checks),
                  p.world.latest, p.world.seen, p.world.checks)
    ensures path in p.world.files <==> content.Some?
    ensures content.Some? ==> p.world.files[path] == File(token, content.value)
    ensures forall r :: r in p.receipts && r.path == path ==> !p.Current(path, r.token)
  {
    forall r | r in p.receipts && r.path == path ensures r.token != token {
      assert p.GoodReceipt(r);
    }
    p.world.Replace(path, token, content);
    StaysValid(p);
  }

  /** An undisturbed process refuses no file for which there is no cause: one that is there, supported,
      ready and expected, whose lease nobody has locked, and which is sound or has a receipt; and one
      with a receipt and a live handle even when its lease is locked. */
  method AdmitAlone(p: Process, path: Path, expected: Expected, strict: bool, anew: bool) returns (r: Result<Db, Failure>)
    requires p.Valid() && p.alone && path in p.world.files
    requires var c := p.world.files[path].content;
             && c.ready && c.supported && c.sha == expected.sha && c.size == expected.size
             && p.Matches(Db(path, p.world.files[path].token), expected)
    requires var live := Db(path, p.world.files[path].token) in p.handles;
             var vouched := !anew && Vouches(p.receipts, p.world.files, path, expected.sha, strict);
             (live && vouched) || (!p.IsLocked(path) && (vouched || p.world.files[path].content.sound))
    modifies p, p.world
    ensures p.Valid() && r == Ok(Db(path, old(p.world.files)[path].token))
  {
    r := p.Admit(path, Some(expected), strict, anew);
  }

  /** What an undisturbed process has admitted once, with a lease file, it admits again, from the
      receipt: whatever has become of the lease's lock, with the same handle. */
  method AdmitAgain(p: Process, path: Path, expected: Expected, strict: bool, first: bool)
    returns (r: Result<Db, Failure>, again: Result<Db, Failure>)
    requires p.Valid() && p.alone && path in p.world.leases
    modifies p, p.world
    ensures p.Valid() && (r.Ok? ==> again == r)
  {
    r := p.Admit(path, Some(expected), strict, first);
    again := r;
    if r.Ok? {
      p.world.LockLease(path);
      again := p.Admit(path, Some(expected), strict, false);
    }
  }

  /** Another process's admission is one of the things that `Interfere` allows for: it keeps this
      process valid, its proofs and handles included, and only adds to what is known of the world. */
  method AdmitBeside(p: Process, q: Process, path: Path, expected: Option<Expected>, strict: bool, anew: bool)
    returns (r: Result<Db, Failure>)
    requires p != q && p.world == q.world && p.Valid() && q.Valid()
    modifies q, q.world
    ensures p.Valid() && q.Valid() && p.receipts == old(p.receipts) && p.handles == old(p.handles)
    ensures Later(old(p.world.latest), old(p.world.seen), old(p.world.checks),
                  p.world.latest, p.world.seen, p.world.checks)
    ensures r.Ok? && expected.Some? ==> q.Admitted(r.value, expected.value, strict || anew)
  {
    r := q.Admit(path, expected, strict, anew);
    StaysValid(p);
  }
}
