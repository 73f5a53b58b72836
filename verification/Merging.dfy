/** Stage overrides: the eager deep merge and the view that resolves it one field at a time. */
module Merging {
  import opened Prelude
  import opened OrderedPairs
  import opened Json
  import opened FrozenJson

  /** An override `{m_defined, m_value}` replaces or leaves the whole value below it. */
  predicate IsWrapper(v: Value) {
    Field(v, "m_defined").Some? && Field(v, "m_value").Some?
  }

  /** A child override whose `m_defined` is false is skipped, with or without `m_value`. */
  predicate IsSkipped(v: Value) {
    Field(v, "m_defined") == Some(Bool(false))
  }

  // ---------------------------------------------------------------------------------------
  // Eager merge
  // ---------------------------------------------------------------------------------------

  function MergeDefined(base: Value, override: Value): Value
    decreases override
  {
    if !override.Object? then base
    else if IsWrapper(override) then
      if Field(override, "m_defined") == Some(Bool(true)) then Field(override, "m_value").value else base
    else Object(MergeFields(if base.Object? then base.fields else [], override.fields))
  }

  function MergeFields(base: Json.Fields, override: Json.Fields): Json.Fields
    decreases override
  {
    if override == [] then base
    else
      var merged, last := MergeFields(base, override[..|override| - 1]), override[|override| - 1];
      assert last.1 < last;
      if IsSkipped(last.1) then merged
      else Put(merged, last.0, MergeDefined(Get(merged, last.0).GetOr(Null), last.1))
  }

  /** The merge as it is executed: a map filled from the base, then from the override in order. */
  method ComputeMergeDefined(base: Value, override: Value) returns (r: Value)
    ensures r == MergeDefined(base, override)
    decreases override
  {
    if !override.Object? {
      return base;
    }
    var record := override.fields;
    if IsWrapper(override) {
      return if Get(record, "m_defined") == Some(Bool(true)) then Get(record, "m_value").GetOr(Null) else base;
    }
    var merged: Json.Fields := if base.Object? then base.fields else [];
    ghost var start := merged;
    var i := 0;
    while i < |record|
      invariant 0 <= i <= |record|
      invariant merged == MergeFields(start, record[..i])
    {
      assert record[..i + 1][..i] == record[..i];
      var entry := record[i];
      assert entry.1 < entry;
      if !IsSkipped(entry.1) {
        var original := Get(merged, entry.0).GetOr(Null);
        var value := ComputeMergeDefined(original, entry.1);
        merged := Put(merged, entry.0, value);
      }
      i := i + 1;
    }
    assert record[..i] == record;
    return Object(merged);
  }

  /** What the sequence of insertions amounts to: every key is decided on its own, by the base's
      value (null when absent) and the override's. */
  lemma {:induction false} GetMergeFields(base: Json.Fields, override: Json.Fields, k: string)
    requires Distinct(override)
    ensures Get(MergeFields(base, override), k) ==
            match Get(override, k)
            case None => Get(base, k)
            case Some(v) => if IsSkipped(v) then Get(base, k)
                            else Some(MergeDefined(Get(base, k).GetOr(Null), v))
  {
    if override != [] {
      var n := |override| - 1;
      var init, last := override[..n], override[n];
      GetMergeFields(base, init, k);
      GetAt(override, n);
      GetIsHasKey(init, k);
      GetIsHasKey(override, k);
      if last.0 == k {
        assert !HasKey(init, k);
      } else if HasKey(init, k) {
        var i :| 0 <= i < n && init[i].0 == k;
        GetAt(init, i);
        GetAt(override, i);
      } else {
        assert !HasKey(override, k);
      }
      if !IsSkipped(last.1) {
        var merged := MergeFields(base, init);
        GetPut(merged, last.0, MergeDefined(Get(merged, last.0).GetOr(Null), last.1), k);
        if last.0 == k { GetMergeFields(base, init, last.0); }
      }
    }
  }

  /** The base's keys keep their order and come first; no key is repeated. */
  lemma {:induction false} MergeKeepsOrder(base: Json.Fields, override: Json.Fields)
    requires Distinct(base)
    ensures var merged := MergeFields(base, override);
            Distinct(merged) && |base| <= |merged| && forall i :: 0 <= i < |base| ==> merged[i].0 == base[i].0
  {
    if override != [] {
      var init, last := override[..|override| - 1], override[|override| - 1];
      MergeKeepsOrder(base, init);
      var merged := MergeFields(base, init);
      PutKeys(merged, last.0, MergeDefined(Get(merged, last.0).GetOr(Null), last.1));
    }
  }

  /** One field of a merge, wrappers and non-object overrides included. */
  lemma FieldOfMerge(base: Value, override: Value, k: string)
    requires DistinctDeep(override)
    requires override.Object? && !IsWrapper(override)
    ensures Field(MergeDefined(base, override), k) ==
            match Field(override, k)
            case None => Field(base, k)
            case Some(v) => if IsSkipped(v) then Field(base, k)
                            else Some(MergeDefined(Field(base, k).GetOr(Null), v))
  {
    GetMergeFields(if base.Object? then base.fields else [], override.fields, k);
  }

  // ---------------------------------------------------------------------------------------
  // Deferred merge
  // ---------------------------------------------------------------------------------------

  /** One read interface over both kinds of tree. */
  datatype View = OfValue(v: Value) | OfFrozen(f: Frozen) {
    function GetView(key: string): Option<View> {
      match this
      case OfValue(v) => (var r := Field(v, key); if r.Some? then Some(OfValue(r.value)) else None)
      case OfFrozen(f) => (var r := GetFrozen(f, key); if r.Some? then Some(OfFrozen(r.value)) else None)
    }

    predicate IsObject() {
      match this
      case OfValue(v) => v.Object?
      case OfFrozen(f) => f.FObject?
    }

    function Materialize(): Value {
      match this
      case OfValue(v) => v
      case OfFrozen(f) => ToValue(f)
    }

    ghost predicate Distinct() {
      match this
      case OfValue(v) => DistinctDeep(v)
      case OfFrozen(f) => DistinctKeys(f)
    }
  }

  lemma GetViewAgrees(view: View, key: string)
    requires view.Distinct()
    ensures view.GetView(key).Some? <==> Field(view.Materialize(), key).Some?
    ensures view.GetView(key).Some? ==>
              && view.GetView(key).value.Distinct()
              && Field(view.Materialize(), key) == Some(view.GetView(key).value.Materialize())
    ensures view.IsObject() <==> view.Materialize().Object?
  {
    match view
    case OfValue(v) => FieldDistinctDeep(v, key);
    case OfFrozen(f) => GetFrozenAgrees(f, key);
  }

  /** A plain subtree, or a merge whose fields are resolved when they are read. */
  datatype Merged = Plain(view: View) | Deferred(base: View, overwritten: Value) {
    static function Merge(base: View, overwritten: Value): Merged {
      if !overwritten.Object? then Plain(base)
      else
        match (Field(overwritten, "m_defined"), Field(overwritten, "m_value"))
        case (Some(defined), Some(value)) => Plain(if defined == Bool(true) then OfValue(value) else base)
        case _ => Deferred(base, overwritten)
    }

    predicate IsObject() {
      match this
      case Plain(view) => view.IsObject()
      case Deferred(_, _) => true
    }

    function GetMerged(key: string): Option<Merged> {
      match this
      case Plain(view) =>
        var r := view.GetView(key);
        if r.Some? then Some(Plain(r.value)) else None
      case Deferred(base, overwritten) =>
        var original := base.GetView(key);
        match Field(overwritten, key)
        case Some(v) =>
          if Field(v, "m_defined") != Some(Bool(false)) then Some(Merge(original.GetOr(OfValue(Null)), v))
          else if original.Some? then Some(Plain(original.value)) else None
        case None => if original.Some? then Some(Plain(original.value)) else None
    }

    function Materialize(): Value {
      match this
      case Plain(view) => view.Materialize()
      case Deferred(base, overwritten) => MergeDefined(base.Materialize(), overwritten)
    }

    /** Repeated field reads along a path. */
    function GetPath(path: seq<string>): Option<Merged>
      decreases |path|
    {
      if path == [] then Some(this)
      else
        var child := GetMerged(path[0]);
        if child.None? then None else child.value.GetPath(path[1..])
    }

    ghost predicate Valid() {
      match this
      case Plain(view) => view.Distinct()
      case Deferred(base, overwritten) =>
        base.Distinct() && DistinctDeep(overwritten) && overwritten.Object? && !IsWrapper(overwritten)
    }
  }

  lemma MergeAgrees(base: View, overwritten: Value)
    requires base.Distinct() && DistinctDeep(overwritten)
    ensures Merged.Merge(base, overwritten).Valid()
    ensures Merged.Merge(base, overwritten).Materialize() == MergeDefined(base.Materialize(), overwritten)
  {
    FieldDistinctDeep(overwritten, "m_value");
  }

  lemma GetMergedAgrees(m: Merged, key: string)
    requires m.Valid()
    ensures m.IsObject() <==> m.Materialize().Object?
    ensures m.GetMerged(key).Some? <==> Field(m.Materialize(), key).Some?
    ensures m.GetMerged(key).Some? ==>
              && m.GetMerged(key).value.Valid()
              && Field(m.Materialize(), key) == Some(m.GetMerged(key).value.Materialize())
  {
    match m
    case Plain(view) => GetViewAgrees(view, key);
    case Deferred(base, overwritten) =>
      GetViewAgrees(base, key);
      FieldOfMerge(base.Materialize(), overwritten, key);
      FieldDistinctDeep(overwritten, key);
      if Field(overwritten, key).Some? {
        var original := base.GetView(key);
        MergeAgrees(original.GetOr(OfValue(Null)), Field(overwritten, key).value);
      }
  }

  /** For every base, override and path, the deferred merge finds a value exactly when the eager
      merge does, and it is the same value with the same key order. */
  lemma {:induction false} DeferredPathAgrees(m: Merged, path: seq<string>)
    requires m.Valid()
    ensures m.GetPath(path).Some? <==> AtPath(m.Materialize(), path).Some?
    ensures m.GetPath(path).Some? ==> AtPath(m.Materialize(), path) == Some(m.GetPath(path).value.Materialize())
    decreases |path|
  {
    if path != [] {
      GetMergedAgrees(m, path[0]);
      if m.GetMerged(path[0]).Some? {
        DeferredPathAgrees(m.GetMerged(path[0]).value, path[1..]);
      }
    }
  }

  lemma DeferredMergeIsMerge(base: View, overwritten: Value, path: seq<string>)
    requires base.Distinct() && DistinctDeep(overwritten)
    ensures var lazy := Merged.Merge(base, overwritten).GetPath(path);
            var eager := AtPath(MergeDefined(base.Materialize(), overwritten), path);
            && (lazy.Some? <==> eager.Some?)
            && (lazy.Some? ==> eager == Some(lazy.value.Materialize()))
  {
    MergeAgrees(base, overwritten);
    DeferredPathAgrees(Merged.Merge(base, overwritten), path);
  }

  // ---------------------------------------------------------------------------------------
  // What an override does
  // ---------------------------------------------------------------------------------------

  /** Every value that the path passes through in the override is an object that is no wrapper, and,
      below the root, is not marked as undefined. */
  predicate Opens(override: Value, path: seq<string>)
    decreases |path|
  {
    path == [] ||
    (&& override.Object? && (Field(override, "m_defined").None? || Field(override, "m_value").None?)
     && (|path| > 1 && Field(override, path[0]).Some? ==>
           && Field(Field(override, path[0]).value, "m_defined") != Some(Bool(false))
           && Opens(Field(override, path[0]).value, path[1..])))
  }

  /** What stands at a place after an override, by what stood there and what the override has there. */
  ghost predicate Overridden(was: Option<Value>, at: Option<Value>, isRoot: bool, now: Option<Value>) {
    match at
    case None => now == was
    case Some(w) =>
      var defined, value := Field(w, "m_defined"), Field(w, "m_value");
      && (defined == Some(Bool(true)) && value.Some? ==> now == value)
      && (defined == Some(Bool(false)) && (value.Some? || !isRoot) ==> now == was)
      && (defined.Some? && defined.value != Bool(true) && defined.value != Bool(false) && value.Some? ==>
            now == Some(was.GetOr(Null)))
      && (!w.Object? ==> now == Some(was.GetOr(Null)))
      && (w.Object? && (defined.None? || value.None?) && (isRoot || defined != Some(Bool(false))) ==>
            now.Some? && now.value.Object?)
  }

  /** An override on values, at any depth: a place it defines holds its value; one it marks as
      undefined, or does not mention, holds the base's; at any other wrapper and at a non-object it
      is the base's, null where there is none; elsewhere an object. */
  lemma {:induction false} MergedAt(base: Value, override: Value, path: seq<string>)
    requires DistinctDeep(override) && Opens(override, path)
    ensures Overridden(AtPath(base, path), AtPath(override, path), path == [], AtPath(MergeDefined(base, override), path))
    decreases |path|
  {
    if path != [] {
      var k, rest := path[0], path[1..];
      FieldOfMerge(base, override, k);
      var child := Field(override, k);
      if child.Some? && !IsSkipped(child.value) {
        FieldDistinctDeep(override, k);
        var below := Field(base, k).GetOr(Null);
        if rest != [] {
          MergedAt(below, child.value, rest);
        } else {
          MergedAt(below, child.value, []);
        }
      }
    }
  }

  /** The same of a deferred merge, read field by field along the path. */
  lemma DeferredAt(base: View, overwritten: Value, path: seq<string>)
    requires base.Distinct() && DistinctDeep(overwritten) && Opens(overwritten, path)
    ensures var read := Merged.Merge(base, overwritten).GetPath(path);
            Overridden(AtPath(base.Materialize(), path), AtPath(overwritten, path), path == [],
                       if read.Some? then Some(read.value.Materialize()) else None)
  {
    MergedAt(base.Materialize(), overwritten, path);
    DeferredMergeIsMerge(base, overwritten, path);
  }

  /** The keys that an override adds to those of a base, in its own order. */
  function Added(base: Json.Fields, override: Json.Fields): seq<string> {
    if override == [] then []
    else
      var before, last := Added(base, override[..|override| - 1]), override[|override| - 1];
      if Get(base, last.0).Some? || Field(last.1, "m_defined") == Some(Bool(false)) then before else before + [last.0]
  }

  lemma {:induction false} AddedAreMentioned(base: Json.Fields, override: Json.Fields, k: string)
    requires k in Added(base, override)
    ensures exists i :: 0 <= i < |override| && override[i].0 == k
  {
    var n := |override| - 1;
    if override[n].0 != k {
      AddedAreMentioned(base, override[..n], k);
      var i :| 0 <= i < n && override[..n][i].0 == k;
      assert override[i].0 == k;
    }
  }

  lemma OneMoreKey(merged: Json.Fields, keys: seq<string>, added: seq<string>, k: string, v: Value)
    requires KeysOf(merged) == keys + added && k !in added
    ensures KeysOf(Put(merged, k, v)) == keys + (if k in keys then added else added + [k])
  {
    KeysOfPut(merged, k, v);
    hide Put, Get, KeysOf;
    assert keys + added + [k] == keys + (added + [k]);
  }

  /** The keys of a merge: the base's, then those that the override adds, in its order. */
  lemma {:induction false} KeysOfMerge(base: Json.Fields, override: Json.Fields)
    requires Distinct(override)
    ensures KeysOf(MergeFields(base, override)) == KeysOf(base) + Added(base, override)
  {
    if override == [] {
      assert KeysOf(base) + [] == KeysOf(base);
    } else {
      var n := |override| - 1;
      var init, last := override[..n], override[n];
      KeysOfMerge(base, init);
      if last.0 in Added(base, init) {
        AddedAreMentioned(base, init, last.0);
        assert false;
      }
      var merged := MergeFields(base, init);
      var v := MergeDefined(Get(merged, last.0).GetOr(Null), last.1);
      hide MergeDefined, Put, KeysOf, Get;
      OneMoreKey(merged, KeysOf(base), Added(base, init), last.0, v);
      KeysOfPut(base, last.0, v);
    }
  }
}
