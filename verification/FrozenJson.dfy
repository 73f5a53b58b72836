/** Immutable JSON trees whose field names share one allocation per document. */
module FrozenJson {
  import opened Prelude
  import opened OrderedPairs
  import opened Json
  import opened Parsing

  /** A shared name: `id` is the identity of the allocation, `text` its contents. */
  datatype SharedKey = SharedKey(id: nat, text: string)

  datatype Frozen =
    | FNull
    | FBool(b: bool)
    | FNum(n: Number)
    | FStr(s: string)
    | FArray(items: seq<Frozen>)
    | FObject(fields: seq<(SharedKey, Frozen)>)

  function ToValue(f: Frozen): Value
    decreases f
  {
    match f
    case FNull => Null
    case FBool(b) => Bool(b)
    case FNum(n) => Num(n)
    case FStr(s) => Str(s)
    case FArray(items) => Array(ToValues(items))
    case FObject(fields) => Object(FromPairs(ToPairs(fields)))
  }

  function ToValues(items: seq<Frozen>): (r: seq<Value>)
    ensures |r| == |items|
    ensures forall i :: 0 <= i < |items| ==> r[i] == ToValue(items[i])
    decreases items
  {
    if items == [] then [] else ToValues(items[..|items| - 1]) + [ToValue(items[|items| - 1])]
  }

  function ToPairs(fields: seq<(SharedKey, Frozen)>): (r: Json.Fields)
    ensures |r| == |fields|
    ensures forall i :: 0 <= i < |fields| ==> r[i].0 == fields[i].0.text
    decreases fields
  {
    if fields == [] then []
    else
      var last := fields[|fields| - 1];
      assert last.1 < last;
      ToPairs(fields[..|fields| - 1]) + [(last.0.text, ToValue(last.1))]
  }

  lemma {:induction false} ToPairsAt(fields: seq<(SharedKey, Frozen)>, i: nat)
    requires i < |fields|
    ensures ToPairs(fields)[i] == (fields[i].0.text, ToValue(fields[i].1))
  {
    if i < |fields| - 1 {
      ToPairsAt(fields[..|fields| - 1], i);
    }
  }

  lemma ToPairsLast(fields: seq<(SharedKey, Frozen)>)
    requires fields != []
    ensures ToPairs(fields) == ToPairs(fields[..|fields| - 1])
                               + [(fields[|fields| - 1].0.text, ToValue(fields[|fields| - 1].1))]
  {
  }

  /** Thawing field lists is pointwise: appending and replacing in place carry over. */
  lemma {:induction false} ToPairsSplit(fields: seq<(SharedKey, Frozen)>, i: nat)
    requires i <= |fields|
    ensures ToPairs(fields) == ToPairs(fields[..i]) + ToPairs(fields[i..])
  {
    var n := |fields| - 1;
    if i == |fields| {
      assert fields[..i] == fields && fields[i..] == [];
    } else {
      var init, tail := fields[..n], fields[i..];
      ToPairsSplit(init, i);
      assert init[..i] == fields[..i] && init[i..] == tail[..n - i] && tail[n - i] == fields[n];
      ToPairsLast(fields);
      ToPairsLast(tail);
      assert ToPairs(init) == ToPairs(fields[..i]) + ToPairs(tail[..n - i]);
    }
  }

  lemma ToPairsUpdate(fields: seq<(SharedKey, Frozen)>, i: nat, f: Frozen)
    requires i < |fields|
    ensures ToPairs(fields[i := (fields[i].0, f)]) == ToPairs(fields)[i := (fields[i].0.text, ToValue(f))]
  {
    var updated := fields[i := (fields[i].0, f)];
    forall j | 0 <= j < |fields|
      ensures ToPairs(updated)[j] == ToPairs(fields)[i := (fields[i].0.text, ToValue(f))][j]
    {
      ToPairsAt(updated, j);
      ToPairsAt(fields, j);
    }
  }

  function GetFrozen(f: Frozen, key: string): Option<Frozen> {
    if f.FObject? then Find(f.fields, key) else None
  }

  function Find(fields: seq<(SharedKey, Frozen)>, key: string): Option<Frozen> {
    if fields == [] then None
    else if fields[0].0.text == key then Some(fields[0].1)
    else Find(fields[1..], key)
  }

  /** `take`: moves the first field of that name out and leaves null in its place. */
  function Take(f: Frozen, key: string): Frozen {
    GetFrozen(f, key).GetOr(FNull)
  }

  /** No object of the tree repeats a name. */
  ghost predicate DistinctKeys(f: Frozen) {
    match f
    case FArray(items) => forall i :: 0 <= i < |items| ==> DistinctKeys(items[i])
    case FObject(fields) =>
      Distinct(ToPairs(fields)) && forall i :: 0 <= i < |fields| ==> DistinctKeys(fields[i].1)
    case _ => true
  }

  lemma {:induction false} FindIsGet(fields: seq<(SharedKey, Frozen)>, key: string)
    ensures Find(fields, key).Some? <==> Get(ToPairs(fields), key).Some?
    ensures Find(fields, key).Some? ==> Get(ToPairs(fields), key) == Some(ToValue(Find(fields, key).value))
    ensures Find(fields, key).Some? ==> exists i :: 0 <= i < |fields| && fields[i].1 == Find(fields, key).value
  {
    if fields != [] {
      ToPairsSplit(fields, 1);
      ToPairsAt(fields, 0);
      assert ToPairs(fields)[1..] == ToPairs(fields[1..]);
      FindIsGet(fields[1..], key);
      if fields[0].0.text == key {
        assert fields[0].1 == Find(fields, key).value;
      } else if Find(fields, key).Some? {
        var i :| 0 <= i < |fields[1..]| && fields[1..][i].1 == Find(fields[1..], key).value;
        assert fields[i + 1].1 == Find(fields, key).value;
      }
    }
  }

  /** Reading a frozen tree is reading the value it stands for. */
  lemma GetFrozenAgrees(f: Frozen, key: string)
    requires DistinctKeys(f)
    ensures GetFrozen(f, key).Some? <==> Field(ToValue(f), key).Some?
    ensures GetFrozen(f, key).Some? ==>
              Field(ToValue(f), key) == Some(ToValue(GetFrozen(f, key).value)) && DistinctKeys(GetFrozen(f, key).value)
  {
    if f.FObject? {
      FromPairsIdentity(ToPairs(f.fields));
      FindIsGet(f.fields, key);
    }
  }

  // ---------------------------------------------------------------------------------------
  // Name sharing
  // ---------------------------------------------------------------------------------------

  ghost predicate Occurs(f: Frozen, key: SharedKey) {
    match f
    case FArray(items) => exists i :: 0 <= i < |items| && Occurs(items[i], key)
    case FObject(fields) => exists i :: 0 <= i < |fields| && (fields[i].0 == key || Occurs(fields[i].1, key))
    case _ => false
  }

  /** Every name of the tree is the table's own copy. */
  ghost predicate Interned(f: Frozen, table: map<string, SharedKey>) {
    match f
    case FArray(items) => forall i :: 0 <= i < |items| ==> Interned(items[i], table)
    case FObject(fields) =>
      forall i :: 0 <= i < |fields| ==>
        fields[i].0.text in table && table[fields[i].0.text] == fields[i].0 && Interned(fields[i].1, table)
    case _ => true
  }

  ghost predicate Extends(older: map<string, SharedKey>, newer: map<string, SharedKey>) {
    forall k :: k in older ==> k in newer && newer[k] == older[k]
  }

  lemma {:induction false} InternedGrows(f: Frozen, older: map<string, SharedKey>, newer: map<string, SharedKey>)
    requires Interned(f, older) && Extends(older, newer)
    ensures Interned(f, newer)
  {
    match f
    case FArray(items) =>
      forall i | 0 <= i < |items| ensures Interned(items[i], newer) { InternedGrows(items[i], older, newer); }
    case FObject(fields) =>
      forall i | 0 <= i < |fields| ensures Interned(fields[i].1, newer) {
        var field := fields[i];
        assert field.1 < field;
        InternedGrows(field.1, older, newer);
      }
    case _ =>
  }

  lemma {:induction false} OccursInTable(f: Frozen, table: map<string, SharedKey>, key: SharedKey)
    requires Interned(f, table) && Occurs(f, key)
    ensures key.text in table && table[key.text] == key
  {
    match f
    case FArray(items) =>
      var i :| 0 <= i < |items| && Occurs(items[i], key);
      OccursInTable(items[i], table, key);
    case FObject(fields) =>
      var i :| 0 <= i < |fields| && (fields[i].0 == key || Occurs(fields[i].1, key));
      if fields[i].0 != key {
        var field := fields[i];
        assert field.1 < field;
        OccursInTable(field.1, table, key);
      }
  }

  /** The document-wide table of names. */
  class Interner {
    var table: map<string, SharedKey>

    ghost predicate Valid()
      reads this
    {
      forall k :: k in table ==> table[k].text == k
    }

    constructor ()
      ensures Valid() && table == map[]
    {
      table := map[];
    }

    method Intern(text: string) returns (key: SharedKey)
      requires Valid()
      modifies this
      ensures Valid() && Extends(old(table), table)
      ensures text in table && key == table[text] && key.text == text
      ensures table.Keys == old(table.Keys) + {text}
    {
      if text in table {
        return table[text];
      }
      key := SharedKey(|table|, text);
      table := table[text := key];
    }
  }

  // ---------------------------------------------------------------------------------------
  // Frozen parse
  // ---------------------------------------------------------------------------------------

  const WIDE := 16

  function Thaw(r: Result<Frozen, string>): Parsed {
    if r.Ok? then Ok(ToValue(r.value)) else Err(r.error)
  }

  ghost predicate GoodTree(f: Frozen, table: map<string, SharedKey>) {
    DistinctKeys(f) && Interned(f, table)
  }

  lemma FrozenArray(raw: Raw, p: Projection, depth: nat, values: seq<Frozen>)
    requires raw.RArray? && !p.Discard? && FrozenPrefix(raw.items, |raw.items|, ItemOf(p), depth, values)
    ensures Thaw(Ok(FArray(values))) == ProjectResult(Full(raw, depth + 1), p)
  {
    assert raw.items[..|raw.items|] == raw.items;
    var full := FullItems(raw.items, depth).value;
    assert p.All? ==> ProjectItems(full, ItemOf(p)) == full;
  }

  lemma FrozenObject(raw: Raw, p: Projection, depth: nat, values: seq<(SharedKey, Frozen)>)
    requires raw.RObject? && !p.Discard? && FullEntries(raw.entries, depth).Ok?
    requires ToPairs(values) == ProjectFields(FullEntries(raw.entries, depth).value, p)
    requires Distinct(ToPairs(values))
    ensures Thaw(Ok(FObject(values))) == ProjectResult(Full(raw, depth + 1), p)
  {
    FromPairsIdentity(ToPairs(values));
    if p.All? {
      ProjectFieldsIdentity(FullEntries(raw.entries, depth).value, p);
    }
  }

  lemma GoodItems(values: seq<Frozen>, value: Frozen, older: map<string, SharedKey>, newer: map<string, SharedKey>)
    requires GoodTree(FArray(values), older) && Extends(older, newer) && GoodTree(value, newer)
    ensures GoodTree(FArray(values + [value]), newer)
    ensures ToValues(values + [value]) == ToValues(values) + [ToValue(value)]
  {
    InternedGrows(FArray(values), older, newer);
    assert (values + [value])[..|values|] == values;
  }

  lemma GoodAppend(values: seq<(SharedKey, Frozen)>, key: SharedKey, value: Frozen, table: map<string, SharedKey>)
    requires GoodTree(FObject(values), table) && GoodTree(value, table)
    requires key.text in table && table[key.text] == key
    requires !HasKey(ToPairs(values), key.text)
    ensures ToPairs(values + [(key, value)]) == Put(ToPairs(values), key.text, ToValue(value))
    ensures GoodTree(FObject(values + [(key, value)]), table)
  {
    assert (values + [(key, value)])[..|values|] == values;
    PutAppend(ToPairs(values), key.text, ToValue(value));
    PutDistinct(ToPairs(values), key.text, ToValue(value));
  }

  lemma GoodReplace(values: seq<(SharedKey, Frozen)>, at: nat, value: Frozen, table: map<string, SharedKey>)
    requires GoodTree(FObject(values), table) && GoodTree(value, table) && at < |values|
    ensures ToPairs(values[at := (values[at].0, value)]) == Put(ToPairs(values), values[at].0.text, ToValue(value))
    ensures GoodTree(FObject(values[at := (values[at].0, value)]), table)
  {
    var text := values[at].0.text;
    assert ToPairs(values)[at].0 == text;
    PutAt(ToPairs(values), text, ToValue(value), at);
    PutDistinct(ToPairs(values), text, ToValue(value));
    ToPairsUpdate(values, at, value);
  }

  lemma IndexesAppend(positions: map<string, nat>, values: seq<(SharedKey, Frozen)>, key: SharedKey, value: Frozen)
    requires Indexes(positions, values) && key.text !in positions
    ensures Indexes(positions[key.text := |values|], values + [(key, value)])
  {
  }

  lemma IndexesReplace(positions: map<string, nat>, values: seq<(SharedKey, Frozen)>, at: nat, value: Frozen)
    requires Indexes(positions, values) && at < |values|
    ensures Indexes(positions, values[at := (values[at].0, value)])
  {
  }

  method ParseFrozen(raw: Raw, p: Projection, depth: nat, keys: Interner) returns (r: Result<Frozen, string>)
    requires keys.Valid()
    modifies keys
    ensures keys.Valid() && Extends(old(keys.table), keys.table)
    ensures Thaw(r) == ProjectResult(Full(raw, depth), p)
    ensures r.Ok? ==> GoodTree(r.value, keys.table)
    decreases raw, 1
  {
    if p.Discard? {
      var checked := ParseProjected(raw, p, depth);
      return if checked.Ok? then Ok(FNull) else Err(checked.error);
    }
    match raw {
      case RNull => return Ok(FNull);
      case RBool(b) => return Ok(FBool(b));
      case RNum(n) => return Ok(FNum(n));
      case RStr(s) => return Ok(FStr(s));
      case RBad(error) => return Err(error);
      case RArray(items) =>
        if depth == 0 { return Err(TOO_DEEP); }
        r := FreezeSeq(raw, p, depth - 1, keys);
      case RObject(entries) =>
        if depth == 0 { return Err(TOO_DEEP); }
        r := FreezeMap(raw, p, depth - 1, keys);
    }
  }

  method FreezeSeq(raw: Raw, p: Projection, depth: nat, keys: Interner) returns (r: Result<Frozen, string>)
    requires raw.RArray? && !p.Discard? && keys.Valid()
    modifies keys
    ensures keys.Valid() && Extends(old(keys.table), keys.table)
    ensures Thaw(r) == ProjectResult(Full(raw, depth + 1), p)
    ensures r.Ok? ==> GoodTree(r.value, keys.table)
    decreases raw, 0
  {
    var items := raw.items;
    var values: seq<Frozen> := [];
    var i := 0;
    while i < |items|
      invariant 0 <= i <= |items|
      invariant keys.Valid() && Extends(old(keys.table), keys.table)
      invariant FrozenPrefix(items, i, ItemOf(p), depth, values)
      invariant GoodTree(FArray(values), keys.table)
    {
      ghost var before := keys.table;
      var value := ParseFrozen(items[i], ItemOf(p), depth, keys);
      FrozenPrefixStep(items, i, ItemOf(p), depth, values, value);
      if value.Err? {
        return Err(value.error);
      }
      GoodItems(values, value.value, before, keys.table);
      values := values + [value.value];
      i := i + 1;
    }
    FrozenArray(raw, p, depth, values);
    return Ok(FArray(values));
  }

  /** The first `i` items parsed, and `values` are their selections. */
  ghost predicate FrozenPrefix(items: seq<Raw>, i: nat, child: Projection, depth: nat, values: seq<Frozen>) {
    i <= |items| && FullItems(items[..i], depth).Ok?
    && ToValues(values) == ProjectItems(FullItems(items[..i], depth).value, child)
  }

  lemma FrozenPrefixStep(items: seq<Raw>, i: nat, child: Projection, depth: nat, values: seq<Frozen>,
                         value: Result<Frozen, string>)
    requires FrozenPrefix(items, i, child, depth, values) && i < |items|
    requires Thaw(value) == ProjectResult(Full(items[i], depth), child)
    ensures value.Err? ==> FullItems(items, depth) == Err(value.error)
    ensures value.Ok? ==> FrozenPrefix(items, i + 1, child, depth, values + [value.value])
  {
    ItemsStep(items, depth, i);
    if value.Ok? {
      ProjectItemsAppend(FullItems(items[..i], depth).value, Full(items[i], depth).value, child);
      assert (values + [value.value])[..|values|] == values;
    }
  }

  function IndexOfText(values: seq<(SharedKey, Frozen)>, text: string): (r: Option<nat>)
    ensures r.Some? ==> r.value < |values| && values[r.value].0.text == text
    ensures r.Some? ==> forall j :: 0 <= j < r.value ==> values[j].0.text != text
    ensures r.None? ==> forall j :: 0 <= j < |values| ==> values[j].0.text != text
  {
    if values == [] then None
    else if values[0].0.text == text then Some(0)
    else
      var rest := IndexOfText(values[1..], text);
      if rest.Some? then
        assert forall j :: 1 <= j < |values| ==> values[j] == values[1..][j - 1];
        Some(rest.value + 1)
      else
        assert forall j :: 1 <= j < |values| ==> values[j] == values[1..][j - 1];
        None
  }

  /** The hash index of a wide object: exactly the positions of its names. */
  ghost predicate Indexes(positions: map<string, nat>, values: seq<(SharedKey, Frozen)>) {
    && (forall j :: 0 <= j < |values| ==> values[j].0.text in positions && positions[values[j].0.text] == j)
    && (forall k :: k in positions ==> positions[k] < |values| && values[positions[k]].0.text == k)
  }

  method BuildIndex(values: seq<(SharedKey, Frozen)>) returns (positions: map<string, nat>)
    requires Distinct(ToPairs(values))
    ensures Indexes(positions, values)
  {
    positions := map[];
    for i := 0 to |values|
      invariant Indexes(positions, values[..i])
    {
      assert forall j :: 0 <= j < i ==> ToPairs(values)[j].0 != ToPairs(values)[i].0;
      positions := positions[values[i].0.text := i];
    }
    assert values[..|values|] == values;
  }

  /** Adds one parsed field: an earlier field of that name is overwritten where it stands,
      otherwise the shared name is appended, and the sixteenth field switches to the index. */
  method PlaceField(values: seq<(SharedKey, Frozen)>, positions: Option<map<string, nat>>,
                    text: string, value: Frozen, keys: Interner)
    returns (fields: seq<(SharedKey, Frozen)>, index: Option<map<string, nat>>)
    requires keys.Valid()
    requires Distinct(ToPairs(values)) && GoodTree(FObject(values), keys.table) && GoodTree(value, keys.table)
    requires positions.Some? ==> Indexes(positions.value, values)
    modifies keys
    ensures keys.Valid() && Extends(old(keys.table), keys.table)
    ensures ToPairs(fields) == Put(ToPairs(values), text, ToValue(value))
    ensures Distinct(ToPairs(fields)) && GoodTree(FObject(fields), keys.table)
    ensures index.Some? ==> Indexes(index.value, fields)
  {
    var existing := if positions.Some?
                    then (if text in positions.value then Some(positions.value[text]) else None)
                    else IndexOfText(values, text);
    if existing.Some? {
      GoodReplace(values, existing.value, value, keys.table);
      fields := values[existing.value := (values[existing.value].0, value)];
      if positions.Some? {
        IndexesReplace(positions.value, values, existing.value, value);
      }
      return fields, positions;
    }
    assert !HasKey(ToPairs(values), text);
    var key := keys.Intern(text);
    InternedGrows(FObject(values), old(keys.table), keys.table);
    InternedGrows(value, old(keys.table), keys.table);
    GoodAppend(values, key, value, keys.table);
    fields := values + [(key, value)];
    if positions.Some? {
      IndexesAppend(positions.value, values, key, value);
      index := Some(positions.value[text := |values|]);
    } else if |fields| == WIDE {
      var built := BuildIndex(fields);
      index := Some(built);
    } else {
      index := None;
    }
  }

  /** The fields built from the first `i` entries. */
  ghost predicate FrozenFields(entries: seq<(string, Raw)>, i: nat, p: Projection, depth: nat,
                               values: seq<(SharedKey, Frozen)>, positions: Option<map<string, nat>>,
                               table: map<string, SharedKey>)
    requires i <= |entries|
  {
    && FullEntries(entries[..i], depth).Ok?
    && ToPairs(values) == ProjectFields(FullEntries(entries[..i], depth).value, p)
    && Distinct(ToPairs(values)) && GoodTree(FObject(values), table)
    && (positions.Some? ==> Indexes(positions.value, values))
  }

  lemma FrozenFieldsGrow(entries: seq<(string, Raw)>, i: nat, p: Projection, depth: nat,
                         values: seq<(SharedKey, Frozen)>, positions: Option<map<string, nat>>,
                         older: map<string, SharedKey>, newer: map<string, SharedKey>)
    requires i <= |entries| && FrozenFields(entries, i, p, depth, values, positions, older) && Extends(older, newer)
    ensures FrozenFields(entries, i, p, depth, values, positions, newer)
  {
    InternedGrows(FObject(values), older, newer);
  }

  /** What one entry adds; a failed one fails the object, a discarded one adds nothing. */
  lemma FrozenFieldsStep(entries: seq<(string, Raw)>, i: nat, p: Projection, depth: nat,
                         values: seq<(SharedKey, Frozen)>, positions: Option<map<string, nat>>,
                         table: map<string, SharedKey>, r: Result<Frozen, string>)
    requires i < |entries| && FrozenFields(entries, i, p, depth, values, positions, table)
    requires Thaw(r) == ProjectResult(Full(entries[i].1, depth), ChildOf(p, entries[i].0))
    ensures r.Err? ==> FullEntries(entries, depth) == Err(r.error)
    ensures r.Ok? ==> FullEntries(entries[..i + 1], depth).Ok?
                      && ProjectFields(FullEntries(entries[..i + 1], depth).value, p)
                         == if ChildOf(p, entries[i].0).Discard? then ToPairs(values)
                            else Put(ToPairs(values), entries[i].0, ToValue(r.value))
  {
    EntriesStep(entries, depth, i);
    if r.Ok? {
      ProjectPut(FullEntries(entries[..i], depth).value, p, entries[i].0, Full(entries[i].1, depth).value);
    }
  }

  method AddField(entries: seq<(string, Raw)>, i: nat, p: Projection, depth: nat, value: Frozen, keys: Interner,
                  values: seq<(SharedKey, Frozen)>, positions: Option<map<string, nat>>)
    returns (fields: seq<(SharedKey, Frozen)>, index: Option<map<string, nat>>)
    requires keys.Valid() && i < |entries| && FrozenFields(entries, i, p, depth, values, positions, keys.table)
    requires Thaw(Ok(value)) == ProjectResult(Full(entries[i].1, depth), ChildOf(p, entries[i].0))
    requires GoodTree(value, keys.table)
    modifies keys
    ensures keys.Valid() && Extends(old(keys.table), keys.table)
    ensures FrozenFields(entries, i + 1, p, depth, fields, index, keys.table)
  {
    FrozenFieldsStep(entries, i, p, depth, values, positions, keys.table, Ok(value));
    fields, index := values, positions;
    if !ChildOf(p, entries[i].0).Discard? {
      fields, index := PlaceField(values, positions, entries[i].0, value, keys);
    }
  }

  method FreezeMap(raw: Raw, p: Projection, depth: nat, keys: Interner) returns (r: Result<Frozen, string>)
    requires raw.RObject? && !p.Discard? && keys.Valid()
    modifies keys
    ensures keys.Valid() && Extends(old(keys.table), keys.table)
    ensures Thaw(r) == ProjectResult(Full(raw, depth + 1), p)
    ensures r.Ok? ==> GoodTree(r.value, keys.table)
    decreases raw, 0
  {
    var entries := raw.entries;
    var values: seq<(SharedKey, Frozen)> := [];
    var positions: Option<map<string, nat>> := None;
    assert FrozenFields(entries, 0, p, depth, values, positions, keys.table);
    var i := 0;
    hide FrozenFields;
    while i < |entries|
      invariant 0 <= i <= |entries|
      invariant keys.Valid() && Extends(old(keys.table), keys.table)
      invariant FrozenFields(entries, i, p, depth, values, positions, keys.table)
    {
      ghost var before := keys.table;
      var entry := entries[i];
      assert entry.1 < entry;
      var value := ParseFrozen(entry.1, ChildOf(p, entry.0), depth, keys);
      FrozenFieldsGrow(entries, i, p, depth, values, positions, before, keys.table);
      if value.Err? {
        FrozenFieldsStep(entries, i, p, depth, values, positions, keys.table, value);
        return Err(value.error);
      }
      values, positions := AddField(entries, i, p, depth, value.value, keys, values, positions);
      i := i + 1;
    }
    FrozenFieldsDone(raw, p, depth, values, positions, keys.table);
    return Ok(FObject(values));
  }

  lemma FrozenFieldsDone(raw: Raw, p: Projection, depth: nat, values: seq<(SharedKey, Frozen)>,
                         positions: Option<map<string, nat>>, table: map<string, SharedKey>)
    requires raw.RObject? && !p.Discard?
    requires FrozenFields(raw.entries, |raw.entries|, p, depth, values, positions, table)
    ensures Thaw(Ok(FObject(values))) == ProjectResult(Full(raw, depth + 1), p) && GoodTree(FObject(values), table)
  {
    assert raw.entries[..|raw.entries|] == raw.entries;
    FrozenObject(raw, p, depth, values);
  }

  /** Parses one document with a fresh name table. Acceptance, the error, the selected value and
      its key order are those of the complete parse; equal names share one allocation. */
  method ParseFrozenDocument(doc: Document, p: Projection, depth: nat) returns (r: Result<Frozen, string>)
    ensures Thaw(r) == ProjectResult(FullDocument(doc, depth), p)
    ensures r.Ok? ==> DistinctKeys(r.value)
    ensures r.Ok? ==> forall a, b :: Occurs(r.value, a) && Occurs(r.value, b) && a.text == b.text ==> a == b
  {
    var keys := new Interner();
    r := ParseFrozen(doc.root, p, depth, keys);
    if r.Ok? {
      if doc.trailing.Some? {
        return Err(doc.trailing.value);
      }
      forall a, b | Occurs(r.value, a) && Occurs(r.value, b) && a.text == b.text ensures a == b {
        OccursInTable(r.value, keys.table, a);
        OccursInTable(r.value, keys.table, b);
      }
    }
  }
}
