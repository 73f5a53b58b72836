/**
 Three parsers of the same JSON text: the complete one, the projected one, and the projected one
 that builds immutable trees with shared field names and a duplicate index for wide objects.
 */
module Parsing {
  import opened Prelude
  import opened OrderedPairs
  import opened Json

  /** The syntax a parser meets, in document order. Objects may repeat names;
      `RBad` stands for the first malformed token below this point. */
  datatype Raw =
    | RNull
    | RBool(b: bool)
    | RNum(n: Number)
    | RStr(s: string)
    | RArray(items: seq<Raw>)
    | RObject(entries: seq<(string, Raw)>)
    | RBad(error: string)

  /** A whole text: its root value and the error found after it, if any. */
  datatype Document = Document(root: Raw, trailing: Option<string>)

  type Parsed = Result<Value, string>

  const TOO_DEEP := "recursion limit exceeded"

  // ---------------------------------------------------------------------------------------
  // Complete parse
  // ---------------------------------------------------------------------------------------

  /** `depth` is the number of containers that may still be entered. */
  function Full(raw: Raw, depth: nat): Parsed
    decreases raw
  {
    match raw
    case RNull => Ok(Null)
    case RBool(b) => Ok(Bool(b))
    case RNum(n) => Ok(Num(n))
    case RStr(s) => Ok(Str(s))
    case RArray(items) =>
      if depth == 0 then Err(TOO_DEEP)
      else
        var r := FullItems(items, depth - 1);
        if r.Ok? then Ok(Array(r.value)) else Err(r.error)
    case RObject(entries) =>
      if depth == 0 then Err(TOO_DEEP)
      else
        var r := FullEntries(entries, depth - 1);
        if r.Ok? then Ok(Object(r.value)) else Err(r.error)
    case RBad(error) => Err(error)
  }

  function FullItems(items: seq<Raw>, depth: nat): Result<seq<Value>, string>
    decreases items
  {
    if items == [] then Ok([])
    else
      var before := FullItems(items[..|items| - 1], depth);
      if before.Err? then before
      else
        var last := Full(items[|items| - 1], depth);
        if last.Err? then Err(last.error) else Ok(before.value + [last.value])
  }

  function FullEntries(entries: seq<(string, Raw)>, depth: nat): Result<Fields, string>
    decreases entries
  {
    if entries == [] then Ok([])
    else
      var before := FullEntries(entries[..|entries| - 1], depth);
      if before.Err? then before
      else
        var entry := entries[|entries| - 1];
        assert entry.1 < entry;
        var last := Full(entry.1, depth);
        if last.Err? then Err(last.error) else Ok(Put(before.value, entry.0, last.value))
  }

  function FullDocument(doc: Document, depth: nat): Parsed {
    var r := Full(doc.root, depth);
    if r.Err? then r else if doc.trailing.Some? then Err(doc.trailing.value) else r
  }

  /** An error met in a prefix is the error of the whole sequence. */
  lemma {:induction false} ItemsErrorStays(items: seq<Raw>, depth: nat, i: nat)
    requires i <= |items| && FullItems(items[..i], depth).Err?
    ensures FullItems(items, depth) == FullItems(items[..i], depth)
  {
    if i < |items| {
      var shorter := items[..|items| - 1];
      assert shorter[..i] == items[..i];
      ItemsErrorStays(shorter, depth, i);
    } else {
      assert items[..i] == items;
    }
  }

  lemma {:induction false} EntriesErrorStays(entries: seq<(string, Raw)>, depth: nat, i: nat)
    requires i <= |entries| && FullEntries(entries[..i], depth).Err?
    ensures FullEntries(entries, depth) == FullEntries(entries[..i], depth)
  {
    if i < |entries| {
      var shorter := entries[..|entries| - 1];
      assert shorter[..i] == entries[..i];
      EntriesErrorStays(shorter, depth, i);
    } else {
      assert entries[..i] == entries;
    }
  }

  /** One more item, and one more entry, of a prefix that parsed. */
  lemma ItemsStep(items: seq<Raw>, depth: nat, i: nat)
    requires i < |items| && FullItems(items[..i], depth).Ok?
    ensures Full(items[i], depth).Err? ==> FullItems(items, depth) == Err(Full(items[i], depth).error)
    ensures Full(items[i], depth).Ok? ==>
              FullItems(items[..i + 1], depth) == Ok(FullItems(items[..i], depth).value + [Full(items[i], depth).value])
  {
    assert items[..i + 1][..i] == items[..i];
    if Full(items[i], depth).Err? {
      ItemsErrorStays(items, depth, i + 1);
    }
  }

  lemma EntriesStep(entries: seq<(string, Raw)>, depth: nat, i: nat)
    requires i < |entries| && FullEntries(entries[..i], depth).Ok?
    ensures Full(entries[i].1, depth).Err? ==> FullEntries(entries, depth) == Err(Full(entries[i].1, depth).error)
    ensures Full(entries[i].1, depth).Ok? ==>
              FullEntries(entries[..i + 1], depth)
              == Ok(Put(FullEntries(entries[..i], depth).value, entries[i].0, Full(entries[i].1, depth).value))
  {
    assert entries[..i + 1][..i] == entries[..i];
    if Full(entries[i].1, depth).Err? {
      EntriesErrorStays(entries, depth, i + 1);
    }
  }

  /** Parsed values never repeat a key inside an object. */
  lemma {:induction false} FullDistinct(raw: Raw, depth: nat)
    ensures Full(raw, depth).Ok? ==> DistinctDeep(Full(raw, depth).value)
    decreases raw
  {
    match raw
    case RArray(items) => if depth > 0 { FullItemsDistinct(items, depth - 1); }
    case RObject(entries) => if depth > 0 { FullEntriesDistinct(entries, depth - 1); }
    case _ =>
  }

  lemma {:induction false} FullItemsDistinct(items: seq<Raw>, depth: nat)
    ensures FullItems(items, depth).Ok? ==>
              forall i :: 0 <= i < |FullItems(items, depth).value| ==> DistinctDeep(FullItems(items, depth).value[i])
    decreases items
  {
    if items != [] {
      FullItemsDistinct(items[..|items| - 1], depth);
      FullDistinct(items[|items| - 1], depth);
    }
  }

  lemma {:induction false} FullEntriesDistinct(entries: seq<(string, Raw)>, depth: nat)
    ensures FullEntries(entries, depth).Ok? ==> DistinctDeep(Object(FullEntries(entries, depth).value))
    decreases entries
  {
    if entries != [] {
      FullEntriesDistinct(entries[..|entries| - 1], depth);
      var entry := entries[|entries| - 1];
      assert entry.1 < entry;
      FullDistinct(entry.1, depth);
      var before, last := FullEntries(entries[..|entries| - 1], depth), Full(entry.1, depth);
      if before.Ok? && last.Ok? {
        PutDistinctDeep(before.value, entry.0, last.value);
      }
    }
  }

  lemma PutDistinctDeep(m: Fields, k: string, v: Value)
    requires DistinctDeep(Object(m)) && DistinctDeep(v)
    ensures DistinctDeep(Object(Put(m, k, v)))
  {
    PutDistinct(m, k, v);
    if HasKey(m, k) {
      var i := FirstAt(m, k);
      PutAt(m, k, v, i);
    } else {
      PutAppend(m, k, v);
    }
  }

  // ---------------------------------------------------------------------------------------
  // What a text gives
  // ---------------------------------------------------------------------------------------

  /** A value written down. */
  function Written(v: Value): Raw
    decreases v
  {
    match v
    case Null => RNull
    case Bool(b) => RBool(b)
    case Num(n) => RNum(n)
    case Str(s) => RStr(s)
    case Array(items) => RArray(WrittenItems(items))
    case Object(fields) => RObject(WrittenFields(fields))
  }

  function WrittenItems(items: seq<Value>): (r: seq<Raw>)
    ensures |r| == |items|
    decreases items
  {
    if items == [] then [] else WrittenItems(items[..|items| - 1]) + [Written(items[|items| - 1])]
  }

  function WrittenFields(fields: Json.Fields): (r: seq<(string, Raw)>)
    ensures |r| == |fields|
    decreases fields
  {
    if fields == [] then []
    else
      var last := fields[|fields| - 1];
      assert last.1 < last;
      WrittenFields(fields[..|fields| - 1]) + [(last.0, Written(last.1))]
  }

  /** How many containers are open at the deepest place of a value. */
  function Height(v: Value): nat
    decreases v
  {
    match v
    case Array(items) => 1 + ItemsHeight(items)
    case Object(fields) => 1 + FieldsHeight(fields)
    case _ => 0
  }

  function ItemsHeight(items: seq<Value>): nat
    decreases items
  {
    if items == [] then 0
    else
      var before, last := ItemsHeight(items[..|items| - 1]), Height(items[|items| - 1]);
      if before < last then last else before
  }

  function FieldsHeight(fields: Json.Fields): nat
    decreases fields
  {
    if fields == [] then 0
    else
      var last := fields[|fields| - 1];
      assert last.1 < last;
      var before, here := FieldsHeight(fields[..|fields| - 1]), Height(last.1);
      if before < here then here else before
  }

  /** Round trip: a written value is read back, and fails exactly when it is nested too deeply. */
  lemma {:induction false} RoundTrip(v: Value, depth: nat)
    requires DistinctDeep(v)
    ensures Full(Written(v), depth) == if Height(v) <= depth then Ok(v) else Err(TOO_DEEP)
    decreases v
  {
    match v
    case Array(items) => if depth > 0 { ItemsRoundTrip(items, depth - 1); }
    case Object(fields) => if depth > 0 { FieldsRoundTrip(fields, depth - 1); }
    case _ =>
  }

  lemma {:induction false} ItemsRoundTrip(items: seq<Value>, depth: nat)
    requires forall i :: 0 <= i < |items| ==> DistinctDeep(items[i])
    ensures FullItems(WrittenItems(items), depth) == if ItemsHeight(items) <= depth then Ok(items) else Err(TOO_DEEP)
    decreases items
  {
    if items != [] {
      var n := |items| - 1;
      assert WrittenItems(items)[..n] == WrittenItems(items[..n]);
      ItemsRoundTrip(items[..n], depth);
      RoundTrip(items[n], depth);
      assert items[..n] + [items[n]] == items;
    }
  }

  lemma {:induction false} FieldsRoundTrip(fields: Json.Fields, depth: nat)
    requires DistinctDeep(Object(fields))
    ensures FullEntries(WrittenFields(fields), depth) == if FieldsHeight(fields) <= depth then Ok(fields) else Err(TOO_DEEP)
    decreases fields
  {
    if fields != [] {
      var n := |fields| - 1;
      var last := fields[n];
      assert last.1 < last;
      assert WrittenFields(fields)[..n] == WrittenFields(fields[..n]);
      FieldsRoundTrip(fields[..n], depth);
      RoundTrip(last.1, depth);
      assert !HasKey(fields[..n], last.0);
      PutAppend(fields[..n], last.0, last.1);
      assert fields[..n] + [last] == fields;
    }
  }

  /** The places of a text at which a parse may fail, in document order, with their errors. */
  function Faults(raw: Raw, depth: nat): seq<string>
    decreases raw
  {
    match raw
    case RBad(error) => [error]
    case RArray(items) => if depth == 0 then [TOO_DEEP] else ItemFaults(items, depth - 1)
    case RObject(entries) => if depth == 0 then [TOO_DEEP] else EntryFaults(entries, depth - 1)
    case _ => []
  }

  function ItemFaults(items: seq<Raw>, depth: nat): seq<string>
    decreases items
  {
    if items == [] then [] else ItemFaults(items[..|items| - 1], depth) + Faults(items[|items| - 1], depth)
  }

  function EntryFaults(entries: seq<(string, Raw)>, depth: nat): seq<string>
    decreases entries
  {
    if entries == [] then []
    else
      var last := entries[|entries| - 1];
      assert last.1 < last;
      EntryFaults(entries[..|entries| - 1], depth) + Faults(last.1, depth)
  }

  /** A parse fails exactly when something in the text is wrong, with the first error of the text. */
  lemma {:induction false} FirstFault(raw: Raw, depth: nat)
    ensures Full(raw, depth).Ok? <==> Faults(raw, depth) == []
    ensures Full(raw, depth).Err? ==> Full(raw, depth).error == Faults(raw, depth)[0]
    decreases raw
  {
    match raw
    case RArray(items) => if depth > 0 { FirstItemFault(items, depth - 1); }
    case RObject(entries) => if depth > 0 { FirstEntryFault(entries, depth - 1); }
    case _ =>
  }

  /** What is wrong behind the root comes after all that is wrong in it. */
  lemma FirstFaultOfDocument(doc: Document, depth: nat)
    ensures var faults := Faults(doc.root, depth) + (if doc.trailing.Some? then [doc.trailing.value] else []);
            && (FullDocument(doc, depth).Ok? <==> faults == [])
            && (if faults == [] then FullDocument(doc, depth) == Full(doc.root, depth)
                else FullDocument(doc, depth) == Err(faults[0]))
  {
    FirstFault(doc.root, depth);
  }

  lemma {:induction false} FirstItemFault(items: seq<Raw>, depth: nat)
    ensures FullItems(items, depth).Ok? <==> ItemFaults(items, depth) == []
    ensures FullItems(items, depth).Err? ==> FullItems(items, depth).error == ItemFaults(items, depth)[0]
    decreases items
  {
    if items != [] {
      FirstItemFault(items[..|items| - 1], depth);
      FirstFault(items[|items| - 1], depth);
    }
  }

  lemma {:induction false} FirstEntryFault(entries: seq<(string, Raw)>, depth: nat)
    ensures FullEntries(entries, depth).Ok? <==> EntryFaults(entries, depth) == []
    ensures FullEntries(entries, depth).Err? ==> FullEntries(entries, depth).error == EntryFaults(entries, depth)[0]
    decreases entries
  {
    if entries != [] {
      var last := entries[|entries| - 1];
      assert last.1 < last;
      FirstEntryFault(entries[..|entries| - 1], depth);
      FirstFault(last.1, depth);
    }
  }

  predicate IsLast(entries: seq<(string, Raw)>, i: nat) {
    i < |entries| && forall j :: i < j < |entries| ==> entries[j].0 != entries[i].0
  }

  /** The names of the entries, each where it first stands. */
  function FirstNames(entries: seq<(string, Raw)>): seq<string> {
    if entries == [] then []
    else
      var before, name := FirstNames(entries[..|entries| - 1]), entries[|entries| - 1].0;
      if name in before then before else before + [name]
  }

  lemma LastStays(entries: seq<(string, Raw)>, i: nat)
    requires i < |entries| - 1 && IsLast(entries, i)
    ensures IsLast(entries[..|entries| - 1], i) && entries[..|entries| - 1][i] == entries[i]
    ensures entries[i].0 != entries[|entries| - 1].0
  {
  }

  /** An object with repeated names: under a name stands the value of its last entry, and the names
      are in the order of their first entries. */
  lemma {:induction false} ObjectCollects(entries: seq<(string, Raw)>, depth: nat)
    requires FullEntries(entries, depth).Ok?
    ensures var fields := FullEntries(entries, depth).value;
            && KeysOf(fields) == FirstNames(entries)
            && forall i :: 0 <= i < |entries| && IsLast(entries, i) ==>
                 Full(entries[i].1, depth).Ok? && Get(fields, entries[i].0) == Some(Full(entries[i].1, depth).value)
  {
    if entries != [] {
      var n := |entries| - 1;
      var init, k, v := entries[..n], entries[n].0, Full(entries[n].1, depth).value;
      ObjectCollects(init, depth);
      var before := FullEntries(init, depth).value;
      var fields := FullEntries(entries, depth).value;
      assert fields == Put(before, k, v) && FirstNames(entries) == if k in FirstNames(init) then FirstNames(init) else FirstNames(init) + [k];
      KeysOfPut(before, k, v);
      hide FullEntries, FirstNames, Full, Put, Get, KeysOf;
      forall i | 0 <= i < |entries| && IsLast(entries, i)
        ensures Full(entries[i].1, depth).Ok? && Get(fields, entries[i].0) == Some(Full(entries[i].1, depth).value)
      {
        GetPut(before, k, v, entries[i].0);
        if i < n {
          LastStays(entries, i);
        }
      }
    }
  }

  /** The items of an array are parsed one by one, in their order. */
  lemma {:induction false} ArrayCollects(items: seq<Raw>, depth: nat)
    requires FullItems(items, depth).Ok?
    ensures var values := FullItems(items, depth).value;
            |values| == |items| && forall i :: 0 <= i < |items| ==> Full(items[i], depth) == Ok(values[i])
  {
    if items != [] {
      ArrayCollects(items[..|items| - 1], depth);
    }
  }

  // ---------------------------------------------------------------------------------------
  // Projections
  // ---------------------------------------------------------------------------------------

  datatype Projection =
    | All
    | Fields(fields: seq<(string, Projection)>)
    | Values(each: Projection)
    | Elements(item: Projection)
    | Discard

  /** The projection of the value under `key`; the first listed field of that name decides. */
  function ChildOf(p: Projection, key: string): Projection {
    match p
    case Fields(fields) => Get(fields, key).GetOr(Discard)
    case Values(each) => each
    case Elements(_) => All
    case _ => p
  }

  function ItemOf(p: Projection): Projection {
    match p
    case Elements(item) => item
    case Discard => Discard
    case _ => All
  }

  /** The selection a projection stands for, on a value already parsed completely. */
  function Project(v: Value, p: Projection): Value
    decreases v
  {
    if p.All? then v
    else if p.Discard? then Null
    else
      match v
      case Array(items) => Array(ProjectItems(items, ItemOf(p)))
      case Object(fields) => Object(ProjectFields(fields, p))
      case _ => v
  }

  function ProjectItems(items: seq<Value>, p: Projection): (r: seq<Value>)
    ensures |r| == |items|
    ensures forall i :: 0 <= i < |items| ==> r[i] == Project(items[i], p)
    decreases items
  {
    if items == [] then []
    else ProjectItems(items[..|items| - 1], p) + [Project(items[|items| - 1], p)]
  }

  lemma ProjectItemsAppend(items: seq<Value>, v: Value, p: Projection)
    ensures ProjectItems(items + [v], p) == ProjectItems(items, p) + [Project(v, p)]
  {
    assert (items + [v])[..|items|] == items;
  }

  function ProjectFields(fields: Json.Fields, p: Projection): Json.Fields
    decreases fields
  {
    if fields == [] then []
    else
      var rest := ProjectFields(fields[1..], p);
      var field := fields[0];
      assert field.1 < field;
      var child := ChildOf(p, field.0);
      if child.Discard? then rest
      else [(field.0, Project(field.1, child))] + rest
  }

  function ProjectResult(r: Parsed, p: Projection): Parsed {
    if r.Ok? then Ok(Project(r.value, p)) else r
  }

  /** Selecting after an insertion is inserting after the selection. This is what lets the
      projected parsers drop fields while the document, with its repeated names, streams by. */
  lemma {:induction false} ProjectPut(m: Json.Fields, p: Projection, k: string, v: Value)
    ensures ProjectFields(Put(m, k, v), p) ==
            if ChildOf(p, k).Discard? then ProjectFields(m, p)
            else Put(ProjectFields(m, p), k, Project(v, ChildOf(p, k)))
  {
    if m == [] {
      assert Put(m, k, v)[1..] == [];
    } else if m[0].0 == k {
      assert Put(m, k, v)[1..] == m[1..];
      if !ChildOf(p, k).Discard? {
        assert ProjectFields(m, p)[1..] == ProjectFields(m[1..], p);
      }
    } else {
      ProjectPut(m[1..], p, k, v);
      assert Put(m, k, v)[1..] == Put(m[1..], k, v);
      if !ChildOf(p, m[0].0).Discard? {
        assert ProjectFields(m, p)[1..] == ProjectFields(m[1..], p);
      }
    }
  }

  /** Lookup in a selection: absent when discarded, the selected child otherwise. */
  lemma {:induction false} GetProjected(m: Json.Fields, p: Projection, k: string)
    ensures Get(ProjectFields(m, p), k) ==
            if Get(m, k).None? || ChildOf(p, k).Discard? then None
            else Some(Project(Get(m, k).value, ChildOf(p, k)))
  {
    if m != [] {
      GetProjected(m[1..], p, k);
      if !ChildOf(p, m[0].0).Discard? {
        assert ProjectFields(m, p)[1..] == ProjectFields(m[1..], p);
      }
    }
  }

  /** Under `All` and under `Elements` every field is kept whole. */
  lemma {:induction false} ProjectFieldsIdentity(m: Json.Fields, p: Projection)
    requires p.All? || p.Elements?
    ensures ProjectFields(m, p) == m
  {
    if m != [] {
      ProjectFieldsIdentity(m[1..], p);
    }
  }

  // ---------------------------------------------------------------------------------------
  // Projected parse
  // ---------------------------------------------------------------------------------------

  /** Parses under a projection without building the discarded subtrees. The outcome, error
      included, is that of parsing everything and selecting afterwards. */
  method ParseProjected(raw: Raw, p: Projection, depth: nat) returns (r: Parsed)
    ensures r == ProjectResult(Full(raw, depth), p)
    decreases raw, 1
  {
    if p.All? {
      return Full(raw, depth);
    }
    match raw {
      case RNull => return Ok(Null);
      case RBool(b) => return Ok(if p.Discard? then Null else Bool(b));
      case RNum(n) => return Ok(if p.Discard? then Null else Num(n));
      case RStr(s) => return Ok(if p.Discard? then Null else Str(s));
      case RBad(error) => return Err(error);
      case RArray(items) =>
        if depth == 0 { return Err(TOO_DEEP); }
        r := VisitSeq(raw, p, depth - 1);
      case RObject(entries) =>
        if depth == 0 { return Err(TOO_DEEP); }
        r := VisitMap(raw, p, depth - 1);
    }
  }

  lemma ArrayProjected(raw: Raw, p: Projection, depth: nat, values: seq<Value>)
    requires raw.RArray? && !p.All? && FullItems(raw.items, depth).Ok?
    requires p.Discard? || values == ProjectItems(FullItems(raw.items, depth).value, ItemOf(p))
    ensures ProjectResult(Full(raw, depth + 1), p) == Ok(if p.Discard? then Null else Array(values))
  {
  }

  lemma ArrayFails(raw: Raw, p: Projection, depth: nat)
    requires raw.RArray? && FullItems(raw.items, depth).Err?
    ensures ProjectResult(Full(raw, depth + 1), p) == Err(FullItems(raw.items, depth).error)
  {
  }

  method VisitSeq(raw: Raw, p: Projection, depth: nat) returns (r: Parsed)
    requires raw.RArray? && !p.All?
    ensures r == ProjectResult(Full(raw, depth + 1), p)
    decreases raw, 0
  {
    var items, child := raw.items, ItemOf(p);
    assert FullItems(items[..0], depth) == Ok([]) && ProjectItems([], child) == [];
    hide Full, FullItems, Project, ProjectItems;
    var values: seq<Value> := [];
    var i := 0;
    while i < |items|
      invariant 0 <= i <= |items|
      invariant FullItems(items[..i], depth).Ok?
      invariant p.Discard? || values == ProjectItems(FullItems(items[..i], depth).value, child)
    {
      var value := ParseProjected(items[i], child, depth);
      ItemsStep(items, depth, i);
      if value.Err? {
        ArrayFails(raw, p, depth);
        return Err(value.error);
      }
      ProjectItemsAppend(FullItems(items[..i], depth).value, Full(items[i], depth).value, child);
      if !p.Discard? {
        values := values + [value.value];
      }
      i := i + 1;
    }
    assert items[..i] == items;
    ArrayProjected(raw, p, depth, values);
    return Ok(if p.Discard? then Null else Array(values));
  }

  method VisitMap(raw: Raw, p: Projection, depth: nat) returns (r: Parsed)
    requires raw.RObject? && !p.All?
    ensures r == ProjectResult(Full(raw, depth + 1), p)
    decreases raw, 0
  {
    var entries := raw.entries;
    var values: Json.Fields := [];
    var i := 0;
    while i < |entries|
      invariant 0 <= i <= |entries|
      invariant FullEntries(entries[..i], depth).Ok?
      invariant values == ProjectFields(FullEntries(entries[..i], depth).value, p)
    {
      var key, child := entries[i].0, ChildOf(p, entries[i].0);
      var value := ParseProjected(entries[i].1, child, depth);
      EntriesStep(entries, depth, i);
      if value.Err? {
        return Err(value.error);
      }
      ProjectPut(FullEntries(entries[..i], depth).value, p, key, Full(entries[i].1, depth).value);
      if !child.Discard? {
        values := Put(values, key, value.value);
      }
      i := i + 1;
    }
    assert entries[..i] == entries;
    return Ok(if p.Discard? then Null else Object(values));
  }

  method ParseProjectedDocument(doc: Document, p: Projection, depth: nat) returns (r: Parsed)
    ensures r == ProjectResult(FullDocument(doc, depth), p)
  {
    r := ParseProjected(doc.root, p, depth);
    if r.Ok? && doc.trailing.Some? {
      r := Err(doc.trailing.value);
    }
  }
}
