/** The name tables: written by upserts when the database is compiled, folded in memory without one. */
module Entities {
  import opened Prelude
  import opened OrderedPairs
  import opened Json
  import opened Tables

  /** The name a record carries; only a string is one. */
  function NameOf(record: Value): Option<string> {
    var name := Field(record, "name");
    if name.Some? && name.value.Str? then Some(name.value.s) else None
  }

  /** The rows one document contributes: a name per record with an accepted id, at the record's place. */
  function NameEntries(records: Fields, prefix: string): seq<Entry<string>> {
    if records == [] then []
    else
      var n := |records| - 1;
      var (id, record) := records[n];
      var before := NameEntries(records[..n], prefix);
      if prefix <= id && NameOf(record).Some? then before + [Entry(NameOf(record).value, id, n)] else before
  }

  lemma {:induction false} NameEntriesInOrder(records: Fields, prefix: string)
    ensures InOrder(NameEntries(records, prefix))
    ensures forall i :: 0 <= i < |NameEntries(records, prefix)| ==> NameEntries(records, prefix)[i].ordinal < |records|
  {
    if records != [] {
      NameEntriesInOrder(records[..|records| - 1], prefix);
    }
  }

  lemma NamesStep(records: Fields, i: nat, prefix: string)
    requires i < |records|
    ensures var before, name := Upserts(NameEntries(records[..i], prefix)), NameOf(records[i].1);
            Upserts(NameEntries(records[..i + 1], prefix))
            == if prefix <= records[i].0 && name.Some? then Upsert(before, Entry(name.value, records[i].0, i)) else before
  {
    assert records[..i + 1][..i] == records[..i];
    var es, name := NameEntries(records[..i], prefix), NameOf(records[i].1);
    if prefix <= records[i].0 && name.Some? {
      assert (es + [Entry(name.value, records[i].0, i)])[..|es|] == es;
    }
  }

  // ---------------------------------------------------------------------------------------
  // The compiled table
  // ---------------------------------------------------------------------------------------

  type NameRows = map<(string, string), Row<string>>

  ghost function RowsOf(rows: NameRows, dataset: string): Table<string> {
    map p | p in rows && p.0 == dataset :: p.1 := rows[p]
  }

  lemma RowsOfUpdate(rows: NameRows, p: (string, string), row: Row<string>, dataset: string)
    ensures RowsOf(rows[p := row], dataset)
            == if dataset == p.0 then RowsOf(rows, dataset)[p.1 := row] else RowsOf(rows, dataset)
    ensures p in rows <==> p.1 in RowsOf(rows, p.0)
    ensures p in rows ==> RowsOf(rows, p.0)[p.1] == rows[p]
  {
    var before, after := RowsOf(rows, dataset), RowsOf(rows[p := row], dataset);
    forall k ensures k in after <==> k in before || (dataset == p.0 && k == p.1) {
      assert k in after <==> (dataset, k) in rows[p := row];
      assert k in before <==> (dataset, k) in rows;
    }
  }

  /** `names`, with its primary key of dataset and name. */
  class NameTable {
    var rows: NameRows

    /** The rows of one dataset. */
    ghost function Of(dataset: string): Table<string>
      reads this
    {
      RowsOf(rows, dataset)
    }

    constructor ()
      ensures rows == map[]
    {
      rows := map[];
    }

    method Name(dataset: string, key: string, ordinal: nat, record: Value)
      modifies this
      ensures Of(dataset) == if NameOf(record).Some?
                             then Upsert(old(Of(dataset)), Entry(NameOf(record).value, key, ordinal))
                             else old(Of(dataset))
      ensures forall d :: d != dataset ==> Of(d) == old(Of(d))
    {
      var name := NameOf(record);
      if name.Some? {
        var p := (dataset, name.value);
        var row := if p in rows then Row(key, rows[p].ordinal) else Row(key, ordinal);
        forall d ensures RowsOf(rows[p := row], d) == if d == dataset then RowsOf(rows, d)[p.1 := row] else RowsOf(rows, d) {
          RowsOfUpdate(rows, p, row, d);
        }
        RowsOfUpdate(rows, p, row, dataset);
        rows := rows[p := row];
      }
    }

    /** The part of `capture` that fills the table from one document's records. */
    method CaptureNames(dataset: string, records: Fields, prefix: string)
      requires Of(dataset) == map[]
      modifies this
      ensures Of(dataset) == Upserts(NameEntries(records, prefix))
      ensures forall d :: d != dataset ==> Of(d) == old(Of(d))
    {
      assert Upserts(NameEntries(records[..0], prefix)) == map[];
      hide Upserts, Upsert, NameEntries, NameOf, Of, RowsOf;
      for i := 0 to |records|
        invariant Of(dataset) == Upserts(NameEntries(records[..i], prefix))
        invariant forall d :: d != dataset ==> Of(d) == old(Of(d))
      {
        NamesStep(records, i, prefix);
        if prefix <= records[i].0 {
          Name(dataset, records[i].0, i, records[i].1);
        }
      }
      assert records[..|records|] == records;
    }

    /** `name_id` */
    method NameId(dataset: string, name: string) returns (key: Option<string>)
      ensures key == if name in Of(dataset) then Some(Of(dataset)[name].value) else None
    {
      key := if (dataset, name) in rows then Some(rows[(dataset, name)].value) else None;
    }
  }

  // ---------------------------------------------------------------------------------------
  // The in-memory fold
  // ---------------------------------------------------------------------------------------

  /** A repeated name is overwritten where it stands, a new one is pushed. */
  method Fold(index: map<string, nat>, folded: Pairs<string>, name: string, id: string)
    returns (index': map<string, nat>, folded': Pairs<string>)
    requires Indexes(index, folded)
    ensures Indexes(index', folded') && folded' == Put(folded, name, id)
  {
    index', folded' := index, folded;
    if name in index {
      PutAt(folded, name, id, index[name]);
      folded' := folded[index[name] := (folded[index[name]].0, id)];
    } else {
      assert !HasKey(folded, name);
      PutAppend(folded, name, id);
      index' := index[name := |folded|];
      folded' := folded + [(name, id)];
    }
  }

  lemma FoldStep<V>(es: seq<Entry<V>>, e: Entry<V>)
    ensures FromPairs(AsPairs(es + [e])) == Put(FromPairs(AsPairs(es)), e.key, e.value)
  {
    assert (es + [e])[..|es|] == es;
    assert AsPairs(es + [e])[..|es|] == AsPairs(es);
  }

  /** `name_to_char_id` without a database: a vector and its position index. */
  method NameToId(records: Fields, prefix: string) returns (folded: Pairs<string>)
    ensures folded == FromPairs(AsPairs(NameEntries(records, prefix)))
  {
    hide FromPairs, AsPairs, Put, NameOf, Indexes;
    NoneFolded();
    folded := [];
    var index: map<string, nat> := map[];
    for i := 0 to |records|
      invariant folded == FromPairs(AsPairs(NameEntries(records[..i], prefix)))
      invariant Indexes(index, folded)
    {
      assert records[..i + 1][..i] == records[..i];
      var (id, record) := records[i];
      var name := NameOf(record);
      if !(prefix <= id) || name.None? { continue; }
      FoldStep(NameEntries(records[..i], prefix), Entry(name.value, id, i));
      index, folded := Fold(index, folded, name.value, id);
    }
    assert records[..|records|] == records;
  }

  /** The record has an accepted id and carries the name. */
  predicate CarriesName(record: (string, Value), prefix: string, name: string) {
    prefix <= record.0 && Field(record.1, "name") == Some(Str(name))
  }

  lemma LastNameStep(records: Fields, prefix: string, name: string)
    requires records != []
    ensures var n := |records| - 1;
            Get(FromPairs(AsPairs(NameEntries(records, prefix))), name) ==
            if CarriesName(records[n], prefix, name) then Some(records[n].0)
            else Get(FromPairs(AsPairs(NameEntries(records[..n], prefix))), name)
  {
    var n := |records| - 1;
    var before := NameEntries(records[..n], prefix);
    var (id, record) := records[n];
    if prefix <= id && NameOf(record).Some? {
      var carried := NameOf(record).value;
      hide Get, AsPairs, FromPairs, Put;
      FoldStep(before, Entry(carried, id, n));
      GetPut(FromPairs(AsPairs(before)), carried, id, name);
    }
  }

  ghost predicate LastCarries(records: Fields, prefix: string, name: string, i: nat) {
    && i < |records| && CarriesName(records[i], prefix, name)
    && forall j :: i < j < |records| ==> !CarriesName(records[j], prefix, name)
  }

  ghost predicate NoneCarries(records: Fields, prefix: string, name: string) {
    forall i :: 0 <= i < |records| ==> !CarriesName(records[i], prefix, name)
  }

  lemma CarriersStep(records: Fields, prefix: string, name: string, i: nat)
    requires records != []
    ensures var n := |records| - 1;
            && (LastCarries(records, prefix, name, i) <==>
                  if CarriesName(records[n], prefix, name) then i == n else LastCarries(records[..n], prefix, name, i))
            && (NoneCarries(records, prefix, name) <==>
                  !CarriesName(records[n], prefix, name) && NoneCarries(records[..n], prefix, name))
  {
    hide CarriesName;
    var n := |records| - 1;
    assert forall j :: 0 <= j < n ==> records[..n][j] == records[j];
  }

  /** A name is found exactly when some accepted record carries it, and the last such record decides. */
  lemma {:induction false} LastNameDecides(records: Fields, prefix: string, name: string, i: nat)
    ensures var found := Get(FromPairs(AsPairs(NameEntries(records, prefix))), name);
            && (found.None? <==> NoneCarries(records, prefix, name))
            && (LastCarries(records, prefix, name, i) ==> found == Some(records[i].0))
  {
    if records != [] {
      LastNameDecides(records[..|records| - 1], prefix, name, i);
      LastNameStep(records, prefix, name);
      hide CarriesName, NameEntries, Get, FromPairs, AsPairs, LastCarries, NoneCarries;
      CarriersStep(records, prefix, name, i);
      CarriersInRange(records[..|records| - 1], prefix, name, i);
    } else {
      NoneFolded();
    }
  }

  lemma CarriersInRange(records: Fields, prefix: string, name: string, i: nat)
    ensures LastCarries(records, prefix, name, i) ==> i < |records|
  {
  }

  /** `name_to_char_id` with a database: capturing a document's names and looking one up finds what the
      in-memory fold finds. */
  method CompiledNameId(dataset: string, records: Fields, prefix: string, name: string) returns (key: Option<string>)
    ensures key == Get(FromPairs(AsPairs(NameEntries(records, prefix))), name)
  {
    NamesAreTheFold(records, prefix, [], name);
    hide Upserts, NameEntries, FromPairs, AsPairs, Get, IsListing;
    var table := new NameTable();
    table.CaptureNames(dataset, records, prefix);
    key := table.NameId(dataset, name);
  }

  lemma NoneFolded()
    ensures FromPairs(AsPairs<string>([])) == [] && Indexes<string>(map[], [])
  {
  }

  // ---------------------------------------------------------------------------------------
  // Results
  // ---------------------------------------------------------------------------------------

  /** Read in ordinal order, the compiled table is the in-memory fold, repeated names included; and
      looking one name up in the table is finding it in the fold. */
  lemma NamesAreTheFold(records: Fields, prefix: string, out: Pairs<string>, name: string)
    ensures var es := NameEntries(records, prefix);
            && (IsListing(Upserts(es), out) <==> out == FromPairs(AsPairs(es)))
            && (Get(FromPairs(AsPairs(es)), name)
                == if name in Upserts(es) then Some(Upserts(es)[name].value) else None)
  {
    NameEntriesInOrder(records, prefix);
    ListingIsFold(NameEntries(records, prefix), out);
    LookupIsGet(NameEntries(records, prefix), name);
  }

  /** The entities of one bucket, one row per field of the source object. */
  function BucketEntries(fields: Fields): (es: seq<Entry<Value>>)
    ensures |es| == |fields|
    ensures forall i :: 0 <= i < |fields| ==> es[i] == Entry(fields[i].0, fields[i].1, i)
  {
    if fields == [] then []
    else BucketEntries(fields[..|fields| - 1])
         + [Entry(fields[|fields| - 1].0, fields[|fields| - 1].1, |fields| - 1)]
  }

  /** `entity_map`: collecting a bucket's rows in ordinal order gives back the source object, fields
      in their order. */
  lemma BucketIsTheObject(fields: Fields, out: Pairs<Value>)
    requires Distinct(fields)
    ensures IsListing(Upserts(BucketEntries(fields)), out) <==> out == fields
    ensures out == fields ==> FromPairs(out) == fields
  {
    ListingIsFold(BucketEntries(fields), out);
    assert AsPairs(BucketEntries(fields)) == fields;
    FromPairsIdentity(fields);
  }
}
