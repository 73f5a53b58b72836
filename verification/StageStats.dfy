/** Stage combat statistics: the cached, projected, field-by-field pipeline against the plain one. */
module StageStats {
  import opened Prelude
  import opened OrderedPairs
  import opened Json
  import opened Parsing
  import opened FrozenJson
  import opened Merging
  import opened EnemyDatabase

  /** Renders the six shown values; its text form plays no part in the argument. */
  type Formatter = seq<Option<Value>> -> string

  datatype LoadError = Syntax(message: string) | Database(error: DatabaseError)

  const NO_RECORD := "无数据库记录"

  // ---------------------------------------------------------------------------------------
  // The plain pipeline
  // ---------------------------------------------------------------------------------------

  /** Unwraps `{m_defined, m_value}`; any other value stands for itself. */
  function MValue(v: Value): Value {
    Field(v, "m_value").GetOr(v)
  }

  function Attribute(data: Value, key: string): Option<Value> {
    var attrs := Field(data, "attributes");
    if attrs.None? then None
    else
      var a := Field(attrs.value, key);
      if a.None? then None else Some(MValue(a.value))
  }

  function ShownValues(data: Value): seq<Option<Value>> {
    seq(|SHOWN|, i requires 0 <= i < |SHOWN| => Attribute(data, SHOWN[i]))
  }

  /** Renders the full extraction from all attribute values and the skills. */
  type Extractor = (seq<Option<Value>>, Option<Value>) -> Value

  function Extract(data: Value, extract: Extractor): Value {
    extract(seq(|EXTRACTED|, i requires 0 <= i < |EXTRACTED| => Attribute(data, EXTRACTED[i])), Field(data, "skills"))
  }

  function FormatStats(data: Option<Value>, format: Formatter): string {
    if data.None? then NO_RECORD else format(ShownValues(data.value))
  }

  function MergeSelected(base: Option<Value>, overwritten: Option<Value>): Option<Value> {
    if base.None? then
      if overwritten.Some? && overwritten.value.Object? then overwritten else None
    else
      var merged := MergeDefined(base.value, overwritten.GetOr(Null));
      if merged.Object? then Some(merged) else base
  }

  function StageSpecific(levels: Option<Index>, id: string, level: int, overwritten: Option<Value>): Option<Value> {
    var entry := if levels.Some? then SelectEntry(levels.value, id, level) else None;
    MergeSelected(if entry.Some? && entry.value.Object? then entry else None, overwritten)
  }

  /** Parse everything, normalize, merge eagerly, format. */
  function EagerStageStats(doc: Document, depth: nat, parse: FloatParser, id: string, level: int,
                           overwritten: Option<Value>, format: Formatter): Result<string, LoadError>
  {
    var root := FullDocument(doc, depth);
    if root.Err? then Err(Syntax(root.error))
    else
      var index := Normalize(root.value, parse);
      if index.Err? then Err(Database(index.error))
      else Ok(FormatStats(StageSpecific(Some(index.value), id, level, overwritten), format))
  }

  /** The full statistics of an enemy's default entry: parse everything, normalize, extract. */
  function EagerDefaultStats(doc: Document, depth: nat, parse: FloatParser, id: string, extract: Extractor):
    Result<Option<Value>, LoadError>
  {
    var root := FullDocument(doc, depth);
    if root.Err? then Err(Syntax(root.error))
    else
      var index := Normalize(root.value, parse);
      if index.Err? then Err(Database(index.error)) else Ok(DefaultStats(index.value, id, extract))
  }

  function DefaultStats(index: Index, id: string, extract: Extractor): Option<Value> {
    var entry := SelectDefault(index, id);
    if entry.Some? && entry.value.Object? then Some(Extract(entry.value, extract)) else None
  }

  // ---------------------------------------------------------------------------------------
  // Projection commutes with normalization
  // ---------------------------------------------------------------------------------------

  lemma RowChildren()
    ensures ChildOf(LEVEL_ROW, "level") == All && ChildOf(LEVEL_ROW, "enemyData") == ENEMY_DATA
    ensures ChildOf(DATABASE_ROW, "level") == All && ChildOf(DATABASE_ROW, "enemyData") == ENEMY_DATA
    ensures ChildOf(DATABASE_ROW, "Key") == All && ChildOf(DATABASE_ROW, "Value") == Elements(LEVEL_ROW)
  {
    var level, row := LEVEL_ROW.fields, DATABASE_ROW.fields;
    assert Get(level[1..], "enemyData") == Some(ENEMY_DATA);
    assert Get(row[1..], "enemyData") == Some(ENEMY_DATA);
    assert row[1..][1..] == row[2..] && row[2..][1..] == row[3..];
    assert Get(row[2..], "Key") == Some(All);
    assert Get(row[3..], "Value") == Some(Elements(LEVEL_ROW));
    assert Get(row[2..], "Value") == Get(row[3..], "Value");
    assert Get(row[1..], "Key") == Get(row[2..], "Key") && Get(row[1..], "Value") == Get(row[2..], "Value");
  }

  /** Field lookup through any projection that is not a discard. */
  lemma FieldProjected(v: Value, p: Projection, k: string)
    requires !p.Discard?
    ensures Field(Project(v, p), k) ==
            if Field(v, k).None? || ChildOf(p, k).Discard? then None
            else Some(Project(Field(v, k).value, ChildOf(p, k)))
    ensures Project(v, p).Object? <==> v.Object?
    ensures Project(v, p).Array? <==> v.Array?
  {
    if v.Object? {
      GetProjected(v.fields, p, k);
    }
  }

  function ProjectLevels(levels: Levels): Levels {
    map k | k in levels :: Project(levels[k], ENEMY_DATA)
  }

  function ProjectIndex(index: Index): (r: Index)
    ensures |r| == |index|
    ensures forall i :: 0 <= i < |index| ==> r[i] == (index[i].0, ProjectLevels(index[i].1))
  {
    if index == [] then []
    else ProjectIndex(index[..|index| - 1]) + [(index[|index| - 1].0, ProjectLevels(index[|index| - 1].1))]
  }

  ghost predicate SelectsLevels(p: Projection) {
    p.Fields? && ChildOf(p, "level") == All && ChildOf(p, "enemyData") == ENEMY_DATA
  }

  lemma ProjectLevelsUpdate(levels: Levels, level: int, data: Value)
    ensures ProjectLevels(levels[level := data]) == ProjectLevels(levels)[level := Project(data, ENEMY_DATA)]
  {
  }

  lemma ProjectLevelsEmpty(levels: Levels)
    ensures ProjectLevels(levels) == map[] <==> levels == map[]
  {
    if ProjectLevels(levels) == map[] {
      assert forall k :: k in levels ==> k in ProjectLevels(levels);
    }
  }

  lemma {:induction false} LevelsCommute(rows: seq<Value>, p: Projection, parse: FloatParser)
    requires SelectsLevels(p)
    ensures LevelsOf(ProjectItems(rows, p), parse) == ProjectLevels(LevelsOf(rows, parse))
  {
    hide ParseLevel, ChildOf;
    if rows != [] {
      var n := |rows| - 1;
      LevelsCommute(rows[..n], p, parse);
      assert ProjectItems(rows, p)[..n] == ProjectItems(rows[..n], p);
      FieldProjected(rows[n], p, "level");
      FieldProjected(rows[n], p, "enemyData");
      var data := Field(rows[n], "enemyData");
      if data.Some? {
        FieldProjected(data.value, ENEMY_DATA, "");
        ProjectLevelsUpdate(LevelsOf(rows[..n], parse), ParseLevel(Field(rows[n], "level"), parse), data.value);
      }
    }
  }

  lemma ProjectIndexPut(index: Index, id: string, levels: Levels)
    ensures ProjectIndex(Put(index, id, levels)) == Put(ProjectIndex(index), id, ProjectLevels(levels))
  {
    if HasKey(index, id) {
      var i := FirstAt(index, id);
      PutAt(index, id, levels, i);
      PutAt(ProjectIndex(index), id, ProjectLevels(levels), i);
    } else {
      PutAppend(index, id, levels);
      assert !HasKey(ProjectIndex(index), id);
      PutAppend(ProjectIndex(index), id, ProjectLevels(levels));
    }
  }

  lemma AddRowCommutes(index: Index, id: string, values: Option<Value>, p: Projection, parse: FloatParser)
    requires SelectsLevels(p)
    ensures AddRow(ProjectIndex(index), id,
                   if values.Some? then Some(Project(values.value, Elements(p))) else None, parse)
            == ProjectIndex(AddRow(index, id, values, parse))
  {
    if values.Some? && values.value.Array? {
      var rows := values.value.items;
      LevelsCommute(rows, p, parse);
      ProjectLevelsEmpty(LevelsOf(rows, parse));
      ProjectIndexPut(index, id, LevelsOf(rows, parse));
    }
  }

  lemma {:induction false} LegacyCommutes(rows: seq<Value>, parse: FloatParser)
    ensures LegacyRows(ProjectItems(rows, DATABASE_ROW), parse) == ProjectIndex(LegacyRows(rows, parse))
  {
    if rows != [] {
      var n := |rows| - 1;
      LegacyCommutes(rows[..n], parse);
      assert ProjectItems(rows, DATABASE_ROW)[..n] == ProjectItems(rows[..n], DATABASE_ROW);
      RowChildren();
      FieldProjected(rows[n], DATABASE_ROW, "Key");
      FieldProjected(rows[n], DATABASE_ROW, "Value");
      var key := Field(rows[n], "Key");
      if key.Some? && key.value.Str? {
        AddRowCommutes(LegacyRows(rows[..n], parse), key.value.s, Field(rows[n], "Value"), LEVEL_ROW, parse);
      }
    }
  }

  lemma {:induction false} ProjectFieldsSplit(fields: Json.Fields, p: Projection, n: nat)
    requires n <= |fields|
    ensures ProjectFields(fields, p) == ProjectFields(fields[..n], p) + ProjectFields(fields[n..], p)
  {
    if n > 0 {
      assert fields[1..][..n - 1] == fields[..n][1..] && fields[1..][n - 1..] == fields[n..];
      ProjectFieldsSplit(fields[1..], p, n - 1);
    } else {
      assert fields[..0] == [] && fields[0..] == fields;
    }
  }

  lemma {:induction false} DirectCommutes(fields: Json.Fields, parse: FloatParser)
    ensures DirectRows(ProjectFields(fields, DATABASE_PROJECTION), parse) == ProjectIndex(DirectRows(fields, parse))
  {
    if fields != [] {
      var n := |fields| - 1;
      var init, last := fields[..n], fields[n];
      DirectCommutes(init, parse);
      RowChildren();
      ProjectFieldsSplit(fields, DATABASE_PROJECTION, n);
      assert fields[n..] == [last];
      var projected := ProjectFields(fields, DATABASE_PROJECTION);
      assert ProjectFields([last], DATABASE_PROJECTION) == [(last.0, Project(last.1, Elements(DATABASE_ROW)))];
      assert projected[..|projected| - 1] == ProjectFields(init, DATABASE_PROJECTION);
      AddRowCommutes(DirectRows(init, parse), last.0, Some(last.1), DATABASE_ROW, parse);
    }
  }

  /** Normalizing the projected document gives the projected rows of the full index, and fails
      exactly when normalizing the full document fails. */
  lemma NormalizeCommutes(root: Value, parse: FloatParser)
    ensures Normalize(Project(root, DATABASE_PROJECTION), parse) ==
            match Normalize(root, parse)
            case Ok(index) => Ok(ProjectIndex(index))
            case Err(error) => Err(error)
  {
    FieldProjected(root, DATABASE_PROJECTION, "enemies");
    var enemies := Field(root, "enemies");
    if root.Object? {
      if enemies.Some? {
        FieldProjected(enemies.value, Elements(DATABASE_ROW), "");
      }
      if enemies.Some? && enemies.value.Array? {
        LegacyCommutes(enemies.value.items, parse);
      } else {
        DirectCommutes(root.fields, parse);
      }
    }
  }

  // ---------------------------------------------------------------------------------------
  // All extracted values survive the projection and every override
  // ---------------------------------------------------------------------------------------

  /** Two values agree on the extracted attributes. */
  ghost predicate SameExtracted(a: Value, b: Value) {
    forall k :: k in EXTRACTED ==> Field(a, k) == Field(b, k)
  }

  ghost predicate SameAttributes(a: Value, b: Value) {
    && (Field(a, "attributes").Some? <==> Field(b, "attributes").Some?)
    && (Field(a, "attributes").Some? ==> SameExtracted(Field(a, "attributes").value, Field(b, "attributes").value))
  }

  ghost predicate SameData(a: Value, b: Value) {
    SameAttributes(a, b) && Field(a, "skills") == Field(b, "skills") && (a.Object? <==> b.Object?)
  }

  lemma ExtractedAreKept(k: string)
    requires k in EXTRACTED
    ensures ChildOf(COMBAT_ATTRIBUTES, k) == All
  {
    var keys := EXTRACTED;
    var i :| 0 <= i < |keys| && keys[i] == k;
    GetAmongFirst(KeepAll(keys), i);
  }

  lemma {:induction false} GetAmongFirst(fields: seq<(string, Projection)>, i: nat)
    requires i < |fields| && forall j :: 0 <= j <= i ==> fields[j].1 == All
    ensures Get(fields, fields[i].0) == Some(All)
  {
    if i > 0 && fields[0].0 != fields[i].0 {
      GetAmongFirst(fields[1..], i - 1);
    }
  }

  lemma ProjectionKeepsData(data: Value)
    ensures SameData(Project(data, ENEMY_DATA), data)
  {
    FieldProjected(data, ENEMY_DATA, "attributes");
    FieldProjected(data, ENEMY_DATA, "skills");
    assert ChildOf(ENEMY_DATA, "attributes") == COMBAT_ATTRIBUTES;
    assert ChildOf(ENEMY_DATA, "skills") == All by {
      assert Get(ENEMY_DATA.fields[1..], "skills") == Some(All);
    }
    if Field(data, "attributes").Some? {
      var attrs := Field(data, "attributes").value;
      forall k | k in EXTRACTED ensures Field(Project(attrs, COMBAT_ATTRIBUTES), k) == Field(attrs, k) {
        FieldProjected(attrs, COMBAT_ATTRIBUTES, k);
        ExtractedAreKept(k);
      }
    }
  }

  lemma MergeKeepsExtracted(a: Value, b: Value, override: Value)
    requires SameExtracted(a, b) && DistinctDeep(override)
    ensures SameExtracted(MergeDefined(a, override), MergeDefined(b, override))
  {
    if override.Object? && !IsWrapper(override) {
      forall k | k in EXTRACTED
        ensures Field(MergeDefined(a, override), k) == Field(MergeDefined(b, override), k)
      {
        FieldOfMerge(a, override, k);
        FieldOfMerge(b, override, k);
      }
    }
  }

  lemma MergeKeepsData(a: Value, b: Value, override: Value)
    requires SameData(a, b) && DistinctDeep(override)
    ensures SameData(MergeDefined(a, override), MergeDefined(b, override))
  {
    if override.Object? && !IsWrapper(override) {
      FieldOfMerge(a, override, "skills");
      FieldOfMerge(b, override, "skills");
      FieldOfMerge(a, override, "attributes");
      FieldOfMerge(b, override, "attributes");
      FieldDistinctDeep(override, "attributes");
      var v := Field(override, "attributes");
      if v.Some? && !IsSkipped(v.value) {
        MergeKeepsExtracted(Field(a, "attributes").GetOr(Null), Field(b, "attributes").GetOr(Null), v.value);
      }
    }
  }

  lemma SameDataSameValues(a: Value, b: Value, extract: Extractor)
    requires SameData(a, b)
    ensures ShownValues(a) == ShownValues(b) && Extract(a, extract) == Extract(b, extract)
  {
    forall i | 0 <= i < |EXTRACTED| ensures Attribute(a, EXTRACTED[i]) == Attribute(b, EXTRACTED[i]) {
      assert EXTRACTED[i] in EXTRACTED;
    }
    assert seq(|EXTRACTED|, i requires 0 <= i < |EXTRACTED| => Attribute(a, EXTRACTED[i]))
        == seq(|EXTRACTED|, i requires 0 <= i < |EXTRACTED| => Attribute(b, EXTRACTED[i]));
    forall i | 0 <= i < |SHOWN| ensures ShownValues(a)[i] == ShownValues(b)[i] {
      assert SHOWN[i] == EXTRACTED[i];
    }
  }

  lemma {:induction false} SelectProjected(index: Index, id: string, level: int)
    ensures SelectEntry(ProjectIndex(index), id, level) ==
            match SelectEntry(index, id, level)
            case Some(data) => Some(Project(data, ENEMY_DATA))
            case None => None
  {
    if index != [] {
      assert ProjectIndex(index)[1..] == ProjectIndex(index[1..]);
      SelectProjected(index[1..], id, level);
    }
  }

  /** Selecting and merging from a projected index gives the data of the full one, as far as anything
      is read of them. */
  lemma ProjectedIndexIsTheSame(index: Index, id: string, level: int, overwritten: Option<Value>)
    requires overwritten.Some? ==> DistinctDeep(overwritten.value)
    ensures var a := StageSpecific(Some(ProjectIndex(index)), id, level, overwritten);
            var b := StageSpecific(Some(index), id, level, overwritten);
            (a.Some? <==> b.Some?) && (a.Some? ==> SameData(a.value, b.value))
  {
    SelectProjected(index, id, level);
    var entry := SelectEntry(index, id, level);
    if entry.Some? {
      ProjectionKeepsData(entry.value);
      if entry.value.Object? {
        MergeKeepsData(Project(entry.value, ENEMY_DATA), entry.value, overwritten.GetOr(Null));
      }
    }
  }

  /** The statistics printed, and those extracted in full, from a projected index are those of the full one. */
  lemma ProjectedIndexPrintsTheSame(index: Index, id: string, level: int, overwritten: Option<Value>, format: Formatter,
                                    extract: Extractor)
    requires overwritten.Some? ==> DistinctDeep(overwritten.value)
    ensures var a := StageSpecific(Some(ProjectIndex(index)), id, level, overwritten);
            var b := StageSpecific(Some(index), id, level, overwritten);
            && FormatStats(a, format) == FormatStats(b, format)
            && (a.Some? <==> b.Some?) && (a.Some? ==> Extract(a.value, extract) == Extract(b.value, extract))
  {
    ProjectedIndexIsTheSame(index, id, level, overwritten);
    var a := StageSpecific(Some(ProjectIndex(index)), id, level, overwritten);
    var b := StageSpecific(Some(index), id, level, overwritten);
    hide StageSpecific;
    if a.Some? {
      SameDataSameValues(a.value, b.value, extract);
    }
  }

  lemma {:induction false} DefaultProjected(index: Index, id: string)
    ensures SelectDefault(ProjectIndex(index), id) ==
            match SelectDefault(index, id)
            case Some(data) => Some(Project(data, ENEMY_DATA))
            case None => None
  {
    if index != [] {
      if index[0].0 == id {
        ProjectLevelsEmpty(index[0].1);
        assert ProjectLevels(index[0].1).Keys == index[0].1.Keys;
      } else {
        assert ProjectIndex(index)[1..] == ProjectIndex(index[1..]);
        DefaultProjected(index[1..], id);
      }
    }
  }

  /** What the projection dropped is nothing that the default entry's full extraction reads. */
  lemma ProjectedDefaultIsTheSame(index: Index, id: string, extract: Extractor)
    ensures DefaultStats(ProjectIndex(index), id, extract) == DefaultStats(index, id, extract)
  {
    DefaultProjected(index, id);
    var entry := SelectDefault(index, id);
    if entry.Some? {
      ProjectionKeepsData(entry.value);
      SameDataSameValues(Project(entry.value, ENEMY_DATA), entry.value, extract);
    }
  }

  // ---------------------------------------------------------------------------------------
  // The cached pipeline
  // ---------------------------------------------------------------------------------------

  /** The attribute values a deferred merge yields, read without building the merged row. */
  function LazyAttribute(data: Merged, key: string): Option<Value> {
    var attrs := data.GetMerged("attributes");
    if attrs.None? then None
    else
      var a := attrs.value.GetMerged(key);
      if a.None? then None else Some(a.value.GetMerged("m_value").GetOr(a.value).Materialize())
  }

  lemma LazyAttributeAgrees(data: Merged, key: string)
    requires data.Valid()
    ensures LazyAttribute(data, key) == Attribute(data.Materialize(), key)
  {
    GetMergedAgrees(data, "attributes");
    var attrs := data.GetMerged("attributes");
    if attrs.Some? {
      GetMergedAgrees(attrs.value, key);
      var a := attrs.value.GetMerged(key);
      if a.Some? {
        GetMergedAgrees(a.value, "m_value");
      }
    }
  }

  method FormatCachedStageStats(levels: FrozenDatabase?, id: string, level: int,
                                overwritten: Option<Value>, format: Formatter) returns (text: string)
    requires levels != null ==> levels.Valid()
    requires overwritten.Some? ==> DistinctDeep(overwritten.value)
    ensures text == FormatStats(StageSpecific(if levels != null then Some(levels.Model()) else None,
                                              id, level, overwritten), format)
  {
    var base: Option<Frozen> := None;
    if levels != null {
      base := levels.StageEntry(id, level);
    }
    var data: Merged;
    if base.Some? {
      var merged := Merged.Merge(OfFrozen(base.value), overwritten.GetOr(Null));
      MergeAgrees(OfFrozen(base.value), overwritten.GetOr(Null));
      GetMergedAgrees(merged, "");
      data := if merged.IsObject() then merged else Plain(OfFrozen(base.value));
    } else if overwritten.Some? && overwritten.value.Object? {
      data := Plain(OfValue(overwritten.value));
    } else {
      return NO_RECORD;
    }
    var values := seq(|SHOWN|, i requires 0 <= i < |SHOWN| => LazyAttribute(data, SHOWN[i]));
    forall i | 0 <= i < |SHOWN| ensures values[i] == ShownValues(data.Materialize())[i] {
      LazyAttributeAgrees(data, SHOWN[i]);
    }
    assert values == ShownValues(data.Materialize());
    return format(values);
  }

  /** End to end. For every document, enemy, level and override, the production pipeline fails
      exactly when the plain one fails, with the same error, and otherwise prints the same text. */
  method CachedStageStats(doc: Document, depth: nat, parse: FloatParser, id: string, level: int,
                          overwritten: Option<Value>, format: Formatter) returns (r: Result<string, LoadError>)
    requires overwritten.Some? ==> DistinctDeep(overwritten.value)
    ensures r == EagerStageStats(doc, depth, parse, id, level, overwritten, format)
  {
    var tree := ParseFrozenDocument(doc, DATABASE_PROJECTION, depth);
    if tree.Err? {
      return Err(Syntax(tree.error));
    }
    NormalizeCommutes(FullDocument(doc, depth).value, parse);
    var db := FromJson(tree.value, parse);
    if db.Err? {
      return Err(Database(db.error));
    }
    var text := FormatCachedStageStats(db.value, id, level, overwritten, format);
    ProjectedIndexPrintsTheSame(Normalize(FullDocument(doc, depth).value, parse).value, id, level, overwritten, format,
                                (values, skills) => Null);
    return Ok(text);
  }

  /** `extract_stats` on a frozen entry. */
  method ExtractFrozen(data: Frozen, extract: Extractor) returns (stats: Value)
    requires DistinctKeys(data)
    ensures stats == Extract(ToValue(data), extract)
  {
    var view := Plain(OfFrozen(data));
    var values := seq(|EXTRACTED|, i requires 0 <= i < |EXTRACTED| => LazyAttribute(view, EXTRACTED[i]));
    forall i | 0 <= i < |EXTRACTED| ensures values[i] == Attribute(ToValue(data), EXTRACTED[i]) {
      LazyAttributeAgrees(view, EXTRACTED[i]);
    }
    assert values == seq(|EXTRACTED|, i requires 0 <= i < |EXTRACTED| => Attribute(ToValue(data), EXTRACTED[i]));
    GetFrozenAgrees(data, "skills");
    var skills := GetFrozen(data, "skills");
    return extract(values, if skills.Some? then Some(ToValue(skills.value)) else None);
  }

  /** End to end for the enemy page: the full extraction of the default entry, all attributes and the
      skills, or the failure, is that of the plain pipeline. */
  method CachedDefaultStats(doc: Document, depth: nat, parse: FloatParser, id: string, extract: Extractor)
    returns (r: Result<Option<Value>, LoadError>)
    ensures r == EagerDefaultStats(doc, depth, parse, id, extract)
  {
    var tree := ParseFrozenDocument(doc, DATABASE_PROJECTION, depth);
    if tree.Err? {
      return Err(Syntax(tree.error));
    }
    NormalizeCommutes(FullDocument(doc, depth).value, parse);
    var db := FromJson(tree.value, parse);
    if db.Err? {
      return Err(Database(db.error));
    }
    ProjectedDefaultIsTheSame(Normalize(FullDocument(doc, depth).value, parse).value, id, extract);
    var entry := db.value.DefaultEntry(id);
    if entry.None? {
      return Ok(None);
    }
    var stats := ExtractFrozen(entry.value, extract);
    return Ok(Some(stats));
  }
}
