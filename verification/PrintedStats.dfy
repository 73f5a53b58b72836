/** What the statistics show, said of the values a database document holds. */
module PrintedStats {
  import opened Prelude
  import opened OrderedPairs
  import opened Json
  import opened Parsing
  import opened Merging
  import opened EnemyDatabase
  import opened StageStats

  // ---------------------------------------------------------------------------------------
  // From the document to an enemy's rows
  // ---------------------------------------------------------------------------------------

  /** A row of the legacy layout that names the enemy and has data. */
  ghost predicate Names(row: Value, id: string) {
    && Field(row, "Key") == Some(Str(id)) && id != ""
    && Field(row, "Value").Some? && Field(row, "Value").value.Array? && Known(Field(row, "Value").value.items)
  }

  predicate IsLegacy(root: Value) {
    Field(root, "enemies").Some? && Field(root, "enemies").value.Array?
  }

  /** The enemy's rows: those of the last legacy row that names it, or the enemy's own field. */
  ghost predicate RowsFor(root: Value, id: string, rows: seq<Value>) {
    root.Object? && Known(rows) &&
    if IsLegacy(root) then
      var es := Field(root, "enemies").value.items;
      exists i :: 0 <= i < |es| && LastOf(es, id, i) && Field(es[i], "Value") == Some(Array(rows))
    else Field(root, id) == Some(Array(rows))
  }

  ghost predicate LastOf(es: seq<Value>, id: string, i: nat)
    requires i < |es|
  {
    Names(es[i], id) && forall j :: i < j < |es| ==> !Names(es[j], id)
  }

  lemma NamesIsEnemyRow(row: Value, id: string, parse: FloatParser)
    ensures Names(row, id) <==> EnemyRow(row, id, parse)
  {
    if Field(row, "Value").Some? && Field(row, "Value").value.Array? {
      KnownHasLevels(Field(row, "Value").value.items, parse);
    }
  }

  /** The index holds exactly the levels of an enemy's rows. */
  lemma RowsAreIndexed(root: Value, id: string, rows: seq<Value>, parse: FloatParser)
    requires DistinctDeep(root) && RowsFor(root, id, rows)
    ensures Normalize(root, parse).Ok? && Get(Normalize(root, parse).value, id) == Some(LevelsOf(rows, parse))
  {
    KnownHasLevels(rows, parse);
    if IsLegacy(root) {
      var es := Field(root, "enemies").value.items;
      var i :| 0 <= i < |es| && LastOf(es, id, i) && Field(es[i], "Value") == Some(Array(rows));
      forall j | 0 <= j < |es| ensures Names(es[j], id) <==> EnemyRow(es[j], id, parse) {
        NamesIsEnemyRow(es[j], id, parse);
      }
      LegacyRowsLast(es, parse, id);
    } else {
      DirectRowsExactly(root.fields, parse, id);
    }
  }

  /** An enemy without rows is not in the index. */
  lemma OthersAreNot(root: Value, id: string, parse: FloatParser)
    requires DistinctDeep(root) && forall rows :: !RowsFor(root, id, rows)
    ensures Normalize(root, parse).Ok? ==> Get(Normalize(root, parse).value, id).None?
  {
    if Normalize(root, parse).Ok? {
      if IsLegacy(root) {
        var es := Field(root, "enemies").value.items;
        LegacyRowsLast(es, parse, id);
        if i :| 0 <= i < |es| && EnemyRow(es[i], id, parse) {
          var last := LastNamed(es, id, parse, i);
          assert RowsFor(root, id, Field(es[last], "Value").value.items);
        }
      } else {
        DirectRowsExactly(root.fields, parse, id);
        var rows := Field(root, id);
        if rows.Some? && rows.value.Array? {
          KnownHasLevels(rows.value.items, parse);
          assert !RowsFor(root, id, rows.value.items);
        }
      }
    }
  }

  lemma LastNamed(es: seq<Value>, id: string, parse: FloatParser, i: nat) returns (last: nat)
    requires i < |es| && EnemyRow(es[i], id, parse)
    ensures last < |es| && LastOf(es, id, last)
    decreases |es| - i
  {
    NamesIsEnemyRow(es[i], id, parse);
    if j :| i < j < |es| && Names(es[j], id) {
      NamesIsEnemyRow(es[j], id, parse);
      last := LastNamed(es, id, parse, j);
    } else {
      last := i;
    }
  }

  /** Exactly when a database is refused, and as what. */
  lemma RefusedExactly(root: Value, parse: FloatParser)
    requires DistinctDeep(root)
    ensures Normalize(root, parse) == Err(RootNotObject) <==> !root.Object?
    ensures Normalize(root, parse) == Err(NoLevels) <==>
              root.Object? && !IsLegacy(root) && forall id, rows :: !RowsFor(root, id, rows)
  {
    if root.Object? && !IsLegacy(root) {
      var index := DirectRows(root.fields, parse);
      if index != [] {
        var id := index[0].0;
        DirectRowsExactly(root.fields, parse, id);
        assert Get(index, id).Some?;
        KnownHasLevels(Field(root, id).value.items, parse);
        assert RowsFor(root, id, Field(root, id).value.items);
      } else {
        forall id, rows ensures !RowsFor(root, id, rows) {
          if RowsFor(root, id, rows) {
            RowsAreIndexed(root, id, rows, parse);
          }
        }
      }
    }
  }

  // ---------------------------------------------------------------------------------------
  // From the rows to the entry
  // ---------------------------------------------------------------------------------------

  /** The row's data are those of the level: no later row with data carries it. */
  ghost predicate Carries(rows: seq<Value>, level: int, parse: FloatParser, j: nat) {
    j < |rows| && LevelRow(rows[j], level, parse) && forall k :: j < k < |rows| ==> !LevelRow(rows[k], level, parse)
  }

  ghost predicate NoneCarries(rows: seq<Value>, level: int, parse: FloatParser) {
    forall j :: 0 <= j < |rows| ==> !LevelRow(rows[j], level, parse)
  }

  /** The row that answers for a level: the level's own, or that of level zero. */
  ghost predicate Answers(rows: seq<Value>, level: int, parse: FloatParser, j: nat) {
    Carries(rows, level, parse, j) || (NoneCarries(rows, level, parse) && Carries(rows, 0, parse, j))
  }

  /** The row that answers when no level is asked for: that of level zero, or of the least level. */
  ghost predicate AnswersDefault(rows: seq<Value>, parse: FloatParser, j: nat) {
    || Carries(rows, 0, parse, j)
    || (NoneCarries(rows, 0, parse)
        && exists level: int :: Carries(rows, level, parse, j) && forall l: int :: l < level ==> NoneCarries(rows, l, parse))
  }

  lemma EntryOfRows(index: Index, id: string, rows: seq<Value>, level: int, parse: FloatParser, j: nat)
    requires Get(index, id) == Some(LevelsOf(rows, parse)) && Answers(rows, level, parse, j)
    ensures SelectEntry(index, id, level) == Field(rows[j], "enemyData") && HasData(rows[j])
  {
    LevelsOfLast(rows, parse, level);
    LevelsOfLast(rows, parse, 0);
  }

  lemma NoEntry(index: Index, id: string, rows: seq<Value>, level: int, parse: FloatParser)
    requires Get(index, id) == Some(LevelsOf(rows, parse))
    requires NoneCarries(rows, level, parse) && NoneCarries(rows, 0, parse)
    ensures SelectEntry(index, id, level).None?
  {
    LevelsOfLast(rows, parse, level);
    LevelsOfLast(rows, parse, 0);
  }

  lemma DefaultOfRows(index: Index, id: string, rows: seq<Value>, parse: FloatParser, j: nat)
    requires Get(index, id) == Some(LevelsOf(rows, parse)) && AnswersDefault(rows, parse, j)
    ensures SelectDefault(index, id) == Field(rows[j], "enemyData") && HasData(rows[j])
  {
    LevelsOfLast(rows, parse, 0);
    if !Carries(rows, 0, parse, j) {
      var level: int :| Carries(rows, level, parse, j) && forall l: int :: l < level ==> NoneCarries(rows, l, parse);
      LevelsOfLast(rows, parse, level);
      var least := Least(LevelsOf(rows, parse).Keys);
      LevelsOfLast(rows, parse, least);
      assert LevelRow(rows[j], level, parse) && level in LevelsOf(rows, parse);
      var i :| 0 <= i < |rows| && LevelRow(rows[i], least, parse);
      assert least < level ==> NoneCarries(rows, least, parse);
    }
  }

  // ---------------------------------------------------------------------------------------
  // From the entry to what is shown
  // ---------------------------------------------------------------------------------------

  /** What is shown of an attribute's place: the value in it, without its wrapper. */
  function Unwrapped(place: Option<Value>): Option<Value> {
    if place.None? then None else Some(Field(place.value, "m_value").GetOr(place.value))
  }

  lemma AttributeAtPath(data: Value, key: string)
    ensures Attribute(data, key) == Unwrapped(AtPath(data, ["attributes", key]))
  {
    assert ["attributes", key][1..] == [key] && [key][1..] == [];
    assert Field(data, "attributes").Some? ==>
             AtPath(data, ["attributes", key]) == AtPath(Field(data, "attributes").value, [key]);
  }

  /** A value shown where an override applies to an entry. */
  ghost predicate ShownUnder(base: Value, override: Value, key: string, shown: Option<Value>) {
    exists place :: Overridden(AtPath(base, ["attributes", key]), AtPath(override, ["attributes", key]), false, place)
                    && shown == Unwrapped(place)
  }

  /** End to end, for a document that is not nested too deeply: the values formatted are those of the
      six attributes of the row that answers, as the override leaves them. */
  lemma StatsAreOfTheRow(root: Value, depth: nat, parse: FloatParser, id: string, rows: seq<Value>, level: int, j: nat,
                         overwritten: Option<Value>, format: Formatter) returns (values: seq<Option<Value>>)
    requires DistinctDeep(root) && Height(root) <= depth && (overwritten.Some? ==> DistinctDeep(overwritten.value))
    requires RowsFor(root, id, rows) && Answers(rows, level, parse, j)
    ensures HasData(rows[j])
    ensures EagerStageStats(Document(Written(root), None), depth, parse, id, level, overwritten, format) == Ok(format(values))
    ensures var base, keys := Field(rows[j], "enemyData").value,
                              ["maxHp", "atk", "def", "magicResistance", "moveSpeed", "baseAttackTime"];
            && |values| == |keys|
            && (overwritten.None? || !overwritten.value.Object? ==>
                  forall i :: 0 <= i < |keys| ==> values[i] == Unwrapped(AtPath(base, ["attributes", keys[i]])))
            && (overwritten.Some? ==> forall i :: 0 <= i < |keys| && Opens(overwritten.value, ["attributes", keys[i]]) ==>
                  ShownUnder(base, overwritten.value, keys[i], values[i]))
  {
    RoundTrip(root, depth);
    RowsAreIndexed(root, id, rows, parse);
    var index := Normalize(root, parse).value;
    EntryOfRows(index, id, rows, level, parse, j);
    var base := Field(rows[j], "enemyData").value;
    var data := StageSpecific(Some(index), id, level, overwritten).value;
    values := ShownValues(data);
    forall i | 0 <= i < |SHOWN|
      ensures values[i] == Unwrapped(AtPath(data, ["attributes", SHOWN[i]]))
      ensures overwritten.Some? && Opens(overwritten.value, ["attributes", SHOWN[i]]) ==>
                ShownUnder(base, overwritten.value, SHOWN[i], values[i])
    {
      AttributeAtPath(data, SHOWN[i]);
      if overwritten.Some? && Opens(overwritten.value, ["attributes", SHOWN[i]]) {
        MergedAt(base, overwritten.value, []);
        MergedAt(base, overwritten.value, ["attributes", SHOWN[i]]);
      }
    }
  }

  /** An attribute that the override defines is shown with the override's value, whatever the row has:
      `attributes.maxHp` first, the others in their order. */
  lemma OverrideIsShown(root: Value, depth: nat, parse: FloatParser, id: string, rows: seq<Value>, level: int, j: nat,
                        override: Value, i: nat, w: Value, v: Value, format: Formatter) returns (values: seq<Option<Value>>)
    requires DistinctDeep(root) && Height(root) <= depth && DistinctDeep(override)
    requires RowsFor(root, id, rows) && Answers(rows, level, parse, j)
    requires i < 6
    requires var path := ["attributes", ["maxHp", "atk", "def", "magicResistance", "moveSpeed", "baseAttackTime"][i]];
             Opens(override, path) && AtPath(override, path) == Some(w)
    requires Field(w, "m_defined") == Some(Bool(true)) && Field(w, "m_value") == Some(v)
    ensures EagerStageStats(Document(Written(root), None), depth, parse, id, level, Some(override), format) == Ok(format(values))
    ensures |values| == 6 && values[i] == Some(Field(v, "m_value").GetOr(v))
  {
    values := StatsAreOfTheRow(root, depth, parse, id, rows, level, j, Some(override), format);
  }

  /** Without an entry the override's own attributes are shown, and without either a fixed text. */
  lemma StatsWithoutEntry(root: Value, depth: nat, parse: FloatParser, id: string, level: int,
                          overwritten: Option<Value>, format: Formatter)
    requires DistinctDeep(root) && Height(root) <= depth && Normalize(root, parse).Ok?
    requires forall rows :: RowsFor(root, id, rows) ==> NoneCarries(rows, level, parse) && NoneCarries(rows, 0, parse)
    ensures var r := EagerStageStats(Document(Written(root), None), depth, parse, id, level, overwritten, format);
            if overwritten.Some? && overwritten.value.Object? then r == Ok(format(ShownValues(overwritten.value)))
            else r == Ok("无数据库记录")
  {
    RoundTrip(root, depth);
    if rows :| RowsFor(root, id, rows) {
      RowsAreIndexed(root, id, rows, parse);
      NoEntry(Normalize(root, parse).value, id, rows, level, parse);
    } else {
      OthersAreNot(root, id, parse);
    }
  }

  /** An override that is itself a wrapper: it replaces the whole row by the object it defines, and
      leaves the row where it defines no object, or is not marked as defined. */
  lemma WholeRowIsReplaced(root: Value, depth: nat, parse: FloatParser, id: string, rows: seq<Value>, level: int, j: nat,
                           override: Value, format: Formatter)
    requires DistinctDeep(root) && Height(root) <= depth && RowsFor(root, id, rows) && Answers(rows, level, parse, j)
    requires Field(override, "m_defined").Some? && Field(override, "m_value").Some?
    ensures HasData(rows[j])
    ensures var value := Field(override, "m_value").value;
            var row := if Field(override, "m_defined") == Some(Bool(true)) && value.Object? then value
                       else Field(rows[j], "enemyData").value;
            EagerStageStats(Document(Written(root), None), depth, parse, id, level, Some(override), format)
            == Ok(format(ShownValues(row)))
  {
    RoundTrip(root, depth);
    RowsAreIndexed(root, id, rows, parse);
    EntryOfRows(Normalize(root, parse).value, id, rows, level, parse, j);
  }

  /** A document fails when it is nested too deeply, else when it goes on behind its root, else when
      its root is refused, each as such; and otherwise it does not. */
  lemma StatsFail(root: Value, depth: nat, trailing: Option<string>, parse: FloatParser, id: string, level: int,
                  overwritten: Option<Value>, format: Formatter)
    requires DistinctDeep(root)
    ensures var r := EagerStageStats(Document(Written(root), trailing), depth, parse, id, level, overwritten, format);
            if Height(root) > depth then r == Err(Syntax("recursion limit exceeded"))
            else if trailing.Some? then r == Err(Syntax(trailing.value))
            else if !root.Object? then r == Err(Database(RootNotObject))
            else if !IsLegacy(root) && forall id, rows :: !RowsFor(root, id, rows) then r == Err(Database(NoLevels))
            else r.Ok?
  {
    RoundTrip(root, depth);
    RefusedExactly(root, parse);
  }

  /** The default statistics are extracted from the nineteen attributes and the skills of the row that
      answers without a level. */
  lemma DefaultStatsAreOfTheRow(root: Value, depth: nat, parse: FloatParser, id: string, rows: seq<Value>, j: nat,
                                extract: Extractor) returns (values: seq<Option<Value>>)
    requires DistinctDeep(root) && Height(root) <= depth && RowsFor(root, id, rows) && AnswersDefault(rows, parse, j)
    ensures HasData(rows[j])
    ensures var data := Field(rows[j], "enemyData").value;
            && EagerDefaultStats(Document(Written(root), None), depth, parse, id, extract)
               == Ok(Some(extract(values, Field(data, "skills"))))
            && |values| == |EXTRACTED|
            && forall i :: 0 <= i < |EXTRACTED| ==> values[i] == Unwrapped(AtPath(data, ["attributes", EXTRACTED[i]]))
  {
    RoundTrip(root, depth);
    RowsAreIndexed(root, id, rows, parse);
    DefaultOfRows(Normalize(root, parse).value, id, rows, parse, j);
    var data := Field(rows[j], "enemyData").value;
    values := seq(|EXTRACTED|, i requires 0 <= i < |EXTRACTED| => Attribute(data, EXTRACTED[i]));
    forall i | 0 <= i < |EXTRACTED| ensures values[i] == Unwrapped(AtPath(data, ["attributes", EXTRACTED[i]])) {
      AttributeAtPath(data, EXTRACTED[i]);
    }
  }
}
