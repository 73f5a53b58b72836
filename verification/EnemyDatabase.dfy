/** Enemy combat databases: id and level selection, on plain values and on frozen trees. */
module EnemyDatabase {
  import opened Prelude
  import opened OrderedPairs
  import opened OrderedMaps
  import opened Json
  import opened Parsing
  import opened FrozenJson

  datatype DatabaseError = RootNotObject | NoLevels

  type Levels = map<int, Value>
  type Index = Pairs<Levels>

  /** Text to double: None where the text is no number, or not a finite one. */
  type FloatParser = string -> Option<real>

  const I64_MIN := -0x8000_0000_0000_0000
  const I64_MAX := 0x7fff_ffff_ffff_ffff

  function TruncateToI64(x: real): int {
    var t := if x < 0.0 then -((-x).Floor) else x.Floor;
    if t < I64_MIN then I64_MIN else if t > I64_MAX then I64_MAX else t
  }

  function NumberValue(n: Number): real {
    if n.Integer? then n.n as real else n.value
  }

  function ParseLevel(v: Option<Value>, parse: FloatParser): int {
    var n :=
      match v
      case None => Some(0.0)
      case Some(Null) => Some(0.0)
      case Some(Num(n)) => Some(NumberValue(n))
      case Some(Str(s)) => parse(s)
      case Some(Bool(b)) => Some(if b then 1.0 else 0.0)
      case Some(_) => None;
    if n.Some? then TruncateToI64(n.value) else 0
  }

  /** Truncation goes toward zero: it never moves away from zero and loses less than one. */
  lemma TruncateTowardZero(x: real)
    requires I64_MIN as real <= x <= I64_MAX as real
    ensures var t := TruncateToI64(x) as real;
            (0.0 <= x ==> 0.0 <= t <= x < t + 1.0) && (x < 0.0 ==> t - 1.0 < x <= t <= 0.0)
  {
  }

  // ---------------------------------------------------------------------------------------
  // Projections used when the database file is read
  // ---------------------------------------------------------------------------------------

  const SHOWN := ["maxHp", "atk", "def", "magicResistance", "moveSpeed", "baseAttackTime"]

  /** The attributes that the full extraction reads, the shown ones first. */
  const EXTRACTED := SHOWN + ["attackSpeed", "massLevel", "hpRecoveryPerSec", "lifePointReduce", "stunImmune",
    "silenceImmune", "sleepImmune", "frozenImmune", "levitateImmune", "disarmedCombatImmune", "fearedImmune",
    "palsyImmune", "attractImmune"]

  function KeepAll(keys: seq<string>): (fields: seq<(string, Projection)>)
    ensures |fields| == |keys| && forall i :: 0 <= i < |keys| ==> fields[i] == (keys[i], All)
  {
    seq(|keys|, i requires 0 <= i < |keys| => (keys[i], All))
  }

  const COMBAT_ATTRIBUTES := Projection.Fields(KeepAll(EXTRACTED))
  const ENEMY_DATA := Projection.Fields([("attributes", COMBAT_ATTRIBUTES), ("skills", All)])
  const LEVEL_ROW := Projection.Fields([("level", All), ("enemyData", ENEMY_DATA)])
  const DATABASE_ROW := Projection.Fields([
    ("level", All), ("enemyData", ENEMY_DATA), ("Key", All), ("Value", Elements(LEVEL_ROW))])
  const DATABASE_PROJECTION := Projection.Values(Elements(DATABASE_ROW))

  // ---------------------------------------------------------------------------------------
  // Normalization on plain values
  // ---------------------------------------------------------------------------------------

  /** Later rows of a level replace earlier ones; rows without an enemyData object are skipped. */
  function LevelsOf(rows: seq<Value>, parse: FloatParser): Levels {
    if rows == [] then map[]
    else
      var before, row := LevelsOf(rows[..|rows| - 1], parse), rows[|rows| - 1];
      var data := Field(row, "enemyData");
      if data.Some? && data.value.Object? then before[ParseLevel(Field(row, "level"), parse) := data.value]
      else before
  }

  function AddRow(index: Index, id: string, values: Option<Value>, parse: FloatParser): Index {
    if values.Some? && values.value.Array? && LevelsOf(values.value.items, parse) != map[]
    then Put(index, id, LevelsOf(values.value.items, parse))
    else index
  }

  function LegacyRows(rows: seq<Value>, parse: FloatParser): Index {
    if rows == [] then []
    else
      var before, row := LegacyRows(rows[..|rows| - 1], parse), rows[|rows| - 1];
      var key := Field(row, "Key");
      if key.Some? && key.value.Str? && key.value.s != "" then AddRow(before, key.value.s, Field(row, "Value"), parse)
      else before
  }

  function DirectRows(fields: Json.Fields, parse: FloatParser): Index {
    if fields == [] then []
    else
      var last := fields[|fields| - 1];
      AddRow(DirectRows(fields[..|fields| - 1], parse), last.0, Some(last.1), parse)
  }

  function Normalize(root: Value, parse: FloatParser): Result<Index, DatabaseError> {
    if !root.Object? then Err(RootNotObject)
    else
      var enemies := Field(root, "enemies");
      if enemies.Some? && enemies.value.Array? then Ok(LegacyRows(enemies.value.items, parse))
      else
        var index := DirectRows(root.fields, parse);
        if index == [] then Err(NoLevels) else Ok(index)
  }

  ghost predicate LevelRow(row: Value, level: int, parse: FloatParser) {
    Field(row, "enemyData").Some? && Field(row, "enemyData").value.Object? && ParseLevel(Field(row, "level"), parse) == level
  }

  /** A level is known exactly when some row with an enemyData object carries it, and its data are
      those of the last such row. */
  lemma {:induction false} LevelsOfLast(rows: seq<Value>, parse: FloatParser, level: int)
    ensures level in LevelsOf(rows, parse) <==> exists i :: 0 <= i < |rows| && LevelRow(rows[i], level, parse)
    ensures forall i :: 0 <= i < |rows| && LevelRow(rows[i], level, parse)
              && (forall j :: i < j < |rows| ==> !LevelRow(rows[j], level, parse))
              ==> LevelsOf(rows, parse)[level] == Field(rows[i], "enemyData").value
  {
    if rows != [] {
      var n := |rows| - 1;
      LevelsOfLast(rows[..n], parse, level);
      assert forall i :: 0 <= i < n ==> rows[..n][i] == rows[i];
      if LevelRow(rows[n], level, parse) {
        assert level in LevelsOf(rows, parse);
      }
    }
  }

  ghost predicate EnemyRow(row: Value, id: string, parse: FloatParser) {
    && Field(row, "Key") == Some(Str(id)) && id != ""
    && Field(row, "Value").Some? && Field(row, "Value").value.Array?
    && LevelsOf(Field(row, "Value").value.items, parse) != map[]
  }

  lemma LegacyStep(rows: seq<Value>, parse: FloatParser, id: string)
    requires rows != []
    ensures var n := |rows| - 1;
            Get(LegacyRows(rows, parse), id)
            == if EnemyRow(rows[n], id, parse) then Some(LevelsOf(Field(rows[n], "Value").value.items, parse))
               else Get(LegacyRows(rows[..n], parse), id)
  {
    var row := rows[|rows| - 1];
    var key, values := Field(row, "Key"), Field(row, "Value");
    if key.Some? && key.value.Str? && values.Some? && values.value.Array? {
      GetPut(LegacyRows(rows[..|rows| - 1], parse), key.value.s, LevelsOf(values.value.items, parse), id);
    }
  }

  /** In the legacy layout an enemy is known exactly when a usable row names it, and the last such
      row decides; in particular a later unusable row of the same name changes nothing. */
  lemma {:induction false} LegacyRowsLast(rows: seq<Value>, parse: FloatParser, id: string)
    ensures Get(LegacyRows(rows, parse), id).Some? <==> exists i :: 0 <= i < |rows| && EnemyRow(rows[i], id, parse)
    ensures forall i :: 0 <= i < |rows| && EnemyRow(rows[i], id, parse)
              && (forall j :: i < j < |rows| ==> !EnemyRow(rows[j], id, parse))
              ==> Get(LegacyRows(rows, parse), id) == Some(LevelsOf(Field(rows[i], "Value").value.items, parse))
  {
    if rows != [] {
      var n := |rows| - 1;
      LegacyRowsLast(rows[..n], parse, id);
      LegacyStep(rows, parse, id);
      assert forall i :: 0 <= i < n ==> rows[..n][i] == rows[i];
    }
  }

  /** `t` is the integer nearest to `x` on the side of zero, within 64 bits. */
  ghost predicate Truncates(x: real, t: int) {
    if x >= 0x8000_0000_0000_0000 as real then t == 0x7fff_ffff_ffff_ffff
    else if x < -0x8000_0000_0000_0000 as real then t == -0x8000_0000_0000_0000
    else if x >= 0.0 then t as real <= x < t as real + 1.0
    else t as real - 1.0 < x <= t as real
  }

  /** Which level a row's `level` stands for: numbers and texts of numbers are truncated, a flag is one
      or zero, and whatever else is there, or nothing, is zero. */
  lemma LevelReads(v: Option<Value>, parse: FloatParser)
    ensures var level := ParseLevel(v, parse);
            match v
            case Some(Num(Integer(n))) => Truncates(n as real, level) && (I64_MIN <= n <= I64_MAX ==> level == n)
            case Some(Num(Float(_, x))) => Truncates(x, level)
            case Some(Str(s)) => if parse(s).Some? then Truncates(parse(s).value, level) else level == 0
            case Some(Bool(true)) => level == 1
            case _ => level == 0
  {
  }

  /** A row that carries data. */
  predicate HasData(row: Value) {
    Field(row, "enemyData").Some? && Field(row, "enemyData").value.Object?
  }

  ghost predicate Known(rows: seq<Value>) {
    exists i :: 0 <= i < |rows| && HasData(rows[i])
  }

  lemma {:induction false} KnownHasLevels(rows: seq<Value>, parse: FloatParser)
    ensures LevelsOf(rows, parse) != map[] <==> Known(rows)
  {
    if Known(rows) {
      var i :| 0 <= i < |rows| && HasData(rows[i]);
      LevelsOfLast(rows, parse, ParseLevel(Field(rows[i], "level"), parse));
      assert LevelRow(rows[i], ParseLevel(Field(rows[i], "level"), parse), parse);
    } else if LevelsOf(rows, parse) != map[] {
      var level := Member(LevelsOf(rows, parse).Keys);
      LevelsOfLast(rows, parse, level);
    }
  }

  /** In the direct layout an enemy is known exactly when its field is an array of rows with data. */
  lemma {:induction false} DirectRowsExactly(fields: Json.Fields, parse: FloatParser, id: string)
    requires Distinct(fields)
    ensures var rows := Get(fields, id);
            Get(DirectRows(fields, parse), id) ==
            if rows.Some? && rows.value.Array? && LevelsOf(rows.value.items, parse) != map[]
            then Some(LevelsOf(rows.value.items, parse)) else None
    decreases |fields|
  {
    if fields != [] {
      var n := |fields| - 1;
      var init, last := fields[..n], fields[n];
      DirectRowsExactly(init, parse, id);
      assert fields == init + [last];
      GetAppend(init, last, id);
      if last.1.Array? {
        GetPut(DirectRows(init, parse), last.0, LevelsOf(last.1.items, parse), id);
      }
    }
  }

  lemma {:induction false} GetAppend<V>(m: Pairs<V>, last: (string, V), k: string)
    requires Distinct(m + [last])
    ensures Get(m + [last], k) == if k == last.0 then Some(last.1) else Get(m, k)
    ensures Get(m, last.0).None?
  {
    if m == [] {
    } else {
      assert (m + [last])[1..] == m[1..] + [last];
      GetAppend(m[1..], last, k);
      assert (m + [last])[0].0 != (m + [last])[|m|].0;
    }
  }

  method ComputeLevels(rows: seq<Value>, parse: FloatParser) returns (levels: Levels)
    ensures levels == LevelsOf(rows, parse)
  {
    levels := map[];
    for i := 0 to |rows|
      invariant levels == LevelsOf(rows[..i], parse)
    {
      assert rows[..i + 1][..i] == rows[..i];
      if !rows[i].Object? { continue; }
      var level := ParseLevel(Field(rows[i], "level"), parse);
      var data := Field(rows[i], "enemyData");
      if data.None? || !data.value.Object? { continue; }
      levels := levels[level := data.value];
    }
    assert rows[..|rows|] == rows;
  }

  method ComputeAddRow(index: OrderedMap<Levels>, id: string, values: Option<Value>, parse: FloatParser)
    requires index.Valid()
    modifies index
    ensures index.Valid() && index.entries == AddRow(old(index.entries), id, values, parse)
  {
    if values.None? || !values.value.Array? { return; }
    var levels := ComputeLevels(values.value.items, parse);
    if levels != map[] {
      var _ := index.Insert(id, levels);
    }
  }

  /** `normalize_enemy_database`, legacy and direct layouts. */
  method NormalizeEnemyDatabase(root: Value, parse: FloatParser)
    returns (r: Result<OrderedMap<Levels>, DatabaseError>)
    ensures r.Ok? <==> Normalize(root, parse).Ok?
    ensures r.Ok? ==> fresh(r.value) && r.value.Valid() && Normalize(root, parse) == Ok(r.value.entries)
    ensures r.Err? ==> Normalize(root, parse) == Err(r.error)
  {
    if !root.Object? {
      return Err(RootNotObject);
    }
    var index := new OrderedMap<Levels>();
    var enemies := Field(root, "enemies");
    if enemies.Some? && enemies.value.Array? {
      var rows := enemies.value.items;
      for i := 0 to |rows|
        invariant fresh(index) && index.Valid() && index.entries == LegacyRows(rows[..i], parse)
      {
        assert rows[..i + 1][..i] == rows[..i];
        var key := Field(rows[i], "Key");
        if key.None? || !key.value.Str? || key.value.s == "" { continue; }
        ComputeAddRow(index, key.value.s, Field(rows[i], "Value"), parse);
      }
      assert rows[..|rows|] == rows;
      return Ok(index);
    }
    var fields := root.fields;
    for i := 0 to |fields|
      invariant fresh(index) && index.Valid() && index.entries == DirectRows(fields[..i], parse)
    {
      assert fields[..i + 1][..i] == fields[..i];
      ComputeAddRow(index, fields[i].0, Some(fields[i].1), parse);
    }
    assert fields[..|fields|] == fields;
    if index.entries == [] {
      return Err(NoLevels);
    }
    return Ok(index);
  }

  /** The selection rule: the requested level, or level zero. */
  function SelectEntry(index: Index, id: string, level: int): Option<Value> {
    var levels := Get(index, id);
    if levels.None? then None
    else if level in levels.value then Some(levels.value[level])
    else if 0 in levels.value then Some(levels.value[0])
    else None
  }

  predicate IsLeast(k: int, keys: set<int>) {
    k in keys && forall j | j in keys :: k <= j
  }

  lemma Member<T>(s: set<T>) returns (x: T)
    requires s != {}
    ensures x in s
  {
    x :| x in s;
  }

  lemma {:induction false} LeastExists(keys: set<int>)
    requires keys != {}
    ensures exists k :: IsLeast(k, keys)
    decreases |keys|
  {
    var i := Member(keys);
    if keys == {i} {
      assert IsLeast(i, keys);
    } else {
      var rest := keys - {i};
      assert rest != {} by { assert keys == {i} + rest; }
      LeastExists(rest);
      var l :| IsLeast(l, rest);
      assert IsLeast(if i <= l then i else l, keys) by {
        forall j | j in keys ensures i <= j || l <= j { assert j == i || j in rest; }
      }
    }
  }

  /** The first key in ascending order. */
  function Least(keys: set<int>): (k: int)
    requires keys != {}
    ensures IsLeast(k, keys)
  {
    LeastExists(keys);
    var k :| k in keys && IsLeast(k, keys);
    k
  }

  /** The default rule: level zero, or the lowest level there is. */
  function SelectDefault(index: Index, id: string): Option<Value> {
    var levels := Get(index, id);
    if levels.None? || levels.value == map[] then None
    else if 0 in levels.value then Some(levels.value[0])
    else
      assert levels.value.Keys != {};
      Some(levels.value[Least(levels.value.Keys)])
  }

  // ---------------------------------------------------------------------------------------
  // Normalization on frozen trees
  // ---------------------------------------------------------------------------------------

  type FrozenLevels = map<int, Frozen>

  function ThawLevels(levels: FrozenLevels): Levels {
    map k | k in levels :: ToValue(levels[k])
  }

  function ThawIndex(index: Pairs<FrozenLevels>): (r: Index)
    ensures |r| == |index|
    ensures forall i :: 0 <= i < |index| ==> r[i] == (index[i].0, ThawLevels(index[i].1))
  {
    if index == [] then []
    else ThawIndex(index[..|index| - 1]) + [(index[|index| - 1].0, ThawLevels(index[|index| - 1].1))]
  }

  ghost predicate GoodLevels(levels: FrozenLevels) {
    forall k :: k in levels ==> levels[k].FObject? && DistinctKeys(levels[k])
  }

  ghost predicate GoodIndex(index: Pairs<FrozenLevels>) {
    forall i :: 0 <= i < |index| ==> GoodLevels(index[i].1)
  }

  lemma {:induction false} ThawGet(index: Pairs<FrozenLevels>, id: string)
    ensures Get(ThawIndex(index), id).Some? <==> Get(index, id).Some?
    ensures Get(index, id).Some? ==> Get(ThawIndex(index), id) == Some(ThawLevels(Get(index, id).value))
    ensures GoodIndex(index) && Get(index, id).Some? ==> GoodLevels(Get(index, id).value)
  {
    if index != [] && index[0].0 != id {
      assert ThawIndex(index)[1..] == ThawIndex(index[1..]);
      ThawGet(index[1..], id);
    }
  }

  lemma ThawPut(index: Pairs<FrozenLevels>, id: string, levels: FrozenLevels)
    ensures ThawIndex(Put(index, id, levels)) == Put(ThawIndex(index), id, ThawLevels(levels))
    ensures GoodIndex(index) && GoodLevels(levels) ==> GoodIndex(Put(index, id, levels))
  {
    hide ThawIndex, ThawLevels, Put, GoodLevels;
    if HasKey(index, id) {
      var i := FirstAt(index, id);
      PutAt(index, id, levels, i);
      PutAt(ThawIndex(index), id, ThawLevels(levels), i);
    } else {
      PutAppend(index, id, levels);
      assert !HasKey(ThawIndex(index), id);
      PutAppend(ThawIndex(index), id, ThawLevels(levels));
    }
  }

  lemma ThawLevelsUpdate(levels: FrozenLevels, level: int, f: Frozen)
    ensures ThawLevels(levels[level := f]) == ThawLevels(levels)[level := ToValue(f)]
    ensures ThawLevels(levels[level := f]) != map[]
  {
    assert level in ThawLevels(levels[level := f]);
  }

  /** One level row read from the frozen tree is the row read from its value. */
  lemma LevelRowAgrees(rows: seq<Frozen>, i: nat, parse: FloatParser)
    requires i < |rows| && DistinctKeys(rows[i])
    ensures var data, level := GetFrozen(rows[i], "enemyData"), GetFrozen(rows[i], "level");
            var before := LevelsOf(ToValues(rows[..i]), parse);
            var number := ParseLevel(if level.Some? then Some(ToValue(level.value)) else None, parse);
            LevelsOf(ToValues(rows[..i + 1]), parse)
            == if data.Some? && data.value.FObject? then before[number := ToValue(data.value)] else before
    ensures var data := GetFrozen(rows[i], "enemyData"); data.Some? ==> DistinctKeys(data.value)
  {
    assert rows[..i + 1][..i] == rows[..i];
    assert ToValues(rows[..i + 1])[..i] == ToValues(rows[..i]);
    GetFrozenAgrees(rows[i], "level");
    GetFrozenAgrees(rows[i], "enemyData");
  }

  /** The map after one more row; the row's data are moved out of it. */
  function CacheRow(levels: FrozenLevels, row: Frozen, parse: FloatParser): FrozenLevels {
    var found, data := GetFrozen(row, "level"), GetFrozen(row, "enemyData");
    var level := ParseLevel(if found.Some? then Some(ToValue(found.value)) else None, parse);
    if data.Some? && data.value.FObject? then levels[level := Take(row, "enemyData")] else levels
  }

  lemma CacheRowAgrees(levels: FrozenLevels, rows: seq<Frozen>, i: nat, parse: FloatParser)
    requires i < |rows| && DistinctKeys(rows[i]) && GoodLevels(levels)
    requires ThawLevels(levels) == LevelsOf(ToValues(rows[..i]), parse)
    ensures GoodLevels(CacheRow(levels, rows[i], parse))
    ensures ThawLevels(CacheRow(levels, rows[i], parse)) == LevelsOf(ToValues(rows[..i + 1]), parse)
  {
    LevelRowAgrees(rows, i, parse);
    var found, data := GetFrozen(rows[i], "level"), GetFrozen(rows[i], "enemyData");
    var level := ParseLevel(if found.Some? then Some(ToValue(found.value)) else None, parse);
    if data.Some? && data.value.FObject? {
      ThawLevelsUpdate(levels, level, data.value);
    }
  }

  lemma ThawLevelsEmpty(levels: FrozenLevels)
    ensures ThawLevels(levels) == map[] <==> levels == map[]
  {
    if ThawLevels(levels) == map[] {
      assert forall k :: k in levels ==> k in ThawLevels(levels);
    }
  }

  method CacheLevels(rows: seq<Frozen>, parse: FloatParser) returns (levels: FrozenLevels)
    requires forall i :: 0 <= i < |rows| ==> DistinctKeys(rows[i])
    ensures ThawLevels(levels) == LevelsOf(ToValues(rows), parse)
    ensures GoodLevels(levels)
  {
    levels := map[];
    for i := 0 to |rows|
      invariant ThawLevels(levels) == LevelsOf(ToValues(rows[..i]), parse)
      invariant GoodLevels(levels)
    {
      CacheRowAgrees(levels, rows, i, parse);
      levels := CacheRow(levels, rows[i], parse);
    }
    assert rows[..|rows|] == rows;
  }

  /** The compact database kept between requests. */
  class FrozenDatabase {
    var entries: OrderedMap<FrozenLevels>

    ghost predicate Valid()
      reads this, entries
    {
      entries.Valid() && GoodIndex(entries.entries)
    }

    /** The index this database stands for. */
    ghost function Model(): Index
      reads this, entries
    {
      ThawIndex(entries.entries)
    }

    constructor ()
      ensures Valid() && fresh(entries) && Model() == []
    {
      entries := new OrderedMap<FrozenLevels>();
    }

    method Add(id: string, values: Frozen, parse: FloatParser)
      requires Valid() && DistinctKeys(values)
      modifies entries
      ensures Valid() && entries == old(entries)
      ensures Model() == AddRow(old(Model()), id, Some(ToValue(values)), parse)
    {
      if !values.FArray? { return; }
      var levels := CacheLevels(values.items, parse);
      ThawLevelsEmpty(levels);
      if levels != map[] {
        ThawPut(entries.entries, id, levels);
        var _ := entries.Insert(id, levels);
      }
    }

    method DefaultEntry(id: string) returns (entry: Option<Frozen>)
      requires Valid()
      ensures entry.Some? <==> SelectDefault(Model(), id).Some?
      ensures entry.Some? ==> SelectDefault(Model(), id) == Some(ToValue(entry.value))
      ensures entry.Some? ==> entry.value.FObject? && DistinctKeys(entry.value)
    {
      ThawGet(entries.entries, id);
      var levels := entries.Lookup(id);
      if levels.None? { return None; }
      ThawLevelsEmpty(levels.value);
      if levels.value == map[] { return None; }
      if 0 in levels.value { return Some(levels.value[0]); }
      assert ThawLevels(levels.value).Keys == levels.value.Keys && levels.value.Keys != {};
      return Some(levels.value[Least(levels.value.Keys)]);
    }

    method StageEntry(id: string, level: int) returns (entry: Option<Frozen>)
      requires Valid()
      ensures entry.Some? <==> SelectEntry(Model(), id, level).Some?
      ensures entry.Some? ==> SelectEntry(Model(), id, level) == Some(ToValue(entry.value))
      ensures entry.Some? ==> entry.value.FObject? && DistinctKeys(entry.value)
    {
      ThawGet(entries.entries, id);
      var levels := entries.Lookup(id);
      if levels.None? { return None; }
      if level in levels.value { return Some(levels.value[level]); }
      if 0 in levels.value { return Some(levels.value[0]); }
      return None;
    }
  }

  lemma LegacyRowAgrees(rows: seq<Frozen>, i: nat, parse: FloatParser)
    requires i < |rows| && DistinctKeys(rows[i])
    ensures var key, before := GetFrozen(rows[i], "Key"), LegacyRows(ToValues(rows[..i]), parse);
            LegacyRows(ToValues(rows[..i + 1]), parse)
            == if key.Some? && key.value.FStr? && key.value.s != ""
               then AddRow(before, key.value.s, Some(ToValue(Take(rows[i], "Value"))), parse) else before
    ensures DistinctKeys(Take(rows[i], "Value"))
  {
    assert rows[..i + 1][..i] == rows[..i];
    assert ToValues(rows[..i + 1])[..i] == ToValues(rows[..i]);
    GetFrozenAgrees(rows[i], "Key");
    GetFrozenAgrees(rows[i], "Value");
  }

  lemma DirectRowAgrees(fields: seq<(SharedKey, Frozen)>, i: nat, parse: FloatParser)
    requires i < |fields|
    ensures DirectRows(ToPairs(fields[..i + 1]), parse)
            == AddRow(DirectRows(ToPairs(fields[..i]), parse), fields[i].0.text, Some(ToValue(fields[i].1)), parse)
  {
    assert fields[..i + 1][..i] == fields[..i];
    ToPairsAt(fields[..i + 1], i);
  }

  method FromLegacyRows(rows: seq<Frozen>, parse: FloatParser) returns (db: FrozenDatabase)
    requires forall i :: 0 <= i < |rows| ==> DistinctKeys(rows[i])
    ensures fresh(db) && fresh(db.entries) && db.Valid() && db.Model() == LegacyRows(ToValues(rows), parse)
  {
    db := new FrozenDatabase();
    for i := 0 to |rows|
      invariant fresh(db) && fresh(db.entries) && db.Valid()
      invariant db.Model() == LegacyRows(ToValues(rows[..i]), parse)
    {
      LegacyRowAgrees(rows, i, parse);
      var key := GetFrozen(rows[i], "Key");
      if key.None? || !key.value.FStr? || key.value.s == "" { continue; }
      db.Add(key.value.s, Take(rows[i], "Value"), parse);
    }
    assert rows[..|rows|] == rows;
  }

  method FromDirectRows(fields: seq<(SharedKey, Frozen)>, parse: FloatParser) returns (db: FrozenDatabase)
    requires forall i :: 0 <= i < |fields| ==> DistinctKeys(fields[i].1)
    ensures fresh(db) && fresh(db.entries) && db.Valid() && db.Model() == DirectRows(ToPairs(fields), parse)
  {
    db := new FrozenDatabase();
    for i := 0 to |fields|
      invariant fresh(db) && fresh(db.entries) && db.Valid()
      invariant db.Model() == DirectRows(ToPairs(fields[..i]), parse)
    {
      DirectRowAgrees(fields, i, parse);
      db.Add(fields[i].0.text, fields[i].1, parse);
    }
    assert fields[..|fields|] == fields;
  }

  /** `EnemyDatabase::from_json`: the same index, or the same failure, as normalizing the value
      the tree stands for. */
  method FromJson(raw: Frozen, parse: FloatParser) returns (r: Result<FrozenDatabase, DatabaseError>)
    requires DistinctKeys(raw)
    ensures r.Ok? <==> Normalize(ToValue(raw), parse).Ok?
    ensures r.Ok? ==> fresh(r.value) && fresh(r.value.entries) && r.value.Valid()
    ensures r.Ok? ==> Normalize(ToValue(raw), parse) == Ok(r.value.Model())
    ensures r.Err? ==> Normalize(ToValue(raw), parse) == Err(r.error)
  {
    hide LevelsOf, AddRow, LegacyRows, DirectRows, ParseLevel, DistinctDeep;
    GetFrozenAgrees(raw, "enemies");
    var enemies := GetFrozen(raw, "enemies");
    var legacy := enemies.Some? && enemies.value.FArray?;
    if !raw.FObject? {
      return Err(RootNotObject);
    }
    if legacy {
      var db := FromLegacyRows(enemies.value.items, parse);
      return Ok(db);
    }
    FromPairsIdentity(ToPairs(raw.fields));
    var db := FromDirectRows(raw.fields, parse);
    if db.entries.entries == [] {
      return Err(NoLevels);
    }
    return Ok(db);
  }
}
