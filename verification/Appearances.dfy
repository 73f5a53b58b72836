/** The reverse index from enemies to the stages that spawn them, and its copy in the database. */
module Appearances {
  import opened Prelude
  import opened OrderedPairs
  import opened OrderedMaps
  import opened Json
  import Parsing
  import StageStats
  import Tables
  import opened EnemyDatabase

  // ---------------------------------------------------------------------------------------
  // Spawns of one level
  // ---------------------------------------------------------------------------------------

  type Count = n: int | 1 <= n <= 0x7fff_ffff_ffff_ffff witness 1

  datatype Spawn = Spawn(enemy: string, count: Count)

  /** A list field, empty where it is missing or something else. */
  function ItemsUnder(v: Value, key: string): seq<Value> {
    var list := Field(v, key);
    if list.Some? && list.value.Array? then list.value.items else []
  }

  predicate IsSpawn(action: Value) {
    var kind := Field(action, "actionType");
    kind == Some(Str("SPAWN")) || kind == Some(Num(Integer(0)))
  }

  /** The count of one action: truncated, at least one, and one where it is no finite number. */
  function CountOf(action: Value, parse: FloatParser): Count {
    var n :=
      match Field(action, "count")
      case None => Some(1.0)
      case Some(Null) => Some(1.0)
      case Some(Num(n)) => Some(NumberValue(n))
      case Some(Str(s)) => parse(s)
      case Some(_) => None;
    var whole := if n.Some? then TruncateToI64(n.value) else 1;
    if whole < 1 then 1 else whole
  }

  function SpawnOf(action: Value, parse: FloatParser): Option<Spawn> {
    var key := Field(action, "key");
    if IsSpawn(action) && key.Some? && key.value.Str? && key.value.s != ""
    then Some(Spawn(key.value.s, CountOf(action, parse)))
    else None
  }

  function ActionSpawns(actions: seq<Value>, parse: FloatParser): seq<Spawn> {
    if actions == [] then []
    else
      var before, spawn := ActionSpawns(actions[..|actions| - 1], parse), SpawnOf(actions[|actions| - 1], parse);
      if spawn.Some? then before + [spawn.value] else before
  }

  function FragmentSpawns(fragments: seq<Value>, parse: FloatParser): seq<Spawn> {
    if fragments == [] then []
    else FragmentSpawns(fragments[..|fragments| - 1], parse)
         + ActionSpawns(ItemsUnder(fragments[|fragments| - 1], "actions"), parse)
  }

  function WaveSpawns(waves: seq<Value>, parse: FloatParser): seq<Spawn> {
    if waves == [] then []
    else WaveSpawns(waves[..|waves| - 1], parse) + FragmentSpawns(ItemsUnder(waves[|waves| - 1], "fragments"), parse)
  }

  /** All spawns of a level in file order. */
  function LevelSpawns(level: Value, parse: FloatParser): seq<Spawn> {
    WaveSpawns(ItemsUnder(level, "waves"), parse)
  }

  /** Two's complement: what 64-bit addition without overflow checks leaves of a sum. */
  function WrapI64(n: int): int {
    (n + 0x8000_0000_0000_0000) % 0x1_0000_0000_0000_0000 - 0x8000_0000_0000_0000
  }

  function AddSpawn(counts: Pairs<int>, spawn: Spawn): Pairs<int> {
    Put(counts, spawn.enemy, WrapI64(Get(counts, spawn.enemy).GetOr(0) + spawn.count))
  }

  /** The running counts, by first appearance. */
  function Counts(spawns: seq<Spawn>): Pairs<int> {
    if spawns == [] then [] else AddSpawn(Counts(spawns[..|spawns| - 1]), spawns[|spawns| - 1])
  }

  /** How many of an enemy are spawned. */
  function Total(spawns: seq<Spawn>, enemy: string): nat {
    if spawns == [] then 0
    else
      var before, last := Total(spawns[..|spawns| - 1], enemy), spawns[|spawns| - 1];
      if last.enemy == enemy then before + last.count else before
  }

  lemma WrapOnce(a: int, b: int)
    ensures WrapI64(WrapI64(a) + b) == WrapI64(a + b)
  {
  }

  /** An enemy is listed exactly when it is spawned, with its total reduced to 64 bits. */
  lemma {:induction false} CountsAreTotals(spawns: seq<Spawn>, enemy: string)
    ensures Get(Counts(spawns), enemy)
            == if Total(spawns, enemy) > 0 then Some(WrapI64(Total(spawns, enemy))) else None
  {
    hide WrapI64;
    if spawns != [] {
      var n := |spawns| - 1;
      var before, last := Counts(spawns[..n]), spawns[n];
      CountsAreTotals(spawns[..n], enemy);
      GetPut(before, last.enemy, WrapI64(Get(before, last.enemy).GetOr(0) + last.count), enemy);
      WrapOnce(Total(spawns[..n], enemy), last.count);
    }
  }

  /** The recorded count is the true one, and so at least one, exactly when the true one fits in 64 bits. */
  lemma CountIsExact(spawns: seq<Spawn>, enemy: string)
    requires Total(spawns, enemy) > 0
    ensures Get(Counts(spawns), enemy) == Some(Total(spawns, enemy)) <==> Total(spawns, enemy) <= I64_MAX
  {
    CountsAreTotals(spawns, enemy);
  }

  /** Two actions are enough to leave the range: the recorded count is then negative. */
  lemma CountMayWrap()
    ensures var spawns := [Spawn("e", 0x7fff_ffff_ffff_ffff), Spawn("e", 0x7fff_ffff_ffff_ffff)];
            Get(Counts(spawns), "e") == Some(-2)
  {
    var a := Spawn("e", 0x7fff_ffff_ffff_ffff);
    assert [a, a][..1] == [a] && [a][..0] == [];
    assert Total([a], "e") == a.count;
    assert Total([a, a], "e") == 2 * a.count;
    CountsAreTotals([a, a], "e");
  }

  lemma {:induction false} CountsDistinct(spawns: seq<Spawn>)
    ensures Distinct(Counts(spawns))
  {
    if spawns != [] {
      var before, last := Counts(spawns[..|spawns| - 1]), spawns[|spawns| - 1];
      CountsDistinct(spawns[..|spawns| - 1]);
      PutDistinct(before, last.enemy, WrapI64(Get(before, last.enemy).GetOr(0) + last.count));
    }
  }

  // ---------------------------------------------------------------------------------------
  // Totals, said of the level's actions
  // ---------------------------------------------------------------------------------------

  /** The action is a spawn of the enemy: by its type's name or number, under the enemy's key. */
  predicate SpawnsEnemy(action: Value, enemy: string) {
    && (Field(action, "actionType") == Some(Str("SPAWN")) || Field(action, "actionType") == Some(Num(Integer(0))))
    && Field(action, "key") == Some(Str(enemy)) && enemy != ""
  }

  /** What a number of spawns counts for: itself without its fraction, at least one, within 64 bits. */
  ghost predicate CountsFor(x: real, count: int) {
    if x < 1.0 then count == 1 else Truncates(x, count)
  }

  lemma CountReads(action: Value, parse: FloatParser)
    ensures var count: int := CountOf(action, parse);
            match Field(action, "count")
            case Some(Num(Integer(n))) => CountsFor(n as real, count) && (1 <= n <= I64_MAX ==> count == n)
            case Some(Num(Float(_, x))) => CountsFor(x, count)
            case Some(Str(s)) => if parse(s).Some? then CountsFor(parse(s).value, count) else count == 1
            case _ => count == 1
  {
  }

  function ListUnder(v: Value, key: string): seq<Value> {
    match v
    case Object(_) => (match Field(v, key) case Some(Array(items)) => items case _ => [])
    case _ => []
  }

  function ActionTotal(actions: seq<Value>, enemy: string, parse: FloatParser): nat {
    if actions == [] then 0
    else ActionTotal(actions[1..], enemy, parse) + if SpawnsEnemy(actions[0], enemy) then CountOf(actions[0], parse) else 0
  }

  function FragmentTotal(fragments: seq<Value>, enemy: string, parse: FloatParser): nat {
    if fragments == [] then 0
    else FragmentTotal(fragments[1..], enemy, parse) + ActionTotal(ListUnder(fragments[0], "actions"), enemy, parse)
  }

  /** All the actions of a level that spawn the enemy, each with its count. */
  function WaveTotal(waves: seq<Value>, enemy: string, parse: FloatParser): nat {
    if waves == [] then 0
    else WaveTotal(waves[1..], enemy, parse) + FragmentTotal(ListUnder(waves[0], "fragments"), enemy, parse)
  }

  lemma {:induction false} TotalAppend(a: seq<Spawn>, b: seq<Spawn>, enemy: string)
    ensures Total(a + b, enemy) == Total(a, enemy) + Total(b, enemy)
    decreases |b|
  {
    if b == [] {
      assert a + b == a;
    } else {
      assert (a + b)[..|a + b| - 1] == a + b[..|b| - 1];
      TotalAppend(a, b[..|b| - 1], enemy);
    }
  }

  lemma TotalOfAction(action: Value, enemy: string, parse: FloatParser)
    ensures var spawn := SpawnOf(action, parse);
            Total(if spawn.Some? then [spawn.value] else [], enemy)
            == if SpawnsEnemy(action, enemy) then CountOf(action, parse) else 0
  {
    hide CountOf;
    var spawn := SpawnOf(action, parse);
    if spawn.Some? {
      assert [spawn.value][..0] == [];
    }
  }

  lemma {:induction false} TotalOfActions(actions: seq<Value>, i: nat, enemy: string, parse: FloatParser)
    requires i <= |actions|
    ensures Total(ActionSpawns(actions, parse), enemy)
            == Total(ActionSpawns(actions[..i], parse), enemy) + ActionTotal(actions[i..], enemy, parse)
    decreases |actions| - i
  {
    if i == |actions| {
      assert actions[..i] == actions;
    } else {
      TotalOfActions(actions, i + 1, enemy, parse);
      assert actions[..i + 1][..i] == actions[..i] && actions[i..][1..] == actions[i + 1..];
      TotalOfAction(actions[i], enemy, parse);
      hide SpawnOf, CountOf, SpawnsEnemy, Total;
      var spawn := SpawnOf(actions[i], parse);
      if spawn.Some? {
        TotalAppend(ActionSpawns(actions[..i], parse), [spawn.value], enemy);
      } else {
        NoTotal(enemy);
      }
    }
  }

  lemma NoTotal(enemy: string)
    ensures Total([], enemy) == 0
  {
  }

  lemma {:induction false} TotalOfFragments(fragments: seq<Value>, i: nat, enemy: string, parse: FloatParser)
    requires i <= |fragments|
    ensures Total(FragmentSpawns(fragments, parse), enemy)
            == Total(FragmentSpawns(fragments[..i], parse), enemy) + FragmentTotal(fragments[i..], enemy, parse)
    decreases |fragments| - i
  {
    if i == |fragments| {
      assert fragments[..i] == fragments;
    } else {
      TotalOfFragments(fragments, i + 1, enemy, parse);
      assert fragments[..i + 1][..i] == fragments[..i] && fragments[i..][1..] == fragments[i + 1..];
      var actions := ItemsUnder(fragments[i], "actions");
      TotalOfActions(actions, 0, enemy, parse);
      assert actions[..0] == [] && actions[0..] == actions && ActionSpawns([], parse) == [];
      NoTotal(enemy);
      hide Total, ActionSpawns, ActionTotal;
      TotalAppend(FragmentSpawns(fragments[..i], parse), ActionSpawns(actions, parse), enemy);
    }
  }

  lemma {:induction false} TotalOfWaves(waves: seq<Value>, i: nat, enemy: string, parse: FloatParser)
    requires i <= |waves|
    ensures Total(WaveSpawns(waves, parse), enemy)
            == Total(WaveSpawns(waves[..i], parse), enemy) + WaveTotal(waves[i..], enemy, parse)
    decreases |waves| - i
  {
    if i == |waves| {
      assert waves[..i] == waves;
    } else {
      TotalOfWaves(waves, i + 1, enemy, parse);
      assert waves[..i + 1][..i] == waves[..i] && waves[i..][1..] == waves[i + 1..];
      var fragments := ItemsUnder(waves[i], "fragments");
      TotalOfFragments(fragments, 0, enemy, parse);
      assert fragments[..0] == [] && fragments[0..] == fragments && FragmentSpawns([], parse) == [];
      NoTotal(enemy);
      hide Total, FragmentSpawns, FragmentTotal;
      TotalAppend(WaveSpawns(waves[..i], parse), FragmentSpawns(fragments, parse), enemy);
    }
  }

  /** The total of an enemy is the sum of the counts of the level's actions that spawn it. */
  lemma TotalOfLevel(level: Value, enemy: string, parse: FloatParser)
    ensures Total(LevelSpawns(level, parse), enemy) == WaveTotal(ListUnder(level, "waves"), enemy, parse)
  {
    var waves := ItemsUnder(level, "waves");
    TotalOfWaves(waves, 0, enemy, parse);
    assert waves[..0] == [] && waves[0..] == waves;
  }

  /** The enemies of the spawns, each where it first stands. */
  function FirstEnemies(spawns: seq<Spawn>): seq<string> {
    if spawns == [] then []
    else
      var before, enemy := FirstEnemies(spawns[..|spawns| - 1]), spawns[|spawns| - 1].enemy;
      if enemy in before then before else before + [enemy]
  }

  lemma {:induction false} CountsInOrder(spawns: seq<Spawn>)
    ensures KeysOf(Counts(spawns)) == FirstEnemies(spawns)
  {
    if spawns != [] {
      var before, last := Counts(spawns[..|spawns| - 1]), spawns[|spawns| - 1];
      CountsInOrder(spawns[..|spawns| - 1]);
      KeysOfPut(before, last.enemy, WrapI64(Get(before, last.enemy).GetOr(0) + last.count));
    }
  }

  lemma SpawnStep(before: seq<Spawn>, actions: seq<Value>, i: nat, parse: FloatParser)
    requires i < |actions|
    ensures var sofar, spawn := Counts(before + ActionSpawns(actions[..i], parse)), SpawnOf(actions[i], parse);
            Counts(before + ActionSpawns(actions[..i + 1], parse))
            == if spawn.None? then sofar else AddSpawn(sofar, spawn.value)
  {
    assert actions[..i + 1][..i] == actions[..i];
    var sofar, spawn := before + ActionSpawns(actions[..i], parse), SpawnOf(actions[i], parse);
    if spawn.Some? {
      assert before + ActionSpawns(actions[..i + 1], parse) == sofar + [spawn.value];
      assert (sofar + [spawn.value])[..|sofar|] == sofar;
    }
  }

  method CountAction(counts: OrderedMap<int>, action: Value, parse: FloatParser)
    requires counts.Valid()
    modifies counts
    ensures counts.Valid()
    ensures counts.entries == var spawn := SpawnOf(action, parse);
                              if spawn.None? then old(counts.entries) else AddSpawn(old(counts.entries), spawn.value)
  {
    hide IsSpawn, CountOf, WrapI64, Put, Get;
    if !IsSpawn(action) { return; }
    var key := Field(action, "key");
    if key.None? || !key.value.Str? || key.value.s == "" { return; }
    var count := CountOf(action, parse);
    var sofar := counts.Lookup(key.value.s);
    var _ := counts.Insert(key.value.s, WrapI64(sofar.GetOr(0) + count));
  }

  method CountActions(counts: OrderedMap<int>, actions: seq<Value>, parse: FloatParser, ghost before: seq<Spawn>)
    requires counts.Valid() && counts.entries == Counts(before)
    modifies counts
    ensures counts.Valid() && counts.entries == Counts(before + ActionSpawns(actions, parse))
  {
    assert before + ActionSpawns(actions[..0], parse) == before;
    hide Counts, ActionSpawns, AddSpawn, SpawnOf;
    for i := 0 to |actions|
      invariant counts.Valid() && counts.entries == Counts(before + ActionSpawns(actions[..i], parse))
    {
      SpawnStep(before, actions, i, parse);
      CountAction(counts, actions[i], parse);
    }
    assert actions[..|actions|] == actions;
  }

  lemma FragmentStep(before: seq<Spawn>, fragments: seq<Value>, i: nat, parse: FloatParser)
    requires i < |fragments|
    ensures before + FragmentSpawns(fragments[..i + 1], parse)
            == (before + FragmentSpawns(fragments[..i], parse))
               + ActionSpawns(ItemsUnder(fragments[i], "actions"), parse)
  {
    assert fragments[..i + 1][..i] == fragments[..i];
  }

  method CountFragments(counts: OrderedMap<int>, fragments: seq<Value>, parse: FloatParser, ghost before: seq<Spawn>)
    requires counts.Valid() && counts.entries == Counts(before)
    modifies counts
    ensures counts.Valid() && counts.entries == Counts(before + FragmentSpawns(fragments, parse))
  {
    assert before + FragmentSpawns(fragments[..0], parse) == before;
    hide Counts, ActionSpawns, FragmentSpawns, ItemsUnder;
    for i := 0 to |fragments|
      invariant counts.Valid() && counts.entries == Counts(before + FragmentSpawns(fragments[..i], parse))
    {
      FragmentStep(before, fragments, i, parse);
      CountActions(counts, ItemsUnder(fragments[i], "actions"), parse, before + FragmentSpawns(fragments[..i], parse));
    }
    assert fragments[..|fragments|] == fragments;
  }

  lemma WaveStep(waves: seq<Value>, i: nat, parse: FloatParser)
    requires i < |waves|
    ensures WaveSpawns(waves[..i + 1], parse)
            == WaveSpawns(waves[..i], parse) + FragmentSpawns(ItemsUnder(waves[i], "fragments"), parse)
  {
    assert waves[..i + 1][..i] == waves[..i];
  }

  /** `spawn_counts` */
  method SpawnCounts(level: Value, parse: FloatParser) returns (counts: OrderedMap<int>)
    ensures fresh(counts) && counts.Valid() && counts.entries == Counts(LevelSpawns(level, parse))
  {
    counts := new OrderedMap<int>();
    var waves := ItemsUnder(level, "waves");
    assert Counts(WaveSpawns(waves[..0], parse)) == [];
    hide Counts, FragmentSpawns, ItemsUnder, WaveSpawns;
    for i := 0 to |waves|
      invariant fresh(counts) && counts.Valid() && counts.entries == Counts(WaveSpawns(waves[..i], parse))
    {
      WaveStep(waves, i, parse);
      CountFragments(counts, ItemsUnder(waves[i], "fragments"), parse, WaveSpawns(waves[..i], parse));
    }
    assert waves[..|waves|] == waves;
  }

  // ---------------------------------------------------------------------------------------
  // The index
  // ---------------------------------------------------------------------------------------

  type Rows = seq<(string, int)>
  type AppearanceIndex = Pairs<Rows>

  /** The parsed level file under a path; none when it is missing or does not parse. */
  type LevelFiles = string -> Option<Value>

  const WAVES := Parsing.Projection.Fields([("waves", Parsing.All)])

  function PathChar(c: char): char {
    if 'A' <= c <= 'Z' then c + ' ' else if c == '\\' then '/' else c
  }

  function PathOf(levelId: string): string {
    seq(|levelId|, i requires 0 <= i < |levelId| => PathChar(levelId[i])) + ".json"
  }

  /** A stage's level, where it names one that can be read and is an object. */
  function LevelOf(stage: Value, read: LevelFiles): Option<Value> {
    var id := Field(stage, "levelId");
    if id.None? || !id.value.Str? then None
    else
      var level := read(PathOf(id.value.s));
      if level.Some? && level.value.Object? then level else None
  }

  function StageCounts(stage: Value, read: LevelFiles, parse: FloatParser): Pairs<int> {
    var level := LevelOf(stage, read);
    if level.Some? then Counts(LevelSpawns(level.value, parse)) else []
  }

  function AddCounts(index: AppearanceIndex, stage: string, counts: Pairs<int>): AppearanceIndex {
    if counts == [] then index
    else
      var before, (enemy, count) := AddCounts(index, stage, counts[..|counts| - 1]), counts[|counts| - 1];
      Put(before, enemy, Get(before, enemy).GetOr([]) + [(stage, count)])
  }

  function IndexOf(stages: Fields, read: LevelFiles, parse: FloatParser): AppearanceIndex {
    if stages == [] then []
    else
      var (id, stage) := stages[|stages| - 1];
      AddCounts(IndexOf(stages[..|stages| - 1], read, parse), id, StageCounts(stage, read, parse))
  }

  /** The stages of the table, in its order, whose level spawns the enemy, with the level's count. */
  function StagesOf(stages: Fields, enemy: string, read: LevelFiles, parse: FloatParser): Rows {
    if stages == [] then []
    else
      var (id, stage) := stages[|stages| - 1];
      var before := StagesOf(stages[..|stages| - 1], enemy, read, parse);
      var count := Get(StageCounts(stage, read, parse), enemy);
      if count.Some? then before + [(id, count.value)] else before
  }

  /** Reading only the waves changes no count. */
  lemma WavesAreEnough(level: Value, parse: FloatParser)
    ensures Parsing.Project(level, WAVES).Object? <==> level.Object?
    ensures LevelSpawns(Parsing.Project(level, WAVES), parse) == LevelSpawns(level, parse)
  {
    StageStats.FieldProjected(level, WAVES, "waves");
  }

  lemma {:induction false} AddCountsGet(index: AppearanceIndex, stage: string, counts: Pairs<int>, enemy: string)
    requires Distinct(counts)
    ensures var count := Get(counts, enemy);
            Get(AddCounts(index, stage, counts), enemy)
            == if count.None? then Get(index, enemy) else Some(Get(index, enemy).GetOr([]) + [(stage, count.value)])
  {
    if counts != [] {
      var n := |counts| - 1;
      var before := AddCounts(index, stage, counts[..n]);
      var (last, count) := counts[n];
      AddCountsGet(index, stage, counts[..n], enemy);
      AddCountsGet(index, stage, counts[..n], last);
      GetPut(before, last, Get(before, last).GetOr([]) + [(stage, count)], enemy);
      GetLast(counts, enemy);
      GetLast(counts, last);
    }
  }

  lemma GetLast<V>(m: Pairs<V>, k: string)
    requires m != [] && Distinct(m)
    ensures var n := |m| - 1; Get(m, k) == if k == m[n].0 then Some(m[n].1) else Get(m[..n], k)
    ensures Get(m[..|m| - 1], m[|m| - 1].0) == None
  {
    var n := |m| - 1;
    GetIsHasKey(m[..n], m[n].0);
    assert !HasKey(m[..n], m[n].0);
    PutAppend(m[..n], m[n].0, m[n].1);
    assert m == Put(m[..n], m[n].0, m[n].1);
    GetPut(m[..n], m[n].0, m[n].1, k);
  }

  lemma {:induction false} AddCountsDistinct(index: AppearanceIndex, stage: string, counts: Pairs<int>)
    requires Distinct(index)
    ensures Distinct(AddCounts(index, stage, counts))
  {
    if counts != [] {
      var n := |counts| - 1;
      var before := AddCounts(index, stage, counts[..n]);
      AddCountsDistinct(index, stage, counts[..n]);
      PutDistinct(before, counts[n].0, Get(before, counts[n].0).GetOr([]) + [(stage, counts[n].1)]);
    }
  }

  lemma {:induction false} IndexDistinct(stages: Fields, read: LevelFiles, parse: FloatParser)
    ensures Distinct(IndexOf(stages, read, parse))
  {
    if stages != [] {
      var n := |stages| - 1;
      IndexDistinct(stages[..n], read, parse);
      AddCountsDistinct(IndexOf(stages[..n], read, parse), stages[n].0, StageCounts(stages[n].1, read, parse));
    }
  }

  /** The index holds, for every enemy, its stages in table order and nothing for an enemy of none. */
  lemma {:induction false} IndexIsExact(stages: Fields, enemy: string, read: LevelFiles, parse: FloatParser)
    ensures var rows := StagesOf(stages, enemy, read, parse);
            Get(IndexOf(stages, read, parse), enemy) == if rows == [] then None else Some(rows)
  {
    if stages != [] {
      var n := |stages| - 1;
      IndexIsExact(stages[..n], enemy, read, parse);
      var counts := StageCounts(stages[n].1, read, parse);
      assert Distinct(counts) by {
        var level := LevelOf(stages[n].1, read);
        if level.Some? { CountsDistinct(LevelSpawns(level.value, parse)); }
      }
      AddCountsGet(IndexOf(stages[..n], read, parse), stages[n].0, counts, enemy);
    }
  }

  ghost predicate Spawns(stage: Value, enemy: string, read: LevelFiles, parse: FloatParser, count: int) {
    var level := LevelOf(stage, read);
    && level.Some?
    && Total(LevelSpawns(level.value, parse), enemy) > 0
    && count == WrapI64(Total(LevelSpawns(level.value, parse), enemy))
  }

  lemma CountsAreSpawns(stage: Value, enemy: string, read: LevelFiles, parse: FloatParser, count: int)
    ensures Get(StageCounts(stage, read, parse), enemy) == Some(count) <==> Spawns(stage, enemy, read, parse, count)
  {
    var level := LevelOf(stage, read);
    if level.Some? {
      CountsAreTotals(LevelSpawns(level.value, parse), enemy);
    }
  }

  ghost predicate SpawnsRow(stage: (string, Value), enemy: string, read: LevelFiles, parse: FloatParser,
                            row: (string, int)) {
    stage.0 == row.0 && Spawns(stage.1, enemy, read, parse, row.1)
  }

  lemma StagesStep(stages: Fields, enemy: string, read: LevelFiles, parse: FloatParser, row: (string, int))
    requires stages != []
    ensures row in StagesOf(stages, enemy, read, parse) <==>
              row in StagesOf(stages[..|stages| - 1], enemy, read, parse)
              || SpawnsRow(stages[|stages| - 1], enemy, read, parse, row)
  {
    CountsAreSpawns(stages[|stages| - 1].1, enemy, read, parse, row.1);
    hide Spawns, StageCounts, Get;
  }

  ghost predicate SomeSpawnsRow(stages: Fields, enemy: string, read: LevelFiles, parse: FloatParser,
                                row: (string, int)) {
    exists i :: 0 <= i < |stages| && SpawnsRow(stages[i], enemy, read, parse, row)
  }

  lemma SomeStep(stages: Fields, enemy: string, read: LevelFiles, parse: FloatParser, row: (string, int))
    requires stages != []
    ensures SomeSpawnsRow(stages, enemy, read, parse, row) <==>
              SomeSpawnsRow(stages[..|stages| - 1], enemy, read, parse, row)
              || SpawnsRow(stages[|stages| - 1], enemy, read, parse, row)
  {
    hide SpawnsRow;
    var n := |stages| - 1;
    if SomeSpawnsRow(stages[..n], enemy, read, parse, row) {
      var i :| 0 <= i < n && SpawnsRow(stages[..n][i], enemy, read, parse, row);
      assert SpawnsRow(stages[i], enemy, read, parse, row);
    }
    if SomeSpawnsRow(stages, enemy, read, parse, row) {
      var i :| 0 <= i < |stages| && SpawnsRow(stages[i], enemy, read, parse, row);
      if i < n {
        assert SpawnsRow(stages[..n][i], enemy, read, parse, row);
      }
    }
  }

  /** A stage is listed with a count exactly when its level spawns the enemy, and the count is the
      level's total reduced to 64 bits. */
  lemma {:induction false} StagesAreSpawns(stages: Fields, enemy: string, read: LevelFiles, parse: FloatParser,
                                           row: (string, int))
    ensures row in StagesOf(stages, enemy, read, parse) <==> SomeSpawnsRow(stages, enemy, read, parse, row)
  {
    if stages != [] {
      hide StagesOf, SpawnsRow, SomeSpawnsRow;
      StagesStep(stages, enemy, read, parse, row);
      SomeStep(stages, enemy, read, parse, row);
      StagesAreSpawns(stages[..|stages| - 1], enemy, read, parse, row);
    }
  }

  /** The stages, in table order, that list the enemy. */
  ghost function Listing(stages: Fields, enemy: string, read: LevelFiles, parse: FloatParser): seq<string> {
    if stages == [] then []
    else
      var (id, stage) := stages[|stages| - 1];
      Listing(stages[..|stages| - 1], enemy, read, parse)
      + (if exists count :: Spawns(stage, enemy, read, parse, count) then [id] else [])
  }

  lemma {:induction false} RowsInOrder(stages: Fields, enemy: string, read: LevelFiles, parse: FloatParser)
    ensures KeysOf(StagesOf(stages, enemy, read, parse)) == Listing(stages, enemy, read, parse)
  {
    if stages != [] {
      var n := |stages| - 1;
      RowsInOrder(stages[..n], enemy, read, parse);
      var count := Get(StageCounts(stages[n].1, read, parse), enemy);
      if count.Some? {
        CountsAreSpawns(stages[n].1, enemy, read, parse, count.value);
      } else {
        forall c ensures !Spawns(stages[n].1, enemy, read, parse, c) {
          CountsAreSpawns(stages[n].1, enemy, read, parse, c);
        }
      }
      hide Spawns, StageCounts;
    }
  }

  /** Which file a stage's level is read from: its id in lower case, with slashes. */
  lemma LevelIsRead(stage: Value, read: LevelFiles, path: string)
    requires Field(stage, "levelId").Some? && Field(stage, "levelId").value.Str?
    requires var id := Field(stage, "levelId").value.s;
             && |path| == |id| + 5 && path[|id|..] == ".json"
             && forall i :: 0 <= i < |id| ==>
                  path[i] == if id[i] == '\\' then '/' else if 'A' <= id[i] <= 'Z' then (id[i] as int + 32) as char else id[i]
    ensures LevelOf(stage, read) == if read(path).Some? && read(path).value.Object? then read(path) else None
  {
    var id := Field(stage, "levelId").value.s;
    assert path == path[..|id|] + path[|id|..];
    assert PathOf(id) == path;
  }

  /** `enemy_appearance_index`, over the projected levels. */
  method EnemyAppearanceIndex(stages: Fields, read: LevelFiles, parse: FloatParser) returns (index: OrderedMap<Rows>)
    ensures fresh(index) && index.Valid() && index.entries == IndexOf(stages, read, parse)
  {
    index := new OrderedMap<Rows>();
    for i := 0 to |stages|
      invariant fresh(index) && index.Valid() && index.entries == IndexOf(stages[..i], read, parse)
    {
      assert stages[..i + 1][..i] == stages[..i];
      var (id, stage) := stages[i];
      var levelId := Field(stage, "levelId");
      if levelId.None? || !levelId.value.Str? { continue; }
      var file := read(PathOf(levelId.value.s));
      if file.None? { continue; }
      WavesAreEnough(file.value, parse);
      var level := Parsing.Project(file.value, WAVES);
      if !level.Object? { continue; }
      var counts := SpawnCounts(level, parse);
      RecordCounts(index, id, counts.entries);
    }
    assert stages[..|stages|] == stages;
  }

  method RecordCounts(index: OrderedMap<Rows>, stage: string, counts: Pairs<int>)
    requires index.Valid()
    modifies index
    ensures index.Valid() && index.entries == AddCounts(old(index.entries), stage, counts)
  {
    for i := 0 to |counts|
      invariant index.Valid() && index.entries == AddCounts(old(index.entries), stage, counts[..i])
    {
      assert counts[..i + 1][..i] == counts[..i];
      var (enemy, count) := counts[i];
      var rows := index.Lookup(enemy);
      var _ := index.Insert(enemy, rows.GetOr([]) + [(stage, count)]);
    }
    assert counts[..|counts|] == counts;
  }

  // ---------------------------------------------------------------------------------------
  // The copy in the database
  // ---------------------------------------------------------------------------------------

  type Flat = seq<(string, string, int)>

  function FlatRows(enemy: string, rows: Rows): Flat {
    if rows == [] then []
    else FlatRows(enemy, rows[..|rows| - 1]) + [(enemy, rows[|rows| - 1].0, rows[|rows| - 1].1)]
  }

  /** `sqlite_export`: all rows of all enemies, one after the other. */
  function Export(index: AppearanceIndex): Flat {
    if index == [] then []
    else Export(index[..|index| - 1]) + FlatRows(index[|index| - 1].0, index[|index| - 1].1)
  }

  /** `enemy_appearances`, by its primary key of enemy and ordinal. */
  type Table = map<(string, nat), (string, int)>

  method InsertRows(rows: Flat) returns (t: Table)
    ensures t == TableOf(rows)
  {
    t := map[];
    for ordinal := 0 to |rows|
      invariant t == TableOf(rows[..ordinal])
    {
      assert rows[..ordinal + 1][..ordinal] == rows[..ordinal];
      var (enemy, stage, count) := rows[ordinal];
      t := t[(enemy, ordinal) := (stage, count)];
    }
    assert rows[..|rows|] == rows;
  }

  function TableOf(rows: Flat): Table {
    if rows == [] then map[]
    else
      var (enemy, stage, count) := rows[|rows| - 1];
      TableOf(rows[..|rows| - 1])[(enemy, (|rows| - 1) as nat) := (stage, count)]
  }

  ghost predicate SelectedAt(t: Table, enemy: string, out: Rows, os: seq<nat>) {
    && Tables.Ascending(os) && |os| == |out|
    && (forall i :: 0 <= i < |os| ==> (enemy, os[i]) in t && t[(enemy, os[i])] == out[i])
    && (forall o :: (enemy, o) in t ==> o in os)
  }

  /** `SELECT stage,count … WHERE enemy=? ORDER BY ordinal` */
  ghost predicate IsSelection(t: Table, enemy: string, out: Rows) {
    exists os :: SelectedAt(t, enemy, out, os)
  }

  function Selected(rows: Flat, enemy: string): Rows {
    if rows == [] then []
    else
      var before, (e, stage, count) := Selected(rows[..|rows| - 1], enemy), rows[|rows| - 1];
      if e == enemy then before + [(stage, count)] else before
  }

  ghost predicate Below(t: Table, n: nat) {
    forall k :: k in t ==> k.1 < n
  }

  lemma SelectMore(t: Table, enemy: string, out: Rows, os: seq<nat>, n: nat, e: string, row: (string, int))
    requires SelectedAt(t, enemy, out, os) && Below(t, n)
    ensures SelectedAt(t[(e, n) := row], enemy, if e == enemy then out + [row] else out,
                       if e == enemy then os + [n] else os)
    ensures Below(t[(e, n) := row], n + 1)
  {
    var t' := t[(e, n) := row];
    assert forall i :: 0 <= i < |os| ==> (enemy, os[i]) in t;
    if e == enemy {
      var os' := os + [n];
      assert os'[|os|] == n;
      forall o | (enemy, o) in t' ensures o in os' {
        assert o != n ==> (enemy, o) in t;
      }
    }
  }

  lemma {:induction false} SelectedIsSelection(rows: Flat, enemy: string) returns (os: seq<nat>)
    ensures SelectedAt(TableOf(rows), enemy, Selected(rows, enemy), os) && Below(TableOf(rows), |rows|)
  {
    os := [];
    if rows != [] {
      var n := |rows| - 1;
      var before := SelectedIsSelection(rows[..n], enemy);
      SelectMore(TableOf(rows[..n]), enemy, Selected(rows[..n], enemy), before, n, rows[n].0, (rows[n].1, rows[n].2));
      hide SelectedAt, Below;
      os := if rows[n].0 == enemy then before + [n] else before;
    }
  }

  /** Whatever order the rows are found in, the query gives the enemy's rows in insertion order. */
  lemma SelectionIsUnique(rows: Flat, enemy: string, out: Rows)
    ensures IsSelection(TableOf(rows), enemy, out) <==> out == Selected(rows, enemy)
  {
    var os := SelectedIsSelection(rows, enemy);
    if IsSelection(TableOf(rows), enemy, out) {
      var os' :| SelectedAt(TableOf(rows), enemy, out, os');
      SelectedOrdinals(TableOf(rows), enemy, Selected(rows, enemy), os, out, os');
      assert out == Selected(rows, enemy);
    }
  }

  lemma SelectedOrdinals(t: Table, enemy: string, a: Rows, os: seq<nat>, b: Rows, os': seq<nat>)
    requires SelectedAt(t, enemy, a, os) && SelectedAt(t, enemy, b, os')
    ensures a == b
  {
    forall o ensures o in os <==> o in os' {
      if o in os {
        var i :| 0 <= i < |os| && os[i] == o;
        assert (enemy, os[i]) in t;
      }
      if o in os' {
        var i :| 0 <= i < |os'| && os'[i] == o;
        assert (enemy, os'[i]) in t;
      }
    }
    Tables.AscendingIsUnique(os, os');
  }

  lemma {:induction false} SelectedAppend(a: Flat, b: Flat, enemy: string)
    ensures Selected(a + b, enemy) == Selected(a, enemy) + Selected(b, enemy)
  {
    if b == [] {
      assert a + b == a;
    } else {
      SelectedAppend(a, b[..|b| - 1], enemy);
      assert (a + b)[..|a + b| - 1] == a + b[..|b| - 1];
    }
  }

  lemma {:induction false} SelectedFlat(e: string, rows: Rows, enemy: string)
    ensures Selected(FlatRows(e, rows), enemy) == if e == enemy then rows else []
  {
    if rows != [] {
      var n := |rows| - 1;
      SelectedFlat(e, rows[..n], enemy);
      var flat := FlatRows(e, rows);
      assert flat[..|flat| - 1] == FlatRows(e, rows[..n]);
    }
  }

  lemma {:induction false} SelectedExport(index: AppearanceIndex, enemy: string)
    requires Distinct(index)
    ensures Selected(Export(index), enemy) == Get(index, enemy).GetOr([])
  {
    if index != [] {
      var n := |index| - 1;
      SelectedExport(index[..n], enemy);
      SelectedAppend(Export(index[..n]), FlatRows(index[n].0, index[n].1), enemy);
      SelectedFlat(index[n].0, index[n].1, enemy);
      GetLast(index, enemy);
    }
  }

  /** The copy answers as the index does: for every enemy, exactly its stages, in table order. */
  lemma CopyIsExact(stages: Fields, enemy: string, read: LevelFiles, parse: FloatParser, out: Rows)
    ensures IsSelection(TableOf(Export(IndexOf(stages, read, parse))), enemy, out) <==>
              out == StagesOf(stages, enemy, read, parse)
  {
    var index := IndexOf(stages, read, parse);
    IndexDistinct(stages, read, parse);
    SelectionIsUnique(Export(index), enemy, out);
    SelectedExport(index, enemy);
    IndexIsExact(stages, enemy, read, parse);
  }
}
