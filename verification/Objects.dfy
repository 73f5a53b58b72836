/** The cache of loaded JSON objects with a heap budget. Its lock makes every call one step. */
module Objects {
  import opened Prelude
  import opened OrderedPairs
  import opened Json

  const USIZE_MAX := 0xffff_ffff_ffff_ffff
  const BUDGET := 0x80_0000

  /** Sizes of the platform's types, and the capacities its allocations happen to have. */
  datatype Layout = Layout(textSize: nat, valueSize: nat, wordSize: nat, objectSize: nat,
                           capacity: string -> nat, slots: seq<Value> -> nat)

  function Min(a: nat, b: nat): nat {
    if a <= b then a else b
  }

  function AddUp(a: nat, b: nat): nat {
    Min(a + b, USIZE_MAX)
  }

  function MultiplyUp(a: nat, b: nat): nat {
    Min(a * b, USIZE_MAX)
  }

  /** The least power of two that is at least `n`; zero has one too. */
  function PowerOver(n: nat, power: nat): nat
    requires power > 0
    decreases n - power
  {
    if n <= power then power else PowerOver(n, 2 * power)
  }

  /** `checked_next_power_of_two`, or the greatest number where that overflows. */
  function NextPower(n: nat): nat {
    var p := PowerOver(n, 1);
    if p > USIZE_MAX then USIZE_MAX else p
  }

  // ---------------------------------------------------------------------------------------
  // Charges
  // ---------------------------------------------------------------------------------------

  function ObjectCharge(fields: Fields, m: Layout): nat
    decreases fields, 1
  {
    var table := MultiplyUp(NextPower(|fields|), AddUp(AddUp(m.textSize, m.valueSize), MultiplyUp(4, m.wordSize)));
    FieldsCharge(fields, AddUp(table, MultiplyUp(4, m.wordSize)), m)
  }

  function FieldsCharge(fields: Fields, start: nat, m: Layout): nat
    decreases fields, 0
  {
    if fields == [] then start
    else
      var e := fields[|fields| - 1];
      assert e.1 < e;
      AddUp(AddUp(FieldsCharge(fields[..|fields| - 1], start, m), m.capacity(e.0)), ValueCharge(e.1, m))
  }

  function ItemsCharge(items: seq<Value>, start: nat, m: Layout): nat
    decreases items, 0
  {
    if items == [] then start
    else AddUp(ItemsCharge(items[..|items| - 1], start, m), ValueCharge(items[|items| - 1], m))
  }

  function ValueCharge(v: Value, m: Layout): nat
    decreases v, 2
  {
    match v
    case Str(s) => m.capacity(s)
    case Array(items) => ItemsCharge(items, MultiplyUp(m.slots(items), m.valueSize), m)
    case Object(fields) => ObjectCharge(fields, m)
    case _ => 0
  }

  /** The text held in a tree: all keys and strings at all depths. */
  function FieldsText(fields: Fields): nat
    decreases fields, 0
  {
    if fields == [] then 0
    else
      var e := fields[|fields| - 1];
      assert e.1 < e;
      FieldsText(fields[..|fields| - 1]) + |e.0| + ValueText(e.1)
  }

  function ItemsText(items: seq<Value>): nat
    decreases items, 0
  {
    if items == [] then 0 else ItemsText(items[..|items| - 1]) + ValueText(items[|items| - 1])
  }

  function ValueText(v: Value): nat
    decreases v, 2
  {
    match v
    case Str(s) => |s|
    case Array(items) => ItemsText(items)
    case Object(fields) => FieldsText(fields)
    case _ => 0
  }

  /** Objects nested in a tree, the tree's own root included. */
  function FieldsObjects(fields: Fields): nat
    decreases fields, 0
  {
    if fields == [] then 1
    else
      var e := fields[|fields| - 1];
      assert e.1 < e;
      FieldsObjects(fields[..|fields| - 1]) + ValueObjects(e.1)
  }

  function ItemsObjects(items: seq<Value>): nat
    decreases items, 0
  {
    if items == [] then 0 else ItemsObjects(items[..|items| - 1]) + ValueObjects(items[|items| - 1])
  }

  function ValueObjects(v: Value): nat
    decreases v, 2
  {
    match v
    case Array(items) => ItemsObjects(items)
    case Object(fields) => FieldsObjects(fields)
    case _ => 0
  }

  /** What a tree certainly occupies: its text, and a minimal table for each of its objects. */
  function Weight(text: nat, objects: nat, m: Layout): nat {
    Min(text + objects * (4 * m.wordSize), USIZE_MAX)
  }

  ghost predicate HoldsText(m: Layout) {
    forall s :: m.capacity(s) >= |s|
  }

  lemma WeightAdds(t: nat, o: nat, t': nat, o': nat, m: Layout)
    ensures AddUp(Weight(t, o, m), Weight(t', o', m)) == Weight(t + t', o + o', m)
  {
    assert (o + o') * (4 * m.wordSize) == o * (4 * m.wordSize) + o' * (4 * m.wordSize);
  }

  lemma {:induction false} ChargeCoversFields(fields: Fields, start: nat, m: Layout)
    requires HoldsText(m) && start >= Weight(0, 1, m)
    ensures FieldsCharge(fields, start, m) >= Weight(FieldsText(fields), FieldsObjects(fields), m)
    decreases fields, 0
  {
    if fields != [] {
      var front, e := fields[..|fields| - 1], fields[|fields| - 1];
      assert e.1 < e;
      ChargeCoversFields(front, start, m);
      ChargeCoversValue(e.1, m);
      WeightAdds(FieldsText(front), FieldsObjects(front), |e.0|, 0, m);
      WeightAdds(FieldsText(front) + |e.0|, FieldsObjects(front), ValueText(e.1), ValueObjects(e.1), m);
    }
  }

  lemma {:induction false} ChargeCoversItems(items: seq<Value>, start: nat, m: Layout)
    requires HoldsText(m)
    ensures ItemsCharge(items, start, m) >= Weight(ItemsText(items), ItemsObjects(items), m)
    decreases items, 0
  {
    if items != [] {
      var front, v := items[..|items| - 1], items[|items| - 1];
      ChargeCoversItems(front, start, m);
      ChargeCoversValue(v, m);
      WeightAdds(ItemsText(front), ItemsObjects(front), ValueText(v), ValueObjects(v), m);
    }
  }

  lemma {:induction false} ChargeCoversValue(v: Value, m: Layout)
    requires HoldsText(m)
    ensures ValueCharge(v, m) >= Weight(ValueText(v), ValueObjects(v), m)
    decreases v, 2
  {
    match v
    case Array(items) => ChargeCoversItems(items, MultiplyUp(m.slots(items), m.valueSize), m);
    case Object(fields) => ChargeCoversObject(fields, m);
    case _ =>
  }

  /** However deep the tree and however large its parts, saturation included, the charge covers all
      its text and all its nested objects. */
  lemma {:induction false} ChargeCoversObject(fields: Fields, m: Layout)
    requires HoldsText(m)
    ensures ObjectCharge(fields, m) >= Weight(FieldsText(fields), FieldsObjects(fields), m)
    decreases fields, 1
  {
    var table := MultiplyUp(NextPower(|fields|), AddUp(AddUp(m.textSize, m.valueSize), MultiplyUp(4, m.wordSize)));
    ChargeCoversFields(fields, AddUp(table, MultiplyUp(4, m.wordSize)), m);
  }

  // ---------------------------------------------------------------------------------------
  // The charge without saturation
  // ---------------------------------------------------------------------------------------

  predicate IsPower(p: nat) {
    p == 1 || (p > 0 && p % 2 == 0 && IsPower(p / 2))
  }

  lemma {:induction false} PowerOverIsLeast(n: nat, power: nat)
    requires IsPower(power) && (power == 1 || power / 2 < n)
    ensures var p := PowerOver(n, power); IsPower(p) && n <= p && (p == 1 || p / 2 < n)
    decreases n - power
  {
    if n > power {
      assert 2 * power / 2 == power && 2 * power % 2 == 0;
      PowerOverIsLeast(n, 2 * power);
    }
  }

  /** The table of an object has the least power of two of slots that holds its fields. */
  lemma NextPowerIsLeast(n: nat)
    requires n <= USIZE_MAX / 2
    ensures var p := NextPower(n); IsPower(p) && n <= p && (p == 1 || p / 2 < n)
  {
    PowerOverIsLeast(n, 1);
  }

  /** What a tree is charged where no sum overflows: for every object its table, for every key and
      string its capacity, for every array its slots. */
  function FieldsBytes(fields: Fields, m: Layout): nat
    decreases fields, 0
  {
    if fields == [] then 0
    else
      var e := fields[|fields| - 1];
      assert e.1 < e;
      FieldsBytes(fields[..|fields| - 1], m) + m.capacity(e.0) + ValueBytes(e.1, m)
  }

  function ItemsBytes(items: seq<Value>, m: Layout): nat
    decreases items, 0
  {
    if items == [] then 0 else ItemsBytes(items[..|items| - 1], m) + ValueBytes(items[|items| - 1], m)
  }

  function TableBytes(n: nat, m: Layout): nat {
    NextPower(n) * (m.textSize + m.valueSize + 4 * m.wordSize) + 4 * m.wordSize
  }

  function ValueBytes(v: Value, m: Layout): nat
    decreases v, 2
  {
    match v
    case Str(s) => m.capacity(s)
    case Array(items) => m.slots(items) * m.valueSize + ItemsBytes(items, m)
    case Object(fields) => TableBytes(|fields|, m) + FieldsBytes(fields, m)
    case _ => 0
  }

  lemma TableSaturates(n: nat, m: Layout)
    ensures AddUp(MultiplyUp(NextPower(n), AddUp(AddUp(m.textSize, m.valueSize), MultiplyUp(4, m.wordSize))),
                  MultiplyUp(4, m.wordSize)) == Min(TableBytes(n, m), USIZE_MAX)
  {
    var p, width := NextPower(n), m.textSize + m.valueSize + 4 * m.wordSize;
    PowerIsPositive(n, 1);
    if width > USIZE_MAX {
      assert p * USIZE_MAX >= USIZE_MAX && p * width >= USIZE_MAX by { Grows(p, USIZE_MAX); Grows(p, width); }
    }
  }

  lemma Grows(p: nat, n: nat)
    requires p > 0
    ensures p * n >= n
  {
  }

  lemma {:induction false} PowerIsPositive(n: nat, power: nat)
    requires power > 0
    ensures PowerOver(n, power) > 0
    decreases n - power
  {
    if n > power { PowerIsPositive(n, 2 * power); }
  }

  lemma {:induction false} FieldsSaturate(fields: Fields, start: nat, m: Layout)
    ensures FieldsCharge(fields, Min(start, USIZE_MAX), m) == Min(start + FieldsBytes(fields, m), USIZE_MAX)
    decreases fields, 0
  {
    if fields != [] {
      var e := fields[|fields| - 1];
      assert e.1 < e;
      FieldsSaturate(fields[..|fields| - 1], start, m);
      ValueSaturates(e.1, m);
    }
  }

  lemma {:induction false} ItemsSaturate(items: seq<Value>, start: nat, m: Layout)
    ensures ItemsCharge(items, Min(start, USIZE_MAX), m) == Min(start + ItemsBytes(items, m), USIZE_MAX)
    decreases items, 0
  {
    if items != [] {
      ItemsSaturate(items[..|items| - 1], start, m);
      ValueSaturates(items[|items| - 1], m);
    }
  }

  lemma {:induction false} ValueSaturates(v: Value, m: Layout)
    ensures Min(ValueCharge(v, m), USIZE_MAX) == Min(ValueBytes(v, m), USIZE_MAX)
    decreases v, 2
  {
    match v
    case Array(items) => ItemsSaturate(items, m.slots(items) * m.valueSize, m);
    case Object(fields) => ObjectSaturates(fields, m);
    case _ =>
  }

  /** The charge is that sum, or the greatest number where it is greater. */
  lemma {:induction false} ObjectSaturates(fields: Fields, m: Layout)
    ensures ObjectCharge(fields, m) == Min(TableBytes(|fields|, m) + FieldsBytes(fields, m), USIZE_MAX)
    decreases fields, 1
  {
    TableSaturates(|fields|, m);
    FieldsSaturate(fields, TableBytes(|fields|, m), m);
  }

  // ---------------------------------------------------------------------------------------
  // Compaction
  // ---------------------------------------------------------------------------------------

  /** `compact_objects`: rebuilt maps at every depth, and the same tree. */
  method CompactObjects(fields: Fields) returns (r: Fields)
    requires DistinctDeep(Object(fields))
    ensures r == fields
    decreases fields, 0
  {
    r := [];
    for i := 0 to |fields|
      invariant r == fields[..i]
    {
      var e := fields[i];
      assert e.1 < e;
      var value := Compact(e.1);
      assert !HasKey(r, e.0);
      PutAppend(r, e.0, value);
      r := Put(r, e.0, value);
    }
  }

  method Compact(v: Value) returns (r: Value)
    requires DistinctDeep(v)
    ensures r == v
    decreases v, 1
  {
    match v
    case Object(fields) =>
      var compacted := CompactObjects(fields);
      r := Object(compacted);
    case Array(items) =>
      var values := items;
      for i := 0 to |values|
        invariant values == items
      {
        var value := Compact(items[i]);
        values := values[i := value];
      }
      r := Array(values);
    case _ =>
      r := v;
  }

  // ---------------------------------------------------------------------------------------
  // The cache
  // ---------------------------------------------------------------------------------------

  datatype Entry = Entry(key: string, value: Fields, charge: nat)

  function Total(entries: seq<Entry>): nat {
    if entries == [] then 0 else entries[0].charge + Total(entries[1..])
  }

  /** What is left when the oldest entries make room for a new charge. */
  function Evict(entries: seq<Entry>, charge: nat): seq<Entry> {
    if entries == [] || Total(entries) + charge <= BUDGET then entries else Evict(entries[1..], charge)
  }

  /** Eviction drops no more than it must: what stays is the longest suffix with room for the charge. */
  lemma {:induction false} EvictIsLeast(entries: seq<Entry>, charge: nat, i: nat)
    requires charge <= BUDGET && i <= |entries|
    ensures var kept := Evict(entries, charge);
            && |kept| <= |entries| && kept == entries[|entries| - |kept|..]
            && Total(kept) + charge <= BUDGET
            && (Total(entries[i..]) + charge <= BUDGET ==> |entries| - i <= |kept|)
  {
    if entries == [] {
    } else if Total(entries) + charge <= BUDGET {
    } else {
      assert entries[0..] == entries;
      EvictIsLeast(entries[1..], charge, if i == 0 then 0 else i - 1);
      var kept := Evict(entries[1..], charge);
      assert kept == entries[|entries| - |kept|..];
      if i > 0 {
        assert entries[1..][i - 1..] == entries[i..];
      }
    }
  }

  lemma {:induction false} TotalAppend(entries: seq<Entry>, e: Entry)
    ensures Total(entries + [e]) == Total(entries) + e.charge
  {
    if entries == [] {
      assert (entries + [e])[1..] == [];
    } else {
      TotalAppend(entries[1..], e);
      assert (entries + [e])[1..] == entries[1..] + [e];
    }
  }

  lemma PrefixDistinct(entries: seq<Entry>, i: nat)
    requires i <= |entries| && UniqueKeys(entries)
    ensures UniqueKeys(entries[i..])
  {
  }

  ghost predicate UniqueKeys(entries: seq<Entry>) {
    forall i, j :: 0 <= i < j < |entries| ==> entries[i].key != entries[j].key
  }

  function Charge(value: Fields, m: Layout): nat {
    AddUp(ObjectCharge(value, m), m.objectSize + 2 * m.wordSize)
  }

  ghost predicate HoldsKey(entries: seq<Entry>, key: string) {
    exists e :: e in entries && e.key == key
  }

  /** The cache with one more entry: the oldest make room, and an oversized one is not kept. */
  function Stored(entries: seq<Entry>, e: Entry): seq<Entry> {
    if e.charge <= BUDGET then Evict(entries, e.charge) + [e] else entries
  }

  /** The cache after a new entry, said of its entries: one that fits in eight mebibytes is the newest,
      behind the longest suffix that leaves room for it; a larger one changes nothing. */
  lemma StoredExactly(entries: seq<Entry>, e: Entry, i: nat)
    requires i <= |entries|
    ensures e.charge > 8 * 1024 * 1024 ==> Stored(entries, e) == entries
    ensures e.charge <= 8 * 1024 * 1024 ==>
              var cache := Stored(entries, e);
              && cache != [] && cache[|cache| - 1] == e && |cache| - 1 <= |entries|
              && cache[..|cache| - 1] == entries[|entries| - (|cache| - 1)..]
              && Total(cache) <= 8 * 1024 * 1024
              && (Total(entries[i..]) + e.charge <= 8 * 1024 * 1024 ==> |entries| - i <= |cache| - 1)
  {
    if e.charge <= BUDGET {
      EvictIsLeast(entries, e.charge, i);
      TotalAppend(Evict(entries, e.charge), e);
    }
  }

  /** `load` gives what a key's loader returns; a generation's loaders do not change their answers. */
  class Objects {
    const m: Layout
    const load: string -> Result<Fields, string>
    var entries: seq<Entry>

    ghost predicate Valid()
      reads this
    {
      && UniqueKeys(entries)
      && Total(entries) <= BUDGET
      && (forall e :: e in entries ==> load(e.key) == Ok(e.value) && e.charge == Charge(e.value, m))
    }

    constructor (m: Layout, load: string -> Result<Fields, string>)
      ensures Valid() && this.m == m && this.load == load && entries == []
    {
      this.m, this.load, entries := m, load, [];
    }

    method Find(key: string) returns (found: Option<Fields>)
      requires Valid()
      ensures found.Some? <==> HoldsKey(entries, key)
      ensures found.Some? ==> load(key) == Ok(found.value)
    {
      for i := 0 to |entries|
        invariant forall e :: e in entries[..i] ==> e.key != key
      {
        if entries[i].key == key {
          assert entries[i] in entries;
          return Some(entries[i].value);
        }
      }
      assert entries[..|entries|] == entries;
      return None;
    }

    /** Pops the oldest entries, keeping count of what is still used. */
    method MakeRoom(charge: nat)
      requires Valid() && charge <= BUDGET
      modifies this`entries
      ensures Valid() && entries == Evict(old(entries), charge)
    {
      EvictIsLeast(entries, charge, 0);
      var used := Total(entries);
      while used + charge > BUDGET
        invariant Valid() && used == Total(entries)
        invariant Evict(entries, charge) == Evict(old(entries), charge)
        decreases |entries|
      {
        assert entries != [];
        PrefixDistinct(entries, 1);
        used := used - entries[0].charge;
        entries := entries[1..];
      }
    }

    method Store(key: string, value: Fields)
      requires Valid() && !HoldsKey(entries, key) && load(key) == Ok(value)
      modifies this`entries
      ensures Valid() && entries == Stored(old(entries), Entry(key, value, Charge(value, m)))
    {
      hide Charge;
      var charge := Charge(value, m);
      if charge <= BUDGET {
        EvictIsLeast(entries, charge, 0);
        MakeRoom(charge);
        TotalAppend(entries, Entry(key, value, charge));
        entries := entries + [Entry(key, value, charge)];
      }
    }

    /** `get_or_load`. A caller cannot tell the cache from the loader. */
    method GetOrLoad(key: string) returns (r: Result<Fields, string>)
      requires Valid() && (load(key).Ok? ==> DistinctDeep(Object(load(key).value)))
      modifies this`entries
      ensures Valid() && r == load(key)
      ensures entries == if r.Err? || HoldsKey(old(entries), key) then old(entries)
                         else Stored(old(entries), Entry(key, r.value, Charge(r.value, m)))
    {
      hide Charge, Stored;
      var found := Find(key);
      if found.Some? { return Ok(found.value); }
      var loaded := load(key);
      if loaded.Err? { return loaded; }
      var value := CompactObjects(loaded.value);
      Store(key, value);
      return Ok(value);
    }
  }
}
