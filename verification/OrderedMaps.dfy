/** The insertion-ordered map as the repository builds it: an entry vector and a position index. */
module OrderedMaps {
  import opened Prelude
  import opened OrderedPairs

  class OrderedMap<V> {
    var entries: seq<(string, V)>
    var index: map<string, nat>

    ghost predicate Valid()
      reads this
    {
      Indexes(index, entries)
    }

    constructor ()
      ensures Valid() && entries == []
    {
      entries, index := [], map[];
    }

    lemma ValidDistinct()
      requires Valid()
      ensures Distinct(entries)
    {
      forall i, j | 0 <= i < j < |entries| ensures entries[i].0 != entries[j].0 {
        assert index[entries[i].0] == i;
        assert index[entries[j].0] == j;
      }
    }

    method Insert(key: string, value: V) returns (oldValue: Option<V>)
      requires Valid()
      modifies this
      ensures Valid() && entries == Put(old(entries), key, value)
      ensures oldValue == Get(old(entries), key)
    {
      ValidDistinct();
      GetIsHasKey(entries, key);
      if key in index {
        var pos := index[key];
        GetAt(entries, pos);
        PutAt(entries, key, value, pos);
        oldValue := Some(entries[pos].1);
        entries := entries[pos := (key, value)];
      } else {
        assert !HasKey(entries, key);
        PutAppend(entries, key, value);
        oldValue := None;
        index := index[key := |entries|];
        entries := entries + [(key, value)];
      }
    }

    method Lookup(key: string) returns (value: Option<V>)
      requires Valid()
      ensures value == Get(entries, key)
    {
      GetIsHasKey(entries, key);
      if key in index {
        ValidDistinct();
        GetAt(entries, index[key]);
        return Some(entries[index[key]].1);
      }
      assert !HasKey(entries, key);
      return None;
    }
  }
}
