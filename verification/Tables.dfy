/** Rows with ordinals, as the compiler writes them and `ORDER BY ordinal` reads them back. */
module Tables {
  import opened Prelude
  import opened OrderedPairs

  ghost predicate Ascending(os: seq<nat>) {
    forall i, j :: 0 <= i < j < |os| ==> os[i] < os[j]
  }

  lemma SomeElement(s: seq<nat>) returns (x: nat)
    requires s != []
    ensures x in s
  {
    x := s[0];
  }

  /** There is one way to put a set of numbers in order. */
  lemma {:induction false} AscendingIsUnique(a: seq<nat>, b: seq<nat>)
    requires Ascending(a) && Ascending(b) && forall x :: x in a <==> x in b
    ensures a == b
  {
    if a + b == [] {
    } else if a == [] || b == [] {
      var _ := SomeElement(a + b);
      assert false;
    } else {
      var n, m := |a| - 1, |b| - 1;
      assert a[n] in b && b[m] in a;
      assert a[n] == b[m];
      forall x ensures x in a[..n] <==> x in b[..m] {
        assert x in a[..n] <==> x in a && x != a[n];
        assert x in b[..m] <==> x in b && x != b[m];
      }
      AscendingIsUnique(a[..n], b[..m]);
      assert a == a[..n] + [a[n]] && b == b[..m] + [b[m]];
    }
  }

  // ---------------------------------------------------------------------------------------
  // Upserts
  // ---------------------------------------------------------------------------------------

  datatype Row<V> = Row(value: V, ordinal: nat)
  type Table<V> = map<string, Row<V>>

  datatype Entry<V> = Entry(key: string, value: V, ordinal: nat)

  /** `INSERT … ON CONFLICT DO UPDATE SET value`: a row that exists keeps its ordinal. */
  function Upsert<V>(t: Table<V>, e: Entry<V>): Table<V> {
    if e.key in t then t[e.key := Row(e.value, t[e.key].ordinal)] else t[e.key := Row(e.value, e.ordinal)]
  }

  function Upserts<V>(es: seq<Entry<V>>): Table<V> {
    if es == [] then map[] else Upsert(Upserts(es[..|es| - 1]), es[|es| - 1])
  }

  function AsPairs<V>(es: seq<Entry<V>>): (r: Pairs<V>)
    ensures |r| == |es| && forall i :: 0 <= i < |es| ==> r[i] == (es[i].key, es[i].value)
  {
    if es == [] then [] else AsPairs(es[..|es| - 1]) + [(es[|es| - 1].key, es[|es| - 1].value)]
  }

  /** Entries come in source order, each with its own ordinal. */
  ghost predicate InOrder<V>(es: seq<Entry<V>>) {
    forall i, j :: 0 <= i < j < |es| ==> es[i].ordinal < es[j].ordinal
  }

  ghost predicate HoldsRows<V>(t: Table<V>, out: Pairs<V>) {
    forall i :: 0 <= i < |out| ==> out[i].0 in t && out[i].1 == t[out[i].0].value
  }

  ghost predicate Covers<V>(t: Table<V>, out: Pairs<V>) {
    forall k :: k in t ==> HasKey(out, k)
  }

  ghost predicate Ordered<V>(t: Table<V>, out: Pairs<V>) {
    forall i, j :: 0 <= i < j < |out| ==>
      out[i].0 in t && out[j].0 in t && t[out[i].0].ordinal <= t[out[j].0].ordinal
  }

  /** `SELECT key,value … ORDER BY ordinal`: every row once, by ascending ordinal. */
  ghost predicate IsListing<V>(t: Table<V>, out: Pairs<V>) {
    Distinct(out) && HoldsRows(t, out) && Covers(t, out) && Ordered(t, out)
  }

  ghost predicate StrictlyOrdered<V>(t: Table<V>, out: Pairs<V>) {
    forall i, j :: 0 <= i < j < |out| ==>
      out[i].0 in t && out[j].0 in t && t[out[i].0].ordinal < t[out[j].0].ordinal
  }

  /** The map fold and the upserted table hold the same rows, and the fold's order is that of the ordinals. */
  ghost predicate Matches<V>(t: Table<V>, folded: Pairs<V>) {
    HoldsRows(t, folded) && Covers(t, folded) && StrictlyOrdered(t, folded)
  }

  lemma MatchesDistinct<V>(t: Table<V>, folded: Pairs<V>)
    requires HoldsRows(t, folded) && StrictlyOrdered(t, folded)
    ensures Distinct(folded)
  {
  }

  lemma UpsertRows<V>(t: Table<V>, folded: Pairs<V>, e: Entry<V>)
    requires HoldsRows(t, folded) && Distinct(folded)
    ensures HoldsRows(Upsert(t, e), Put(folded, e.key, e.value))
  {
    if HasKey(folded, e.key) {
      var i := FirstAt(folded, e.key);
      PutAt(folded, e.key, e.value, i);
    } else {
      PutAppend(folded, e.key, e.value);
    }
  }

  lemma UpsertCovers<V>(t: Table<V>, folded: Pairs<V>, e: Entry<V>)
    requires Covers(t, folded)
    ensures Covers(Upsert(t, e), Put(folded, e.key, e.value))
  {
    PutKeys(folded, e.key, e.value);
    var after := Put(folded, e.key, e.value);
    forall k | k in Upsert(t, e) ensures HasKey(after, k) {
      if HasKey(folded, k) {
        var j := FirstAt(folded, k);
        assert after[j].0 == k;
      } else {
        assert after[|folded|].0 == k;
      }
    }
  }

  lemma UpdateOrdered<V>(t: Table<V>, folded: Pairs<V>, e: Entry<V>)
    requires StrictlyOrdered(t, folded) && HasKey(folded, e.key) && e.key in t
    ensures StrictlyOrdered(Upsert(t, e), Put(folded, e.key, e.value))
  {
    PutKeys(folded, e.key, e.value);
    var t', after := Upsert(t, e), Put(folded, e.key, e.value);
    forall i, j | 0 <= i < j < |after|
      ensures after[i].0 in t' && after[j].0 in t' && t'[after[i].0].ordinal < t'[after[j].0].ordinal
    {
      assert after[i].0 == folded[i].0 && after[j].0 == folded[j].0;
    }
  }

  lemma InsertOrdered<V>(t: Table<V>, folded: Pairs<V>, e: Entry<V>)
    requires HoldsRows(t, folded) && StrictlyOrdered(t, folded) && !HasKey(folded, e.key) && e.key !in t
    requires forall k :: k in t ==> t[k].ordinal < e.ordinal
    ensures StrictlyOrdered(Upsert(t, e), Put(folded, e.key, e.value))
  {
    PutAppend(folded, e.key, e.value);
    hide Put, HasKey;
  }

  lemma UpsertMatches<V>(t: Table<V>, folded: Pairs<V>, e: Entry<V>)
    requires Matches(t, folded) && forall k :: k in t ==> t[k].ordinal < e.ordinal
    ensures Matches(Upsert(t, e), Put(folded, e.key, e.value))
  {
    MatchesDistinct(t, folded);
    UpsertRows(t, folded, e);
    UpsertCovers(t, folded, e);
    if HasKey(folded, e.key) {
      UpdateOrdered(t, folded, e);
    } else {
      InsertOrdered(t, folded, e);
    }
  }

  lemma {:induction false} UpsertsMatch<V>(es: seq<Entry<V>>)
    requires InOrder(es)
    ensures Matches(Upserts(es), FromPairs(AsPairs(es)))
    ensures forall k, i :: k in Upserts(es) && |es| > 0 && i == |es| - 1 ==> Upserts(es)[k].ordinal <= es[i].ordinal
  {
    if es != [] {
      var n := |es| - 1;
      UpsertsMatch(es[..n]);
      assert AsPairs(es)[..n] == AsPairs(es[..n]);
      forall k | k in Upserts(es[..n]) ensures Upserts(es[..n])[k].ordinal < es[n].ordinal {
        if n > 0 {
          assert es[..n][n - 1] == es[n - 1];
        }
      }
      UpsertMatches(Upserts(es[..n]), FromPairs(AsPairs(es[..n])), es[n]);
    }
  }

  function Ordinals<V>(t: Table<V>, out: Pairs<V>): (r: seq<nat>)
    requires forall i :: 0 <= i < |out| ==> out[i].0 in t
    ensures |r| == |out| && forall i :: 0 <= i < |out| ==> r[i] == t[out[i].0].ordinal
  {
    seq(|out|, i requires 0 <= i < |out| => t[out[i].0].ordinal)
  }

  lemma SameKey<V>(t: Table<V>, folded: Pairs<V>, k: string, q: string)
    requires Covers(t, folded) && StrictlyOrdered(t, folded)
    requires k in t && q in t && t[k].ordinal == t[q].ordinal
    ensures k == q
  {
    var i := FirstAt(folded, k);
    var j := FirstAt(folded, q);
    assert !(i < j) && !(j < i);
  }

  lemma SameOrdinals<V>(t: Table<V>, a: Pairs<V>, b: Pairs<V>)
    requires forall i :: 0 <= i < |a| ==> a[i].0 in t
    requires forall i :: 0 <= i < |b| ==> b[i].0 in t && HasKey(a, b[i].0)
    ensures forall x :: x in Ordinals(t, b) ==> x in Ordinals(t, a)
  {
    forall x | x in Ordinals(t, b) ensures x in Ordinals(t, a) {
      var i :| 0 <= i < |b| && Ordinals(t, b)[i] == x;
      var j :| 0 <= j < |a| && a[j].0 == b[i].0;
      assert Ordinals(t, a)[j] == x;
    }
  }

  lemma ListingAscends<V>(t: Table<V>, folded: Pairs<V>, out: Pairs<V>)
    requires Covers(t, folded) && StrictlyOrdered(t, folded) && HoldsRows(t, out) && Distinct(out) && Ordered(t, out)
    ensures Ascending(Ordinals(t, out))
  {
    forall i, j | 0 <= i < j < |out| ensures Ordinals(t, out)[i] < Ordinals(t, out)[j] {
      if t[out[i].0].ordinal == t[out[j].0].ordinal {
        SameKey(t, folded, out[i].0, out[j].0);
      }
    }
  }

  lemma SameRow<V>(t: Table<V>, folded: Pairs<V>, out: Pairs<V>, i: nat)
    requires Matches(t, folded) && HoldsRows(t, out) && Ordinals(t, out) == Ordinals(t, folded) && i < |out|
    ensures i < |folded| && out[i] == folded[i]
  {
    hide HasKey;
    assert |Ordinals(t, out)| == |Ordinals(t, folded)|;
    assert Ordinals(t, out)[i] == Ordinals(t, folded)[i];
    SameKey(t, folded, out[i].0, folded[i].0);
  }

  lemma ListingIsUnique<V>(t: Table<V>, folded: Pairs<V>, out: Pairs<V>)
    requires Matches(t, folded) && IsListing(t, out)
    ensures out == folded
  {
    ListingAscends(t, folded, out);
    SameOrdinals(t, folded, out);
    SameOrdinals(t, out, folded);
    AscendingIsUnique(Ordinals(t, out), Ordinals(t, folded));
    assert |out| == |Ordinals(t, out)| == |folded|;
    forall i | 0 <= i < |out| ensures out[i] == folded[i] {
      SameRow(t, folded, out, i);
    }
  }

  /** Whatever is put in with upserts in source order is listed exactly as an ordered map, which
      keeps a repeated key's first place and takes its last value, would hold it. */
  lemma ListingIsFold<V>(es: seq<Entry<V>>, out: Pairs<V>)
    requires InOrder(es)
    ensures IsListing(Upserts(es), out) <==> out == FromPairs(AsPairs(es))
  {
    var t, folded := Upserts(es), FromPairs(AsPairs(es));
    UpsertsMatch(es);
    MatchesDistinct(t, folded);
    if IsListing(t, out) {
      ListingIsUnique(t, folded, out);
    }
  }

  /** A lookup by key finds what the ordered map has under it. */
  lemma LookupIsGet<V>(es: seq<Entry<V>>, k: string)
    requires InOrder(es)
    ensures Get(FromPairs(AsPairs(es)), k) == if k in Upserts(es) then Some(Upserts(es)[k].value) else None
  {
    var folded := FromPairs(AsPairs(es));
    UpsertsMatch(es);
    MatchesDistinct(Upserts(es), folded);
    GetIsHasKey(folded, k);
    if HasKey(folded, k) {
      var i := FirstAt(folded, k);
      GetAt(folded, i);
    }
  }
}
