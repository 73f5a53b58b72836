/**
 Insertion-ordered string-keyed maps: the order discipline of an IndexMap, of JavaScript's
 `Map.set`, and of the hand-written ordered maps of the repository. Putting a key that is
 already present replaces its value and keeps its position.
 */
module OrderedPairs {
  import opened Prelude

  type Pairs<V> = seq<(string, V)>

  function Get<V>(m: Pairs<V>, k: string): (r: Option<V>)
  {
    if m == [] then None
    else if m[0].0 == k then Some(m[0].1)
    else Get(m[1..], k)
  }

  function Put<V>(m: Pairs<V>, k: string, v: V): Pairs<V>
  {
    if m == [] then [(k, v)]
    else if m[0].0 == k then [(k, v)] + m[1..]
    else [m[0]] + Put(m[1..], k, v)
  }

  ghost predicate Distinct<V>(m: Pairs<V>) {
    forall i, j :: 0 <= i < j < |m| ==> m[i].0 != m[j].0
  }

  ghost predicate HasKey<V>(m: Pairs<V>, k: string) {
    exists i :: 0 <= i < |m| && m[i].0 == k
  }

  /** A position index: exactly the positions of the keys. */
  ghost predicate Indexes<V>(index: map<string, nat>, m: Pairs<V>) {
    && (forall i :: 0 <= i < |m| ==> m[i].0 in index && index[m[i].0] == i)
    && (forall k :: k in index ==> index[k] < |m| && m[index[k]].0 == k)
  }

  /** Collects pairs left to right, as `iter().collect()` into an ordered map does. */
  function FromPairs<V>(ps: Pairs<V>): Pairs<V>
  {
    if ps == [] then []
    else Put(FromPairs(ps[..|ps| - 1]), ps[|ps| - 1].0, ps[|ps| - 1].1)
  }

  lemma {:induction false} GetPut<V>(m: Pairs<V>, k: string, v: V, q: string)
    ensures Get(Put(m, k, v), q) == if q == k then Some(v) else Get(m, q)
  {
    if m != [] && m[0].0 != k {
      GetPut(m[1..], k, v, q);
      assert Put(m, k, v)[1..] == Put(m[1..], k, v);
    } else if m != [] {
      assert Put(m, k, v)[1..] == m[1..];
    }
  }

  lemma {:induction false} GetIsHasKey<V>(m: Pairs<V>, k: string)
    ensures Get(m, k).Some? <==> HasKey(m, k)
  {
    if m != [] && m[0].0 != k {
      GetIsHasKey(m[1..], k);
      if HasKey(m, k) {
        var i :| 0 <= i < |m| && m[i].0 == k;
        assert m[1..][i - 1].0 == k;
      }
    }
  }

  /** In a map without repeated keys, lookup returns the value at the key's own position. */
  lemma {:induction false} GetAt<V>(m: Pairs<V>, i: nat)
    requires Distinct(m) && i < |m|
    ensures Get(m, m[i].0) == Some(m[i].1)
  {
    if i > 0 {
      GetAt(m[1..], i - 1);
    }
  }

  /** Put as an in-place vector update, which is how every implementation performs it. */
  lemma {:induction false} PutAt<V>(m: Pairs<V>, k: string, v: V, i: nat)
    requires i < |m| && m[i].0 == k && (forall j :: 0 <= j < i ==> m[j].0 != k)
    ensures Put(m, k, v) == m[i := (k, v)]
  {
    if i > 0 {
      PutAt(m[1..], k, v, i - 1);
    }
  }

  lemma {:induction false} PutAppend<V>(m: Pairs<V>, k: string, v: V)
    requires !HasKey(m, k)
    ensures Put(m, k, v) == m + [(k, v)]
  {
    if m != [] {
      assert !HasKey(m[1..], k) by {
        forall i | 0 <= i < |m[1..]| ensures m[1..][i].0 != k { assert m[i + 1].0 != k; }
      }
      assert m[0].0 != k;
      PutAppend(m[1..], k, v);
    }
  }

  /** The keys after Put: unchanged when the key was present, one appended when it was not. */
  lemma {:induction false} PutKeys<V>(m: Pairs<V>, k: string, v: V)
    ensures |Put(m, k, v)| == if HasKey(m, k) then |m| else |m| + 1
    ensures forall i :: 0 <= i < |m| ==> Put(m, k, v)[i].0 == m[i].0
    ensures !HasKey(m, k) ==> Put(m, k, v)[|m|].0 == k
  {
    if HasKey(m, k) {
      var i := FirstAt(m, k);
      PutAt(m, k, v, i);
    } else {
      PutAppend(m, k, v);
    }
  }

  /** The keys in their order. */
  function KeysOf<V>(m: Pairs<V>): (keys: seq<string>)
    ensures |keys| == |m| && forall i :: 0 <= i < |m| ==> keys[i] == m[i].0
  {
    seq(|m|, i requires 0 <= i < |m| => m[i].0)
  }

  lemma KeysOfPut<V>(m: Pairs<V>, k: string, v: V)
    ensures KeysOf(Put(m, k, v)) == if k in KeysOf(m) then KeysOf(m) else KeysOf(m) + [k]
    ensures k in KeysOf(m) <==> Get(m, k).Some?
  {
    PutKeys(m, k, v);
    GetIsHasKey(m, k);
    if HasKey(m, k) {
      var i :| 0 <= i < |m| && m[i].0 == k;
      assert KeysOf(m)[i] == k;
    }
  }

  lemma FirstAt<V>(m: Pairs<V>, k: string) returns (i: nat)
    requires HasKey(m, k)
    ensures i < |m| && m[i].0 == k && forall j :: 0 <= j < i ==> m[j].0 != k
  {
    i := 0;
    while m[i].0 != k
      invariant 0 <= i < |m|
      invariant forall j :: 0 <= j < i ==> m[j].0 != k
      decreases |m| - i
    {
      assert HasKey(m, k);
      if i + 1 == |m| { assert false; }
      i := i + 1;
    }
  }

  lemma PutDistinct<V>(m: Pairs<V>, k: string, v: V)
    requires Distinct(m)
    ensures Distinct(Put(m, k, v))
  {
    PutKeys(m, k, v);
  }

  /** Collecting a sequence that already has distinct keys changes nothing. */
  lemma {:induction false} FromPairsIdentity<V>(ps: Pairs<V>)
    requires Distinct(ps)
    ensures FromPairs(ps) == ps
  {
    if ps != [] {
      var init := ps[..|ps| - 1];
      FromPairsIdentity(init);
      assert !HasKey(init, ps[|ps| - 1].0);
      PutAppend(init, ps[|ps| - 1].0, ps[|ps| - 1].1);
    }
  }
}
