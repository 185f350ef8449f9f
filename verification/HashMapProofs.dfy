/** The hash map behaves as one map from keys, up to `equals`, to values; when its first inserts cause no growth. */
module HashMapProofs {
  import opened Options
  import opened HashMapSpec

  /** Every entry carries the hash of its key and sits in the bucket that its masked hash names. */
  ghost predicate Placed<K, V>(ks: Keys<K>, t: Table<K, V>) {
    t != [] && forall i, k :: 0 <= i < |t| && 0 <= k < |t[i]| ==> At(ks, |t|, i, t[i][k])
  }

  ghost predicate At<K, V>(ks: Keys<K>, count: nat, i: nat, e: Pair<K, V>)
    requires count > 0
  {
    e.hash == HashKey(ks, e.key) && Index(count, e.hash) == i
  }

  /** No two entries of a chain have keys that are the same. */
  ghost predicate Unrelated<K, V>(ks: Keys<K>, chain: Chain<K, V>) {
    forall a, b :: 0 <= a < b < |chain| ==> !Same(ks, chain[a].key, chain[b].key)
  }

  ghost predicate Ok<K, V>(ks: Keys<K>, t: Table<K, V>) {
    Placed(ks, t) && forall i :: 0 <= i < |t| ==> Unrelated(ks, t[i])
  }

  ghost predicate Holds<K, V>(t: Table<K, V>, e: Pair<K, V>) {
    exists i :: 0 <= i < |t| && e in t[i]
  }

  function Total<K, V>(t: Table<K, V>): nat {
    |Flat(t, 0)|
  }

  // ----- keys that are the same -----

  lemma {:induction false} SameIsEquivalence<K(!new)>(ks: Keys<K>, a: K, b: K, c: K)
    requires Respects(ks)
    ensures Same(ks, a, b) ==> Same(ks, b, a) && HashKey(ks, a) == HashKey(ks, b)
    ensures Same(ks, a, b) && Same(ks, b, c) ==> Same(ks, a, c)
  {
    hide Mixed;
  }

  /** Two keys are the same when the creator of the map says that they are equal. */
  lemma {:induction false} SameIsEquals<K(!new)>(ks: Keys<K>, a: K, b: K)
    requires Respects(ks)
    ensures Same(ks, a, b) <==> ks.equals(a, b)
  {
  }

  // ----- the secondary hash -----

  /** Some values of the secondary hash. */
  lemma {:induction false} MixedExamples()
    ensures Mixed(0) == 0xff83_ef00 && Mixed(1) == 0xff83_cee7 && Mixed(0x1234_5678) == 0x41f1_bf7b
  {
    assert 1 + !(1 << 9) == 0xffff_fe00 as bv32;
  }

  /** The walk with hashes compares keys as the caller means it. */
  lemma {:induction false} EqualKeysIsSame<K(!new), V>(ks: Keys<K>, e: Pair<K, V>, key: K)
    requires Respects(ks) && e.hash == HashKey(ks, e.key)
    ensures EqualKeys(ks, e.key, e.hash, key, HashKey(ks, key)) <==> Same(ks, e.key, key)
  {
    SameIsEquivalence(ks, e.key, key, key);
  }

  /** What a lookup finds is the one entry, anywhere in the table, whose key is the same. */
  lemma {:induction false} GetFindsEntry<K(!new), V>(ks: Keys<K>, t: Table<K, V>, key: K, e: Pair<K, V>)
    requires Respects(ks) && Ok(ks, t) && Holds(t, e) && Same(ks, e.key, key)
    ensures Get(ks, t, key) == Some(e.value)
  {
    hide Mixed, Index;
    var i :| 0 <= i < |t| && e in t[i];
    var k :| 0 <= k < |t[i]| && t[i][k] == e;
    SameIsEquivalence(ks, e.key, key, key);
    assert At(ks, |t|, i, t[i][k]);
    var r := Find(ks, t[i], 0, key, HashKey(ks, key));
    EqualKeysIsSame(ks, e, key);
    assert r <= k;
    var f := t[i][r];
    assert At(ks, |t|, i, t[i][r]);
    EqualKeysIsSame(ks, f, key);
    SameIsEquivalence(ks, key, e.key, e.key);
    SameIsEquivalence(ks, f.key, key, e.key);
    SameIsEquivalence(ks, e.key, key, f.key);
    SameIsEquivalence(ks, key, f.key, f.key);
  }

  lemma {:induction false} GetIsEntry<K(!new), V>(ks: Keys<K>, t: Table<K, V>, key: K) returns (e: Pair<K, V>)
    requires Respects(ks) && Ok(ks, t) && Get(ks, t, key).Some?
    ensures Holds(t, e) && Same(ks, e.key, key) && Get(ks, t, key) == Some(e.value)
  {
    hide Mixed, Index;
    var b := BucketOf(ks, |t|, key);
    var i := Find(ks, t[b], 0, key, HashKey(ks, key));
    e := t[b][i];
    assert At(ks, |t|, b, t[b][i]);
    EqualKeysIsSame(ks, e, key);
  }

  /** Two tables that hold the same entries answer the same. */
  lemma {:induction false} SameEntriesSameMap<K(!new), V>(ks: Keys<K>, t: Table<K, V>, u: Table<K, V>, key: K)
    requires Respects(ks) && Ok(ks, t) && Ok(ks, u)
    requires forall e :: Holds(t, e) <==> Holds(u, e)
    ensures Get(ks, t, key) == Get(ks, u, key)
  {
    hide Get;
    if Get(ks, t, key).Some? {
      var e := GetIsEntry(ks, t, key);
      GetFindsEntry(ks, u, key, e);
    } else if Get(ks, u, key).Some? {
      var e := GetIsEntry(ks, u, key);
      GetFindsEntry(ks, t, key, e);
    }
  }

  // ----- put and remove -----

  lemma {:induction false} PutKeepsOk<K(!new), V>(ks: Keys<K>, t: Table<K, V>, key: K, v: V)
    requires Respects(ks) && Ok(ks, t)
    ensures Ok(ks, Put(ks, t, key, v))
    ensures Total(Put(ks, t, key, v)) == Total(t) + (if Get(ks, t, key).Some? then 0 else 1)
  {
    hide Mixed, Index, Same, Flat;
    var b, h := BucketOf(ks, |t|, key), HashKey(ks, key);
    var i := Find(ks, t[b], 0, key, h);
    var u := Put(ks, t, key, v);
    FlatUpdate(t, 0, b, u[b]);
    forall k | 0 <= k < |t[b]|
      ensures EqualKeys(ks, t[b][k].key, t[b][k].hash, key, h) <==> Same(ks, t[b][k].key, key)
    {
      assert At(ks, |t|, b, t[b][k]);
      EqualKeysIsSame(ks, t[b][k], key);
    }
    assert Unrelated(ks, t[b]);
    assert Unrelated(ks, u[b]);
    forall j, k | 0 <= j < |u| && 0 <= k < |u[j]|
      ensures At(ks, |u|, j, u[j][k])
    {
      if j != b || k < |t[b]| {
        assert At(ks, |t|, j, t[j][k]);
      }
    }
  }

  /** `hashmapPut` changes the answer for keys that are the same, and for no other. */
  lemma {:induction false} GetAfterPut<K(!new), V>(ks: Keys<K>, t: Table<K, V>, key: K, v: V, other: K)
    requires Respects(ks) && Ok(ks, t)
    ensures Get(ks, Put(ks, t, key, v), other) == if Same(ks, key, other) then Some(v) else Get(ks, t, other)
  {
    hide Mixed, Index, Get;
    PutKeepsOk(ks, t, key, v);
    var b, h := BucketOf(ks, |t|, key), HashKey(ks, key);
    var i := Find(ks, t[b], 0, key, h);
    var u := Put(ks, t, key, v);
    var e := u[b][i];
    assert Holds(u, e) by { assert u[b][i] in u[b]; }
    if i < |t[b]| {
      assert At(ks, |t|, b, t[b][i]);
      EqualKeysIsSame(ks, t[b][i], key);
    }
    SameIsEquivalence(ks, e.key, key, other);
    SameIsEquivalence(ks, key, e.key, other);
    if Same(ks, key, other) {
      GetFindsEntry(ks, u, other, e);
    } else if Get(ks, t, other).Some? {
      var f := GetIsEntry(ks, t, other);
      KeptByPut(ks, t, key, v, f, other);
      GetFindsEntry(ks, u, other, f);
    } else if Get(ks, u, other).Some? {
      var f := GetIsEntry(ks, u, other);
      WasBeforePut(ks, t, key, v, f, other);
      GetFindsEntry(ks, t, other, f);
    }
  }

  lemma {:induction false} KeptByPut<K(!new), V>(ks: Keys<K>, t: Table<K, V>, key: K, v: V, f: Pair<K, V>, other: K)
    requires Respects(ks) && Ok(ks, t) && Holds(t, f) && Same(ks, f.key, other) && !Same(ks, key, other)
    ensures Holds(Put(ks, t, key, v), f)
  {
    hide Mixed, Index, HashKey, Same, EqualKeys;
    FoundIsSame(ks, t, key);
    SameIsEquivalence(ks, f.key, key, key);
    SameIsEquivalence(ks, key, f.key, other);
    var b := BucketOf(ks, |t|, key);
    var i := Find(ks, t[b], 0, key, HashKey(ks, key));
    var u := Put(ks, t, key, v);
    var j :| 0 <= j < |t| && f in t[j];
    var k :| 0 <= k < |t[j]| && t[j][k] == f;
    assert j != b || k != i;
    assert u[j][k] == f;
  }

  lemma {:induction false} WasBeforePut<K(!new), V>(ks: Keys<K>, t: Table<K, V>, key: K, v: V, f: Pair<K, V>, other: K)
    requires Respects(ks) && Ok(ks, t) && Holds(Put(ks, t, key, v), f) && Same(ks, f.key, other) && !Same(ks, key, other)
    ensures Holds(t, f)
  {
    hide Mixed, Index, HashKey, Same, EqualKeys;
    FoundIsSame(ks, t, key);
    ItselfIsSame(ks, key);
    SameIsEquivalence(ks, f.key, key, key);
    SameIsEquivalence(ks, key, f.key, other);
    var b := BucketOf(ks, |t|, key);
    var i := Find(ks, t[b], 0, key, HashKey(ks, key));
    var u := Put(ks, t, key, v);
    var j :| 0 <= j < |u| && f in u[j];
    var k :| 0 <= k < |u[j]| && u[j][k] == f;
    assert Same(ks, u[b][i].key, key);
    assert j != b || k != i;
    assert t[j][k] == f;
  }

  lemma ItselfIsSame<K(!new)>(ks: Keys<K>, key: K)
    ensures Same(ks, key, key)
  {
  }

  lemma {:induction false} RemoveKeepsOk<K(!new), V>(ks: Keys<K>, t: Table<K, V>, key: K)
    requires Respects(ks) && Ok(ks, t)
    ensures Ok(ks, Remove(ks, t, key))
    ensures Total(Remove(ks, t, key)) == Total(t) - (if Get(ks, t, key).Some? then 1 else 0)
  {
    hide Mixed, Index, Same, Flat;
    var b := BucketOf(ks, |t|, key);
    var i := Find(ks, t[b], 0, key, HashKey(ks, key));
    var u := Remove(ks, t, key);
    FlatUpdate(t, 0, b, u[b]);
    assert Unrelated(ks, t[b]);
    forall j, k | 0 <= j < |u| && 0 <= k < |u[j]|
      ensures At(ks, |u|, j, u[j][k])
    {
      if j == b && i < |t[b]| && k >= i {
        assert At(ks, |t|, j, t[j][k + 1]);
      } else {
        assert At(ks, |t|, j, t[j][k]);
      }
    }
  }

  /** `hashmapRemove` forgets the keys that are the same, and no other. */
  lemma {:induction false} GetAfterRemove<K(!new), V>(ks: Keys<K>, t: Table<K, V>, key: K, other: K)
    requires Respects(ks) && Ok(ks, t)
    ensures Get(ks, Remove(ks, t, key), other) == if Same(ks, key, other) then None else Get(ks, t, other)
  {
    hide Mixed, Index, Get;
    RemoveKeepsOk(ks, t, key);
    var u := Remove(ks, t, key);
    if Get(ks, u, other).Some? {
      var f := GetIsEntry(ks, u, other);
      WasBeforeRemove(ks, t, key, f);
      SameIsEquivalence(ks, f.key, other, key);
      SameIsEquivalence(ks, key, other, other);
      GetFindsEntry(ks, t, other, f);
    } else if !Same(ks, key, other) && Get(ks, t, other).Some? {
      var f := GetIsEntry(ks, t, other);
      KeptByRemove(ks, t, key, f, other);
      GetFindsEntry(ks, u, other, f);
    }
  }

  lemma {:induction false} WasBeforeRemove<K(!new), V>(ks: Keys<K>, t: Table<K, V>, key: K, f: Pair<K, V>)
    requires Respects(ks) && Ok(ks, t) && Holds(Remove(ks, t, key), f)
    ensures Holds(t, f) && !Same(ks, f.key, key)
  {
    hide Mixed, Index;
    var b := BucketOf(ks, |t|, key);
    var i := Find(ks, t[b], 0, key, HashKey(ks, key));
    var u := Remove(ks, t, key);
    var j :| 0 <= j < |u| && f in u[j];
    var k :| 0 <= k < |u[j]| && u[j][k] == f;
    var at := if j == b && i < |t[b]| && k >= i then k + 1 else k;
    assert Unrelated(ks, t[b]);
    assert t[j][at] == f && At(ks, |t|, j, t[j][at]);
    EqualKeysIsSame(ks, f, key);
    SameIsEquivalence(ks, f.key, key, key);
    if Same(ks, f.key, key) {
      assert j == b && at > i && At(ks, |t|, b, t[b][i]);
      EqualKeysIsSame(ks, t[b][i], key);
      SameIsEquivalence(ks, key, f.key, f.key);
      SameIsEquivalence(ks, t[b][i].key, key, f.key);
    }
  }

  lemma {:induction false} KeptByRemove<K(!new), V>(ks: Keys<K>, t: Table<K, V>, key: K, f: Pair<K, V>, other: K)
    requires Respects(ks) && Ok(ks, t) && Holds(t, f) && Same(ks, f.key, other) && !Same(ks, key, other)
    ensures Holds(Remove(ks, t, key), f)
  {
    hide Mixed, Index, HashKey, Same, EqualKeys;
    FoundIsSame(ks, t, key);
    SameIsEquivalence(ks, f.key, key, key);
    SameIsEquivalence(ks, key, f.key, other);
    var b := BucketOf(ks, |t|, key);
    var i := Find(ks, t[b], 0, key, HashKey(ks, key));
    var u := Remove(ks, t, key);
    var j :| 0 <= j < |t| && f in t[j];
    var k :| 0 <= k < |t[j]| && t[j][k] == f;
    assert j != b || k != i;
    var at := if j == b && i < |t[b]| && k > i then k - 1 else k;
    assert u[j][at] == f;
  }

  lemma {:induction false} FoundIsSame<K(!new), V>(ks: Keys<K>, t: Table<K, V>, key: K)
    requires Respects(ks) && Ok(ks, t)
    ensures var b := BucketOf(ks, |t|, key);
      var i := Find(ks, t[b], 0, key, HashKey(ks, key));
      i < |t[b]| ==> Same(ks, t[b][i].key, key)
  {
    hide Mixed, Index;
    var b := BucketOf(ks, |t|, key);
    var i := Find(ks, t[b], 0, key, HashKey(ks, key));
    if i < |t[b]| {
      assert At(ks, |t|, b, t[b][i]);
      EqualKeysIsSame(ks, t[b][i], key);
    }
  }

  lemma {:induction false} FlatUpdate<K, V>(t: Table<K, V>, i: nat, b: nat, chain: Chain<K, V>)
    requires i <= |t| && b < |t|
    ensures |Flat(t[b := chain], i)| == |Flat(t, i)| + (if b >= i then |chain| - |t[b]| else 0)
    decreases |t| - i
  {
    if i < |t| {
      FlatUpdate(t, i + 1, b, chain);
    }
  }

  // ----- rehashing -----

  lemma {:induction false} InFlat<K, V>(t: Table<K, V>, i: nat, e: Pair<K, V>)
    requires i <= |t|
    ensures e in Flat(t, i) <==> exists j :: i <= j < |t| && e in t[j]
    decreases |t| - i
  {
    if i < |t| {
      InFlat(t, i + 1, e);
      assert e in Flat(t, i) <==> e in t[i] || e in Flat(t, i + 1);
      if e !in t[i] && e !in Flat(t, i + 1) {
        forall j | i <= j < |t|
          ensures e !in t[j]
        {
        }
      }
    }
  }

  /** Across buckets, too, no two entries are the same. */
  lemma {:induction false} FlatUnrelated<K(!new), V>(ks: Keys<K>, t: Table<K, V>, i: nat)
    requires Respects(ks) && Ok(ks, t) && i <= |t|
    ensures Unrelated(ks, Flat(t, i))
    ensures forall e :: e in Flat(t, i) ==> e.hash == HashKey(ks, e.key)
    decreases |t| - i
  {
    hide Mixed, Index, Same;
    if i < |t| {
      var s, rest := t[i], Flat(t, i + 1);
      FlatUnrelated(ks, t, i + 1);
      forall a, b | 0 <= a < |s| && 0 <= b < |rest|
        ensures !Same(ks, s[a].key, rest[b].key)
      {
        InFlat(t, i + 1, rest[b]);
        var j :| i + 1 <= j < |t| && rest[b] in t[j];
        var k :| 0 <= k < |t[j]| && t[j][k] == rest[b];
        assert At(ks, |t|, i, t[i][a]) && At(ks, |t|, j, t[j][k]);
        SameIsEquivalence(ks, s[a].key, rest[b].key, s[a].key);
      }
      assert Unrelated(ks, s);
      UnrelatedJoin(ks, s, rest);
      forall k | 0 <= k < |s|
        ensures s[k].hash == HashKey(ks, s[k].key)
      {
        assert At(ks, |t|, i, t[i][k]);
      }
    }
  }

  lemma {:induction false} UnrelatedJoin<K, V>(ks: Keys<K>, s: Chain<K, V>, t: Chain<K, V>)
    requires Unrelated(ks, s) && Unrelated(ks, t)
    requires forall a, b :: 0 <= a < |s| && 0 <= b < |t| ==> !Same(ks, s[a].key, t[b].key)
    ensures Unrelated(ks, s + t)
  {
    hide Same;
  }

  /** Moving entries in one by one holds exactly them, each in its bucket. */
  lemma {:induction false} BuildHolds<K(!new), V>(ks: Keys<K>, count: nat, es: Chain<K, V>)
    requires Respects(ks) && count > 0 && Unrelated(ks, es) && forall e :: e in es ==> e.hash == HashKey(ks, e.key)
    ensures Ok(ks, Build(count, es)) && Total(Build(count, es)) == |es|
    ensures forall e :: Holds(Build(count, es), e) <==> e in es
    decreases |es|
  {
    hide Mixed, Index, Same, Flat, HashKey, Respects;
    if es == [] {
      EmptyFlat<K, V>(count, 0);
    } else {
      var n := |es| - 1;
      var t, e := Build(count, es[..n]), es[n];
      assert forall f :: f in es[..n] ==> f in es;
      BuildHolds(ks, count, es[..n]);
      var b := Index(count, e.hash);
      FlatUpdate(t, 0, b, [e] + t[b]);
      LastIsOther(ks, t, b, es);
      MoveInHolds(ks, t, e);
      assert es == es[..n] + [e];
      hide Unrelated, Holds, Ok;
    }
  }

  lemma {:induction false} LastIsOther<K(!new), V>(ks: Keys<K>, t: Table<K, V>, b: nat, es: Chain<K, V>)
    requires Respects(ks) && Unrelated(ks, es) && es != [] && b < |t|
    requires forall e :: Holds(t, e) ==> e in es[..|es| - 1]
    ensures forall k :: 0 <= k < |t[b]| ==> !Same(ks, es[|es| - 1].key, t[b][k].key)
  {
    hide Mixed, Same, HashKey, Respects;
    var n := |es| - 1;
    forall k | 0 <= k < |t[b]|
      ensures !Same(ks, es[n].key, t[b][k].key)
    {
      assert t[b][k] in t[b] && Holds(t, t[b][k]);
      var a :| 0 <= a < n && es[..n][a] == t[b][k];
      assert !Same(ks, es[a].key, es[n].key);
      SameIsEquivalence(ks, es[n].key, es[a].key, es[n].key);
    }
  }

  lemma {:induction false} MoveInHolds<K(!new), V>(ks: Keys<K>, t: Table<K, V>, e: Pair<K, V>)
    requires Ok(ks, t) && e.hash == HashKey(ks, e.key)
    requires forall k :: 0 <= k < |t[Index(|t|, e.hash)]| ==> !Same(ks, e.key, t[Index(|t|, e.hash)][k].key)
    ensures Ok(ks, MoveIn(t, e))
    ensures forall f :: Holds(MoveIn(t, e), f) <==> f == e || Holds(t, f)
  {
    hide Mixed, Index, Same, HashKey;
    var b := Index(|t|, e.hash);
    var u := MoveIn(t, e);
    assert Unrelated(ks, t[b]);
    assert Unrelated(ks, u[b]);
    forall j, k | 0 <= j < |u| && 0 <= k < |u[j]|
      ensures At(ks, |u|, j, u[j][k])
    {
      if j != b {
        assert At(ks, |t|, j, t[j][k]);
      } else if k > 0 {
        assert At(ks, |t|, b, t[b][k - 1]);
      }
    }
    forall f
      ensures Holds(u, f) <==> f == e || Holds(t, f)
    {
      if f == e {
        assert e in u[b];
      }
      if Holds(t, f) {
        var j :| 0 <= j < |t| && f in t[j];
        assert f in u[j];
      }
      if Holds(u, f) && f != e {
        var j :| 0 <= j < |u| && f in u[j];
        assert f in t[j];
      }
    }
  }

  lemma {:induction false} EmptyFlat<K, V>(count: nat, i: nat)
    requires i <= count
    ensures Flat<K, V>(seq(count, k => []), i) == []
    decreases count - i
  {
    if i < count {
      EmptyFlat<K, V>(count, i + 1);
    }
  }

  /** Rehashing into any number of buckets keeps the map and its size. */
  lemma {:induction false} RehashKeepsMap<K(!new), V>(ks: Keys<K>, t: Table<K, V>, count: nat, key: K)
    requires Respects(ks) && Ok(ks, t) && count > 0
    ensures Ok(ks, Rehash(t, count)) && Total(Rehash(t, count)) == Total(t)
    ensures Get(ks, Rehash(t, count), key) == Get(ks, t, key)
  {
    hide Mixed, Index, Same, Get, Flat, Build, Unrelated, HashKey;
    FlatUnrelated(ks, t, 0);
    BuildHolds(ks, count, Flat(t, 0));
    forall e
      ensures Holds(t, e) <==> Holds(Rehash(t, count), e)
    {
      InFlat(t, 0, e);
    }
    SameEntriesSameMap(ks, t, Rehash(t, count), key);
  }

  // ----- runs -----

  datatype Op<K, V> = PutOp(key: K, value: V) | RemoveOp(key: K)

  datatype Map<K, V> = Map(table: Table<K, V>, size: int)

  function Apply<K(==), V>(ks: Keys<K>, m: Map<K, V>, op: Op<K, V>): (r: Map<K, V>)
    requires m.table != []
    ensures r.table != []
  {
    match op
    case PutOp(key, v) =>
      var t := Put(ks, m.table, key, v);
      if Get(ks, m.table, key).Some? then m.(table := t)
      else Map(Expand(t, m.size + 1), m.size + 1)
    case RemoveOp(key) =>
      if Get(ks, m.table, key).Some? then Map(Remove(ks, m.table, key), m.size - 1) else m
  }

  function Run<K(==), V>(ks: Keys<K>, m: Map<K, V>, ops: seq<Op<K, V>>): (r: Map<K, V>)
    requires m.table != []
    ensures r.table != []
    decreases |ops|
  {
    if ops == [] then m else Run(ks, Apply(ks, m, ops[0]), ops[1..])
  }

  /** What a mathematical map answers after the same operations: that of the last one about the key. */
  function Answer<K(==), V>(ks: Keys<K>, before: Option<V>, ops: seq<Op<K, V>>, key: K): Option<V>
    decreases |ops|
  {
    if ops == [] then before
    else
      var op := ops[0];
      Answer(ks, if !Same(ks, op.key, key) then before else if op.PutOp? then Some(op.value) else None, ops[1..], key)
  }

  ghost predicate Refines<K, V>(ks: Keys<K>, m: Map<K, V>) {
    Ok(ks, m.table) && m.size == Total(m.table)
  }

  lemma {:induction false} ApplyRefines<K(!new), V>(ks: Keys<K>, m: Map<K, V>, op: Op<K, V>, key: K)
    requires Respects(ks) && Refines(ks, m)
    ensures Refines(ks, Apply(ks, m, op))
    ensures Get(ks, Apply(ks, m, op).table, key) ==
      if !Same(ks, op.key, key) then Get(ks, m.table, key) else if op.PutOp? then Some(op.value) else None
  {
    hide Get, Put, Remove, Ok, Total, Same, Rehash;
    TableExists(ks, m);
    match op
    case PutOp(k, v) =>
      PutKeepsOk(ks, m.table, k, v);
      GetAfterPut(ks, m.table, k, v, key);
      var t := Put(ks, m.table, k, v);
      if Exceeds(m.size + 1, |t|) && Allocatable(2 * |t| % WORD) {
        RehashKeepsMap(ks, t, 2 * |t| % WORD, key);
      }
    case RemoveOp(k) =>
      RemoveKeepsOk(ks, m.table, k);
      GetAfterRemove(ks, m.table, k, key);
      if Get(ks, m.table, k).None? {
        if Same(ks, k, key) {
          NoneForSame(ks, m.table, k, key);
        }
      }
  }

  lemma TableExists<K(!new), V>(ks: Keys<K>, m: Map<K, V>)
    requires Refines(ks, m)
    ensures m.table != []
  {
  }

  lemma {:induction false} NoneForSame<K(!new), V>(ks: Keys<K>, t: Table<K, V>, k: K, key: K)
    requires Respects(ks) && Ok(ks, t) && Get(ks, t, k).None? && Same(ks, k, key)
    ensures Get(ks, t, key).None?
  {
    hide Get, Ok, Mixed, Index;
    assert t != [] by { NotEmpty(ks, t); }
    if Get(ks, t, key).Some? {
      var e := GetIsEntry(ks, t, key);
      SameIsEquivalence(ks, k, key, key);
      SameIsEquivalence(ks, e.key, key, k);
      GetFindsEntry(ks, t, k, e);
    }
  }

  lemma NotEmpty<K(!new), V>(ks: Keys<K>, t: Table<K, V>)
    requires Ok(ks, t)
    ensures t != []
  {
  }

  /** After any operations, with the expansions they cause, the answers are those of a mathematical map, entries sit in
      their buckets, keys are unique and `size` is the number of entries. */
  lemma {:induction false} RunRefines<K(!new), V>(ks: Keys<K>, m: Map<K, V>, ops: seq<Op<K, V>>, key: K)
    requires Respects(ks) && Refines(ks, m)
    ensures m.table != [] && Refines(ks, Run(ks, m, ops))
    ensures Get(ks, Run(ks, m, ops).table, key) == Answer(ks, Get(ks, m.table, key), ops, key)
    decreases |ops|
  {
    hide Get, Apply, Refines, Same;
    TableExists(ks, m);
    if ops != [] {
      ApplyRefines(ks, m, ops[0], key);
      RunRefines(ks, Apply(ks, m, ops[0]), ops[1..], key);
    }
  }
}
