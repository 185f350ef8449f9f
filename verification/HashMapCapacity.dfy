/** How many buckets a hash map has: always a power of two, and when the requested capacity spares it from growing. */
module HashMapCapacity {
  import opened Options
  import opened HashMapSpec
  import opened HashMapProofs

  // ----- powers of two -----

  function Power(n: nat): (p: nat)
    ensures p > 0
  {
    if n == 0 then 1 else 2 * Power(n - 1)
  }

  lemma {:induction false} DoubledIsPower(n: nat, least: nat) returns (m: nat)
    requires n == 0 || Power(n - 1) <= least
    ensures Doubled(Power(n), least) == Power(m) > least && (m == 0 || Power(m - 1) <= least)
    decreases least - Power(n)
  {
    m := n;
    if Power(n) <= least {
      m := DoubledIsPower(n + 1, least);
    }
  }

  lemma {:induction false} PowerMonotone(a: nat, b: nat)
    requires a <= b
    ensures Power(a) <= Power(b)
    decreases b - a
  {
    if a < b {
      PowerMonotone(a, b - 1);
    }
  }

  const UNIT: nat := 0x1000_0000_0000_0000 // 2^60

  lemma Powers()
    ensures Power(60) == UNIT && Power(61) == 2 * UNIT && Power(64) == WORD
  {
    assert Power(10) == 0x400;
    assert Power(20) == 0x10_0000;
    assert Power(30) == 0x4000_0000;
    assert Power(40) == 0x100_0000_0000;
    assert Power(50) == 0x4_0000_0000_0000;
    assert Power(60) == UNIT;
  }

  /** A number of buckets that a map can have. */
  ghost predicate BucketCount(n: nat) {
    exists k :: 0 <= k <= 60 && n == Power(k)
  }

  /** What can be allocated has at most 2^60 buckets. */
  lemma {:induction false} AllocatablePower(m: nat)
    requires Allocatable(Power(m))
    ensures m <= 60 && BucketCount(Power(m)) && Power(m) <= UNIT
  {
    Powers();
    if m > 60 {
      PowerMonotone(61, m);
    }
    PowerMonotone(m, 60);
  }

  lemma {:induction false} CreatedIsPower(capacity: nat)
    requires Allocatable(BucketsFor(capacity))
    ensures BucketCount(BucketsFor(capacity))
  {
    var m := DoubledIsPower(0, capacity * 4 % WORD / 3);
    AllocatablePower(m);
  }

  function Created<K, V>(capacity: nat): (m: Map<K, V>)
    requires Allocatable(BucketsFor(capacity))
    ensures m.table != []
  {
    Map(seq(BucketsFor(capacity), b => []), 0)
  }

  lemma {:induction false} DoubledIsBucketCount(n: nat)
    requires BucketCount(n)
    ensures 2 * n % WORD == 2 * n
    ensures Allocatable(2 * n) ==> BucketCount(2 * n)
    ensures Allocatable(2 * n) <==> n < UNIT
  {
    var k :| 0 <= k <= 60 && n == Power(k);
    Powers();
    PowerMonotone(k, 60);
    assert 2 * n == Power(k + 1);
    if k < 60 {
      PowerMonotone(k + 1, 60);
    }
  }

  /** One operation: the number of buckets stays or doubles. */
  lemma {:induction false} ApplyBuckets<K(!new), V>(ks: Keys<K>, m: Map<K, V>, op: Op<K, V>)
    requires m.table != [] && BucketCount(|m.table|)
    ensures var after := |Apply(ks, m, op).table|;
      && BucketCount(after) && (after == |m.table| || after == 2 * |m.table|)
      && (|m.table| == UNIT ==> after == UNIT)
  {
    hide BucketCount, Get, Put, Remove;
    DoubledIsBucketCount(|m.table|);
  }

  /** From its creation on and through every operation, a map has a power of two of buckets. */
  lemma {:induction false} BucketsArePowers<K(!new), V>(ks: Keys<K>, m: Map<K, V>, ops: seq<Op<K, V>>)
    requires m.table != [] && BucketCount(|m.table|)
    ensures BucketCount(|Run(ks, m, ops).table|) && |m.table| <= |Run(ks, m, ops).table|
    ensures |m.table| == UNIT ==> |Run(ks, m, ops).table| == UNIT
    decreases |ops|
  {
    hide Apply, BucketCount;
    if ops != [] {
      ApplyBuckets(ks, m, ops[0]);
      BucketsArePowers(ks, Apply(ks, m, ops[0]), ops[1..]);
    }
  }

  // ----- the mask -----

  /** The k low bits of x, one by one. */
  function LowBits(x: nat, k: nat): nat {
    if k == 0 then 0 else x % 2 + 2 * LowBits(x / 2, k - 1)
  }

  /** The low k bits are what the mask 2^k - 1 leaves. */
  lemma {:induction false} LowBitsAreRemainder(x: nat, k: nat)
    ensures LowBits(x, k) == x % Power(k)
  {
    if k > 0 {
      LowBitsAreRemainder(x / 2, k - 1);
      var p, y := Power(k - 1), x / 2;
      Split(y, p);
      Remainder(x, 2 * p, y / p, x % 2 + 2 * (y % p));
    }
  }

  lemma {:induction false} Split(y: nat, p: nat)
    requires p > 0
    ensures y == p * (y / p) + y % p && 0 <= y % p < p
  {
  }

  lemma {:induction false} Remainder(x: int, n: nat, q: int, r: nat)
    requires r < n && x == n * q + r
    ensures x % n == r
  {
    var q', r' := x / n, x % n;
    assert x == n * q' + r';
    if q < q' {
      Monotone(n, q + 1, q');
    } else if q > q' {
      Monotone(n, q' + 1, q);
    }
  }

  lemma {:induction false} Monotone(n: nat, a: int, b: int)
    requires a <= b
    ensures n * a <= n * b
  {
    assert n * b - n * a == n * (b - a) && n * (b - a) >= 0;
  }

  /** The conversion of an `int` to `size_t`. */
  function SignExtended(hash: bv32): nat {
    if hash < 0x8000_0000 then hash as nat else hash as nat + WORD - 0x1_0000_0000
  }

  /** In a map that can exist the remainder is the mask of `calculateIndex`. */
  lemma {:induction false} IndexIsMask(count: nat, hash: bv32, k: nat)
    requires k <= 60 && count == Power(k)
    ensures Index(count, hash) == LowBits(SignExtended(hash), k)
  {
    LowBitsAreRemainder(SignExtended(hash), k);
    if hash >= 0x8000_0000 {
      WordIsMultiple(k);
      TurnsAreNothing(hash as int - 0x1_0000_0000, count, WORD / count);
    }
  }

  lemma {:induction false} TurnsAreNothing(x: int, n: nat, turns: nat)
    requires n > 0
    ensures (x + n * turns) % n == x % n
  {
    var q, r := x / n, x % n;
    assert n * (q + turns) == n * q + n * turns;
    Remainder(x + n * turns, n, q + turns, r);
  }

  lemma {:induction false} WordIsMultiple(k: nat)
    requires k <= 64
    ensures WORD == Power(k) * (WORD / Power(k))
  {
    Powers();
    PowersMultiply(k, 64 - k);
    Remainder(WORD, Power(k), Power(64 - k), 0);
  }

  lemma {:induction false} PowersMultiply(a: nat, b: nat)
    ensures Power(a) * Power(b) == Power(a + b)
  {
    if a > 0 {
      PowersMultiply(a - 1, b);
      assert Power(a) * Power(b) == 2 * (Power(a - 1) * Power(b));
    }
  }

  // ----- capacity -----

  ghost predicate Listed<K>(ks: Keys<K>, key: K, list: seq<K>) {
    exists i :: 0 <= i < |list| && Same(ks, list[i], key)
  }

  /** Operations on keys of a list. */
  ghost predicate Within<K, V>(ks: Keys<K>, ops: seq<Op<K, V>>, list: seq<K>) {
    forall i :: 0 <= i < |ops| ==> Listed(ks, ops[i].key, list)
  }

  ghost predicate AllListed<K, V>(ks: Keys<K>, t: Table<K, V>, list: seq<K>) {
    forall i, k :: 0 <= i < |t| && 0 <= k < |t[i]| ==> Listed(ks, t[i][k].key, list)
  }

  lemma {:induction false} HeldIsListed<K(!new), V>(ks: Keys<K>, t: Table<K, V>, list: seq<K>, e: Pair<K, V>)
    requires AllListed(ks, t, list) && Holds(t, e)
    ensures Listed(ks, e.key, list)
  {
    hide Listed;
    var i :| 0 <= i < |t| && e in t[i];
    var k :| 0 <= k < |t[i]| && t[i][k] == e;
  }

  ghost predicate DistinctKeys<K>(ks: Keys<K>, list: seq<K>) {
    forall i, j :: 0 <= i < j < |list| ==> !Same(ks, list[i], list[j])
  }

  /** There is no more room for different keys than there are keys on the list. */
  lemma {:induction false} Pigeonhole<K(!new), V>(ks: Keys<K>, es: Chain<K, V>, list: seq<K>)
    requires Respects(ks) && Unrelated(ks, es) && forall k :: 0 <= k < |es| ==> Listed(ks, es[k].key, list)
    ensures |es| <= |list|
    decreases |es|
  {
    hide Same;
    if es != [] {
      var n := |es| - 1;
      var i :| 0 <= i < |list| && Same(ks, list[i], es[n].key);
      var less := list[..i] + list[i + 1..];
      forall k | 0 <= k < n
        ensures Listed(ks, es[..n][k].key, less)
      {
        assert Listed(ks, es[k].key, list);
        var j :| 0 <= j < |list| && Same(ks, list[j], es[k].key);
        assert !Same(ks, es[k].key, es[n].key);
        SameIsEquivalence(ks, list[i], es[k].key, list[i]);
        SameIsEquivalence(ks, es[k].key, list[i], es[n].key);
        assert j != i;
        assert less[if j < i then j else j - 1] == list[j];
      }
      Pigeonhole(ks, es[..n], less);
    }
  }

  lemma ByPosition<K(!new), V>(ks: Keys<K>, t: Table<K, V>, list: seq<K>)
    requires forall i, k :: 0 <= i < |t| && 0 <= k < |t[i]| ==> Listed(ks, t[i][k].key, list)
    ensures AllListed(ks, t, list)
  {
  }

  lemma {:induction false} SizeIsListed<K(!new), V>(ks: Keys<K>, t: Table<K, V>, list: seq<K>)
    requires Respects(ks) && Ok(ks, t) && AllListed(ks, t, list)
    ensures Total(t) <= |list|
  {
    hide Same, Flat, Unrelated, Listed;
    var es := Flat(t, 0);
    FlatUnrelated(ks, t, 0);
    forall k | 0 <= k < |es|
      ensures Listed(ks, es[k].key, list)
    {
      InFlat(t, 0, es[k]);
      HeldIsListed(ks, t, list, es[k]);
    }
    Pigeonhole(ks, es, list);
  }

  /** The keys of a table come from the puts. */
  lemma {:induction false} KeysAfterPut<K(!new), V>(ks: Keys<K>, t: Table<K, V>, key: K, v: V, list: seq<K>)
    requires t != [] && AllListed(ks, t, list) && Listed(ks, key, list)
    ensures AllListed(ks, Put(ks, t, key, v), list)
  {
    hide BucketOf, HashKey, Same, Listed;
    var b := BucketOf(ks, |t|, key);
    var i := Find(ks, t[b], 0, key, HashKey(ks, key));
    var u: Table<K, V> := Put(ks, t, key, v);
    forall j: nat, k: nat | j < |u| && k < |u[j]|
      ensures Listed(ks, u[j][k].key, list)
    {
      if k < |t[j]| {
        assert Listed(ks, t[j][k].key, list);
      }
    }
  }

  lemma {:induction false} KeysAfterRemove<K(!new), V>(ks: Keys<K>, t: Table<K, V>, key: K, list: seq<K>)
    requires Respects(ks) && Ok(ks, t) && AllListed(ks, t, list)
    ensures AllListed(ks, Remove(ks, t, key), list)
  {
    hide Ok, Remove, Listed, AllListed;
    NotEmpty(ks, t);
    var u: Table<K, V> := Remove(ks, t, key);
    forall j: nat, k: nat | j < |u| && k < |u[j]|
      ensures Listed(ks, u[j][k].key, list)
    {
      assert u[j][k] in u[j];
      WasBeforeRemove(ks, t, key, u[j][k]);
      HeldIsListed(ks, t, list, u[j][k]);
    }
    ByPosition(ks, u, list);
  }

  /** The load that a number of buckets carries without growing. */
  function Load(count: nat): nat {
    count * 3 / 4
  }

  lemma {:induction false} ExceedsLoad(size: int, count: nat)
    requires BucketCount(count)
    ensures Exceeds(size, count) <==> size > Load(count)
  {
    var k :| 0 <= k <= 60 && count == Power(k);
    Powers();
    PowerMonotone(k, 60);
    assert count * 3 % WORD == count * 3;
  }

  /** While no more keys are in use than the buckets carry, a map does not grow. */
  lemma {:induction false} StaysSmall<K(!new), V>(ks: Keys<K>, m: Map<K, V>, ops: seq<Op<K, V>>, list: seq<K>)
    requires Respects(ks) && Refines(ks, m) && BucketCount(|m.table|) && AllListed(ks, m.table, list)
    requires Within(ks, ops, list) && |list| <= Load(|m.table|)
    ensures m.table != [] && |Run(ks, m, ops).table| == |m.table|
    decreases |ops|
  {
    hide Apply, Refines, BucketCount, Listed, AllListed;
    TableExists(ks, m);
    if ops != [] {
      assert Listed(ks, ops[0].key, list);
      ApplySmall(ks, m, ops[0], list);
      ApplyRefines(ks, m, ops[0], ops[0].key);
      assert Within(ks, ops[1..], list) by {
        forall i | 0 <= i < |ops[1..]|
          ensures Listed(ks, ops[1..][i].key, list)
        {
          assert ops[1..][i] == ops[i + 1];
        }
      }
      StaysSmall(ks, Apply(ks, m, ops[0]), ops[1..], list);
    }
  }

  lemma {:induction false} ApplySmall<K(!new), V>(ks: Keys<K>, m: Map<K, V>, op: Op<K, V>, list: seq<K>)
    requires Respects(ks) && Refines(ks, m) && BucketCount(|m.table|) && AllListed(ks, m.table, list)
    requires Listed(ks, op.key, list) && |list| <= Load(|m.table|)
    ensures m.table != [] && |Apply(ks, m, op).table| == |m.table| && AllListed(ks, Apply(ks, m, op).table, list)
  {
    hide Get, Put, Remove, Ok, Total, BucketCount, Listed, AllListed, Exceeds;
    TableExists(ks, m);
    match op
    case PutOp(key, v) =>
      var t := Put(ks, m.table, key, v);
      PutKeepsOk(ks, m.table, key, v);
      KeysAfterPut(ks, m.table, key, v, list);
      SizeIsListed(ks, t, list);
      ExceedsLoad(m.size + 1, |t|);
    case RemoveOp(key) => KeysAfterRemove(ks, m.table, key, list);
  }

  function Puts<K, V>(list: seq<K>, v: V): (ops: seq<Op<K, V>>)
    ensures |ops| == |list|
  {
    seq(|list|, i requires 0 <= i < |list| => PutOp(list[i], v))
  }

  /** Putting different keys beyond what the buckets carry makes a map grow, if it can. */
  lemma {:induction false} Grows<K(!new), V>(ks: Keys<K>, count: nat, list: seq<K>, v: V, n: nat)
    requires Respects(ks) && BucketCount(count) && count < UNIT && n <= |list| && DistinctKeys(ks, list)
    ensures count > 0
    ensures var m := Run(ks, Map(seq(count, b => []), 0), Puts(list, v)[..n]);
      && Refines(ks, m) && BucketCount(|m.table|) && m.size == n && AllListed(ks, m.table, list[..n])
      && |m.table| >= count && (n > Load(count) ==> |m.table| > count)
  {
    hide Apply, Refines, BucketCount, AllListed, Run;
    SomeBucket(count);
    var empty: Map<K, V> := Map(seq(count, b => []), 0);
    var ops := Puts(list, v);
    if n == 0 {
      EmptyRefines<K, V>(ks, count);
      RunNothing(ks, empty);
      assert ops[..0] == [] && list[..0] == [];
    } else {
      Grows(ks, count, list, v, n - 1);
      var m := Run(ks, empty, ops[..n - 1]);
      TableExists(ks, m);
      assert ops[..n] == ops[..n - 1] + [ops[n - 1]];
      RunOneMore(ks, empty, ops[..n - 1], ops[n - 1]);
      ApplyRefines(ks, m, ops[n - 1], list[n - 1]);
      ApplyBuckets(ks, m, ops[n - 1]);
      PutsOne(ks, m, list, v, n - 1);
      if n > Load(count) && |m.table| == count {
        DoubledIsBucketCount(count);
        ExceedsLoad(n, count);
      }
    }
  }

  lemma SomeBucket(count: nat)
    requires BucketCount(count)
    ensures count > 0
  {
  }

  lemma {:induction false} EmptyRefines<K(!new), V>(ks: Keys<K>, count: nat)
    requires count > 0
    ensures var t: Table<K, V> := seq(count, b => []);
      Refines(ks, Map(t, 0)) && AllListed(ks, t, [])
  {
    EmptyFlat<K, V>(count, 0);
  }

  lemma RunNothing<K(!new), V>(ks: Keys<K>, m: Map<K, V>)
    requires m.table != []
    ensures Run(ks, m, []) == m
  {
  }

  lemma {:induction false} RunOneMore<K(!new), V>(ks: Keys<K>, m: Map<K, V>, ops: seq<Op<K, V>>, op: Op<K, V>)
    requires m.table != []
    ensures Run(ks, m, ops + [op]) == Apply(ks, Run(ks, m, ops), op)
    decreases |ops|
  {
    hide Apply;
    if ops == [] {
      assert ([] + [op])[0] == op && ([] + [op])[1..] == [];
    } else {
      assert (ops + [op])[1..] == ops[1..] + [op];
      RunOneMore(ks, Apply(ks, m, ops[0]), ops[1..], op);
    }
  }

  /** A key that is not on the list of those in use is a new one. */
  lemma {:induction false} PutsOne<K(!new), V>(ks: Keys<K>, m: Map<K, V>, list: seq<K>, v: V, n: nat)
    requires Respects(ks) && Refines(ks, m) && BucketCount(|m.table|) && m.size == n < |list|
    requires DistinctKeys(ks, list) && AllListed(ks, m.table, list[..n])
    ensures m.table != []
    ensures var m' := Apply(ks, m, PutOp(list[n], v));
      && m'.size == n + 1 && AllListed(ks, m'.table, list[..n + 1])
      && m'.table == Expand(Put(ks, m.table, list[n], v), n + 1)
  {
    hide Put, Ok, Total, BucketCount, Get, Rehash, AllListed, Same;
    TableExists(ks, m);
    IsNew(ks, m.table, list, n);
    var t := Put(ks, m.table, list[n], v);
    PutKeepsOk(ks, m.table, list[n], v);
    Longer(ks, m.table, list, n);
    ItselfIsSame(ks, list[n]);
    assert list[..n + 1][n] == list[n];
    KeysAfterPut(ks, m.table, list[n], v, list[..n + 1]);
    if Exceeds(n + 1, |t|) && Allocatable(2 * |t| % WORD) {
      RehashedListed(ks, t, 2 * |t| % WORD, list[..n + 1]);
    }
  }

  lemma {:induction false} IsNew<K(!new), V>(ks: Keys<K>, t: Table<K, V>, list: seq<K>, n: nat)
    requires Respects(ks) && Ok(ks, t) && n < |list| && DistinctKeys(ks, list) && AllListed(ks, t, list[..n])
    ensures t != [] && Get(ks, t, list[n]).None?
  {
    hide Get, Same, Ok;
    NotEmpty(ks, t);
    if Get(ks, t, list[n]).Some? {
      var e := GetIsEntry(ks, t, list[n]);
      HeldIsListed(ks, t, list[..n], e);
      var i :| 0 <= i < n && Same(ks, list[..n][i], e.key);
      SameIsEquivalence(ks, list[i], e.key, list[n]);
    }
  }

  lemma {:induction false} Longer<K(!new), V>(ks: Keys<K>, t: Table<K, V>, list: seq<K>, n: nat)
    requires n < |list| && AllListed(ks, t, list[..n])
    ensures AllListed(ks, t, list[..n + 1])
  {
    hide Same;
    forall j, k | 0 <= j < |t| && 0 <= k < |t[j]|
      ensures Listed(ks, t[j][k].key, list[..n + 1])
    {
      var i :| 0 <= i < n && Same(ks, list[..n][i], t[j][k].key);
      assert list[..n + 1][i] == list[..n][i];
    }
  }

  lemma {:induction false} RehashedListed<K(!new), V>(ks: Keys<K>, t: Table<K, V>, count: nat, list: seq<K>)
    requires Respects(ks) && Ok(ks, t) && count > 0 && AllListed(ks, t, list)
    ensures AllListed(ks, Rehash(t, count), list)
  {
    hide Same, Flat, Build, Unrelated, Listed, Ok, AllListed;
    FlatUnrelated(ks, t, 0);
    BuildHolds(ks, count, Flat(t, 0));
    var u: Table<K, V> := Rehash(t, count);
    forall j: nat, k: nat | j < |u| && k < |u[j]|
      ensures Listed(ks, u[j][k].key, list)
    {
      assert u[j][k] in u[j] && Holds(u, u[j][k]);
      InFlat(t, 0, u[j][k]);
      HeldIsListed(ks, t, list, u[j][k]);
    }
    ByPosition(ks, u, list);
  }

  /** A created map carries the capacity asked for exactly when four times the capacity does not wrap, which for a map that
      could be allocated is the same as a capacity below 3 * 2^58. */
  lemma {:induction false} LoadOfCreated(capacity: nat)
    requires capacity < WORD && Allocatable(BucketsFor(capacity))
    ensures capacity <= Load(BucketsFor(capacity)) <==> capacity < 4 * UNIT
    ensures capacity < 4 * UNIT <==> capacity < 0x0c00_0000_0000_0000
    ensures BucketsFor(capacity) <= UNIT
  {
    hide Doubled;
    var least := capacity * 4 % WORD / 3;
    var m := DoubledIsPower(0, least);
    AllocatablePower(m);
    if capacity < 4 * UNIT {
      assert capacity * 4 % WORD == capacity * 4;
    }
  }

  /** Between these bounds no map can be allocated. */
  lemma {:induction false} NoMapBetween(capacity: nat)
    requires 0x0c00_0000_0000_0000 <= capacity < 4 * UNIT
    ensures !Allocatable(BucketsFor(capacity))
  {
    hide Doubled;
    if Allocatable(BucketsFor(capacity)) {
      LoadOfCreated(capacity);
    }
  }

  /** Whatever is put and removed under the listed keys, a created map keeps its number of buckets. */
  ghost predicate NeverGrows<K(!new), V(!new)>(ks: Keys<K>, capacity: nat, list: seq<K>, v: V)
    requires Allocatable(BucketsFor(capacity))
  {
    forall ops: seq<Op<K, V>> {:trigger Run(ks, Created(capacity), ops)} :: Within(ks, ops, list) ==>
      |Run(ks, Created(capacity), ops).table| == BucketsFor(capacity)
  }

  /** The promise of `hashmapCreate`, for a map that it creates and as many different keys as it was asked for: the map
      never grows if and only if the capacity is below 3 * 2^58, or the map cannot grow at all. */
  lemma {:induction false} CapacityHolds<K(!new), V(!new)>(ks: Keys<K>, capacity: nat, list: seq<K>, v: V)
    requires Respects(ks) && capacity < WORD && Allocatable(BucketsFor(capacity))
    requires DistinctKeys(ks, list) && |list| == capacity
    ensures NeverGrows(ks, capacity, list, v) <==> capacity < 0x0c00_0000_0000_0000 || BucketsFor(capacity) == UNIT
  {
    hide BucketsFor, Allocatable, Within, BucketCount, Run, Refines, AllListed;
    var count := BucketsFor(capacity);
    CreatedIsPower(capacity);
    LoadOfCreated(capacity);
    if capacity < 0x0c00_0000_0000_0000 || count == UNIT {
      forall ops: seq<Op<K, V>> | Within(ks, ops, list)
        ensures |Run(ks, Created(capacity), ops).table| == count
      {
        CreatedStays(ks, capacity, ops, list);
      }
    } else {
      var ops := Puts(list, v);
      Grows(ks, count, list, v, capacity);
      assert ops[..capacity] == ops && Created<K, V>(capacity) == Map(seq(count, b => []), 0);
      PutsWithin(ks, list, v);
      assert |Run(ks, Created(capacity), ops).table| > count;
    }
  }

  lemma {:induction false} PutsWithin<K(!new), V>(ks: Keys<K>, list: seq<K>, v: V)
    ensures Within(ks, Puts(list, v), list)
  {
    forall i | 0 <= i < |list|
      ensures Listed(ks, Puts(list, v)[i].key, list)
    {
      ItselfIsSame(ks, list[i]);
    }
  }

  /** The same for any operations on at most as many different keys. */
  lemma {:induction false} CreatedStays<K(!new), V>(ks: Keys<K>, capacity: nat, ops: seq<Op<K, V>>, list: seq<K>)
    requires Respects(ks) && capacity < WORD && Allocatable(BucketsFor(capacity))
    requires Within(ks, ops, list) && |list| <= capacity
    requires capacity < 0x0c00_0000_0000_0000 || BucketsFor(capacity) == UNIT
    ensures |Run(ks, Created(capacity), ops).table| == BucketsFor(capacity)
  {
    hide BucketsFor, Allocatable, Within, BucketCount, Run, Refines, AllListed;
    var m: Map<K, V> := Created(capacity);
    CreatedIsPower(capacity);
    LoadOfCreated(capacity);
    if capacity < 0x0c00_0000_0000_0000 {
      EmptyRefines<K, V>(ks, BucketsFor(capacity));
      NoneListed<K, V>(ks, BucketsFor(capacity), list);
      StaysSmall(ks, m, ops, list);
    } else {
      BucketsArePowers(ks, m, ops);
    }
  }

  lemma NoneListed<K(!new), V>(ks: Keys<K>, count: nat, list: seq<K>)
    ensures var t: Table<K, V> := seq(count, b => []); AllListed(ks, t, list)
  {
  }

  /** The first capacity that gets a map and is not honoured: 2^62 gets one bucket, and the first put doubles it. */
  lemma {:induction false} FirstBrokenCapacity<K(!new), V>(ks: Keys<K>, key: K, v: V)
    requires Respects(ks)
    ensures BucketsFor(4 * UNIT) == 1 && Allocatable(BucketsFor(4 * UNIT))
    ensures |Apply(ks, Created(4 * UNIT), PutOp(key, v)).table| == 2
  {
    hide Mixed, Build, Flat;
    var m: Map<K, V> := Created(4 * UNIT);
    assert Find(ks, m.table[0], 0, key, HashKey(ks, key)) == 0;
  }
}
