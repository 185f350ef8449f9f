/** The chained hash map of hashmap.c on values, against a mathematical map. */
module HashMapSpec {
  import opened Options

  const WORD: nat := 0x1_0000_0000_0000_0000 // size_t has 64 bits

  /** What the creator of a map supplies. Keys are pointers: `==` is identity. */
  datatype Keys<!K> = Keys(hash: K -> bv32, equals: (K, K) -> bool)

  datatype Pair<K, V> = Pair(key: K, hash: bv32, value: V)

  type Chain<K, V> = seq<Pair<K, V>>

  /** The buckets, each with its chain in order. */
  type Table<K, V> = seq<Chain<K, V>>

  // ----- hashing -----

  /** `hashKey`: the secondary hash. */
  function Mixed(hash: bv32): bv32 {
    var a := hash + !(hash << 9);
    var b := a ^ (a >> 14);
    var c := b + (b << 4);
    c ^ (c >> 10)
  }

  function HashKey<K>(ks: Keys<K>, key: K): bv32 {
    Mixed(ks.hash(key))
  }

  /** `calculateIndex`: the mask of a power of two, applied to the sign-extended hash. */
  function Index(count: nat, hash: bv32): (i: nat)
    requires count > 0
    ensures i < count
  {
    (if hash < 0x8000_0000 then hash as int else hash as int - 0x1_0000_0000) % count
  }

  predicate Same<K(==)>(ks: Keys<K>, a: K, b: K) {
    a == b || ks.equals(a, b)
  }

  /** `equalKeys`: identity, or the same hash and equal. */
  predicate EqualKeys<K(==)>(ks: Keys<K>, a: K, hashA: bv32, b: K, hashB: bv32) {
    a == b || (hashA == hashB && ks.equals(a, b))
  }

  /** `equals` is an equivalence that `hash` respects. */
  ghost predicate Respects<K(!new)>(ks: Keys<K>) {
    && (forall a :: ks.equals(a, a))
    && (forall a, b :: ks.equals(a, b) ==> ks.equals(b, a) && ks.hash(a) == ks.hash(b))
    && (forall a, b, c :: ks.equals(a, b) && ks.equals(b, c) ==> ks.equals(a, c))
  }

  // ----- the operations -----

  /** Where the walk along a chain from i stops. */
  function Find<K(==), V>(ks: Keys<K>, chain: Chain<K, V>, i: nat, key: K, hash: bv32): (r: nat)
    requires i <= |chain|
    ensures i <= r <= |chain|
    ensures r < |chain| ==> EqualKeys(ks, chain[r].key, chain[r].hash, key, hash)
    ensures forall j :: i <= j < r ==> !EqualKeys(ks, chain[j].key, chain[j].hash, key, hash)
    decreases |chain| - i
  {
    if i == |chain| || EqualKeys(ks, chain[i].key, chain[i].hash, key, hash) then i
    else Find(ks, chain, i + 1, key, hash)
  }

  function BucketOf<K>(ks: Keys<K>, count: nat, key: K): (i: nat)
    requires count > 0
    ensures i < count
  {
    Index(count, HashKey(ks, key))
  }

  /** `hashmapGet`; `hashmapContainsKey` is whether it finds something. */
  function Get<K(==), V>(ks: Keys<K>, t: Table<K, V>, key: K): Option<V>
    requires t != []
  {
    var chain := t[BucketOf(ks, |t|, key)];
    var i := Find(ks, chain, 0, key, HashKey(ks, key));
    if i < |chain| then Some(chain[i].value) else None
  }

  /** `hashmapPut` before a possible expansion: the value of an entry is replaced, or an entry added behind its chain. */
  function Put<K(==), V>(ks: Keys<K>, t: Table<K, V>, key: K, v: V): (r: Table<K, V>)
    requires t != []
    ensures |r| == |t|
  {
    var b, h := BucketOf(ks, |t|, key), HashKey(ks, key);
    var i := Find(ks, t[b], 0, key, h);
    t[b := if i < |t[b]| then t[b][i := t[b][i].(value := v)] else t[b] + [Pair(key, h, v)]]
  }

  function Remove<K(==), V>(ks: Keys<K>, t: Table<K, V>, key: K): (r: Table<K, V>)
    requires t != []
    ensures |r| == |t|
  {
    var b, h := BucketOf(ks, |t|, key), HashKey(ks, key);
    var i := Find(ks, t[b], 0, key, h);
    t[b := if i < |t[b]| then t[b][..i] + t[b][i + 1..] else t[b]]
  }

  /** All entries from bucket i on, in the order in which rehashing meets them. */
  function Flat<K, V>(t: Table<K, V>, i: nat): Chain<K, V>
    requires i <= |t|
    decreases |t| - i
  {
    if i == |t| then [] else t[i] + Flat(t, i + 1)
  }

  /** Moving an entry to the front of its new chain. */
  function MoveIn<K, V>(t: Table<K, V>, e: Pair<K, V>): (r: Table<K, V>)
    requires t != []
    ensures |r| == |t|
  {
    var b := Index(|t|, e.hash);
    t[b := [e] + t[b]]
  }

  function Build<K, V>(count: nat, es: Chain<K, V>): (t: Table<K, V>)
    requires count > 0
    ensures |t| == count
  {
    if es == [] then seq(count, i => []) else MoveIn(Build(count, es[..|es| - 1]), es[|es| - 1])
  }

  function Rehash<K, V>(t: Table<K, V>, count: nat): Table<K, V>
    requires count > 0
  {
    Build(count, Flat(t, 0))
  }

  /** The test of `expandIfNecessary`; the product wraps. */
  predicate Exceeds(size: int, count: nat) {
    size > count * 3 % WORD / 4
  }

  /** `calloc` cannot give more than a size_t can count. */
  predicate Allocatable(count: nat) {
    0 < count && count * 8 < WORD
  }

  function Expand<K, V>(t: Table<K, V>, size: int): Table<K, V> {
    if Exceeds(size, |t|) && Allocatable(2 * |t| % WORD) then Rehash(t, 2 * |t| % WORD) else t
  }

  // ----- creation -----

  /** The loop of `hashmapCreate`. */
  function Doubled(count: nat, least: nat): nat
    requires 0 < count
    decreases least - count
  {
    if count <= least then Doubled(2 * count, least) else count
  }

  function BucketsFor(capacity: nat): nat {
    Doubled(1, capacity * 4 % WORD / 3)
  }
}
