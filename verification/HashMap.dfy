/** The hash map as the object it is: an array of buckets whose chains are relinked in place (hashmap.c). */
module HashMaps {
  import opened Options
  import opened HashMapSpec
  import opened HashMapProofs

  class Node<K, V> {
    const key: K
    const hash: bv32
    var value: V
    var next: Node?<K, V>
    ghost var bucket: nat

    constructor (key: K, hash: bv32, value: V, ghost bucket: nat)
      ensures this.key == key && this.hash == hash && this.value == value && next == null && this.bucket == bucket
    {
      this.key, this.hash, this.value, next, this.bucket := key, hash, value, null, bucket;
    }
  }

  /** The node at k of a chain, or the null behind it. */
  ghost function NodeAt<K, V>(nodes: seq<Node<K, V>>, k: nat): Node?<K, V> {
    if k < |nodes| then nodes[k] else null
  }

  /** The nodes are linked in this order, each once. */
  ghost predicate Linked<K, V>(head: Node?<K, V>, nodes: seq<Node<K, V>>, bucket: nat)
    reads set n | n in nodes
  {
    && head == NodeAt(nodes, 0)
    && (forall k :: 0 <= k < |nodes| ==> nodes[k].next == NodeAt(nodes, k + 1) && nodes[k].bucket == bucket)
    && (forall a, b :: 0 <= a < b < |nodes| ==> nodes[a] != nodes[b])
  }

  ghost function Pairs<K, V>(nodes: seq<Node<K, V>>): (c: Chain<K, V>)
    reads set n | n in nodes
    ensures |c| == |nodes|
  {
    seq(|nodes|, k requires 0 <= k < |nodes| reads set n | n in nodes => Pair(nodes[k].key, nodes[k].hash, nodes[k].value))
  }

  ghost function Ref<K, V>(n: Node?<K, V>): set<Node<K, V>> {
    if n == null then {} else {n}
  }

  ghost function PairOf<K, V>(n: Node<K, V>): Pair<K, V>
    reads n
  {
    Pair(n.key, n.hash, n.value)
  }

  /** Every bucket links its chain. The nodes of bucket i are marked base + i, so chains share no node. */
  ghost predicate AllLinked<K, V>(heads: seq<Node?<K, V>>, chains: seq<seq<Node<K, V>>>, base: nat, repr: set<Node<K, V>>)
    reads repr
  {
    && |heads| == |chains|
    && (forall i, n :: 0 <= i < |chains| && n in chains[i] ==> n in repr)
    && (forall i :: 0 <= i < |chains| ==> Linked(heads[i], chains[i], base + i))
  }

  ghost function Contents<K, V>(chains: seq<seq<Node<K, V>>>, repr: set<Node<K, V>>): (t: Table<K, V>)
    requires forall i, n :: 0 <= i < |chains| && n in chains[i] ==> n in repr
    reads repr
    ensures |t| == |chains|
  {
    seq(|chains|, i requires 0 <= i < |chains| && forall n :: n in chains[i] ==> n in repr reads repr => Pairs(chains[i]))
  }

  class Hashmap<K(!new, ==), V> {
    const keys: Keys<K>
    var buckets: array<Node?<K, V>>
    var size: int
    ghost var chains: seq<seq<Node<K, V>>>
    ghost var base: nat
    ghost var repr: set<Node<K, V>>

    constructor (keys: Keys<K>, count: nat)
      requires count > 0
      ensures Valid() && this.keys == keys && size == 0 && fresh(buckets) && repr == {}
      ensures View() == seq(count, b => [])
    {
      this.keys, size, base, repr := keys, 0, 0, {};
      buckets := new Node?<K, V>[count](_ => null);
      chains := seq(count, b => []);
    }

    ghost predicate Valid()
      reads this, buckets, repr
    {
      buckets.Length > 0 && AllLinked(buckets[..], chains, base, repr)
    }

    ghost function View(): (t: Table<K, V>)
      requires Valid()
      reads this, buckets, repr
      ensures |t| == |chains|
    {
      Contents(chains, repr)
    }

    /** Walks along a chain to the entry with the key, or to its end; `previous` owns the link that leads there. */
    method Locate(i: nat, key: K, hash: bv32) returns (previous: Node?<K, V>, current: Node?<K, V>, ghost k: nat)
      requires Valid() && i < |chains|
      ensures k == Find(keys, Pairs(chains[i]), 0, key, hash)
      ensures current == NodeAt(chains[i], Find(keys, Pairs(chains[i]), 0, key, hash))
      ensures if k == 0 then previous == null else previous == NodeAt(chains[i], k - 1)
    {
      previous, current, k := null, buckets[i], 0;
      ghost var chain := Pairs(chains[i]);
      assert Linked(buckets[i], chains[i], base + i);
      while current != null
        invariant k <= |chain| && current == NodeAt(chains[i], k)
        invariant if k == 0 then previous == null else previous == NodeAt(chains[i], k - 1)
        invariant Find(keys, chain, k, key, hash) == Find(keys, chain, 0, key, hash)
        decreases |chain| - k
      {
        if EqualKeys(keys, current.key, current.hash, key, hash) {
          return;
        }
        previous, current, k := current, current.next, k + 1;
      }
    }

    method Get(key: K) returns (v: Option<V>)
      requires Valid()
      ensures v == HashMapSpec.Get(keys, View(), key)
    {
      var hash := HashKey(keys, key);
      var i := Index(buckets.Length, hash);
      var _, current, k := Locate(i, key, hash);
      v := if current == null then None else Some(current.value);
    }

    method ContainsKey(key: K) returns (found: bool)
      requires Valid()
      ensures found == HashMapSpec.Get(keys, View(), key).Some?
    {
      var hash := HashKey(keys, key);
      var i := Index(buckets.Length, hash);
      var _, current, k := Locate(i, key, hash);
      found := current != null;
    }

    /** A new entry behind its chain. */
    method Append(i: nat, previous: Node?<K, V>, key: K, hash: bv32, value: V)
      requires Valid() && i < |chains|
      requires if chains[i] == [] then previous == null else previous == chains[i][|chains[i]| - 1]
      modifies this`chains, this`repr, buckets, Ref(previous)`next
      ensures Valid() && fresh(repr - old(repr))
      ensures View() == old(View())[i := old(View())[i] + [Pair(key, hash, value)]]
    {
      hide Linked;
      var node := new Node(key, hash, value, base + i);
      LinkLast(i, previous, node);
      forall j | 0 <= j < |chains|
        ensures View()[j] == if j == i then old(View()[i]) + [Pair(key, hash, value)] else old(View()[j])
      {
      }
    }

    method LinkLast(i: nat, previous: Node?<K, V>, node: Node<K, V>)
      requires Valid() && i < |chains| && node !in repr && node.next == null && node.bucket == base + i
      requires if chains[i] == [] then previous == null else previous == chains[i][|chains[i]| - 1]
      modifies this`chains, this`repr, buckets, Ref(previous)`next
      ensures Valid() && chains == old(chains)[i := old(chains)[i] + [node]] && repr == old(repr) + {node}
    {
      if previous == null {
        buckets[i] := node;
      } else {
        previous.next := node;
      }
      chains := chains[i := chains[i] + [node]];
      repr := repr + {node};
      forall j | 0 <= j < |chains|
        ensures Linked(buckets[j], chains[j], base + j)
      {
        assert old(Linked(buckets[j], chains[j], base + j));
      }
    }

    /** The entry at k leaves its chain. */
    method Unlink(i: nat, ghost k: nat, previous: Node?<K, V>, current: Node<K, V>)
      requires Valid() && i < |chains| && k < |chains[i]| && current == chains[i][k]
      requires if k == 0 then previous == null else previous == chains[i][k - 1]
      modifies this`chains, buckets, Ref(previous)`next
      ensures Valid() && View() == old(View())[i := old(View())[i][..k] + old(View())[i][k + 1..]]
    {
      hide Linked;
      Relink(i, k, previous, current);
      forall j | 0 <= j < |chains|
        ensures View()[j] == if j == i then old(View()[i])[..k] + old(View()[i])[k + 1..] else old(View()[j])
      {
      }
    }

    method Relink(i: nat, ghost k: nat, previous: Node?<K, V>, current: Node<K, V>)
      requires Valid() && i < |chains| && k < |chains[i]| && current == chains[i][k]
      requires if k == 0 then previous == null else previous == chains[i][k - 1]
      modifies this`chains, buckets, Ref(previous)`next
      ensures Valid() && chains == old(chains)[i := old(chains)[i][..k] + old(chains)[i][k + 1..]]
    {
      hide Linked;
      Bypass(buckets[i], chains[i], base + i, k, previous, current);
      if previous == null {
        buckets[i] := current.next;
      }
      chains := chains[i := chains[i][..k] + chains[i][k + 1..]];
    }

    /** The link of the predecessor, if there is one, goes past the entry. */
    method Bypass(ghost head: Node?<K, V>, ghost was: seq<Node<K, V>>, ghost bucket: nat, ghost k: nat,
                  previous: Node?<K, V>, current: Node<K, V>)
      requires Linked(head, was, bucket) && k < |was| && current == was[k] && buckets.Length == |chains|
      requires if k == 0 then previous == null else previous == was[k - 1]
      modifies Ref(previous)`next
      ensures Linked(if k == 0 then current.next else head, was[..k] + was[k + 1..], bucket)
      ensures forall j :: 0 <= j < |chains| && base + j != bucket && old(Linked(buckets[j], chains[j], base + j)) ==>
        Linked(buckets[j], chains[j], base + j)
    {
      if previous != null {
        previous.next := current.next;
      }
      Relinked(if k == 0 then current.next else head, was, bucket, k);
    }

    method SetValue(i: nat, ghost k: nat, current: Node<K, V>, value: V)
      requires Valid() && i < |chains| && k < |chains[i]| && current == chains[i][k]
      modifies current`value
      ensures Valid() && View() == old(View())[i := old(View())[i][k := old(View())[i][k].(value := value)]]
    {
      current.value := value;
      forall j | 0 <= j < |chains|
        ensures Linked(buckets[j], chains[j], base + j)
        ensures Pairs(chains[j]) == if j == i then old(Pairs(chains[i]))[k := old(Pairs(chains[i]))[k].(value := value)] else old(Pairs(chains[j]))
      {
        assert old(Linked(buckets[j], chains[j], base + j));
        assert old(Linked(buckets[i], chains[i], base + i));
      }
    }

    method Remove(key: K) returns (v: Option<V>)
      requires Valid()
      modifies this, buckets, repr
      ensures Valid() && buckets == old(buckets) && repr == old(repr)
      ensures v == HashMapSpec.Get(keys, old(View()), key)
      ensures Map(View(), size) == Apply(keys, Map(old(View()), old(size)), RemoveOp(key))
    {
      hide Linked, Index, HashKey;
      var hash := HashKey(keys, key);
      var i := Index(buckets.Length, hash);
      var previous, current, k := Locate(i, key, hash);
      if current == null {
        return None;
      }
      v := Some(current.value);
      Unlink(i, k, previous, current);
      size := size - 1;
    }

    // ----- expansion -----

    /** An entry goes to the front of its new chain; the pending chains lose their first. */
    method MoveNode(newBuckets: array<Node?<K, V>>, ghost newChains: seq<seq<Node<K, V>>>, ghost newBase: nat, entry: Node<K, V>,
                    ghost heads: seq<Node?<K, V>>, ghost rest: seq<seq<Node<K, V>>>, ghost b: nat)
      returns (ghost moved: seq<seq<Node<K, V>>>)
      requires newBuckets.Length > 0 && AllLinked(newBuckets[..], newChains, newBase, repr)
      requires AllLinked(heads, rest, b, repr) && b + |rest| <= newBase
      requires rest != [] && rest[0] != [] && rest[0][0] == entry
      modifies newBuckets, entry`next, entry`bucket
      ensures var i := Index(|newChains|, entry.hash); moved == newChains[i := [entry] + newChains[i]]
      ensures AllLinked(newBuckets[..], moved, newBase, repr)
      ensures AllLinked([old(entry.next)] + heads[1..], [rest[0][1..]] + rest[1..], b, repr)
    {
      hide Index, AllLinked;
      var i := Index(newBuckets.Length, entry.hash);
      SameLength(newBuckets[..], newChains, newBase, repr);
      SameLength(heads, rest, b, repr);
      HeadLeaves(newBuckets[..], newChains, newBase, entry, heads, rest, b, i);
      moved := PushFront(newBuckets, newChains, newBase, entry, i, [entry.next] + heads[1..], [rest[0][1..]] + rest[1..], b);
    }

    /** The first entry is no longer of the pending chains: it gets the mark of the bucket it will be in. */
    ghost method HeadLeaves(newHeads: seq<Node?<K, V>>, newChains: seq<seq<Node<K, V>>>, newBase: nat, entry: Node<K, V>,
                            heads: seq<Node?<K, V>>, rest: seq<seq<Node<K, V>>>, b: nat, i: nat)
      requires AllLinked(newHeads, newChains, newBase, repr) && AllLinked(heads, rest, b, repr) && b + |rest| <= newBase
      requires rest != [] && rest[0] != [] && rest[0][0] == entry && i < |newChains|
      modifies entry`bucket
      ensures AllLinked(newHeads, newChains, newBase, repr) && entry in repr && entry.bucket == newBase + i
      ensures forall j :: 0 <= j < |newChains| ==> entry !in newChains[j]
      ensures AllLinked([entry.next] + heads[1..], [rest[0][1..]] + rest[1..], b, repr)
    {
      assert Linked(heads[0], rest[0], b);
      entry.bucket := newBase + i;
    }

    method PushFront(newBuckets: array<Node?<K, V>>, ghost newChains: seq<seq<Node<K, V>>>, ghost newBase: nat, entry: Node<K, V>,
                     i: nat, ghost heads: seq<Node?<K, V>>, ghost rest: seq<seq<Node<K, V>>>, ghost b: nat)
      returns (ghost moved: seq<seq<Node<K, V>>>)
      requires i < newBuckets.Length && AllLinked(newBuckets[..], newChains, newBase, repr)
      requires AllLinked(heads, rest, b, repr) && b + |rest| <= newBase
      requires entry in repr && entry.bucket == newBase + i && forall j :: 0 <= j < |newChains| ==> entry !in newChains[j]
      modifies newBuckets, entry`next
      ensures moved == newChains[i := [entry] + newChains[i]] && AllLinked(newBuckets[..], moved, newBase, repr)
      ensures AllLinked(heads, rest, b, repr)
    {
      assert Linked(newBuckets[i], newChains[i], newBase + i);
      entry.next := newBuckets[i];
      newBuckets[i] := entry;
      moved := newChains[i := [entry] + newChains[i]];
    }

    /** What has been moved, in the order of moving, with what is pending. */
    ghost predicate Moving(newChains: seq<seq<Node<K, V>>>, done: Chain<K, V>, rest: seq<seq<Node<K, V>>>, all: Chain<K, V>)
      requires newChains != []
      requires forall i, n :: 0 <= i < |newChains| && n in newChains[i] ==> n in repr
      requires forall i, n :: 0 <= i < |rest| && n in rest[i] ==> n in repr
      reads this`repr, repr
    {
      Contents(newChains, repr) == Build(|newChains|, done) && done + Flat(Contents(rest, repr), 0) == all
    }

    method MoveChain(newBuckets: array<Node?<K, V>>, ghost newChains: seq<seq<Node<K, V>>>, ghost newBase: nat, head: Node?<K, V>,
                     ghost heads: seq<Node?<K, V>>, ghost rest: seq<seq<Node<K, V>>>, ghost b: nat,
                     ghost done: Chain<K, V>, ghost all: Chain<K, V>)
      returns (ghost moved: seq<seq<Node<K, V>>>, ghost done': Chain<K, V>)
      requires newBuckets.Length > 0 && AllLinked(newBuckets[..], newChains, newBase, repr)
      requires rest != [] && AllLinked(heads, rest, b, repr) && heads[0] == head && b + |rest| <= newBase
      requires Moving(newChains, done, rest, all)
      modifies newBuckets, repr`next, repr`bucket
      ensures AllLinked(newBuckets[..], moved, newBase, repr)
      ensures AllLinked(heads[1..], rest[1..], b + 1, repr)
      ensures Moving(moved, done', rest[1..], all)
    {
      hide Linked, Moving;
      moved, done' := newChains, done;
      ghost var rest' := rest;
      var entry := head;
      assert [head] + heads[1..] == heads;
      while entry != null
        invariant AllLinked(newBuckets[..], moved, newBase, repr)
        invariant rest' != [] && rest'[1..] == rest[1..] && AllLinked([entry] + heads[1..], rest', b, repr)
        invariant Moving(moved, done', rest', all)
        decreases |rest'[0]|
      {
        IsLinked([entry] + heads[1..], rest', b, repr, 0);
        FirstOf(entry, rest'[0], b);
        var next := entry.next;
        moved := MoveOne(newBuckets, moved, newBase, entry, [entry] + heads[1..], rest', b, done', all);
        done' := done' + [PairOf(entry)];
        rest' := [rest'[0][1..]] + rest'[1..];
        assert ([entry] + heads[1..])[1..] == heads[1..];
        entry := next;
      }
      IsLinked([entry] + heads[1..], rest', b, repr, 0);
      FirstOf(entry, rest'[0], b);
      assert ([entry] + heads[1..])[1..] == heads[1..];
      OneLess([entry] + heads[1..], rest', b, repr);
      NextChain(moved, done', rest', all);
    }

    lemma {:induction false} NextChain(newChains: seq<seq<Node<K, V>>>, done: Chain<K, V>, rest: seq<seq<Node<K, V>>>, all: Chain<K, V>)
      requires newChains != [] && rest != [] && rest[0] == []
      requires forall i, n :: 0 <= i < |newChains| && n in newChains[i] ==> n in repr
      requires forall i, n :: 0 <= i < |rest| && n in rest[i] ==> n in repr
      requires Moving(newChains, done, rest, all)
      ensures forall i, n :: 0 <= i < |rest[1..]| && n in rest[1..][i] ==> n in repr
      ensures Moving(newChains, done, rest[1..], all)
    {
      var t := Contents(rest, repr);
      assert Contents(rest[1..], repr) == t[1..];
      FlatShift(t, 1);
    }

    method MoveOne(newBuckets: array<Node?<K, V>>, ghost newChains: seq<seq<Node<K, V>>>, ghost newBase: nat, entry: Node<K, V>,
                   ghost heads: seq<Node?<K, V>>, ghost rest: seq<seq<Node<K, V>>>, ghost b: nat,
                   ghost done: Chain<K, V>, ghost all: Chain<K, V>)
      returns (ghost moved: seq<seq<Node<K, V>>>)
      requires newBuckets.Length > 0 && AllLinked(newBuckets[..], newChains, newBase, repr)
      requires AllLinked(heads, rest, b, repr) && b + |rest| <= newBase
      requires rest != [] && rest[0] != [] && rest[0][0] == entry
      requires Moving(newChains, done, rest, all)
      modifies newBuckets, entry`next, entry`bucket
      ensures AllLinked(newBuckets[..], moved, newBase, repr)
      ensures AllLinked([old(entry.next)] + heads[1..], [rest[0][1..]] + rest[1..], b, repr)
      ensures Moving(moved, done + [PairOf(entry)], [rest[0][1..]] + rest[1..], all)
    {
      hide Linked, Build, Flat, Index;
      ghost var t, u, e := Contents(newChains, repr), Contents(rest, repr), PairOf(entry);
      moved := MoveNode(newBuckets, newChains, newBase, entry, heads, rest, b);
      ghost var rest' := [rest[0][1..]] + rest[1..];
      forall j | 0 <= j < |moved|
        ensures Contents(moved, repr)[j] == MoveIn(t, e)[j]
      {
        assert Pairs(newChains[j]) == t[j];
      }
      forall j | 0 <= j < |rest|
        ensures Contents(rest', repr)[j] == ([u[0][1..]] + u[1..])[j]
      {
        assert Pairs(rest[j]) == u[j];
      }
      assert Contents(moved, repr) == MoveIn(t, e) && Contents(rest', repr) == [u[0][1..]] + u[1..];
      assert u[0][0] == e;
      BuildOneMore(|newChains|, done, e);
      FlatTail(u);
      assert done + ([e] + Flat([u[0][1..]] + u[1..], 0)) == done + [e] + Flat([u[0][1..]] + u[1..], 0);
    }

    method MoveAll(newBuckets: array<Node?<K, V>>, ghost newBase: nat) returns (ghost moved: seq<seq<Node<K, V>>>)
      requires Valid() && newBuckets != buckets && newBuckets.Length > 0 && newBase == base + |chains|
      requires forall b :: 0 <= b < newBuckets.Length ==> newBuckets[b] == null
      modifies newBuckets, repr`next, repr`bucket
      ensures AllLinked(newBuckets[..], moved, newBase, repr)
      ensures Contents(moved, repr) == Rehash(old(View()), newBuckets.Length)
    {
      hide Linked, Moving, Build, Flat;
      ghost var done, all := [], Flat(View(), 0);
      moved := NoChains(newBuckets[..], newBase);
      assert chains[0..] == chains && buckets[0..] == buckets[..];
      StartMoving(moved, chains, all);
      for i := 0 to buckets.Length
        invariant AllLinked(newBuckets[..], moved, newBase, repr)
        invariant AllLinked(buckets[i..], chains[i..], base + i, repr)
        invariant Moving(moved, done, chains[i..], all)
      {
        moved, done := MoveChain(newBuckets, moved, newBase, buckets[i], buckets[i..], chains[i..], base + i, done, all);
        assert buckets[i..][1..] == buckets[i + 1..] && chains[i..][1..] == chains[i + 1..];
      }
      EndMoving(moved, done, chains[buckets.Length..], all);
    }

    ghost function NoChains(heads: seq<Node?<K, V>>, newBase: nat): (none: seq<seq<Node<K, V>>>)
      requires forall b :: 0 <= b < |heads| ==> heads[b] == null
      reads this`repr, repr
      ensures AllLinked(heads, none, newBase, repr) && none == seq(|heads|, b => [])
    {
      seq(|heads|, b => [])
    }

    lemma {:induction false} StartMoving(none: seq<seq<Node<K, V>>>, rest: seq<seq<Node<K, V>>>, all: Chain<K, V>)
      requires none != [] && none == seq(|none|, b => [])
      requires forall i, n :: 0 <= i < |rest| && n in rest[i] ==> n in repr
      requires all == Flat(Contents(rest, repr), 0)
      ensures Moving(none, [], rest, all)
    {
      hide Flat;
      assert Contents(none, repr) == seq(|none|, b => []);
      assert [] + all == all;
    }

    lemma {:induction false} EndMoving(moved: seq<seq<Node<K, V>>>, done: Chain<K, V>, rest: seq<seq<Node<K, V>>>, all: Chain<K, V>)
      requires moved != [] && rest == []
      requires forall i, n :: 0 <= i < |moved| && n in moved[i] ==> n in repr
      requires Moving(moved, done, rest, all)
      ensures Contents(moved, repr) == Build(|moved|, all)
    {
      assert done + [] == done;
    }

    method ExpandIfNecessary()
      requires Valid()
      modifies this`buckets, this`chains, this`base, repr`next, repr`bucket
      ensures Valid() && (buckets == old(buckets) || fresh(buckets))
      ensures View() == Expand(old(View()), size)
    {
      hide Linked, Rehash, Contents, PairOf, Pairs;
      if size > buckets.Length * 3 % WORD / 4 {
        var newCount := 2 * buckets.Length % WORD;
        if !Allocatable(newCount) {
          return;
        }
        var newBuckets := new Node?<K, V>[newCount](_ => null);
        ghost var newBase := base + buckets.Length;
        ghost var moved := MoveAll(newBuckets, newBase);
        buckets := newBuckets;
        chains, base := moved, newBase;
      }
    }

    method Put(key: K, value: V) returns (previousValue: Option<V>)
      requires Valid()
      modifies this, buckets, repr
      ensures Valid() && fresh(repr - old(repr)) && (buckets == old(buckets) || fresh(buckets))
      ensures previousValue == HashMapSpec.Get(keys, old(View()), key)
      ensures Map(View(), size) == Apply(keys, Map(old(View()), old(size)), PutOp(key, value))
    {
      hide Linked, Index, HashKey, Expand;
      var hash := HashKey(keys, key);
      var i := Index(buckets.Length, hash);
      var previous, current, k := Locate(i, key, hash);
      if current == null {
        Append(i, previous, key, hash, value);
        size := size + 1;
        ExpandIfNecessary();
        return None;
      }
      previousValue := Some(current.value);
      SetValue(i, k, current, value);
    }

    method VisitChain(i: nat, callback: (K, V) -> bool) returns (seen: Chain<K, V>, more: bool)
      requires Valid() && i < |chains|
      ensures seen <= View()[i] && Visited(seen, callback, more) && (more ==> seen == View()[i])
    {
      hide Linked;
      IsLinked(buckets[..], chains, base, repr, i);
      ghost var chain := View()[i];
      seen := [];
      var entry := buckets[i];
      ghost var k := 0;
      FirstOf(entry, chains[i], base + i);
      while entry != null
        invariant 0 <= k <= |chain| && entry == NodeAt(chains[i], k)
        invariant seen == chain[..k] && Visited(seen, callback, true)
        decreases |chain| - k
      {
        NextOf(buckets[i], chains[i], base + i, k);
        seen := seen + [Pair(entry.key, entry.hash, entry.value)];
        assert seen == chain[..k + 1];
        if !callback(entry.key, entry.value) {
          return seen, false;
        }
        entry, k := entry.next, k + 1;
      }
      return seen, true;
    }

    /** `hashmapForEach`: bucket by bucket along the chains, until the callback has enough. */
    method ForEach(callback: (K, V) -> bool) returns (visited: Chain<K, V>, more: bool)
      requires Valid()
      ensures visited <= Flat(View(), 0) && Visited(visited, callback, more) && (more ==> visited == Flat(View(), 0))
    {
      hide Linked, Contents, AllLinked, Visited, View;
      NothingVisited(callback);
      visited, more := [], true;
      ghost var t := View();
      var n := buckets.Length;
      SameLength(buckets[..], chains, base, repr);
      for i := 0 to n
        invariant more && visited + Flat(t, i) == Flat(t, 0) && Visited(visited, callback, true)
      {
        var seen;
        seen, more := VisitChain(i, callback);
        assert visited + (t[i] + Flat(t, i + 1)) == visited + t[i] + Flat(t, i + 1);
        VisitedJoin(visited, seen, callback, more);
        if !more {
          assert visited + seen <= visited + t[i];
          visited := visited + seen;
          return;
        }
        visited := visited + seen;
      }
      assert visited + [] == visited;
    }
  }

  /** Every visited entry but the last one wanted more; `more` tells about the last. */
  ghost predicate Visited<K, V>(visited: Chain<K, V>, callback: (K, V) -> bool, more: bool) {
    && (forall j :: 0 <= j < |visited| && (more || j < |visited| - 1) ==> callback(visited[j].key, visited[j].value))
    && (!more ==> visited != [] && !callback(visited[|visited| - 1].key, visited[|visited| - 1].value))
  }

  lemma NothingVisited<K, V>(callback: (K, V) -> bool)
    ensures Visited([], callback, true)
  {
  }

  lemma {:induction false} VisitedJoin<K, V>(a: Chain<K, V>, b: Chain<K, V>, callback: (K, V) -> bool, more: bool)
    requires Visited(a, callback, true) && Visited(b, callback, more)
    ensures Visited(a + b, callback, more)
  {
  }

  lemma {:induction false} SameLength<K, V>(heads: seq<Node?<K, V>>, chains: seq<seq<Node<K, V>>>, base: nat, repr: set<Node<K, V>>)
    requires AllLinked(heads, chains, base, repr)
    ensures |heads| == |chains|
  {
  }

  lemma {:induction false} NextOf<K, V>(head: Node?<K, V>, nodes: seq<Node<K, V>>, bucket: nat, k: nat)
    requires Linked(head, nodes, bucket) && k < |nodes|
    ensures nodes[k].next == NodeAt(nodes, k + 1)
  {
  }

  /** `hashmapCreate`: None when the buckets cannot be allocated. */
  method Create<K(!new, ==), V>(capacity: nat, keys: Keys<K>) returns (m: Option<Hashmap<K, V>>)
    requires capacity < WORD
    ensures m.Some? <==> Allocatable(BucketsFor(capacity))
    ensures m.Some? ==> fresh(m.value) && m.value.Valid() && m.value.keys == keys && m.value.size == 0
    ensures m.Some? ==> m.value.View() == seq(BucketsFor(capacity), b => [])
  {
    var least := capacity * 4 % WORD / 3;
    var count := 1;
    while count <= least
      invariant count > 0 && Doubled(count, least) == Doubled(1, least)
      decreases least - count
    {
      count := 2 * count;
    }
    if !Allocatable(count) {
      return None;
    }
    var created := new Hashmap<K, V>(keys, count);
    return Some(created);
  }

  /** The link past the entry at k, in a chain that is otherwise as it was. */
  lemma {:induction false} Relinked<K, V>(head: Node?<K, V>, was: seq<Node<K, V>>, bucket: nat, k: nat)
    requires k < |was| && head == if k == 0 then NodeAt(was, 1) else was[0]
    requires forall a :: 0 <= a < |was| ==> was[a].next == NodeAt(was, if a + 1 == k then k + 1 else a + 1) && was[a].bucket == bucket
    requires forall a, b :: 0 <= a < b < |was| ==> was[a] != was[b]
    ensures Linked(head, was[..k] + was[k + 1..], bucket)
  {
    var nodes := was[..k] + was[k + 1..];
    forall a | 0 <= a < |nodes|
      ensures nodes[a].next == NodeAt(nodes, a + 1) && nodes[a].bucket == bucket
    {
      assert nodes[a] == was[if a < k then a else a + 1];
    }
  }

  lemma {:induction false} FirstOf<K, V>(head: Node?<K, V>, nodes: seq<Node<K, V>>, bucket: nat)
    requires Linked(head, nodes, bucket)
    ensures head != null <==> nodes != []
    ensures head != null ==> nodes[0] == head
  {
  }

  lemma {:induction false} OneLess<K, V>(heads: seq<Node?<K, V>>, chains: seq<seq<Node<K, V>>>, base: nat, repr: set<Node<K, V>>)
    requires AllLinked(heads, chains, base, repr) && chains != []
    ensures AllLinked(heads[1..], chains[1..], base + 1, repr)
  {
    hide Linked;
    forall i | 0 <= i < |chains| - 1
      ensures Linked(heads[1..][i], chains[1..][i], base + 1 + i)
    {
      assert Linked(heads[i + 1], chains[i + 1], base + (i + 1));
    }
  }

  lemma {:induction false} FlatShift<K, V>(t: Table<K, V>, i: nat)
    requires i <= |t|
    ensures Flat(t, i) == Flat(t[i..], 0)
    ensures i < |t| ==> Flat(t, i) == t[i] + Flat(t[i..][1..], 0)
    decreases |t| - i
  {
    if i < |t| {
      FlatShift(t, i + 1);
      FlatFirst(t[i..]);
      assert t[i..][1..] == t[i + 1..];
    }
  }

  lemma {:induction false} FlatFirst<K, V>(t: Table<K, V>)
    requires t != []
    ensures Flat(t, 0) == t[0] + Flat(t[1..], 0)
  {
    FlatDrop(t, 1);
  }

  lemma {:induction false} FlatDrop<K, V>(t: Table<K, V>, i: nat)
    requires 0 < i <= |t|
    ensures Flat(t, i) == Flat(t[1..], i - 1)
    decreases |t| - i
  {
    if i < |t| {
      FlatDrop(t, i + 1);
    }
  }

  lemma {:induction false} FlatTail<K, V>(t: Table<K, V>)
    requires t != [] && t[0] != []
    ensures Flat(t, 0) == [t[0][0]] + Flat([t[0][1..]] + t[1..], 0)
  {
    var u := [t[0][1..]] + t[1..];
    FlatFirst(t);
    FlatFirst(u);
    assert u[1..] == t[1..] && t[0] == [t[0][0]] + t[0][1..];
  }

  lemma {:induction false} BuildOneMore<K, V>(count: nat, es: Chain<K, V>, e: Pair<K, V>)
    requires count > 0
    ensures Build(count, es + [e]) == MoveIn(Build(count, es), e)
  {
    assert (es + [e])[..|es|] == es;
  }

  lemma {:induction false} IsLinked<K, V>(heads: seq<Node?<K, V>>, chains: seq<seq<Node<K, V>>>, base: nat, repr: set<Node<K, V>>, i: nat)
    requires AllLinked(heads, chains, base, repr) && i < |chains|
    ensures Linked(heads[i], chains[i], base + i)
  {
  }
}
