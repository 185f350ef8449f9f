/** The bundle as the object it is: maps that `put*` and `erase` change, written to and read from a parcel in place. */
module PersistableBundles {
  import opened Bytes
  import opened Options
  import opened ParcelSpec
  import opened ParcelProofs
  import opened ParcelBuffer
  import opened BundleSpec
  import BundleProofs
  import BundleLoss

  class PersistableBundle {
    var maps: map<Slot, Value>

    constructor ()
      ensures maps == map[]
    {
      maps := map[];
    }

    method Erase(key: Key) returns (n: nat)
      modifies this
      ensures (maps, n) == Erased(old(maps), key, 0)
    {
      for kind := 0 to 11
        invariant maps == old(maps) && Erased(maps, key, 0) == Erased(maps, key, kind)
      {
        if Slot(kind, key) in maps {
          maps := maps - {Slot(kind, key)};
          return 1;
        }
      }
      return 0;
    }

    /** `putBoolean`, `putInt`, ..., `putPersistableBundle`. */
    method Put(key: Key, v: Value)
      modifies this
      ensures maps == BundleSpec.Put(old(maps), key, v)
    {
      var _ := Erase(key);
      maps := maps[Slot(KindOf(v), key) := v];
    }

    /** `getBoolean`, ..., `getPersistableBundle`. */
    method Get(kind: Kind, key: Key) returns (v: Option<Value>)
      ensures v == Lookup(maps, kind, key)
    {
      v := if Slot(kind, key) in maps then Some(maps[Slot(kind, key)]) else None;
    }

    method WriteToParcel(parcel: OwnedParcel) returns (status: Status)
      requires parcel.InData() && parcel.pos == parcel.size
      modifies parcel, parcel.data
      ensures parcel.InData()
      ensures status == NoError ==> Written(old(parcel.View()), parcel.View(), Items(Bundle(maps)))
      ensures status != NoError ==> !Fits(old(parcel.View()), Items(Bundle(maps)))
      ensures status == NoError && Proper(Bundle(maps)) ==>
        var g := ReadBundle(parcel.data[..parcel.size], old(parcel.pos), NO_ENTRIES);
        Fits(old(parcel.View()), Items(Bundle(maps))) <==> g.status == NoError && g.value == Bundle(maps)
    {
      hide Items, EncodedAll, ReadBundle, CapacityAfter, AllSizes, Proper;
      ghost var p := parcel.View();
      NothingWritten(p);
      status := WriteBundle(Bundle(maps), parcel, p, []);
      assert [] + Items(Bundle(maps)) == Items(Bundle(maps));
      if status == NoError && Proper(Bundle(maps)) {
        BundleLoss.BundleRoundTrip(p, parcel.View(), Bundle(maps));
      }
    }

    method ReadFromParcel(parcel: OwnedParcel) returns (status: Status)
      requires parcel.InData()
      modifies this, parcel`pos
      ensures parcel.InData()
      ensures var g := ReadBundle(parcel.data[..parcel.size], old(parcel.pos), Bundle(old(maps)));
        && parcel.pos == g.pos && status == g.status
        && (status == NoError ==> Bundle(maps) == g.value)
    {
      var b;
      b, status := ReadFrom(parcel, Bundle(maps));
      maps := b.maps;
    }
  }

  // ----- writing -----

  /** What writers leave behind that started from `p` at the end of its data: all of the items, or too little when they
      do not fit; and an error only when they do not fit. */
  ghost predicate Leaves(p: Parcel, parcel: OwnedParcel, status: Status, items: seq<Item>)
    reads parcel, parcel.data
  {
    && parcel.InData()
    && (status == NoError ==> parcel.pos == parcel.size && Written(p, parcel.View(), items))
    && (status != NoError ==> !Fits(p, items))
  }

  method WriteItem(item: Item, parcel: OwnedParcel, ghost p: Parcel, ghost done: seq<Item>) returns (status: Status)
    requires AtEnd(p) && Leaves(p, parcel, NoError, done)
    requires item.Int32? || item.Int64? || item.Text16?
    modifies parcel, parcel.data
    ensures parcel.data == old(parcel.data) || fresh(parcel.data)
    ensures Leaves(p, parcel, status, done + [item])
    ensures item.Int32? && status == NoError ==> parcel.pos == old(parcel.pos) + 4
  {
    hide Written, Fits, ParcelSpec.WriteItem;
    ghost var q := parcel.View();
    IsAtEnd(p, parcel, done);
    match item {
      case Int32(v) => status := parcel.WriteInt32(v);
      case Int64(v) => status := parcel.WriteInt64(v);
      case Text16(u) => status := parcel.WriteString16(u);
    }
    ItemWritten(q, item);
    IntWritten(q, item);
    if status == NoError {
      WrittenTwice(p, q, parcel.View(), done, [item]);
      IsAtEnd(q, parcel, [item]);
    } else {
      NotFitsLater(p, q, done, [item]);
    }
  }

  lemma {:induction false} IntWritten(q: Parcel, item: Item)
    requires AtEnd(q)
    ensures item.Int32? && ParcelSpec.WriteItem(q, item).1 == NoError ==> ParcelSpec.WriteItem(q, item).0.pos == q.pos + 4
  {
    if item.Int32? {
      hide ParcelSpec.WriteItem;
      ItemAtEnd(q, item);
      BundleProofs.WordSizes(item.v);
    }
  }

  lemma {:induction false} IsAtEnd(p: Parcel, parcel: OwnedParcel, items: seq<Item>)
    requires parcel.InData() && Written(p, parcel.View(), items)
    ensures AtEnd(parcel.View()) && parcel.pos == parcel.size
  {
  }

  lemma {:induction false} FailsLater(p: Parcel, parcel: OwnedParcel, status: Status, a: seq<Item>, b: seq<Item>)
    requires Leaves(p, parcel, status, a) && status != NoError
    ensures Leaves(p, parcel, status, a + b)
  {
    FitsPrefix(p, a, b);
  }

  lemma {:induction false} TooMany(p: Parcel, parcel: OwnedParcel, done: seq<Item>, items: seq<Item>)
    requires AtEnd(p) && Leaves(p, parcel, NoError, done) && |items| > INT32_MAX
    ensures Leaves(p, parcel, BadValue, done + items)
  {
    hide Written, EncodedAll, CapacityAfter, AllSizes;
    if Fits(p, done + items) {
      BundleProofs.FitsIsSmall(p, done + items);
      BundleProofs.CountBound(done + items);
      assert false;
    }
  }

  /** `unsafeWriteTypedVector`: the number of elements and then each of them. */
  method WriteVector(elements: seq<Item>, parcel: OwnedParcel, ghost p: Parcel, ghost done: seq<Item>)
    returns (status: Status)
    requires AtEnd(p) && Leaves(p, parcel, NoError, done)
    requires forall x :: x in elements ==> x.Int32? || x.Int64? || x.Text16?
    modifies parcel, parcel.data
    ensures parcel.data == old(parcel.data) || fresh(parcel.data)
    ensures Leaves(p, parcel, status, done + ([Int32(|elements|)] + elements))
  {
    hide Leaves, EncodedAll;
    ghost var all := done + ([Int32(|elements|)] + elements);
    if |elements| > INT32_MAX {
      TooMany(p, parcel, done, [Int32(|elements|)] + elements);
      return BadValue;
    }
    status := WriteItem(Int32(|elements|), parcel, p, done);
    ghost var head := done + [Int32(|elements|)];
    assert head + elements[..0] == head && head + elements == all;
    if status != NoError {
      FailsLater(p, parcel, status, head, elements);
      return;
    }
    for i := 0 to |elements|
      invariant parcel.data == old(parcel.data) || fresh(parcel.data)
      invariant status == NoError && Leaves(p, parcel, NoError, head + elements[..i])
    {
      status := WriteItem(elements[i], parcel, p, head + elements[..i]);
      assert head + elements[..i] + [elements[i]] == head + elements[..i + 1];
      if status != NoError {
        FailsLater(p, parcel, status, head + elements[..i + 1], elements[i + 1..]);
        assert head + elements[..i + 1] + elements[i + 1..] == all;
        return;
      }
    }
    assert elements[..|elements|] == elements;
  }

  method WriteValue(v: Value, parcel: OwnedParcel, ghost p: Parcel, ghost done: seq<Item>) returns (status: Status)
    requires AtEnd(p) && Leaves(p, parcel, NoError, done)
    modifies parcel, parcel.data
    ensures parcel.data == old(parcel.data) || fresh(parcel.data)
    ensures Leaves(p, parcel, status, done + ValueItems(v))
    decreases v, 4
  {
    hide Leaves, Narrows, Wides, Texts;
    VectorLengths(v);
    match v {
      case Bool(b) => status := WriteItem(Int32(if b then 1 else 0), parcel, p, done);
      case Int(n) => status := WriteItem(Int32(n), parcel, p, done);
      case Long(n) => status := WriteItem(Int64(n), parcel, p, done);
      case Double(n) => status := WriteItem(Int64(n), parcel, p, done);
      case Str(u) => status := WriteItem(Text16(u), parcel, p, done);
      case Bools(bs) => status := WriteVector(Narrows(FromBools(bs)), parcel, p, done);
      case Ints(ns) => status := WriteVector(Narrows(ns), parcel, p, done);
      case Longs(ns) => status := WriteVector(Wides(ns), parcel, p, done);
      case Doubles(ns) => status := WriteVector(Wides(ns), parcel, p, done);
      case Strs(us) => status := WriteVector(Texts(us), parcel, p, done);
      case Nested(b) => status := WriteBundle(b, parcel, p, done);
    }
  }

  lemma {:induction false} VectorLengths(v: Value)
    ensures v.Bools? ==> |Narrows(FromBools(v.bs))| == |v.bs| && Elements(Narrows(FromBools(v.bs)))
    ensures v.Ints? ==> |Narrows(v.ns)| == |v.ns| && Elements(Narrows(v.ns))
    ensures v.Longs? || v.Doubles? ==> |Wides(v.ns)| == |v.ns| && Elements(Wides(v.ns))
    ensures v.Strs? ==> |Texts(v.us)| == |v.us| && Elements(Texts(v.us))
  {
    match v
    case Bools(bs) => NumberElements(FromBools(bs));
    case Ints(ns) => NumberElements(ns);
    case Longs(ns) => NumberElements(ns);
    case Doubles(ns) => NumberElements(ns);
    case Strs(us) => TextElements(us);
    case _ =>
  }

  predicate Elements(items: seq<Item>) {
    forall x :: x in items ==> x.Int32? || x.Int64? || x.Text16?
  }

  lemma {:induction false} NumberElements(ns: seq<int>)
    ensures |Narrows(ns)| == |Wides(ns)| == |ns| && Elements(Narrows(ns)) && Elements(Wides(ns))
  {
    if ns != [] {
      NumberElements(ns[1..]);
    }
  }

  lemma {:induction false} TextElements(us: seq<Key>)
    ensures |Texts(us)| == |us| && Elements(Texts(us))
  {
    if us != [] {
      TextElements(us[1..]);
    }
  }

  method WriteEntry(s: Slot, v: Value, parcel: OwnedParcel, ghost p: Parcel, ghost done: seq<Item>) returns (status: Status)
    requires AtEnd(p) && Leaves(p, parcel, NoError, done)
    modifies parcel, parcel.data
    ensures parcel.data == old(parcel.data) || fresh(parcel.data)
    ensures Leaves(p, parcel, status, done + Entry(s, v))
    decreases v, 5
  {
    hide Leaves, ValueItems;
    ghost var key, tag := Text16(s.key), Int32(TAGS[s.kind]);
    assert done + [key] + ([tag] + ValueItems(v)) == done + Entry(s, v);
    assert done + [key] + [tag] + ValueItems(v) == done + Entry(s, v);
    status := WriteItem(Text16(s.key), parcel, p, done);
    if status != NoError {
      FailsLater(p, parcel, status, done + [key], [tag] + ValueItems(v));
      return;
    }
    status := WriteItem(Int32(TAGS[s.kind]), parcel, p, done + [key]);
    if status != NoError {
      FailsLater(p, parcel, status, done + [key] + [tag], ValueItems(v));
      return;
    }
    status := WriteValue(v, parcel, p, done + [key] + [tag]);
  }

  /** The loops over the eleven maps, one after the other in one loop. */
  method WriteEntries(b: Bundle, parcel: OwnedParcel, ghost p: Parcel, ghost done: seq<Item>) returns (status: Status)
    requires AtEnd(p) && Leaves(p, parcel, NoError, done)
    modifies parcel, parcel.data
    ensures parcel.data == old(parcel.data) || fresh(parcel.data)
    ensures Leaves(p, parcel, status, done + Entries(b, Order(b.maps.Keys)))
    decreases b, 1
  {
    hide Leaves, Entry, Entries, Order;
    var rest := b.maps.Keys;
    ghost var all := done + Entries(b, Order(rest));
    ghost var sofar := done;
    status := NoError;
    while rest != {}
      invariant rest <= b.maps.Keys
      invariant parcel.data == old(parcel.data) || fresh(parcel.data)
      invariant status == NoError && Leaves(p, parcel, NoError, sofar)
      invariant sofar + Entries(b, Order(rest)) == all
      decreases rest
    {
      HasLeast(rest);
      var s :| s in rest && IsLeast(s, rest);
      ghost var later := Entries(b, Order(rest - {s}));
      EntriesOfLeast(b, rest, s);
      assert sofar + (Entry(s, b.maps[s]) + later) == sofar + Entry(s, b.maps[s]) + later;
      status := WriteEntry(s, b.maps[s], parcel, p, sofar);
      sofar := sofar + Entry(s, b.maps[s]);
      if status != NoError {
        FailsLater(p, parcel, status, sofar, later);
        return;
      }
      rest := rest - {s};
    }
    NoEntries(b);
    assert sofar + [] == sofar;
  }

  lemma {:induction false} EntriesOfLeast(b: Bundle, slots: set<Slot>, s: Slot)
    requires slots <= b.maps.Keys && IsLeast(s, slots)
    ensures Entries(b, Order(slots)) == Entry(s, b.maps[s]) + Entries(b, Order(slots - {s}))
  {
    hide Entry;
    forall t | IsLeast(t, slots)
      ensures t == s
    {
      LeastIsUnique(s, t, slots);
    }
    assert Order(slots)[0] == s && Order(slots)[1..] == Order(slots - {s});
  }

  lemma NoEntries(b: Bundle)
    ensures Entries(b, Order({})) == []
  {
  }

  /** `writeToParcelInner`. */
  method WriteInner(b: Bundle, parcel: OwnedParcel, ghost p: Parcel, ghost done: seq<Item>) returns (status: Status)
    requires AtEnd(p) && Leaves(p, parcel, NoError, done)
    modifies parcel, parcel.data
    ensures parcel.data == old(parcel.data) || fresh(parcel.data)
    ensures Leaves(p, parcel, status, done + Inner(b))
    decreases b, 2
  {
    hide Leaves, Entries, Order;
    ghost var entries := Entries(b, Order(b.maps.Keys));
    assert done + [Int32(|b.maps|)] + entries == done + Inner(b);
    if |b.maps| > INT32_MAX {
      BundleProofs.EntryCount(b, Order(b.maps.Keys));
      TooMany(p, parcel, done, Inner(b));
      return BadValue;
    }
    status := WriteItem(Int32(|b.maps|), parcel, p, done);
    if status != NoError {
      FailsLater(p, parcel, status, done + [Int32(|b.maps|)], entries);
      return;
    }
    status := WriteEntries(b, parcel, p, done + [Int32(|b.maps|)]);
  }

  /** `writeToParcel`: the length is filled in when the entries have been written. A length that does not fit its word
      cannot be, positions do not pass INT32_MAX. */
  method WriteBundle(b: Bundle, parcel: OwnedParcel, ghost p: Parcel, ghost done: seq<Item>) returns (status: Status)
    requires AtEnd(p) && Leaves(p, parcel, NoError, done)
    modifies parcel, parcel.data
    ensures parcel.data == old(parcel.data) || fresh(parcel.data)
    ensures Leaves(p, parcel, status, done + Items(b))
    decreases b, 3, 1
  {
    hide Leaves, Inner, Written;
    if b.maps == map[] {
      status := WriteItem(Int32(0), parcel, p, done);
      return;
    }
    StartsAt(p, parcel, done);
    ghost var q := parcel.View();
    var lengthPos := parcel.pos;
    status := WriteUnpatched(b, parcel, q);
    if status == NoError {
      Backpatch(parcel, lengthPos, q, Inner(b));
    } else {
      UnpatchedFails(q, parcel, status, Inner(b));
    }
    OnTop(p, q, parcel, status, done, Items(b));
  }

  lemma {:induction false} StartsAt(p: Parcel, parcel: OwnedParcel, done: seq<Item>)
    requires Leaves(p, parcel, NoError, done)
    ensures parcel.InData() && parcel.pos == parcel.size && AtEnd(parcel.View())
    ensures Written(p, parcel.View(), done) && Leaves(parcel.View(), parcel, NoError, [])
  {
    NothingWritten(parcel.View());
  }

  /** What was written from a later point, seen from an earlier one. */
  lemma {:induction false} OnTop(p: Parcel, q: Parcel, parcel: OwnedParcel, status: Status, a: seq<Item>, b: seq<Item>)
    requires Written(p, q, a) && Leaves(q, parcel, status, b)
    ensures Leaves(p, parcel, status, a + b)
  {
    hide Written, CapacityAfter, AllSizes;
    if status == NoError {
      WrittenTwice(p, q, parcel.View(), a, b);
    } else {
      NotFitsLater(p, q, a, b);
    }
  }

  /** The value of the length word does not matter for what fits. */
  lemma {:induction false} SameSizes(q: Parcel, m: int, n: int, inner: seq<Item>)
    ensures AllSizes([Int32(m), Int32(BUNDLE_MAGIC)] + inner) == AllSizes([Int32(n), Int32(BUNDLE_MAGIC)] + inner)
    ensures EncodedAll([Int32(n), Int32(BUNDLE_MAGIC)] + inner) == Word(n, 4) + (Word(BUNDLE_MAGIC, 4) + EncodedAll(inner))
    ensures EncodedAll([Int32(m), Int32(BUNDLE_MAGIC)] + inner) == Word(m, 4) + (Word(BUNDLE_MAGIC, 4) + EncodedAll(inner))
  {
    hide Word, Sizes;
    var a, b := [Int32(m), Int32(BUNDLE_MAGIC)] + inner, [Int32(n), Int32(BUNDLE_MAGIC)] + inner;
    assert a[1..] == b[1..] == [Int32(BUNDLE_MAGIC)] + inner && a[1..][1..] == inner;
    assert Sizes(Int32(m)) == Sizes(Int32(n)) by { IntSizes(m); IntSizes(n); }
  }

  lemma {:induction false} UnpatchedFails(q: Parcel, parcel: OwnedParcel, status: Status, inner: seq<Item>)
    requires Leaves(q, parcel, status, [Int32(1), Int32(BUNDLE_MAGIC)] + inner) && status != NoError
    ensures Leaves(q, parcel, status, [Int32(|EncodedAll(inner)|), Int32(BUNDLE_MAGIC)] + inner)
  {
    SameSizes(q, 1, |EncodedAll(inner)|, inner);
  }

  lemma IntSizes(m: int)
    ensures Sizes(Int32(m)) == [4]
  {
  }

  /** Everything but the length, which is 1 for now. */
  method WriteUnpatched(b: Bundle, parcel: OwnedParcel, ghost q: Parcel) returns (status: Status)
    requires parcel.InData() && q == parcel.View() && AtEnd(q) && Leaves(q, parcel, NoError, [])
    modifies parcel, parcel.data
    ensures parcel.data == old(parcel.data) || fresh(parcel.data)
    ensures Leaves(q, parcel, status, [Int32(1), Int32(BUNDLE_MAGIC)] + Inner(b))
    ensures status == NoError ==> |q.bytes| + 8 <= parcel.size
    decreases b, 3, 0
  {
    hide Leaves, Inner, Written;
    ghost var first, second, inner := Int32(1), Int32(BUNDLE_MAGIC), Inner(b);
    assert [] + [first] + ([second] + inner) == [first, second] + inner;
    assert [] + [first] + [second] == [first, second];
    status := WriteItem(Int32(1), parcel, q, []);
    if status != NoError {
      FailsLater(q, parcel, status, [] + [first], [second] + inner);
      return;
    }
    status := WriteItem(Int32(BUNDLE_MAGIC), parcel, q, [] + [first]);
    if status != NoError {
      FailsLater(q, parcel, status, [first, second], inner);
      return;
    }
    StartsAt(q, parcel, [first, second]);
    ghost var r := parcel.View();
    status := WriteInner(b, parcel, r, []);
    assert [] + inner == inner;
    OnTop(q, r, parcel, status, [first, second], inner);
    if status == NoError {
      Grows(r, parcel, inner);
    }
  }

  lemma {:induction false} Grows(r: Parcel, parcel: OwnedParcel, items: seq<Item>)
    requires Leaves(r, parcel, NoError, items)
    ensures |r.bytes| <= parcel.size
  {
  }

  method Backpatch(parcel: OwnedParcel, lengthPos: nat, ghost q: Parcel, ghost inner: seq<Item>)
    requires AtEnd(q) && |q.bytes| == lengthPos && lengthPos + 8 <= parcel.size
    requires Leaves(q, parcel, NoError, [Int32(1), Int32(BUNDLE_MAGIC)] + inner)
    modifies parcel, parcel.data
    ensures parcel.data == old(parcel.data) || fresh(parcel.data)
    ensures Leaves(q, parcel, NoError, [Int32(|EncodedAll(inner)|), Int32(BUNDLE_MAGIC)] + inner)
  {
    hide Written, EncodedAll, Word;
    ghost var r := parcel.View();
    IsAtEnd(q, parcel, [Int32(1), Int32(BUNDLE_MAGIC)] + inner);
    var startPos, endPos := lengthPos + 8, parcel.pos;
    parcel.SetDataPosition(lengthPos);
    var _ := parcel.WriteInt32(endPos - startPos);
    parcel.SetDataPosition(endPos);
    Patched(q, r, parcel.View(), inner);
  }

  lemma {:induction false} Patched(q: Parcel, r: Parcel, r': Parcel, inner: seq<Item>)
    requires AtEnd(q) && Written(q, r, [Int32(1), Int32(BUNDLE_MAGIC)] + inner) && |q.bytes| + 8 <= |r.bytes|
    requires r' == r.(bytes := r.bytes[..|q.bytes|] + Word(|r.bytes| - |q.bytes| - 8, 4) + r.bytes[|q.bytes| + 4..])
    ensures Written(q, r', [Int32(|EncodedAll(inner)|), Int32(BUNDLE_MAGIC)] + inner)
  {
    hide EncodedAll, Word, CapacityAfter, AllSizes;
    var n := |EncodedAll(inner)|;
    SameSizes(q, 1, n, inner);
    var rest := Word(BUNDLE_MAGIC, 4) + EncodedAll(inner);
    assert r'.bytes[..|q.bytes|] == r.bytes[..|q.bytes|];
    assert r'.bytes[|r.bytes| - 4..] == r.bytes[|r.bytes| - 4..];
    if Fits(q, [Int32(1), Int32(BUNDLE_MAGIC)] + inner) {
      assert r.bytes == q.bytes + (Word(1, 4) + rest);
      assert r.bytes[|q.bytes| + 4..] == rest;
      assert r'.bytes == q.bytes + (Word(n, 4) + rest);
    }
  }

  // ----- reading -----

  ghost predicate Agrees<T(!new)>(g: Got<T>, v: T, pos: nat, status: Status) {
    pos == g.pos && status == g.status && (status == NoError ==> v == g.value)
  }

  /** `readFromParcel` into a bundle that is already there. */
  method ReadFrom(parcel: OwnedParcel, into: Bundle) returns (b: Bundle, status: Status)
    requires parcel.InData()
    modifies parcel`pos
    ensures parcel.InData()
    ensures Agrees(ReadBundle(parcel.data[..parcel.size], old(parcel.pos), into), b, parcel.pos, status)
    decreases parcel.size - parcel.pos, 3
  {
    var length, _ := parcel.ReadInt32();
    if length < 0 {
      return into, UnexpectedNull;
    }
    if length == 0 {
      return into, NoError;
    }
    var magic;
    magic, status := parcel.ReadInt32();
    if status != NoError {
      return into, status;
    }
    if magic != BUNDLE_MAGIC {
      return into, BadValue;
    }
    var count;
    count, status := parcel.ReadInt32();
    if status != NoError {
      return into, status;
    }
    b, status := ReadAllEntries(parcel, count, into);
  }

  method ReadAllEntries(parcel: OwnedParcel, count: int, into: Bundle) returns (b: Bundle, status: Status)
    requires parcel.InData()
    modifies parcel`pos
    ensures parcel.InData()
    ensures Agrees(ReadEntries(parcel.data[..parcel.size], old(parcel.pos), count, into), b, parcel.pos, status)
    decreases parcel.size - parcel.pos, 2
  {
    hide ReadText16, ReadValue, ParcelSpec.ReadAligned;
    ghost var bytes, start := parcel.data[..parcel.size], parcel.pos;
    b := into;
    var left := count;
    while left > 0
      invariant parcel.InData() && start <= parcel.pos
      invariant ReadEntries(bytes, parcel.pos, left, b) == ReadEntries(bytes, start, count, into)
      decreases left
    {
      var key, tag, v;
      key, status := parcel.ReadString16();
      if status != NoError {
        return;
      }
      tag, status := parcel.ReadInt32();
      if status != NoError {
        return;
      }
      v, status := ReadTagged(parcel, tag, key, b);
      if status != NoError {
        return;
      }
      b := Bundle(b.maps[Slot(KindOf(v), key) := v]);
      left := left - 1;
    }
    return b, NoError;
  }

  /** The switch over the value types. */
  method ReadTagged(parcel: OwnedParcel, tag: int, key: Key, into: Bundle) returns (v: Value, status: Status)
    requires parcel.InData()
    modifies parcel`pos
    ensures parcel.InData() && old(parcel.pos) <= parcel.pos
    ensures Agrees(ReadValue(parcel.data[..parcel.size], old(parcel.pos), tag, key, into), v, parcel.pos, status)
    decreases parcel.size - parcel.pos, 4
  {
    hide ParcelSpec.ReadAligned, ReadText16, ReadNumbers, ReadTexts, ReadBundle;
    var kind := KindOfTag(tag, 0);
    if kind.None? {
      return Bool(false), BadType;
    }
    v := Bool(false);
    if kind.value in {0, 1} {
      var n;
      n, status := parcel.ReadInt32();
      v := if kind.value == 0 then Bool(n != 0) else Int(n);
    } else if kind.value in {2, 3} {
      var n;
      n, status := parcel.ReadInt64();
      v := if kind.value == 2 then Long(n) else Double(n);
    } else if kind.value == 4 {
      var u;
      u, status := parcel.ReadString16();
      v := Str(u);
    } else if kind.value in {5, 6} {
      var ns;
      ns, status := ReadNumberVector(parcel, 4);
      v := if kind.value == 5 then Bools(ToBools(ns)) else Ints(ns);
    } else if kind.value in {7, 8} {
      var ns;
      ns, status := ReadNumberVector(parcel, 8);
      v := if kind.value == 7 then Longs(ns) else Doubles(ns);
    } else if kind.value == 9 {
      var us;
      us, status := ReadTextVector(parcel);
      v := Strs(us);
    } else {
      var b;
      b, status := ReadFrom(parcel, Existing(into, key));
      v := Nested(b);
    }
  }

  /** `unsafeReadTypedVector` for integers of a width. */
  method ReadNumberVector(parcel: OwnedParcel, width: nat) returns (ns: seq<int>, status: Status)
    requires parcel.InData()
    modifies parcel`pos
    ensures parcel.InData() && old(parcel.pos) <= parcel.pos
    ensures Agrees(ReadNumbers(parcel.data[..parcel.size], old(parcel.pos), width), ns, parcel.pos, status)
  {
    hide ParcelSpec.ReadAligned;
    var count;
    ns := [];
    count, status := parcel.ReadInt32();
    if status != NoError {
      return;
    }
    if count < 0 {
      return [], UnexpectedNull;
    }
    ghost var bytes, start := parcel.data[..parcel.size], parcel.pos;
    assert [] + NumbersFrom(bytes, start, width, count).value == NumbersFrom(bytes, start, width, count).value;
    for i := 0 to count
      invariant status == NoError && parcel.InData() && start <= parcel.pos
      invariant Continued(NumbersFrom(bytes, start, width, count), ns, NumbersFrom(bytes, parcel.pos, width, count - i))
    {
      var n;
      n, status := parcel.ReadAligned(width);
      if status != NoError {
        return;
      }
      ghost var before := ns;
      ns := ns + [n];
      forall rest: seq<int>
        ensures before + ([n] + rest) == ns + rest
      {
      }
    }
    assert ns + [] == ns;
  }

  /** What remains to be read is the same, after what has been read. */
  ghost predicate Continued<T(!new)>(whole: Got<seq<T>>, read: seq<T>, rest: Got<seq<T>>) {
    whole == Got(read + rest.value, rest.pos, rest.status)
  }

  method ReadTextVector(parcel: OwnedParcel) returns (us: seq<Key>, status: Status)
    requires parcel.InData()
    modifies parcel`pos
    ensures parcel.InData() && old(parcel.pos) <= parcel.pos
    ensures Agrees(ReadTexts(parcel.data[..parcel.size], old(parcel.pos)), us, parcel.pos, status)
  {
    hide ParcelSpec.ReadAligned, ReadText16;
    var count;
    us := [];
    count, status := parcel.ReadInt32();
    if status != NoError {
      return;
    }
    if count < 0 {
      return [], UnexpectedNull;
    }
    ghost var bytes, start := parcel.data[..parcel.size], parcel.pos;
    assert [] + TextsFrom(bytes, start, count).value == TextsFrom(bytes, start, count).value;
    for i := 0 to count
      invariant status == NoError && parcel.InData() && start <= parcel.pos
      invariant Continued(TextsFrom(bytes, start, count), us, TextsFrom(bytes, parcel.pos, count - i))
    {
      var u;
      u, status := parcel.ReadString16();
      if status != NoError {
        return;
      }
      ghost var before := us;
      us := us + [u];
      forall rest: seq<Key>
        ensures before + ([u] + rest) == us + rest
      {
      }
    }
    assert us + [] == us;
  }
}
