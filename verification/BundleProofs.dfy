/** A bundle that is written to a parcel and read into an empty bundle comes back equal. Keys stay in one map each. */
module BundleProofs {
  import opened Bytes
  import opened Options
  import opened ParcelSpec
  import opened ParcelProofs
  import opened BundleSpec

  // ----- put and erase -----

  /** Each key is in at most one of the eleven maps. */
  ghost predicate OneKind(maps: map<Slot, Value>) {
    forall s, t :: s in maps && t in maps && s.key == t.key ==> s == t
  }

  lemma {:induction false} ErasedFrom(maps: map<Slot, Value>, key: Key, from: nat)
    requires OneKind(maps) && from <= 11
    requires forall s :: s in maps && s.key == key ==> s.kind >= from
    ensures var (left, n) := Erased(maps, key, from);
      && (forall s :: s in left <==> s in maps && s.key != key)
      && (forall s :: s in left ==> left[s] == maps[s])
      && n == |maps| - |left|
      && (n == 1 <==> exists s :: s in maps && s.key == key)
    decreases 11 - from
  {
    if from < 11 {
      var s := Slot(from, key);
      if s in maps {
        OneErased(maps, s);
      } else {
        ErasedFrom(maps, key, from + 1);
      }
    }
  }

  lemma {:induction false} OneErased(maps: map<Slot, Value>, s: Slot)
    requires OneKind(maps) && s in maps
    ensures var left := maps - {s};
      && (forall t :: t in left <==> t in maps && t.key != s.key)
      && |maps| - |left| == 1
  {
    var left: map<Slot, Value> := maps - {s};
    assert maps.Keys == left.Keys + {s};
    assert |maps.Keys| == |left.Keys| + 1;
  }

  /** While keys are in one map each, `erase` forgets a key altogether ... */
  lemma {:induction false} EraseKeepsOneKind(maps: map<Slot, Value>, key: Key)
    requires OneKind(maps)
    ensures var left := Erased(maps, key, 0).0;
      && OneKind(left)
      && (forall s :: s in left <==> s in maps && s.key != key)
      && (forall s :: s in left ==> left[s] == maps[s])
  {
    ErasedFrom(maps, key, 0);
  }

  /** ... and `put*` replaces it whatever its type was, as with one map from keys to values. */
  lemma {:induction false} PutKeepsOneKind(maps: map<Slot, Value>, key: Key, v: Value)
    requires OneKind(maps)
    ensures var put := BundleSpec.Put(maps, key, v);
      && OneKind(put)
      && (forall s :: s in put <==> if s.key == key then s.kind == KindOf(v) else s in maps)
      && (forall s :: s in put ==> put[s] == if s.key == key then v else maps[s])
  {
    hide Erased, KindOf;
    EraseKeepsOneKind(maps, key);
    var left: map<Slot, Value> := Erased(maps, key, 0).0;
    var put := left[Slot(KindOf(v), key) := v];
    assert forall s: Slot :: s in put && s.key == key ==> s == Slot(KindOf(v), key);
  }

  /** What the last edit of a key says about it, to a reader who asks for one type. */
  function Answer(before: Option<Value>, edits: seq<Edit>, kind: Kind, key: Key): Option<Value>
    decreases |edits|
  {
    if edits == [] then before
    else
      var e := edits[0];
      var now :=
        if e.key != key then before
        else if e.PutEdit? && KindOf(e.value) == kind then Some(e.value)
        else None;
      Answer(now, edits[1..], kind, key)
  }

  /** After any puts and erases a getter finds the value of the last put of its key, if it had the getter's type and was not
      erased, and keys are in one map each. */
  lemma {:induction false} GetAfterEdits(maps: map<Slot, Value>, edits: seq<Edit>, kind: Kind, key: Key)
    requires OneKind(maps)
    ensures OneKind(Edited(maps, edits))
    ensures Lookup(Edited(maps, edits), kind, key) == Answer(Lookup(maps, kind, key), edits, kind, key)
    decreases |edits|
  {
    hide BundleSpec.Put, Erased, KindOf, OneKind;
    if edits != [] {
      match edits[0] {
        case PutEdit(k, v) =>
          PutKeepsOneKind(maps, k, v);
          GetAfterEdits(BundleSpec.Put(maps, k, v), edits[1..], kind, key);
        case EraseEdit(k) =>
          EraseKeepsOneKind(maps, k);
          GetAfterEdits(Erased(maps, k, 0).0, edits[1..], kind, key);
      }
    }
  }

  /** `erase` takes the key out of the first map that has it, whatever the maps hold. */
  lemma {:induction false} ErasedIsFirst(maps: map<Slot, Value>, key: Key, from: nat)
    requires from <= 11 && forall s :: s in maps && s.key == key ==> s.kind >= from
    ensures var left := Erased(maps, key, from).0;
      && (forall s :: s in left ==> s in maps && left[s] == maps[s])
      && (forall s :: s in maps && s !in left ==> s.key == key && forall t :: t in maps && t.key == key ==> s.kind <= t.kind)
      && (forall s :: s in left && s.key == key ==> exists t :: t in maps && t.key == key && t.kind < s.kind)
    decreases 11 - from
  {
    if from < 11 && Slot(from, key) !in maps {
      ErasedIsFirst(maps, key, from + 1);
    } else if from < 11 {
      var first := Slot(from, key);
      assert forall s :: s in maps - {first} && s.key == key ==> first.kind < s.kind;
    }
  }

  /** `erase` forgets a key if and only if one map at most has it. */
  lemma {:induction false} EraseForgetsExactly(maps: map<Slot, Value>, key: Key)
    ensures (forall s :: s in Erased(maps, key, 0).0 ==> s.key != key)
      <==> (forall s, t :: s in maps && t in maps && s.key == key && t.key == key ==> s == t)
  {
    hide Erased;
    ErasedIsFirst(maps, key, 0);
    var left: map<Slot, Value> := Erased(maps, key, 0).0;
    if forall s: Slot :: s in left ==> s.key != key {
      forall s, t | s in maps && t in maps && s.key == key && t.key == key
        ensures s == t
      {
        assert s !in left && t !in left;
      }
    }
  }

  /** `put*` leaves a key in the map of the value's type only if and only if every map that has the key, but the first, is
      that map. */
  lemma {:induction false} PutReplacesExactly(maps: map<Slot, Value>, key: Key, v: Value)
    ensures (forall s :: s in BundleSpec.Put(maps, key, v) && s.key == key ==> s.kind == KindOf(v))
      <==> (forall s, t :: s in maps && t in maps && s.key == key && t.key == key && s.kind < t.kind ==> t.kind == KindOf(v))
  {
    hide Erased, KindOf;
    ErasedIsFirst(maps, key, 0);
    var left: map<Slot, Value> := Erased(maps, key, 0).0;
    var put := BundleSpec.Put(maps, key, v);
    assert forall s :: s in put <==> s in left || s == Slot(KindOf(v), key);
    if forall s: Slot :: s in put && s.key == key ==> s.kind == KindOf(v) {
      forall s, t | s in maps && t in maps && s.key == key && t.key == key && s.kind < t.kind
        ensures t.kind == KindOf(v)
      {
        assert t in left;
      }
    }
  }

  // ----- a key in two maps -----

  /** A flag and a number under one key, as foreign data can have them. */
  const TWICE: Bundle := Bundle(map[Slot(0, [97]) := Bool(true), Slot(1, [97]) := Int(7)])

  lemma {:induction false} TwiceIsSmall()
    ensures |EncodedAll(Items(TWICE))| <= 100
  {
    hide EncodedAll, Order, Entries;
    var slots := TWICE.maps.Keys;
    assert slots == {Slot(0, [97]), Slot(1, [97])};
    var order := Order(slots);
    TwiceEntries(order);
    SmallItems(Items(TWICE));
  }

  lemma {:induction false} TwiceEntries(order: seq<Slot>)
    requires forall s :: s in order ==> s in TWICE.maps
    ensures |Entries(TWICE, order)| == 3 * |order|
    ensures forall x :: x in Entries(TWICE, order) ==> x.Int32? || x == Text16([97])
    decreases |order|
  {
    if order != [] {
      TwiceEntries(order[1..]);
    }
  }

  lemma {:induction false} SmallItems(items: seq<Item>)
    requires forall x :: x in items ==> x.Int32? || x == Text16([97])
    ensures |EncodedAll(items)| <= 8 * |items|
  {
    if items != [] {
      EncodedSize(items[0]);
      assert items[0] in items;
      if items[0].Int32? {
        assert [4][1..] == [];
      } else {
        SumOfTwo(4, 4);
      }
      SmallItems(items[1..]);
    }
  }

  /** Such data is read without an error, and the key survives an erase and a put of another type. */
  lemma {:induction false} ReadHoldsKeyTwice(v: Value)
    requires KindOf(v) != 1
    ensures var g := ReadBundle(EncodedAll(Items(TWICE)), 0, NO_ENTRIES);
      && g.status == NoError && g.value == TWICE
      && Slot(1, [97]) in Erased(g.value.maps, [97], 0).0
      && Slot(1, [97]) in BundleSpec.Put(g.value.maps, [97], v)
  {
    hide EncodedAll, Items, ReadBundle;
    TwiceIsSmall();
    var bytes := EncodedAll(Items(TWICE));
    assert bytes[0..0 + |bytes|] == bytes;
    BundleRead(bytes, 0, TWICE);
    assert Erased(TWICE.maps, [97], 0).0 == TWICE.maps - {Slot(0, [97])};
  }

  // ----- pieces of an encoding -----

  lemma {:induction false} CountBound(items: seq<Item>)
    ensures 4 * |items| <= |EncodedAll(items)|
  {
    if items != [] {
      CountBound(items[1..]);
      OnlyStringsShrink(items[0]);
    }
  }

  lemma {:induction false} FirstRead(bytes: seq<Byte>, pos: nat, items: seq<Item>)
    requires items != [] && Ranged(items[0])
    requires |EncodedAll(items)| <= INT32_MAX && Ahead(bytes, pos, EncodedAll(items))
    ensures ReadItem(bytes, pos, items[0]) == Got(items[0], pos + |Encoded(items[0])|, NoError)
    ensures Ahead(bytes, pos + |Encoded(items[0])|, EncodedAll(items[1..]))
    ensures |EncodedAll(items)| == |Encoded(items[0])| + |EncodedAll(items[1..])|
  {
    hide ReadItem, Encoded;
    AheadSplit(bytes, pos, Encoded(items[0]), EncodedAll(items[1..]));
    SmallIsStorable(items[0]);
    ItemRead(bytes, pos, items[0]);
  }

  lemma {:induction false} SmallIsStorable(item: Item)
    requires |Encoded(item)| <= INT32_MAX
    ensures Storable(item)
  {
    EncodedSize(item);
    match item
    case Text8(s) => SumOfTwo(4, PadSize(|s| + 1));
    case Text16(u) => SumOfTwo(4, PadSize(2 * |u| + 2));
    case Vector(s) => SumOfTwo(4, PadSize(|s|));
    case _ =>
  }

  lemma {:induction false} PartsAhead(bytes: seq<Byte>, pos: nat, a: seq<Item>, b: seq<Item>)
    requires Ahead(bytes, pos, EncodedAll(a + b))
    ensures Ahead(bytes, pos, EncodedAll(a)) && Ahead(bytes, pos + |EncodedAll(a)|, EncodedAll(b))
    ensures |EncodedAll(a + b)| == |EncodedAll(a)| + |EncodedAll(b)|
  {
    EncodedAllSplit(a, b);
    AheadSplit(bytes, pos, EncodedAll(a), EncodedAll(b));
  }

  // ----- values -----

  /** The items of a sequence can be read one by one. */
  ghost predicate Readable(bytes: seq<Byte>, pos: nat, items: seq<Item>) {
    pos <= |bytes| && |EncodedAll(items)| <= INT32_MAX && Ahead(bytes, pos, EncodedAll(items))
  }

  lemma {:induction false} NarrowsRead(bytes: seq<Byte>, pos: nat, ns: seq<int>)
    requires Readable(bytes, pos, Narrows(ns)) && forall n :: n in ns ==> Narrow(n)
    ensures NumbersFrom(bytes, pos, 4, |ns|) == Got(ns, pos + |EncodedAll(Narrows(ns))|, NoError)
    decreases |ns|
  {
    hide ParcelSpec.ReadAligned, EncodedAll, Encoded;
    if ns != [] {
      assert ns[0] in ns && ns == [ns[0]] + ns[1..] && Narrows(ns)[1..] == Narrows(ns[1..]);
      WordSizes(ns[0]);
      FirstRead(bytes, pos, Narrows(ns));
      NarrowsRead(bytes, pos + 4, ns[1..]);
    } else {
      assert EncodedAll([]) == [] by { Nothing(); }
    }
  }

  lemma Nothing()
    ensures EncodedAll([]) == []
  {
  }

  lemma {:induction false} WidesRead(bytes: seq<Byte>, pos: nat, ns: seq<int>)
    requires Readable(bytes, pos, Wides(ns)) && forall n :: n in ns ==> Wide(n)
    ensures NumbersFrom(bytes, pos, 8, |ns|) == Got(ns, pos + |EncodedAll(Wides(ns))|, NoError)
    decreases |ns|
  {
    hide ParcelSpec.ReadAligned, EncodedAll, Encoded;
    if ns != [] {
      assert ns[0] in ns && ns == [ns[0]] + ns[1..] && Wides(ns)[1..] == Wides(ns[1..]);
      WordSizes(ns[0]);
      FirstRead(bytes, pos, Wides(ns));
      WidesRead(bytes, pos + 8, ns[1..]);
    } else {
      assert EncodedAll([]) == [] by { Nothing(); }
    }
  }

  lemma {:induction false} TextsRead(bytes: seq<Byte>, pos: nat, us: seq<Key>)
    requires Readable(bytes, pos, Texts(us))
    ensures TextsFrom(bytes, pos, |us|) == Got(us, pos + |EncodedAll(Texts(us))|, NoError)
    decreases |us|
  {
    hide ReadText16, EncodedAll, Encoded;
    if us != [] {
      assert us == [us[0]] + us[1..] && Texts(us)[1..] == Texts(us[1..]);
      FirstRead(bytes, pos, Texts(us));
      TextsRead(bytes, pos + |Encoded(Text16(us[0]))|, us[1..]);
    } else {
      assert EncodedAll([]) == [] by { Nothing(); }
    }
  }

  /** The length of a vector, and then the vector. */
  lemma {:induction false} CountRead(bytes: seq<Byte>, pos: nat, n: nat, items: seq<Item>)
    requires Readable(bytes, pos, [Int32(n)] + items) && n <= |items|
    ensures ParcelSpec.ReadAligned(bytes, pos, 4) == Got(n, pos + 4, NoError)
    ensures Readable(bytes, pos + 4, items) && |EncodedAll([Int32(n)] + items)| == 4 + |EncodedAll(items)|
  {
    hide ParcelSpec.ReadAligned;
    assert ([Int32(n)] + items)[1..] == items;
    CountBound(items);
    FirstSize([Int32(n)] + items);
    FirstRead(bytes, pos, [Int32(n)] + items);
  }

  lemma {:induction false} FirstSize(items: seq<Item>)
    requires items != []
    ensures |EncodedAll(items)| == |Encoded(items[0])| + |EncodedAll(items[1..])|
  {
  }

  lemma {:induction false} VectorRead(bytes: seq<Byte>, pos: nat, ns: seq<int>, wide: bool)
    requires Readable(bytes, pos, [Int32(|ns|)] + if wide then Wides(ns) else Narrows(ns))
    requires forall n :: n in ns ==> if wide then Wide(n) else Narrow(n)
    ensures ReadNumbers(bytes, pos, if wide then 8 else 4) ==
      Got(ns, pos + |EncodedAll([Int32(|ns|)] + if wide then Wides(ns) else Narrows(ns))|, NoError)
  {
    hide ParcelSpec.ReadAligned, NumbersFrom, EncodedAll;
    VectorItems(ns);
    CountRead(bytes, pos, |ns|, if wide then Wides(ns) else Narrows(ns));
    if wide {
      WidesRead(bytes, pos + 4, ns);
    } else {
      NarrowsRead(bytes, pos + 4, ns);
    }
  }

  lemma {:induction false} VectorItems(ns: seq<int>)
    ensures |Narrows(ns)| == |Wides(ns)| == |ns|
  {
    if ns != [] {
      VectorItems(ns[1..]);
    }
  }

  lemma {:induction false} TextItems(us: seq<Key>)
    ensures |Texts(us)| == |us|
  {
    if us != [] {
      TextItems(us[1..]);
    }
  }

  lemma {:induction false} TextVectorRead(bytes: seq<Byte>, pos: nat, us: seq<Key>)
    requires Readable(bytes, pos, [Int32(|us|)] + Texts(us))
    ensures ReadTexts(bytes, pos) == Got(us, pos + |EncodedAll([Int32(|us|)] + Texts(us))|, NoError)
  {
    hide ParcelSpec.ReadAligned, TextsFrom, EncodedAll;
    TextItems(us);
    CountRead(bytes, pos, |us|, Texts(us));
    TextsRead(bytes, pos + 4, us);
  }

  /** A single item as a value. */
  lemma {:induction false} SingleRead(bytes: seq<Byte>, pos: nat, item: Item)
    requires Readable(bytes, pos, [item]) && Ranged(item)
    ensures ReadItem(bytes, pos, item) == Got(item, pos + |EncodedAll([item])|, NoError)
  {
    hide ReadItem, Encoded;
    FirstRead(bytes, pos, [item]);
    assert [item][1..] == [];
  }

  lemma {:induction false} BoolsInverse(bs: seq<bool>)
    ensures ToBools(FromBools(bs)) == bs
    ensures forall n :: n in FromBools(bs) ==> Narrow(n)
  {
  }

  lemma {:induction false} TagOfKind(kind: Kind, from: nat)
    requires from <= kind
    ensures KindOfTag(TAGS[kind], from) == Some(kind)
    decreases kind - from
  {
    if from < kind {
      TagOfKind(kind, from + 1);
    }
  }

  /** What a bundle holds after another has been read into it: entries replace those under the same key in the same map,
      only bundles are themselves read into the bundles that are there. */
  ghost function Merged(into: Bundle, b: Bundle): Bundle
    decreases b, 1
  {
    Bundle(map s | s in into.maps.Keys + b.maps.Keys :: if s in b.maps then MergedValue(into, s, b.maps[s]) else into.maps[s])
  }

  ghost function MergedValue(into: Bundle, s: Slot, v: Value): Value
    decreases v, 0
  {
    if v.Nested? && s in into.maps && into.maps[s].Nested? then Nested(Merged(into.maps[s].bundle, v.bundle)) else v
  }

  lemma {:induction false} NothingMerged(into: Bundle, b: Bundle)
    requires b.maps == map[]
    ensures Merged(into, b) == into
  {
    assert Merged(into, b).maps == into.maps;
  }

  lemma {:induction false} MergedIntoNothing(b: Bundle)
    ensures Merged(NO_ENTRIES, b) == b
  {
  }

  lemma {:induction false} ValueRead(bytes: seq<Byte>, pos: nat, v: Value, key: Key, into: Bundle)
    requires Readable(bytes, pos, ValueItems(v)) && ProperValue(v)
    ensures ReadValue(bytes, pos, TAGS[KindOf(v)], key, into) ==
      Got(MergedValue(into, Slot(KindOf(v), key), v), pos + |EncodedAll(ValueItems(v))|, NoError)
    decreases v, 4
  {
    hide ParcelSpec.ReadAligned, ReadText16, ReadNumbers, ReadTexts, ReadBundle, EncodedAll, Readable, KindOfTag, Merged;
    TagOfKind(KindOf(v), 0);
    match v
    case Bool(b) => SingleRead(bytes, pos, Int32(if b then 1 else 0));
    case Int(n) => SingleRead(bytes, pos, Int32(n));
    case Long(n) => SingleRead(bytes, pos, Int64(n));
    case Double(n) => SingleRead(bytes, pos, Int64(n));
    case Str(u) => SingleRead(bytes, pos, Text16(u));
    case Bools(bs) =>
      BoolsInverse(bs);
      VectorRead(bytes, pos, FromBools(bs), false);
    case Ints(ns) => VectorRead(bytes, pos, ns, false);
    case Longs(ns) => VectorRead(bytes, pos, ns, true);
    case Doubles(ns) => VectorRead(bytes, pos, ns, true);
    case Strs(us) => TextVectorRead(bytes, pos, us);
    case Nested(b) =>
      MergedIntoNothing(b);
      BundleReadInto(bytes, pos, b, Existing(into, key));
  }

  // ----- entries -----

  /** The entries named by `order` read into a bundle. */
  ghost function With(into: Bundle, b: Bundle, order: seq<Slot>): Bundle
    requires forall s :: s in order ==> s in b.maps
    decreases |order|
  {
    if order == [] then into else With(Bundle(into.maps[order[0] := MergedValue(into, order[0], b.maps[order[0]])]), b, order[1..])
  }

  lemma {:induction false} WithHolds(into: Bundle, b: Bundle, order: seq<Slot>)
    requires Distinct(order) && forall s :: s in order ==> s in b.maps
    ensures forall s :: s in With(into, b, order).maps <==> s in into.maps || s in order
    ensures forall s :: s in With(into, b, order).maps ==>
      With(into, b, order).maps[s] == if s in order then MergedValue(into, s, b.maps[s]) else into.maps[s]
    decreases |order|
  {
    hide Merged;
    if order != [] {
      WithHolds(Bundle(into.maps[order[0] := MergedValue(into, order[0], b.maps[order[0]])]), b, order[1..]);
      assert forall s :: s in order <==> s == order[0] || s in order[1..];
    }
  }

  lemma {:induction false} WithAll(into: Bundle, b: Bundle, order: seq<Slot>)
    requires Distinct(order) && forall s :: s in order <==> s in b.maps
    ensures With(into, b, order) == Merged(into, b)
  {
    hide With;
    WithHolds(into, b, order);
    assert With(into, b, order).maps == Merged(into, b).maps;
  }

  ghost predicate Distinct(order: seq<Slot>) {
    forall i, j :: 0 <= i < j < |order| ==> order[i] != order[j]
  }

  lemma {:induction false} EntriesRead(bytes: seq<Byte>, pos: nat, b: Bundle, order: seq<Slot>, into: Bundle)
    requires Proper(b) && Distinct(order) && forall s :: s in order ==> s in b.maps
    requires Readable(bytes, pos, Entries(b, order))
    ensures ReadEntries(bytes, pos, |order|, into) ==
      Got(With(into, b, order), pos + |EncodedAll(Entries(b, order))|, NoError)
    decreases b, 1, |order|
  {
    hide ReadText16, ParcelSpec.ReadAligned, ReadValue, Entry, Encoded, EncodedAll, Readable, Proper;
    if order == [] {
      Nothing();
    } else {
      var s, v := order[0], b.maps[order[0]];
      ProperEntry(b, s);
      EntryRead(bytes, pos, s, v, into, Entries(b, order[1..]));
      EntriesRead(bytes, pos + |EncodedAll(Entry(s, v))|, b, order[1..], Bundle(into.maps[s := MergedValue(into, s, v)]));
      KindStays(into, s, v);
    }
  }

  lemma {:induction false} KindStays(into: Bundle, s: Slot, v: Value)
    ensures KindOf(MergedValue(into, s, v)) == KindOf(v)
  {
  }

  lemma {:induction false} ProperEntry(b: Bundle, s: Slot)
    requires Proper(b) && s in b.maps
    ensures KindOf(b.maps[s]) == s.kind && ProperValue(b.maps[s])
  {
  }

  /** One entry: its key, its tag, its value. */
  lemma {:induction false} EntryRead(bytes: seq<Byte>, pos: nat, s: Slot, v: Value, into: Bundle, rest: seq<Item>)
    requires s.kind == KindOf(v) && ProperValue(v)
    requires Readable(bytes, pos, Entry(s, v) + rest)
    ensures pos <= |bytes|
    ensures var key := ReadText16(bytes, pos);
      var tag := ParcelSpec.ReadAligned(bytes, key.pos, 4);
      && key.value == s.key && key.status == NoError && pos <= key.pos <= |bytes|
      && tag.value == TAGS[s.kind] && tag.status == NoError && tag.pos <= |bytes|
      && ReadValue(bytes, tag.pos, tag.value, s.key, into) == Got(MergedValue(into, s, v), pos + |EncodedAll(Entry(s, v))|, NoError)
    ensures Readable(bytes, pos + |EncodedAll(Entry(s, v))|, rest)
    ensures |EncodedAll(Entry(s, v) + rest)| == |EncodedAll(Entry(s, v))| + |EncodedAll(rest)|
    decreases v, 5
  {
    hide ReadText16, ParcelSpec.ReadAligned, ReadValue, Encoded, EncodedAll;
    PartsAhead(bytes, pos, Entry(s, v), rest);
    var items := Entry(s, v);
    FirstRead(bytes, pos, items);
    var at := pos + |Encoded(Text16(s.key))|;
    assert items[1..] == [Int32(TAGS[s.kind])] + ValueItems(v);
    TagIsNarrow(s.kind);
    FirstRead(bytes, at, items[1..]);
    assert items[1..][1..] == ValueItems(v);
    assert |Encoded(items[1])| == 4 by { WordSizes(TAGS[s.kind]); }
    ValueRead(bytes, at + 4, v, s.key, into);
  }

  lemma TagIsNarrow(kind: Kind)
    ensures Ranged(Int32(TAGS[kind]))
  {
  }

  lemma WordSizes(v: int)
    ensures |Encoded(Int32(v))| == 4 && |Encoded(Int64(v))| == 8
  {
  }

  /** A bundle that is read into an empty one comes back. */
  lemma {:induction false} BundleRead(bytes: seq<Byte>, pos: nat, b: Bundle)
    requires Readable(bytes, pos, Items(b)) && Proper(b)
    ensures ReadBundle(bytes, pos, NO_ENTRIES) == Got(b, pos + |EncodedAll(Items(b))|, NoError)
  {
    BundleReadInto(bytes, pos, b, NO_ENTRIES);
    MergedIntoNothing(b);
  }

  /** Read into any other, it is merged with what is there. */
  lemma {:induction false} BundleReadInto(bytes: seq<Byte>, pos: nat, b: Bundle, into: Bundle)
    requires Readable(bytes, pos, Items(b)) && Proper(b)
    ensures ReadBundle(bytes, pos, into) == Got(Merged(into, b), pos + |EncodedAll(Items(b))|, NoError)
    decreases b, 3
  {
    hide ParcelSpec.ReadAligned, ReadEntries, EncodedAll, Entries, Proper, Readable, Items, Inner, Order, Merged, With;
    ItemsOf(b);
    if b.maps == map[] {
      SingleRead(bytes, pos, Int32(0)) by { assert Readable(bytes, pos, [Int32(0)]); }
      NothingMerged(into, b);
    } else {
      var inner, order := Inner(b), Order(b.maps.Keys);
      HeaderRead(bytes, pos, inner);
      EntryCount(b, order);
      CountRead(bytes, pos + 8, |b.maps|, Entries(b, order));
      EntriesRead(bytes, pos + 12, b, order, into);
      WithAll(into, b, order);
    }
  }

  lemma {:induction false} ItemsOf(b: Bundle)
    ensures b.maps == map[] ==> Items(b) == [Int32(0)]
    ensures b.maps != map[] ==> Items(b) == [Int32(|EncodedAll(Inner(b))|), Int32(BUNDLE_MAGIC)] + Inner(b)
    ensures Inner(b) == [Int32(|b.maps|)] + Entries(b, Order(b.maps.Keys))
  {
    hide Entries, Order;
  }

  lemma {:induction false} EntryCount(b: Bundle, order: seq<Slot>)
    requires forall s :: s in order ==> s in b.maps
    ensures |order| <= |Entries(b, order)|
    decreases |order|
  {
    if order != [] {
      EntryCount(b, order[1..]);
    }
  }

  /** The length and the magic number. */
  lemma {:induction false} HeaderRead(bytes: seq<Byte>, pos: nat, inner: seq<Item>)
    requires Readable(bytes, pos, [Int32(|EncodedAll(inner)|), Int32(BUNDLE_MAGIC)] + inner) && inner != []
    ensures ParcelSpec.ReadAligned(bytes, pos, 4) == Got(|EncodedAll(inner)|, pos + 4, NoError) && |EncodedAll(inner)| > 0
    ensures ParcelSpec.ReadAligned(bytes, pos + 4, 4) == Got(BUNDLE_MAGIC, pos + 8, NoError)
    ensures Readable(bytes, pos + 8, inner)
    ensures |EncodedAll([Int32(|EncodedAll(inner)|), Int32(BUNDLE_MAGIC)] + inner)| == 8 + |EncodedAll(inner)|
  {
    hide ParcelSpec.ReadAligned;
    var items := [Int32(|EncodedAll(inner)|), Int32(BUNDLE_MAGIC)] + inner;
    assert items[1..] == [Int32(BUNDLE_MAGIC)] + inner && items[1..][1..] == inner;
    FirstSize(items);
    FirstSize(items[1..]);
    CountBound(inner);
    FirstRead(bytes, pos, items);
    FirstRead(bytes, pos + 4, items[1..]);
  }

  // ----- the round trip -----

  lemma {:induction false} EncodingRead(p: Parcel, bytes: seq<Byte>, b: Bundle)
    requires AtEnd(p) && Proper(b) && Fits(p, Items(b)) && bytes == p.bytes + EncodedAll(Items(b))
    ensures ReadBundle(bytes, p.pos, NO_ENTRIES) == Got(b, |bytes|, NoError)
  {
    hide Items, EncodedAll, ReadBundle, CapacityAfter, AllSizes;
    FitsIsSmall(p, Items(b));
    assert bytes[p.pos..p.pos + |EncodedAll(Items(b))|] == EncodedAll(Items(b));
    BundleRead(bytes, p.pos, b);
  }

  lemma {:induction false} FitsIsSmall(p: Parcel, items: seq<Item>)
    requires AtEnd(p) && Fits(p, items)
    ensures |p.bytes| + |EncodedAll(items)| <= INT32_MAX
  {
    EncodedAllSize(items);
    CapacityBounds(|p.bytes|, p.capacity, AllSizes(items));
  }

  lemma {:induction false} CapacityBounds(size: nat, capacity: nat, sizes: seq<nat>)
    requires size <= capacity <= INT32_MAX && CapacityAfter(size, capacity, sizes).Some?
    ensures size + Sum(sizes) <= CapacityAfter(size, capacity, sizes).value <= INT32_MAX
    decreases |sizes|
  {
    if sizes != [] {
      CapacityBounds(size + sizes[0], if size + sizes[0] <= capacity then capacity else Grown(size, sizes[0]), sizes[1..]);
    }
  }

  // ----- the layout -----

  /** One string comes before another if it ends where the other goes on, or has the smaller unit where they part. */
  ghost predicate Before(a: Key, b: Key) {
    exists n: nat :: n <= |a| && n <= |b| && a[..n] == b[..n] && n < |b| && (n == |a| || a[n] < b[n])
  }

  lemma {:induction false} LessIsBefore(a: Key, b: Key)
    requires KeyLeq(a, b) && a != b
    ensures Before(a, b)
  {
    if a == [] || a[0] < b[0] {
      assert a[..0] == b[..0];
    } else {
      assert a == [a[0]] + a[1..] && b == [b[0]] + b[1..];
      LessIsBefore(a[1..], b[1..]);
      var n: nat :| n <= |a[1..]| && n <= |b[1..]| && a[1..][..n] == b[1..][..n] && n < |b[1..]| && (n == |a[1..]| || a[1..][n] < b[1..][n]);
      assert a[..n + 1] == [a[0]] + a[1..][..n] && b[..n + 1] == [b[0]] + b[1..][..n];
    }
  }

  /** The entries are written map by map, and within a map by key. */
  lemma {:induction false} OrderIsSorted(slots: set<Slot>, i: nat, j: nat)
    requires i < j < |Order(slots)|
    ensures var s, t := Order(slots)[i], Order(slots)[j];
      s.kind < t.kind || (s.kind == t.kind && Before(s.key, t.key))
    decreases |slots|
  {
    hide Order, Before;
    LeastFirst(slots);
    var s, t := Order(slots)[0], Order(slots)[j];
    if i == 0 {
      assert t in Order(slots) && s != t;
      if s.kind == t.kind { LessIsBefore(s.key, t.key); }
    } else {
      OrderIsSorted(slots - {s}, i - 1, j - 1);
    }
  }

  lemma {:induction false} LeastFirst(slots: set<Slot>)
    requires Order(slots) != []
    ensures var s := Order(slots)[0]; IsLeast(s, slots) && Order(slots) == [s] + Order(slots - {s})
  {
    hide IsLeast;
  }

  /** An entry starts with its key and then the tag of its type; the maps stand in this order. */
  lemma {:induction false} EntryStarts(key: Key, v: Value)
    ensures var (kind, tag) := match v
        case Bool(_) => (0, 9)
        case Int(_) => (1, 1)
        case Long(_) => (2, 6)
        case Double(_) => (3, 8)
        case Str(_) => (4, 0)
        case Bools(_) => (5, 23)
        case Ints(_) => (6, 18)
        case Longs(_) => (7, 19)
        case Doubles(_) => (8, 28)
        case Strs(_) => (9, 14)
        case Nested(_) => (10, 25);
      KindOf(v) == kind && Entry(Slot(KindOf(v), key), v)[..2] == [Text16(key), Int32(tag)]
  {
    hide ValueItems;
  }

  /** A bundle starts with the number of bytes behind the next word, which spells "BNDL", and the number of entries; an empty
      one is a zero. */
  lemma {:induction false} BundleStarts(b: Bundle)
    ensures var items := Items(b);
      if b.maps == map[] then items == [Int32(0)]
      else
        && |items| >= 3
        && items[0] == Int32(|EncodedAll(items[2..])|)
        && items[1] == Int32(0x4C444E42)
        && items[2] == Int32(|b.maps|)
  {
    hide Items, Inner, EncodedAll, Entries, Order;
    ItemsOf(b);
    if b.maps != map[] { assert Items(b)[2..] == Inner(b); }
  }

  /** A vector of truth values is its length and a 1 or a 0 for each. */
  lemma {:induction false} BoolsAreWords(bs: seq<bool>, i: nat)
    requires i < |bs|
    ensures var items := ValueItems(Bools(bs));
      |items| == |bs| + 1 && items[0] == Int32(|bs|) && items[i + 1] == Int32(if bs[i] then 1 else 0)
  {
    NarrowsAt(FromBools(bs), i);
  }

  lemma {:induction false} NarrowsAt(ns: seq<int>, i: nat)
    requires i < |ns|
    ensures |Narrows(ns)| == |ns| && Narrows(ns)[i] == Int32(ns[i])
  {
    if i > 0 { NarrowsAt(ns[1..], i - 1); } else if |ns| > 1 { NarrowsAt(ns[1..], 0); }
  }

  // ----- what is refused, and what is read from other data -----

  /** What the first words of the data decide: a missing length counts as zero, a negative one is refused, any other calls for
      the magic word and a count; and a count of no entries leaves the bundle as it is. */
  lemma {:induction false} HeaderDecides(bytes: seq<Byte>, pos: nat, into: Bundle)
    requires pos <= |bytes|
    ensures var (length, magic, count) := (WordAt(bytes, pos), WordAt(bytes, pos + 4), WordAt(bytes, pos + 8));
      var g := ReadBundle(bytes, pos, into);
      if length < 0 then g.status == UnexpectedNull
      else if length == 0 then g == Got(into, if pos + 4 <= |bytes| then pos + 4 else pos, NoError)
      else if pos + 8 > |bytes| then g.status == NotEnoughData
      else if magic != 0x4C444E42 then g.status == BadValue
      else if pos + 12 > |bytes| then g.status == NotEnoughData
      else count <= 0 ==> g == Got(into, pos + 12, NoError)
  {
    hide Signed, ReadEntries;
    if WordAt(bytes, pos + 8) <= 0 && pos + 12 <= |bytes| { NoEntries(bytes, pos + 12, WordAt(bytes, pos + 8), into); }
  }

  lemma {:induction false} NoEntries(bytes: seq<Byte>, pos: nat, count: int, into: Bundle)
    requires pos <= |bytes| && count <= 0
    ensures ReadEntries(bytes, pos, count, into) == Got(into, pos, NoError)
  {
  }

  /** Any number but zero is read as true. */
  lemma {:induction false} NonzeroIsTrue(bytes: seq<Byte>, pos: nat, key: Key, into: Bundle)
    requires pos + 4 <= |bytes|
    ensures ReadValue(bytes, pos, 9, key, into) == Got(Bool(WordAt(bytes, pos) != 0), pos + 4, NoError)
  {
    hide Signed;
    TagOfKind(0, 0);
  }

  lemma {:induction false} NonzeroAreTrue(bytes: seq<Byte>, pos: nat, key: Key, into: Bundle, i: nat)
    requires pos <= |bytes| && ReadValue(bytes, pos, 23, key, into).status == NoError
    requires i < WordAt(bytes, pos)
    ensures var g := ReadValue(bytes, pos, 23, key, into);
      && g.value.Bools? && |g.value.bs| == WordAt(bytes, pos) && g.pos == pos + 4 + 4 * WordAt(bytes, pos)
      && (g.value.bs[i] <==> WordAt(bytes, pos + 4 + 4 * i) != 0)
  {
    hide Signed, NumbersFrom;
    TagOfKind(5, 0);
    NumberAt(bytes, pos + 4, WordAt(bytes, pos), i);
  }

  lemma {:induction false} NumberAt(bytes: seq<Byte>, pos: nat, n: nat, i: nat)
    requires pos <= |bytes| && NumbersFrom(bytes, pos, 4, n).status == NoError && i < n
    ensures var g := NumbersFrom(bytes, pos, 4, n);
      |g.value| == n && g.pos == pos + 4 * n && g.value[i] == WordAt(bytes, pos + 4 * i)
    decreases n
  {
    hide Signed;
    if i > 0 { NumberAt(bytes, pos + 4, n - 1, i - 1); } else if n > 1 { NumberAt(bytes, pos + 4, n - 1, 0); }
  }
}
