/** A bundle that was not written whole does not come back: reading a bundle takes as many bytes as writing it. */
module BundleLoss {
  import opened Bytes
  import opened Options
  import opened ParcelSpec
  import opened ParcelProofs
  import opened BundleSpec
  import opened BundleProofs

  // ----- sizes -----

  ghost function EntrySize(s: Slot, v: Value): nat {
    |EncodedAll(Entry(s, v))|
  }

  /** The bytes of the entries of some slots, which do not depend on their order. */
  ghost function SizeOf(b: Bundle, slots: set<Slot>): nat
    requires slots <= b.maps.Keys
  {
    |EncodedAll(Entries(b, Order(slots)))|
  }

  lemma {:induction false} SizeUnfolds(b: Bundle, slots: set<Slot>) returns (s: Slot)
    requires slots <= b.maps.Keys && slots != {}
    ensures s in slots && SizeOf(b, slots) == EntrySize(s, b.maps[s]) + SizeOf(b, slots - {s})
  {
    hide EncodedAll, Entry;
    var order := Order(slots);
    assert |slots| > 0;
    s := order[0];
    assert s in order;
    assert order[1..] == Order(slots - {s});
    EncodedAllSplit(Entry(s, b.maps[s]), Entries(b, order[1..]));
  }

  lemma {:induction false} SizeWithout(b: Bundle, slots: set<Slot>, s: Slot)
    requires slots <= b.maps.Keys && s in slots
    ensures SizeOf(b, slots) == EntrySize(s, b.maps[s]) + SizeOf(b, slots - {s})
    decreases |slots|
  {
    hide SizeOf, EntrySize;
    var first := SizeUnfolds(b, slots);
    if first != s {
      SizeWithout(b, slots - {first}, s);
      SizeWithout(b, slots - {s}, first);
      assert slots - {first} - {s} == slots - {s} - {first};
    }
  }

  lemma {:induction false} SizeAgrees(a: Bundle, b: Bundle, order: seq<Slot>)
    requires forall s :: s in order ==> s in a.maps && s in b.maps && a.maps[s] == b.maps[s]
    ensures Entries(a, order) == Entries(b, order)
    decreases |order|
  {
    hide Entry;
    if order != [] {
      SizeAgrees(a, b, order[1..]);
    }
  }

  ghost function EntriesSize(b: Bundle): nat {
    SizeOf(b, b.maps.Keys)
  }

  ghost function Size(b: Bundle): nat {
    |EncodedAll(Items(b))|
  }

  lemma {:induction false} SizeOfBundle(b: Bundle)
    ensures Size(b) == if b.maps == map[] then 4 else 12 + EntriesSize(b)
    ensures b.maps == map[] ==> EntriesSize(b) == 0
  {
    hide EncodedAll, Entries, Order, Encoded;
    if b.maps == map[] {
      OneWord(0, []);
      EmptySize(b);
    } else {
      var inner := Inner(b);
      var tail := Entries(b, Order(b.maps.Keys));
      OneWord(|b.maps|, tail);
      OneWord(BUNDLE_MAGIC, inner);
      OneWord(|EncodedAll(inner)|, [Int32(BUNDLE_MAGIC)] + inner);
      assert Items(b) == [Int32(|EncodedAll(inner)|)] + ([Int32(BUNDLE_MAGIC)] + inner);
    }
  }

  lemma EmptySize(b: Bundle)
    requires b.maps == map[]
    ensures EntriesSize(b) == 0
  {
  }

  lemma {:induction false} OneWord(v: int, rest: seq<Item>)
    ensures |EncodedAll([Int32(v)] + rest)| == 4 + |EncodedAll(rest)|
    ensures |EncodedAll([Int32(v)])| == 4
  {
    assert ([Int32(v)] + rest)[1..] == rest && [Int32(v)][1..] == [];
  }

  /** A put changes the size by the difference of the entries. */
  lemma {:induction false} SizeAfterPut(b: Bundle, s: Slot, v: Value)
    ensures var old_size := if s in b.maps then EntrySize(s, b.maps[s]) else 0;
      EntriesSize(Bundle(b.maps[s := v])) == EntriesSize(b) - old_size + EntrySize(s, v)
  {
    hide EntrySize, Order, Entries, EncodedAll;
    var c := Bundle(b.maps[s := v]);
    var others := b.maps.Keys - {s};
    SizeWithout(c, c.maps.Keys, s);
    assert c.maps.Keys - {s} == others;
    SizeAgrees(b, c, Order(others));
    if s in b.maps {
      SizeWithout(b, b.maps.Keys, s);
    } else {
      assert others == b.maps.Keys;
    }
  }

  // ----- what reading costs -----

  /** Behind the tag of a bundle, at the end of the data, an empty bundle is read without any bytes. */
  ghost function Free(bytes: seq<Byte>, end: nat): nat
    requires end <= |bytes|
  {
    if end + 4 > |bytes| && end >= 4 && Signed(bytes[end - 4..end]) == TAGS[10] then 4 else 0
  }

  /** What reading into a bundle adds to it. */
  ghost function Gain(into: Bundle, b: Bundle): int {
    Size(b) - if into.maps == map[] then 0 else Size(into)
  }

  ghost function ValueGain(into: Bundle, key: Key, v: Value): int {
    if v.Nested? then Gain(Existing(into, key), v.bundle) else |EncodedAll(ValueItems(v))|
  }

  lemma {:induction false} TextCost(bytes: seq<Byte>, pos: nat)
    requires ReadText16(bytes, pos).status == NoError
    ensures var g := ReadText16(bytes, pos); g.pos - pos == |Encoded(Text16(g.value))| && g.pos >= pos + 8
  {
    hide Encoded, FromUnits, Signed, PadSize;
    var n := ParcelSpec.ReadAligned(bytes, pos, 4).value;
    var u := ReadText16(bytes, pos).value;
    assert |u| == 2 * n / 2 == n;
    EncodedSize(Text16(u));
    SumOfTwo(4, PadSize(2 * n + 2));
    PadsSome(2 * n + 2);
  }

  lemma PadsSome(n: nat)
    requires n > 0
    ensures PadSize(n) >= 4
  {
  }

  lemma {:induction false} NumbersCost(bytes: seq<Byte>, pos: nat, width: nat, n: nat)
    requires pos <= |bytes| && NumbersFrom(bytes, pos, width, n).status == NoError
    ensures var g := NumbersFrom(bytes, pos, width, n); |g.value| == n && g.pos - pos == width * n
    decreases n
  {
    if n > 0 {
      var first := ParcelSpec.ReadAligned(bytes, pos, width);
      NumbersCost(bytes, first.pos, width, n - 1);
      assert width * n == width + width * (n - 1);
    }
  }

  lemma {:induction false} VectorSizes(ns: seq<int>)
    ensures |EncodedAll(Narrows(ns))| == 4 * |ns| && |EncodedAll(Wides(ns))| == 8 * |ns|
  {
    if ns != [] {
      VectorSizes(ns[1..]);
      WordSizes(ns[0]);
      assert Narrows(ns)[1..] == Narrows(ns[1..]) && Wides(ns)[1..] == Wides(ns[1..]);
      FirstSize(Narrows(ns));
      FirstSize(Wides(ns));
    }
  }

  lemma {:induction false} TextsCost(bytes: seq<Byte>, pos: nat, n: nat)
    requires pos <= |bytes| && TextsFrom(bytes, pos, n).status == NoError
    ensures var g := TextsFrom(bytes, pos, n); g.pos - pos == |EncodedAll(Texts(g.value))| && |g.value| == n
    decreases n
  {
    hide ReadText16, Encoded;
    if n > 0 {
      TextCost(bytes, pos);
      var first := ReadText16(bytes, pos);
      TextsCost(bytes, first.pos, n - 1);
      var us := TextsFrom(bytes, pos, n).value;
      assert us[1..] == TextsFrom(bytes, first.pos, n - 1).value && Texts(us)[1..] == Texts(us[1..]);
      FirstSize(Texts(us));
    }
  }

  lemma {:induction false} VectorCost(bytes: seq<Byte>, pos: nat, width: nat)
    requires pos <= |bytes| && (width == 4 || width == 8) && ReadNumbers(bytes, pos, width).status == NoError
    ensures var g := ReadNumbers(bytes, pos, width);
      var ns := g.value;
      && (width == 4 ==> g.pos - pos == |EncodedAll([Int32(|ns|)] + Narrows(ns))|)
      && (width == 4 ==> g.pos - pos == |EncodedAll([Int32(|ns|)] + Narrows(FromBools(ToBools(ns))))|)
      && (width == 8 ==> g.pos - pos == |EncodedAll([Int32(|ns|)] + Wides(ns))|)
  {
    hide EncodedAll, ParcelSpec.ReadAligned, NumbersFrom;
    var n := ParcelSpec.ReadAligned(bytes, pos, 4);
    NumbersCost(bytes, n.pos, width, n.value);
    var ns := ReadNumbers(bytes, pos, width).value;
    VectorSizes(ns);
    VectorSizes(FromBools(ToBools(ns)));
    OneWord(|ns|, Narrows(ns));
    OneWord(|ns|, Narrows(FromBools(ToBools(ns))));
    OneWord(|ns|, Wides(ns));
  }

  lemma {:induction false} SingleSize(item: Item)
    ensures |EncodedAll([item])| == |Encoded(item)|
  {
    assert [item][1..] == [];
  }

  /** A value, read behind its tag. */
  lemma {:induction false} KindCost(bytes: seq<Byte>, pos: nat, kind: Kind, key: Key, into: Bundle)
    requires 4 <= pos <= |bytes| && Signed(bytes[pos - 4..pos]) == TAGS[kind]
    requires ReadKind(bytes, pos, kind, key, into).status == NoError
    ensures var g := ReadKind(bytes, pos, kind, key, into);
      && KindOf(g.value) == kind && g.pos - pos + Free(bytes, g.pos) >= ValueGain(into, key, g.value)
    decreases |bytes| - pos, 4
  {
    hide ParcelSpec.ReadAligned, ReadText16, ReadNumbers, ReadTexts, ReadBundle, EncodedAll, Encoded, Signed, Gain, Existing;
    var g := ReadKind(bytes, pos, kind, key, into);
    match kind {
      case 0 => SingleSize(ValueItems(g.value)[0]); WordSizes(if g.value.b then 1 else 0);
      case 1 => SingleSize(Int32(g.value.n)); WordSizes(g.value.n);
      case 2 => SingleSize(Int64(g.value.n)); WordSizes(g.value.n);
      case 3 => SingleSize(Int64(g.value.n)); WordSizes(g.value.n);
      case 4 => SingleSize(Text16(g.value.u)); TextCost(bytes, pos);
      case 5 => VectorCost(bytes, pos, 4);
      case 6 => VectorCost(bytes, pos, 4);
      case 7 => VectorCost(bytes, pos, 8);
      case 8 => VectorCost(bytes, pos, 8);
      case 9 => TextVectorCost(bytes, pos);
      case _ => BundleCost(bytes, pos, Existing(into, key));
    }
  }

  lemma {:induction false} TextVectorCost(bytes: seq<Byte>, pos: nat)
    requires pos <= |bytes| && ReadTexts(bytes, pos).status == NoError
    ensures var g := ReadTexts(bytes, pos); g.pos - pos == |EncodedAll([Int32(|g.value|)] + Texts(g.value))|
  {
    hide EncodedAll, ParcelSpec.ReadAligned, TextsFrom;
    var n := ParcelSpec.ReadAligned(bytes, pos, 4);
    TextsCost(bytes, n.pos, n.value);
    OneWord(n.value, Texts(ReadTexts(bytes, pos).value));
  }

  /** Reading takes as many bytes as the bundle grows by, but for an empty bundle behind the data. */
  lemma {:induction false} BundleCost(bytes: seq<Byte>, pos: nat, into: Bundle)
    requires pos <= |bytes| && ReadBundle(bytes, pos, into).status == NoError
    ensures var g := ReadBundle(bytes, pos, into);
      && (pos + 4 <= |bytes| ==> g.pos - pos + Free(bytes, g.pos) >= Gain(into, g.value))
      && (pos + 4 > |bytes| ==> g.pos == pos && g.value == into && Gain(into, into) <= 4)
    decreases |bytes| - pos, 3
  {
    hide ReadEntries, Items, EncodedAll, EntriesSize, Free;
    SizeOfBundle(into);
    SizeOfBundle(ReadBundle(bytes, pos, into).value);
    var length := ParcelSpec.ReadAligned(bytes, pos, 4);
    if length.value > 0 {
      var magic := ParcelSpec.ReadAligned(bytes, length.pos, 4);
      var count := ParcelSpec.ReadAligned(bytes, magic.pos, 4);
      EntriesCost(bytes, count.pos, count.value, into);
    }
  }

  lemma {:induction false} EntriesCost(bytes: seq<Byte>, pos: nat, count: int, into: Bundle)
    requires pos <= |bytes| && ReadEntries(bytes, pos, count, into).status == NoError
    ensures var g := ReadEntries(bytes, pos, count, into);
      g.pos - pos + Free(bytes, g.pos) >= EntriesSize(g.value) - EntriesSize(into)
    decreases |bytes| - pos, 1
  {
    hide ReadText16, ReadValue, EntriesSize, Free, ValueGain, Encoded, EntrySize;
    if count > 0 {
      var key := ReadText16(bytes, pos);
      var tag := ParcelSpec.ReadAligned(bytes, key.pos, 4);
      var v := ReadValue(bytes, tag.pos, tag.value, key.value, into);
      TextCost(bytes, pos);
      ValueCost(bytes, tag.pos, tag.value, key.value, into);
      var s := Slot(KindOf(v.value), key.value);
      SizeAfterPut(into, s, v.value);
      EntryGain(into, s, v.value);
      NothingFollows(bytes, v.pos);
      EntriesCost(bytes, v.pos, count - 1, Bundle(into.maps[s := v.value]));
    }
  }

  /** Where an empty bundle was read for nothing, no further entry can be. */
  lemma NothingFollows(bytes: seq<Byte>, pos: nat)
    requires pos <= |bytes|
    ensures Free(bytes, pos) > 0 ==> ReadText16(bytes, pos).status != NoError
    ensures Free(bytes, pos) <= 4
  {
  }

  lemma {:induction false} ValueCost(bytes: seq<Byte>, pos: nat, tag: int, key: Key, into: Bundle)
    requires 4 <= pos <= |bytes| && Signed(bytes[pos - 4..pos]) == tag
    requires ReadValue(bytes, pos, tag, key, into).status == NoError
    ensures var g := ReadValue(bytes, pos, tag, key, into);
      g.pos - pos + Free(bytes, g.pos) >= ValueGain(into, key, g.value)
    decreases |bytes| - pos, 5
  {
    hide ReadKind, Free, ValueGain;
    TagFound(tag, 0);
    var kind := KindOfTag(tag, 0);
    KindCost(bytes, pos, kind.value, key, into);
  }

  lemma {:induction false} TagFound(tag: int, from: nat)
    requires from <= 11
    ensures KindOfTag(tag, from).Some? ==> TAGS[KindOfTag(tag, from).value] == tag
    decreases 11 - from
  {
    if from < 11 && TAGS[from] != tag {
      TagFound(tag, from + 1);
    }
  }

  /** An entry grows by no more than its key, its tag and what the value gains. */
  lemma {:induction false} EntryGain(into: Bundle, s: Slot, v: Value)
    requires s.kind == KindOf(v)
    ensures var was := if s in into.maps then EntrySize(s, into.maps[s]) else 0;
      EntrySize(s, v) - was <= |Encoded(Text16(s.key))| + 4 + ValueGain(into, s.key, v)
  {
    hide EncodedAll, Encoded, Items, ValueItems;
    SizeOfEntry(s, v);
    if s in into.maps {
      SizeOfEntry(s, into.maps[s]);
    }
    if v.Nested? {
      NestedSize(v.bundle);
      if s in into.maps && into.maps[s].Nested? {
        NestedSize(into.maps[s].bundle);
      }
    }
  }

  lemma NestedSize(b: Bundle)
    ensures ValueItems(Nested(b)) == Items(b)
  {
  }

  lemma {:induction false} SizeOfEntry(s: Slot, v: Value)
    ensures EntrySize(s, v) == |Encoded(Text16(s.key))| + 4 + |EncodedAll(ValueItems(v))|
  {
    hide Encoded, ValueItems;
    var tail := [Int32(TAGS[s.kind])] + ValueItems(v);
    var all := Entry(s, v);
    assert all[1..] == tail && all[0] == Text16(s.key);
    FirstSize(all);
    OneWord(TAGS[s.kind], ValueItems(v));
  }

  // ----- the loss -----

  /** What was written too short is not read back as the bundle, wherever the reader stops. */
  lemma {:induction false} LostIsNotRead(p: Parcel, q: Parcel, b: Bundle)
    requires AtEnd(p) && Written(p, q, Items(b)) && !Fits(p, Items(b))
    ensures var g := ReadBundle(q.bytes, p.pos, NO_ENTRIES); !(g.status == NoError && g.value == b)
  {
    hide ReadBundle, Items, CapacityAfter, AllSizes, EntriesSize, Stuck;
    var g := ReadBundle(q.bytes, p.pos, NO_ENTRIES);
    if g.status == NoError && g.value == b {
      SizeOfBundle(b);
      BundleCost(q.bytes, p.pos, NO_ENTRIES);
      NotATag(q.bytes, g.pos);
    }
  }

  lemma {:induction false} NotATag(bytes: seq<Byte>, end: nat)
    requires end <= |bytes|
    ensures end == |bytes| && EndsSmall(bytes) ==> Free(bytes, end) == 0
    ensures Free(bytes, end) <= 4
  {
    assert bytes[|bytes|..] == [];
    if end == |bytes| && |bytes| >= 4 {
      assert bytes[end - 4..end] == bytes[|bytes| - 4..];
    }
  }

  /** What a writer leaves that reported success, read into an empty bundle, is the bundle if and only if its encoding fits,
      and then exactly its bytes are consumed. */
  lemma {:induction false} BundleRoundTrip(p: Parcel, q: Parcel, b: Bundle)
    requires AtEnd(p) && Proper(b) && Written(p, q, Items(b))
    ensures var g := ReadBundle(q.bytes, p.pos, NO_ENTRIES);
      && (Fits(p, Items(b)) <==> g.status == NoError && g.value == b)
      && (Fits(p, Items(b)) ==> g.pos == q.pos == |q.bytes| && q.bytes == p.bytes + EncodedAll(Items(b)))
  {
    hide Items, EncodedAll, ReadBundle, CapacityAfter, AllSizes;
    if Fits(p, Items(b)) {
      EncodingRead(p, q.bytes, b);
    } else {
      LostIsNotRead(p, q, b);
    }
  }

  // ----- four bytes less -----

  const HOLDS_EMPTY: Bundle := Bundle(map[Slot(10, []) := Nested(NO_ENTRIES)])

  lemma {:induction false} EmptyItems() returns (n: nat)
    ensures Items(HOLDS_EMPTY) == [Int32(n), Int32(BUNDLE_MAGIC), Int32(1), Text16([]), Int32(25)] + [Int32(0)]
    ensures 0 < n < 100
  {
    hide EncodedAll, Order;
    var slot := Slot(10, []);
    var slots := HOLDS_EMPTY.maps.Keys;
    assert slots == {slot} && |slots| == 1;
    var order := Order(slots);
    assert order[0] in order && order == [slot] && order[1..] == [];
    var v := Nested(NO_ENTRIES);
    assert ValueItems(v) == [Int32(0)];
    assert Entries(HOLDS_EMPTY, order) == [Text16([]), Int32(25)] + [Int32(0)];
    n := |EncodedAll(Inner(HOLDS_EMPTY))|;
    assert Inner(HOLDS_EMPTY) == [Int32(1), Text16([]), Int32(25), Int32(0)];
    FourItems(Inner(HOLDS_EMPTY));
  }

  lemma {:induction false} FourItems(items: seq<Item>)
    requires forall x :: x in items ==> x.Int32? || x == Text16([])
    ensures 4 * |items| <= |EncodedAll(items)| <= 8 * |items|
  {
    CountBound(items);
    if items != [] {
      EncodedSize(items[0]);
      assert items[0] in items;
      SumOfTwo(4, 4);
      assert [4][1..] == [];
      FourItems(items[1..]);
    }
  }

  /** An empty bundle in a bundle can be read behind the end of the data, so that a read can take four bytes less than a
      write: without its last word this bundle still comes back. */
  lemma {:induction false} EmptyIsReadForFree()
    ensures var bytes := EncodedAll(Items(HOLDS_EMPTY));
      |bytes| >= 4 && ReadBundle(bytes[..|bytes| - 4], 0, NO_ENTRIES) == Got(HOLDS_EMPTY, |bytes| - 4, NoError)
  {
    hide EncodedAll, Items, Encoded, ParcelSpec.ReadAligned, ReadText16;
    var n := EmptyItems();
    var items := [Int32(n), Int32(BUNDLE_MAGIC), Int32(1), Text16([]), Int32(25)];
    EncodedAllSplit(items, [Int32(0)]);
    OneWord(0, []);
    var bytes := EncodedAll(items);
    assert (bytes + EncodedAll([Int32(0)]))[..|bytes|] == bytes && bytes[0..0 + |bytes|] == bytes;
    FourItems(items);
    FirstRead(bytes, 0, items);
    WordSizes(n);
    FirstRead(bytes, 4, items[1..]);
    WordSizes(BUNDLE_MAGIC);
    FirstRead(bytes, 8, items[1..][1..]);
    WordSizes(1);
    FirstRead(bytes, 12, items[1..][1..][1..]);
    var at := 12 + |Encoded(Text16([]))|;
    FirstRead(bytes, at, items[1..][1..][1..][1..]);
    WordSizes(25);
    assert items[1..][1..][1..][1..][1..] == [] && EncodedAll([]) == [] by { Nothing(); }
    assert |bytes| == at + 4;
    NothingBehind(bytes);
    TagOfKind(10, 0);
    assert ReadValue(bytes, |bytes|, 25, [], NO_ENTRIES) == Got(Nested(NO_ENTRIES), |bytes|, NoError);
    assert NO_ENTRIES.maps[Slot(10, []) := Nested(NO_ENTRIES)] == HOLDS_EMPTY.maps;
    assert ReadEntries(bytes, |bytes|, 0, HOLDS_EMPTY) == Got(HOLDS_EMPTY, |bytes|, NoError);
    assert ReadEntries(bytes, 12, 1, NO_ENTRIES) == Got(HOLDS_EMPTY, |bytes|, NoError);
    assert ReadInner(bytes, 4, n, NO_ENTRIES) == Got(HOLDS_EMPTY, |bytes|, NoError);
  }

  lemma NothingBehind(bytes: seq<Byte>)
    ensures ReadBundle(bytes, |bytes|, NO_ENTRIES) == Got(NO_ENTRIES, |bytes|, NoError)
  {
  }
}
