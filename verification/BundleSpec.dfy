/** A bundle and its encoding (PersistableBundle.cpp), on values. */
module BundleSpec {
  import opened Bytes
  import opened Options
  import opened ParcelSpec
  import opened ParcelProofs

  /** The eleven member maps, in the order in which they are written and searched: bool, int, long, double, string,
      vectors of these in the order bool, int, long, double, string, and bundles. */
  type Kind = k: nat | k < 11

  const TAGS: seq<int> := [9, 1, 6, 8, 0, 23, 18, 19, 28, 14, 25] // VAL_BOOLEAN ... VAL_PERSISTABLEBUNDLE
  const BUNDLE_MAGIC: int := 0x4C444E42

  type Key = seq<Unit>

  datatype Slot = Slot(kind: Kind, key: Key)

  /** A double is its 64-bit pattern. */
  datatype Value =
    | Bool(b: bool) | Int(n: int) | Long(n: int) | Double(n: int) | Str(u: Key)
    | Bools(bs: seq<bool>) | Ints(ns: seq<int>) | Longs(ns: seq<int>) | Doubles(ns: seq<int>) | Strs(us: seq<Key>)
    | Nested(bundle: Bundle)

  /** The eleven maps as one, from a member map and a key to a value. */
  datatype Bundle = Bundle(maps: map<Slot, Value>)

  const NO_ENTRIES := Bundle(map[])

  function KindOf(v: Value): Kind {
    match v
    case Bool(_) => 0
    case Int(_) => 1
    case Long(_) => 2
    case Double(_) => 3
    case Str(_) => 4
    case Bools(_) => 5
    case Ints(_) => 6
    case Longs(_) => 7
    case Doubles(_) => 8
    case Strs(_) => 9
    case Nested(_) => 10
  }

  predicate Narrow(n: int) {
    -0x8000_0000 <= n < 0x8000_0000
  }

  predicate Wide(n: int) {
    -0x8000_0000_0000_0000 <= n < 0x8000_0000_0000_0000
  }

  /** Every map holds its own kind of values, the integers have their widths. */
  ghost predicate Proper(b: Bundle)
    decreases b
  {
    forall s :: s in b.maps ==> KindOf(b.maps[s]) == s.kind && ProperValue(b.maps[s])
  }

  ghost predicate ProperValue(v: Value)
    decreases v
  {
    match v
    case Int(n) => Narrow(n)
    case Long(n) => Wide(n)
    case Double(n) => Wide(n)
    case Ints(ns) => forall n :: n in ns ==> Narrow(n)
    case Longs(ns) => forall n :: n in ns ==> Wide(n)
    case Doubles(ns) => forall n :: n in ns ==> Wide(n)
    case Nested(b) => Proper(b)
    case _ => true
  }

  // ----- put and erase -----

  /** `erase` stops at the first map that holds the key. */
  function Erased(maps: map<Slot, Value>, key: Key, from: nat): (map<Slot, Value>, nat)
    requires from <= 11
    decreases 11 - from
  {
    if from == 11 then (maps, 0)
    else if Slot(from, key) in maps then (maps - {Slot(from, key)}, 1)
    else Erased(maps, key, from + 1)
  }

  function Put(maps: map<Slot, Value>, key: Key, v: Value): map<Slot, Value> {
    Erased(maps, key, 0).0[Slot(KindOf(v), key) := v]
  }

  /** `getValue` in the map of one kind. */
  function Lookup(maps: map<Slot, Value>, kind: Kind, key: Key): Option<Value> {
    if Slot(kind, key) in maps then Some(maps[Slot(kind, key)]) else None
  }

  datatype Edit = PutEdit(key: Key, value: Value) | EraseEdit(key: Key)

  /** The maps after a program has put and erased. */
  function Edited(maps: map<Slot, Value>, edits: seq<Edit>): map<Slot, Value>
    decreases |edits|
  {
    if edits == [] then maps
    else
      var next := match edits[0]
        case PutEdit(key, v) => Put(maps, key, v)
        case EraseEdit(key) => Erased(maps, key, 0).0;
      Edited(next, edits[1..])
  }

  // ----- the order of writing -----

  predicate KeyLeq(a: Key, b: Key) {
    a == [] || (b != [] && (a[0] < b[0] || (a[0] == b[0] && KeyLeq(a[1..], b[1..]))))
  }

  predicate Leq(s: Slot, t: Slot) {
    s.kind < t.kind || (s.kind == t.kind && KeyLeq(s.key, t.key))
  }

  lemma {:induction false} KeyOrder(a: Key, b: Key, c: Key)
    ensures KeyLeq(a, b) || KeyLeq(b, a)
    ensures KeyLeq(a, b) && KeyLeq(b, a) ==> a == b
    ensures KeyLeq(a, b) && KeyLeq(b, c) ==> KeyLeq(a, c)
  {
    if a != [] && b != [] {
      KeyOrder(a[1..], b[1..], if c == [] then [] else c[1..]);
      assert a == [a[0]] + a[1..] && b == [b[0]] + b[1..];
    }
  }

  predicate IsLeast(s: Slot, slots: set<Slot>) {
    s in slots && forall t :: t in slots ==> Leq(s, t)
  }

  lemma {:induction false} HasLeast(slots: set<Slot>)
    requires slots != {}
    ensures exists s :: IsLeast(s, slots)
  {
    var s :| s in slots;
    KeyOrder(s.key, s.key, s.key);
    var rest := slots - {s};
    if rest == {} {
      assert forall t :: t in slots ==> t == s || t in rest;
      assert IsLeast(s, slots);
    } else {
      HasLeast(rest);
      var r :| IsLeast(r, rest);
      KeyOrder(s.key, r.key, r.key);
      if Leq(s, r) {
        forall t | t in slots
          ensures Leq(s, t)
        {
          assert t == s || t in rest;
          KeyOrder(s.key, r.key, t.key);
        }
        assert IsLeast(s, slots);
      } else {
        assert forall t :: t in slots ==> t == s || t in rest;
        assert IsLeast(r, slots);
      }
    }
  }

  lemma {:induction false} LeastIsUnique(s: Slot, t: Slot, slots: set<Slot>)
    requires IsLeast(s, slots) && IsLeast(t, slots)
    ensures s == t
  {
    KeyOrder(s.key, t.key, t.key);
  }

  /** Map by map, and within a map by key. */
  ghost function Order(slots: set<Slot>): (order: seq<Slot>)
    ensures forall s :: s in order <==> s in slots
    ensures |order| == |slots|
    ensures forall i, j :: 0 <= i < j < |order| ==> order[i] != order[j]
  {
    if slots == {} then []
    else
      HasLeast(slots);
      var s :| IsLeast(s, slots);
      [s] + Order(slots - {s})
  }

  // ----- writing -----

  ghost function Items(b: Bundle): seq<Item>
    decreases b, 3
  {
    if b.maps == map[] then [Int32(0)]
    else [Int32(|EncodedAll(Inner(b))|), Int32(BUNDLE_MAGIC)] + Inner(b)
  }

  ghost function Inner(b: Bundle): seq<Item>
    decreases b, 2
  {
    [Int32(|b.maps|)] + Entries(b, Order(b.maps.Keys))
  }

  ghost function Entries(b: Bundle, order: seq<Slot>): seq<Item>
    requires forall s :: s in order ==> s in b.maps
    decreases b, 1, |order|
  {
    if order == [] then [] else Entry(order[0], b.maps[order[0]]) + Entries(b, order[1..])
  }

  ghost function Entry(s: Slot, v: Value): seq<Item>
    decreases v, 5
  {
    [Text16(s.key), Int32(TAGS[s.kind])] + ValueItems(v)
  }

  ghost function ValueItems(v: Value): seq<Item>
    decreases v, 4
  {
    match v
    case Bool(b) => [Int32(if b then 1 else 0)]
    case Int(n) => [Int32(n)]
    case Long(n) => [Int64(n)]
    case Double(n) => [Int64(n)]
    case Str(u) => [Text16(u)]
    case Bools(bs) => [Int32(|bs|)] + Narrows(FromBools(bs))
    case Ints(ns) => [Int32(|ns|)] + Narrows(ns)
    case Longs(ns) => [Int32(|ns|)] + Wides(ns)
    case Doubles(ns) => [Int32(|ns|)] + Wides(ns)
    case Strs(us) => [Int32(|us|)] + Texts(us)
    case Nested(b) => Items(b)
  }

  function FromBools(bs: seq<bool>): (ns: seq<int>)
    ensures |ns| == |bs|
  {
    seq(|bs|, i requires 0 <= i < |bs| => if bs[i] then 1 else 0)
  }

  function Narrows(ns: seq<int>): seq<Item> {
    if ns == [] then [] else [Int32(ns[0])] + Narrows(ns[1..])
  }

  function Wides(ns: seq<int>): seq<Item> {
    if ns == [] then [] else [Int64(ns[0])] + Wides(ns[1..])
  }

  function Texts(us: seq<Key>): seq<Item> {
    if us == [] then [] else [Text16(us[0])] + Texts(us[1..])
  }

  // ----- reading -----

  /** Reads into a bundle that may already hold entries. What a failed read leaves in it is not modelled. */
  function ReadBundle(bytes: seq<Byte>, pos: nat, into: Bundle): (g: Got<Bundle>)
    requires pos <= |bytes|
    ensures pos <= g.pos <= |bytes|
    decreases |bytes| - pos, 3
  {
    var length := ReadAligned(bytes, pos, 4);
    if length.value < 0 then Got(into, length.pos, UnexpectedNull)
    else ReadInner(bytes, length.pos, length.value, into)
  }

  function ReadInner(bytes: seq<Byte>, pos: nat, length: nat, into: Bundle): (g: Got<Bundle>)
    requires pos <= |bytes|
    ensures pos <= g.pos <= |bytes|
    decreases |bytes| - pos, 2
  {
    if length == 0 then Got(into, pos, NoError)
    else
      var magic := ReadAligned(bytes, pos, 4);
      if magic.status != NoError then Got(into, magic.pos, magic.status)
      else if magic.value != BUNDLE_MAGIC then Got(into, magic.pos, BadValue)
      else
        var count := ReadAligned(bytes, magic.pos, 4);
        if count.status != NoError then Got(into, count.pos, count.status)
        else ReadEntries(bytes, count.pos, count.value, into)
  }

  function ReadEntries(bytes: seq<Byte>, pos: nat, count: int, into: Bundle): (g: Got<Bundle>)
    requires pos <= |bytes|
    ensures pos <= g.pos <= |bytes|
    decreases |bytes| - pos, 1
  {
    if count <= 0 then Got(into, pos, NoError)
    else
      var key := ReadText16(bytes, pos);
      if key.status != NoError then Got(into, key.pos, key.status)
      else
        var tag := ReadAligned(bytes, key.pos, 4);
        if tag.status != NoError then Got(into, tag.pos, tag.status)
        else
          var v := ReadValue(bytes, tag.pos, tag.value, key.value, into);
          if v.status != NoError then Got(into, v.pos, v.status)
          else ReadEntries(bytes, v.pos, count - 1, Bundle(into.maps[Slot(KindOf(v.value), key.value) := v.value]))
  }

  /** What `&mMap[key]` refers to before a nested bundle is read. */
  function Existing(into: Bundle, key: Key): Bundle {
    var s := Slot(10, key);
    if s in into.maps && into.maps[s].Nested? then into.maps[s].bundle else NO_ENTRIES
  }

  function ReadValue(bytes: seq<Byte>, pos: nat, tag: int, key: Key, into: Bundle): (g: Got<Value>)
    requires pos <= |bytes|
    ensures pos <= g.pos <= |bytes|
    decreases |bytes| - pos, 5
  {
    var kind := KindOfTag(tag, 0);
    if kind.None? then Got(Bool(false), pos, BadType) else ReadKind(bytes, pos, kind.value, key, into)
  }

  function KindOfTag(tag: int, from: nat): Option<Kind>
    requires from <= 11
    decreases 11 - from
  {
    if from == 11 then None else if TAGS[from] == tag then Some(from) else KindOfTag(tag, from + 1)
  }

  function ReadKind(bytes: seq<Byte>, pos: nat, kind: Kind, key: Key, into: Bundle): (g: Got<Value>)
    requires pos <= |bytes|
    ensures pos <= g.pos <= |bytes|
    decreases |bytes| - pos, 4
  {
    match kind
    case 0 => var g := ReadAligned(bytes, pos, 4); Got(Bool(g.value != 0), g.pos, g.status)
    case 1 => var g := ReadAligned(bytes, pos, 4); Got(Int(g.value), g.pos, g.status)
    case 2 => var g := ReadAligned(bytes, pos, 8); Got(Long(g.value), g.pos, g.status)
    case 3 => var g := ReadAligned(bytes, pos, 8); Got(Double(g.value), g.pos, g.status)
    case 4 => var g := ReadText16(bytes, pos); Got(Str(g.value), g.pos, g.status)
    case 5 => var g := ReadNumbers(bytes, pos, 4); Got(Bools(ToBools(g.value)), g.pos, g.status)
    case 6 => var g := ReadNumbers(bytes, pos, 4); Got(Ints(g.value), g.pos, g.status)
    case 7 => var g := ReadNumbers(bytes, pos, 8); Got(Longs(g.value), g.pos, g.status)
    case 8 => var g := ReadNumbers(bytes, pos, 8); Got(Doubles(g.value), g.pos, g.status)
    case 9 => var g := ReadTexts(bytes, pos); Got(Strs(g.value), g.pos, g.status)
    case _ => var g := ReadBundle(bytes, pos, Existing(into, key)); Got(Nested(g.value), g.pos, g.status)
  }

  function ToBools(ns: seq<int>): (bs: seq<bool>)
    ensures |bs| == |ns|
  {
    seq(|ns|, i requires 0 <= i < |ns| => ns[i] != 0)
  }

  /** The number of elements and then the elements of a typed vector. */
  function ReadNumbers(bytes: seq<Byte>, pos: nat, width: nat): (g: Got<seq<int>>)
    requires pos <= |bytes|
    ensures pos <= g.pos <= |bytes|
  {
    var n := ReadAligned(bytes, pos, 4);
    if n.status != NoError then Got([], n.pos, n.status)
    else if n.value < 0 then Got([], n.pos, UnexpectedNull)
    else NumbersFrom(bytes, n.pos, width, n.value)
  }

  function NumbersFrom(bytes: seq<Byte>, pos: nat, width: nat, n: nat): (g: Got<seq<int>>)
    requires pos <= |bytes|
    ensures pos <= g.pos <= |bytes|
    decreases n
  {
    if n == 0 then Got([], pos, NoError)
    else
      var first := ReadAligned(bytes, pos, width);
      if first.status != NoError then Got([], first.pos, first.status)
      else
        var rest := NumbersFrom(bytes, first.pos, width, n - 1);
        Got([first.value] + rest.value, rest.pos, rest.status)
  }

  function ReadTexts(bytes: seq<Byte>, pos: nat): (g: Got<seq<Key>>)
    requires pos <= |bytes|
    ensures pos <= g.pos <= |bytes|
  {
    var n := ReadAligned(bytes, pos, 4);
    if n.status != NoError then Got([], n.pos, n.status)
    else if n.value < 0 then Got([], n.pos, UnexpectedNull)
    else TextsFrom(bytes, n.pos, n.value)
  }

  function TextsFrom(bytes: seq<Byte>, pos: nat, n: nat): (g: Got<seq<Key>>)
    requires pos <= |bytes|
    ensures pos <= g.pos <= |bytes|
    decreases n
  {
    if n == 0 then Got([], pos, NoError)
    else
      var first := ReadText16(bytes, pos);
      if first.status != NoError then Got([], first.pos, first.status)
      else
        var rest := TextsFrom(bytes, first.pos, n - 1);
        Got([first.value] + rest.value, rest.pos, rest.status)
  }
}
