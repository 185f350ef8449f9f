/** What is written to a parcel is what is read from it, exactly while every growth stays within a signed 32-bit size. */
module ParcelProofs {
  import opened Bytes
  import opened Options
  import opened ParcelSpec

  // ----- growth -----

  /** From a position within the data, growing always makes room. */
  lemma GrowthLeavesRoom(e: Extent, n: nat)
    requires e.pos <= e.size <= e.capacity < e.pos + n
    ensures var (g, status) := GrowData(e, n);
      && (status == NoError <==> Grown(e.size, n) <= INT32_MAX)
      && (status == NoError ==> g == e.(capacity := Grown(e.size, n)) && e.pos + n <= g.capacity)
      && (status != NoError ==> g == e && status == BadValue)
  {
  }

  /** From a position behind the data a growth can succeed and leave too little room: enough is left exactly when the
      new capacity reaches the end of the write or, when the capacity already did, when the position is pulled back far
      enough. */
  lemma {:induction false} RoomExactly(e: Extent, n: nat)
    requires e.size <= e.capacity <= INT32_MAX && e.capacity < e.pos + n && GrowData(e, n).1 == NoError
    ensures var (g, _) := GrowData(e, n);
      g.pos + n <= g.capacity <==>
        || e.capacity == 0
        || (if Grown(e.size, n) > e.capacity then e.pos + n <= Grown(e.size, n)
            else e.pos > Grown(e.size, n) && Grown(e.size, n) + n <= e.capacity)
  {
  }

  /** Both ways of failing: the growth adds too little, or it moves the position to where there is no room either. */
  lemma NoRoomBehindData()
    ensures var (g, status) := GrowData(Extent(4, 99, 100), 80);
      status == NoError && g == Extent(4, 99, 126) && !Safe(Extent(4, 99, 100), 80)
    ensures var (g, status) := GrowData(Extent(60, 99, 100), 5);
      status == NoError && g == Extent(60, 97, 100) && !Safe(Extent(60, 99, 100), 5)
  {
  }

  /** What growing by n bytes answers and when: nothing to add to next to nothing is taken for an overflow of the size. */
  lemma {:induction false} GrowthAnswers(e: Extent, n: nat)
    ensures GrowData(e, n).1 ==
      if n > 0x7fff_ffff then BadValue
      else if n == 0 && e.size < 2 then NoMemory
      else if (e.size + n) * 3 / 2 > 0x7fff_ffff then BadValue
      else NoError
    ensures GrowData(e, n).1 != NoError ==> GrowData(e, n).0 == e
  {
  }

  /** A write that ends within the capacity is safe and does not grow the buffer; any other is safe from within the data, and
      from behind it when the growth fails or leaves room. */
  lemma {:induction false} SafeExactly(e: Extent, n: nat)
    ensures e.pos + n <= e.capacity ==> Room(e, n) == (e, NoError) && Safe(e, n)
    ensures e.pos + n > e.capacity ==> Room(e, n) == GrowData(e, n)
    ensures e.pos + n > e.capacity ==>
      (Safe(e, n) <==>
        var (g, status) := GrowData(e, n);
        e.pos <= e.size || status != NoError || g.pos + n <= g.capacity)
  {
  }

  /** A write within the data or across its end: the bytes stand from the position on, those in front of it and those behind
      them are what they were, and the data ends where it did or behind what was written. */
  lemma {:induction false} StoredAt(p: Parcel, s: seq<Byte>, i: nat)
    requires p.pos <= |p.bytes|
    ensures var q := Store(p, s);
      && q.pos == p.pos + |s| && q.capacity == p.capacity
      && |q.bytes| == (if q.pos <= |p.bytes| then |p.bytes| else q.pos)
      && (i < |q.bytes| ==> q.bytes[i] == if p.pos <= i < q.pos then s[i - p.pos] else p.bytes[i])
  {
  }

  /** Padding is zeros, as few as make whole words. */
  lemma {:induction false} PaddedWithZeros(s: seq<Byte>, i: nat)
    ensures |s| <= |Padded(s)| < |s| + 4 && |Padded(s)| % 4 == 0
    ensures i < |Padded(s)| ==> Padded(s)[i] == if i < |s| then s[i] else 0
  {
  }

  /** The sizes of what is still to be written decide alone: the capacity after it all, or None when some growth would
      pass the limit. */
  function CapacityAfter(size: nat, capacity: nat, sizes: seq<nat>): Option<nat>
    decreases |sizes|
  {
    if sizes == [] then Some(capacity)
    else if size + sizes[0] <= capacity then CapacityAfter(size + sizes[0], capacity, sizes[1..])
    else if Grown(size, sizes[0]) <= INT32_MAX then CapacityAfter(size + sizes[0], Grown(size, sizes[0]), sizes[1..])
    else None
  }

  function Sum(sizes: seq<nat>): nat {
    if sizes == [] then 0 else sizes[0] + Sum(sizes[1..])
  }

  /** What is written in one go for an item. */
  function Sizes(item: Item): seq<nat> {
    match item
    case Int32(_) => [4]
    case Int64(_) => [8]
    case Text8(s) => if s == [] then [4] else [4, PadSize(|s| + 1)]
    case Text16(u) => [4, PadSize(2 * |u| + 2)]
    case Vector(s) => [4, PadSize(|s|)]
  }

  function AllSizes(items: seq<Item>): seq<nat> {
    if items == [] then [] else Sizes(items[0]) + AllSizes(items[1..])
  }

  ghost predicate Fits(p: Parcel, items: seq<Item>) {
    CapacityAfter(|p.bytes|, p.capacity, AllSizes(items)).Some?
  }

  lemma {:induction false} CapacitySplit(size: nat, capacity: nat, a: seq<nat>, b: seq<nat>)
    ensures Sum(a + b) == Sum(a) + Sum(b)
    ensures CapacityAfter(size, capacity, a + b) ==
      if CapacityAfter(size, capacity, a).Some?
      then CapacityAfter(size + Sum(a), CapacityAfter(size, capacity, a).value, b) else None
    decreases |a|
  {
    if a == [] {
      assert a + b == b;
    } else {
      assert (a + b)[1..] == a[1..] + b;
      CapacitySplit(size + a[0], if size + a[0] <= capacity then capacity else Grown(size, a[0]), a[1..], b);
    }
  }

  lemma {:induction false} AllSizesSplit(a: seq<Item>, b: seq<Item>)
    ensures AllSizes(a + b) == AllSizes(a) + AllSizes(b)
  {
    if a == [] {
      assert a + b == b;
    } else {
      assert (a + b)[1..] == a[1..] + b;
      AllSizesSplit(a[1..], b);
    }
  }

  /** What is small enough as a whole is small enough at every step. */
  lemma {:induction false} SmallFits(size: nat, capacity: nat, sizes: seq<nat>)
    requires capacity <= INT32_MAX && (size + Sum(sizes)) * 3 / 2 <= INT32_MAX
    ensures CapacityAfter(size, capacity, sizes).Some?
    decreases |sizes|
  {
    if sizes != [] {
      var next := if size + sizes[0] <= capacity then capacity else Grown(size, sizes[0]);
      SmallFits(size + sizes[0], next, sizes[1..]);
    }
  }

  // ----- writing at the end -----

  ghost predicate AtEnd(p: Parcel) {
    Ok(p) && p.pos == |p.bytes|
  }

  function Appended(p: Parcel, s: seq<Byte>, capacity: nat): Parcel {
    Parcel(p.bytes + s, p.pos + |s|, capacity)
  }

  lemma {:induction false} WriteAtEnd(p: Parcel, s: seq<Byte>)
    requires AtEnd(p)
    ensures AtEnd(Write(p, s).0)
    ensures var c := CapacityAfter(|p.bytes|, p.capacity, [|s|]);
      Write(p, s) == if c.Some? then (Appended(p, s, c.value), NoError) else (p, BadValue)
  {
    var sizes := [|s|];
    assert sizes[1..] == [];
    assert p.bytes[..p.pos] == p.bytes && (p.bytes + s) + [] == p.bytes + s;
    if p.pos + |s| > p.capacity {
      GrowthLeavesRoom(Extent(|p.bytes|, p.pos, p.capacity), |s|);
    } else if p.pos + |s| <= |p.bytes| {
      assert s == [] && p.bytes[p.pos..] == [];
    }
  }

  lemma {:induction false} InplaceAtEnd(p: Parcel, s: seq<Byte>)
    requires AtEnd(p)
    ensures AtEnd(Inplace(p, s).0)
    ensures var c := CapacityAfter(|p.bytes|, p.capacity, [PadSize(|s|)]);
      && (c.Some? ==> Inplace(p, s) == (Appended(p, Padded(s), c.value), NoError))
      && (c.None? ==> Inplace(p, s) == (p, BadValue))
  {
    WriteAtEnd(p, Padded(s));
  }

  function Encoded(item: Item): seq<Byte> {
    match item
    case Int32(v) => Word(v, 4)
    case Int64(v) => Word(v, 8)
    case Text8(s) => if s == [] then Word(0, 4) else Word(|s|, 4) + Padded(s + [0])
    case Text16(u) => Word(|u|, 4) + Padded(Units(u) + [0, 0])
    case Vector(s) => Word(|s|, 4) + Padded(s)
  }

  function EncodedAll(items: seq<Item>): seq<Byte> {
    if items == [] then [] else Encoded(items[0]) + EncodedAll(items[1..])
  }

  lemma {:induction false} EncodedAllSplit(a: seq<Item>, b: seq<Item>)
    ensures EncodedAll(a + b) == EncodedAll(a) + EncodedAll(b)
  {
    if a == [] {
      assert a + b == b;
    } else {
      assert (a + b)[1..] == a[1..] + b;
      EncodedAllSplit(a[1..], b);
    }
  }

  lemma {:induction false} EncodedSize(item: Item)
    ensures |Encoded(item)| == Sum(Sizes(item))
  {
    match item
    case Int32(_) => assert [4][1..] == [];
    case Int64(_) => assert [8][1..] == [];
    case Text8(s) =>
      assert [4][1..] == [];
      SumOfTwo(4, PadSize(|s| + 1));
    case Text16(u) => SumOfTwo(4, PadSize(2 * |u| + 2));
    case Vector(s) => SumOfTwo(4, PadSize(|s|));
  }

  lemma {:induction false} SumOfTwo(a: nat, b: nat)
    ensures Sum([a, b]) == a + b
  {
    assert [a, b][1..] == [b] && [b][1..] == [];
    assert Sum([b]) == b;
  }

  lemma {:induction false} EncodedAllSize(items: seq<Item>)
    ensures |EncodedAll(items)| == Sum(AllSizes(items))
  {
    if items != [] {
      EncodedSize(items[0]);
      EncodedAllSize(items[1..]);
      CapacitySplit(0, 0, Sizes(items[0]), AllSizes(items[1..]));
    }
  }

  /** An item is written whole exactly when it fits. When it does not, either the writer says so or, for a string, the
      payload is silently left away. */
  lemma {:induction false} ItemAtEnd(p: Parcel, item: Item)
    requires AtEnd(p)
    ensures var (q, status) := WriteItem(p, item);
      var c := CapacityAfter(|p.bytes|, p.capacity, Sizes(item));
      && AtEnd(q)
      && (c.Some? ==> (q, status) == (Appended(p, Encoded(item), c.value), NoError))
      && (c.None? && status == NoError ==>
            && ((item.Text8? && item.s != []) || item.Text16?)
            && var c1 := CapacityAfter(|p.bytes|, p.capacity, [4]);
            c1.Some? && q == Appended(p, Encoded(item)[..4], c1.value))
  {
    hide Write, Inplace;
    match item
    case Int32(v) => WriteAtEnd(p, Word(v, 4));
    case Int64(v) => WriteAtEnd(p, Word(v, 8));
    case Text8(s) => PrefixedAtEnd(p, |s|, s + [0]);
    case Text16(u) => PrefixedAtEnd(p, |u|, Units(u) + [0, 0]);
    case Vector(s) => PrefixedAtEnd(p, |s|, s);
  }

  /** What is left of an item that does not fit: the length of a string or a vector if there is room for that, and nothing else.
      The writer says BAD_VALUE except for a string of which the length was written; and for that too if it is a String8 that
      is as long as a signed length can say. */
  lemma {:induction false} ItemMisfits(p: Parcel, item: Item)
    requires AtEnd(p) && CapacityAfter(|p.bytes|, p.capacity, Sizes(item)).None?
    ensures var (q, status) := WriteItem(p, item);
      var n := match item case Text8(s) => |s| case Text16(u) => |u| case Vector(s) => |s| case _ => 0;
      var prefixed := !item.Int32? && !item.Int64? && CapacityAfter(|p.bytes|, p.capacity, [4]).Some?
        && !(item.Vector? && n > 0x7fff_ffff);
      && q.bytes == p.bytes + (if prefixed then Word(n, 4) else [])
      && status == if prefixed && (item.Text16? || (item.Text8? && n < 0x7fff_ffff)) then NoError else BadValue
  {
    hide Write, Inplace, Word;
    assert p.bytes + [] == p.bytes;
    match item
    case Int32(v) => WriteAtEnd(p, Word(v, 4));
    case Int64(v) => WriteAtEnd(p, Word(v, 8));
    case Text8(s) => PrefixedAtEnd(p, |s|, s + [0]); WriteAtEnd(p, Word(|s|, 4));
    case Text16(u) => PrefixedAtEnd(p, |u|, Units(u) + [0, 0]); WriteAtEnd(p, Word(|u|, 4));
    case Vector(s) => PrefixedAtEnd(p, |s|, s); WriteAtEnd(p, Word(|s|, 4));
  }

  lemma {:induction false} PrefixedAtEnd(p: Parcel, n: nat, s: seq<Byte>)
    requires AtEnd(p)
    ensures var (q, status) := Write(p, Word(n, 4));
      var c := CapacityAfter(|p.bytes|, p.capacity, [4]);
      var c2 := CapacityAfter(|p.bytes|, p.capacity, [4, PadSize(|s|)]);
      && AtEnd(q)
      && (status == NoError <==> c.Some?)
      && (c.Some? ==> q == Appended(p, Word(n, 4), c.value) && AtEnd(Inplace(q, s).0))
      && (c2.Some? ==> c.Some? && Inplace(q, s) == (Appended(p, Word(n, 4) + Padded(s), c2.value), NoError))
      && (c2.None? && c.Some? ==> Inplace(q, s) == (q, BadValue))
      && (c2.Some? ==> |s| <= INT32_MAX)
  {
    hide Write, Inplace;
    WriteAtEnd(p, Word(n, 4));
    var q := Write(p, Word(n, 4)).0;
    InplaceAtEnd(q, s);
    CapacitySplit(|p.bytes|, p.capacity, [4], [PadSize(|s|)]);
    assert [4] + [PadSize(|s|)] == [4, PadSize(|s|)] && [4][1..] == [];
    assert (p.bytes + Word(n, 4)) + Padded(s) == p.bytes + (Word(n, 4) + Padded(s));
  }

  /** Not even one word fits any more. */
  ghost predicate Stuck(p: Parcel) {
    p.pos + 4 > p.capacity && Grown(|p.bytes|, 4) > INT32_MAX
  }

  /** The last word is a number of at most 3. */
  ghost predicate EndsSmall(bytes: seq<Byte>) {
    |bytes| >= 4 && 0 <= Signed(bytes[|bytes| - 4..]) <= 3
  }

  /** What is missing of n bytes: at least two words, or one, and then nothing can follow and the last word is the length of
      a short string that was left away. */
  ghost predicate Lacking(p: Parcel, q: Parcel, n: nat) {
    |q.bytes| + 8 <= |p.bytes| + n
    || (|p.bytes| + 4 <= |q.bytes| && |q.bytes| + 4 == |p.bytes| + n && Stuck(q) && EndsSmall(q.bytes))
  }

  /** Whatever has been written of the items: all of it when they fit, too little when they do not. */
  ghost predicate Written(p: Parcel, q: Parcel, items: seq<Item>) {
    && AtEnd(q)
    && var c := CapacityAfter(|p.bytes|, p.capacity, AllSizes(items));
      if c.Some? then q == Appended(p, EncodedAll(items), c.value)
      else |p.bytes| <= |q.bytes| && q.bytes[..|p.bytes|] == p.bytes && Lacking(p, q, |EncodedAll(items)|)
  }

  lemma {:induction false} NothingWritten(p: Parcel)
    requires AtEnd(p)
    ensures Written(p, p, [])
  {
  }

  lemma {:induction false} ItemWritten(p: Parcel, item: Item)
    requires AtEnd(p)
    ensures WriteItem(p, item).1 == NoError ==> Written(p, WriteItem(p, item).0, [item])
    ensures WriteItem(p, item).1 != NoError ==> !Fits(p, [item])
  {
    hide WriteItem, CapacityAfter, Encoded, Sizes;
    ItemAtEnd(p, item);
    assert [item][1..] == [] && AllSizes([item]) == Sizes(item) + [] == Sizes(item);
    assert EncodedAll([item]) == Encoded(item) + [] == Encoded(item);
    if WriteItem(p, item).1 == NoError && CapacityAfter(|p.bytes|, p.capacity, Sizes(item)).None? {
      LostIsLacking(p, WriteItem(p, item).0, item);
    }
  }

  /** Behind the length of a string that was left away. */
  lemma {:induction false} LostIsLacking(p: Parcel, q: Parcel, item: Item)
    requires AtEnd(p) && AtEnd(q) && ((item.Text8? && item.s != []) || item.Text16?)
    requires CapacityAfter(|p.bytes|, p.capacity, Sizes(item)).None?
    requires var c := CapacityAfter(|p.bytes|, p.capacity, [4]); c.Some? && q == Appended(p, Encoded(item)[..4], c.value)
    ensures Lacking(p, q, |Encoded(item)|)
  {
    hide Encoded, CapacityAfter;
    var n := if item.Text8? then |item.s| else |item.u|;
    var size := if item.Text8? then PadSize(n + 1) else PadSize(2 * n + 2);
    assert Sizes(item) == [4] + [size];
    EncodedSize(item);
    SumOfTwo(4, size);
    PaddedUp(n, size, item.Text8?);
    StartsWithLength(item, n);
    if size == 4 {
      StuckBehind(p, q, n);
      EndsWithLength(p.bytes, n);
    }
  }

  lemma {:induction false} PaddedUp(n: nat, size: nat, text8: bool)
    requires size == if text8 then PadSize(n + 1) else PadSize(2 * n + 2)
    ensures size >= 4 && (size > 4 ==> size >= 8) && (size == 4 ==> n <= 3)
  {
  }

  lemma {:induction false} StartsWithLength(item: Item, n: nat)
    requires (item.Text8? && item.s != [] && n == |item.s|) || (item.Text16? && n == |item.u|)
    ensures |Encoded(item)| >= 4 && Encoded(item)[..4] == Word(n, 4)
  {
    hide Word, Padded;
  }

  lemma {:induction false} StuckBehind(p: Parcel, q: Parcel, n: nat)
    requires AtEnd(p) && AtEnd(q) && CapacityAfter(|p.bytes|, p.capacity, [4] + [4]).None?
    requires var c := CapacityAfter(|p.bytes|, p.capacity, [4]); c.Some? && q == Appended(p, Word(n, 4), c.value)
    ensures Stuck(q)
  {
    CapacitySplit(|p.bytes|, p.capacity, [4], [4]);
    assert [4][1..] == [];
  }

  lemma {:induction false} EndsWithLength(bytes: seq<Byte>, n: nat)
    requires n <= 3
    ensures EndsSmall(bytes + Word(n, 4))
  {
    Widths();
    WordInverse(n, 4);
    var all := bytes + Word(n, 4);
    assert all[|all| - 4..] == Word(n, 4);
  }

  lemma {:induction false} StuckFitsNothing(p: Parcel, items: seq<Item>)
    requires AtEnd(p) && Stuck(p) && items != []
    ensures !Fits(p, items)
  {
    var sizes := AllSizes(items);
    assert sizes[0] == Sizes(items[0])[0] >= 4;
  }

  /** One writer after another. */
  lemma {:induction false} WrittenTwice(p: Parcel, q: Parcel, r: Parcel, a: seq<Item>, b: seq<Item>)
    requires Written(p, q, a) && Written(q, r, b)
    ensures Written(p, r, a + b)
  {
    hide CapacityAfter, EncodedAll, AllSizes, Sum, Ok, Stuck, EndsSmall;
    AllSizesSplit(a, b);
    EncodedAllSplit(a, b);
    CapacitySplit(|p.bytes|, p.capacity, AllSizes(a), AllSizes(b));
    EncodedAllSize(a);
    WrittenKeeps(p, q, a);
    WrittenKeeps(q, r, b);
    assert r.bytes[..|p.bytes|] == r.bytes[..|q.bytes|][..|p.bytes|];
    if Fits(p, a) && Fits(q, b) {
      assert p.bytes + EncodedAll(a) + EncodedAll(b) == p.bytes + (EncodedAll(a) + EncodedAll(b));
    } else if !Fits(p, a) && Fits(q, b) && Stuck(q) {
      if b != [] {
        StuckFitsNothing(q, b);
      } else {
        WrittenNothing(q, r);
      }
    }
  }

  lemma {:induction false} WrittenNothing(p: Parcel, q: Parcel)
    requires Written(p, q, [])
    ensures p.pos == |p.bytes| ==> p == q
    ensures q.bytes == p.bytes && q.capacity == p.capacity
  {
    assert p.bytes + [] == p.bytes;
  }

  lemma {:induction false} WrittenKeeps(p: Parcel, q: Parcel, a: seq<Item>)
    requires Written(p, q, a)
    ensures |p.bytes| <= |q.bytes| <= |p.bytes| + |EncodedAll(a)| && q.bytes[..|p.bytes|] == p.bytes
    ensures Fits(p, a) <==> |q.bytes| == |p.bytes| + |EncodedAll(a)|
  {
  }

  lemma {:induction false} NotFitsLater(p: Parcel, q: Parcel, a: seq<Item>, b: seq<Item>)
    requires Written(p, q, a) && !Fits(q, b)
    ensures !Fits(p, a + b)
  {
    hide CapacityAfter;
    AllSizesSplit(a, b);
    CapacitySplit(|p.bytes|, p.capacity, AllSizes(a), AllSizes(b));
    EncodedAllSize(a);
  }

  lemma {:induction false} OnlyStringsShrink(item: Item)
    ensures |Encoded(item)| >= 4
    ensures (item.Text8? && item.s != []) || item.Text16? ==> |Encoded(item)| > 4
  {
    match item
    case Text8(s) =>
      assert s != [] ==> Encoded(item) == Word(|s|, 4) + Padded(s + [0]);
      assert |Padded(s + [0])| == PadSize(|s + [0]|) == PadSize(|s| + 1) > 0;
    case Text16(u) =>
      assert Encoded(item) == Word(|u|, 4) + Padded(Units(u) + [0, 0]);
      assert |Padded(Units(u) + [0, 0])| == PadSize(2 * |u| + 2) > 0;
    case _ =>
  }

  /** Reporting success having written everything is the same as fitting. */
  lemma {:induction false} WholeExactlyIfFits(p: Parcel, items: seq<Item>)
    requires AtEnd(p)
    ensures var (q, status) := WriteAll(p, items);
      && (Fits(p, items) <==> status == NoError && |q.bytes| == |p.bytes| + |EncodedAll(items)|)
      && (Fits(p, items) ==> q.bytes == p.bytes + EncodedAll(items) && q.pos == |q.bytes|)
  {
    WriteAllFrom(p, p, [], items);
    assert [] + items == items;
  }

  lemma {:induction false} WriteAllFrom(p: Parcel, q: Parcel, done: seq<Item>, items: seq<Item>)
    requires AtEnd(p) && Written(p, q, done)
    ensures var (r, status) := WriteAll(q, items);
      && (status == NoError ==> Written(p, r, done + items))
      && (status != NoError ==> !Fits(p, done + items))
    decreases |items|
  {
    hide WriteItem;
    if items == [] {
      assert done + items == done;
    } else {
      var item := items[0];
      assert done + items == (done + [item]) + items[1..];
      ItemWritten(q, item);
      if WriteItem(q, item).1 == NoError {
        WrittenTwice(p, q, WriteItem(q, item).0, done, [item]);
        WriteAllFrom(p, WriteItem(q, item).0, done + [item], items[1..]);
      } else {
        NotFitsLater(p, q, done, [item]);
        FitsPrefix(p, done + [item], items[1..]);
      }
    }
  }

  lemma {:induction false} FitsPrefix(p: Parcel, a: seq<Item>, b: seq<Item>)
    ensures Fits(p, a + b) ==> Fits(p, a)
  {
    AllSizesSplit(a, b);
    CapacitySplit(|p.bytes|, p.capacity, AllSizes(a), AllSizes(b));
  }

  // ----- readers on any bytes -----

  /** The word at a position, or 0 where there is none: what the readers of lengths go by. */
  ghost function WordAt(bytes: seq<Byte>, pos: nat): int {
    if pos + 4 <= |bytes| then Signed(bytes[pos..pos + 4]) else 0
  }

  /** When the readers of numbers, of a String16 and of a byte vector fail, and with which status; that of a String8 does not,
      but gives an empty one. */
  lemma {:induction false} ReadersAnswer(bytes: seq<Byte>, pos: nat)
    ensures ReadItem(bytes, pos, Int32(0)).status == if pos + 4 <= |bytes| then NoError else NotEnoughData
    ensures ReadItem(bytes, pos, Int64(0)).status == if pos + 8 <= |bytes| then NoError else NotEnoughData
    ensures var n := WordAt(bytes, pos);
      && ReadItem(bytes, pos, Text8([])).status == NoError
      && (ReadText8(bytes, pos).value != [] <==> 0 < n < 0x7fff_ffff && pos + 4 + PadSize(n + 1) <= |bytes|)
      && (0 < n < 0x7fff_ffff && pos + 4 + PadSize(n + 1) <= |bytes| ==> ReadText8(bytes, pos).value == bytes[pos + 4..pos + 4 + n])
      && ReadItem(bytes, pos, Text16([])).status ==
        (if 0 <= n && 2 * n + 2 <= 0x7fff_ffff && pos + 4 + PadSize(2 * n + 2) <= |bytes| then NoError else UnexpectedNull)
      && ReadItem(bytes, pos, Vector([])).status ==
        if pos + 4 > |bytes| then NotEnoughData
        else if n < 0 then UnexpectedNull
        else if n > 0x7fff_ffff || pos + 4 + PadSize(n) > |bytes| then BadValue
        else NoError
  {
    hide Signed, FromUnits;
  }

  // ----- reading back -----

  /** The integers have their widths. */
  ghost predicate Ranged(item: Item) {
    match item
    case Int32(v) => -0x8000_0000 <= v < 0x8000_0000
    case Int64(v) => -0x8000_0000_0000_0000 <= v < 0x8000_0000_0000_0000
    case _ => true
  }

  ghost predicate AllRanged(items: seq<Item>) {
    forall x :: x in items ==> Ranged(x)
  }

  lemma {:induction false} WordInverse(v: int, n: nat)
    requires n == 4 || n == 8
    requires -(Power256(n) / 2) <= v < Power256(n) / 2
    ensures Signed(Word(v, n)) == v
  {
    Widths();
    var big: int := Power256(n);
    if v >= 0 {
      assert v % big == v;
    } else {
      assert (v + big) % big == v % big;
    }
    LittleEndianInverse(v % big, n);
  }

  lemma {:induction false} UnitsInverse(u: seq<Unit>)
    ensures FromUnits(Units(u)) == u
  {
    if u != [] {
      Widths();
      var s := Units(u);
      assert s[..2] == LittleEndian(u[0], 2) && s[2..] == Units(u[1..]);
      LittleEndianInverse(u[0], 2);
      UnitsInverse(u[1..]);
    }
  }

  /** `s` lies at the position. */
  ghost predicate Ahead(bytes: seq<Byte>, pos: nat, s: seq<Byte>) {
    pos + |s| <= |bytes| && bytes[pos..pos + |s|] == s
  }

  lemma {:induction false} AheadSplit(bytes: seq<Byte>, pos: nat, a: seq<Byte>, b: seq<Byte>)
    requires Ahead(bytes, pos, a + b)
    ensures Ahead(bytes, pos, a) && Ahead(bytes, pos + |a|, b)
  {
    assert bytes[pos..pos + |a|] == (a + b)[..|a|] == a;
    assert bytes[pos + |a|..pos + |a| + |b|] == (a + b)[|a|..] == b;
  }

  lemma {:induction false} WordRead(bytes: seq<Byte>, pos: nat, v: int, n: nat)
    requires n == 4 || n == 8
    requires -(Power256(n) / 2) <= v < Power256(n) / 2 && Ahead(bytes, pos, Word(v, n))
    ensures ReadAligned(bytes, pos, n) == Got(v, pos + n, NoError)
  {
    WordInverse(v, n);
  }

  lemma {:induction false} InplaceRead(bytes: seq<Byte>, pos: nat, s: seq<Byte>)
    requires |s| <= INT32_MAX && Ahead(bytes, pos, Padded(s))
    ensures ReadInplace(bytes, pos, |s|) == (Some(s), pos + PadSize(|s|))
  {
    AheadSplit(bytes, pos, s, Zeros(PadSize(|s|) - |s|));
  }

  /** Behind its length word, a payload of at most 2^31 - 1 bytes. */
  lemma {:induction false} PrefixedRead(bytes: seq<Byte>, pos: nat, n: nat, s: seq<Byte>)
    requires |s| <= INT32_MAX && n <= |s| && Ahead(bytes, pos, Word(n, 4) + Padded(s))
    ensures ReadAligned(bytes, pos, 4) == Got(n, pos + 4, NoError)
    ensures ReadInplace(bytes, pos + 4, |s|) == (Some(s), pos + 4 + PadSize(|s|))
    ensures pos + 4 + |s| <= |bytes|
  {
    Widths();
    AheadSplit(bytes, pos, Word(n, 4), Padded(s));
    WordRead(bytes, pos, n, 4);
    InplaceRead(bytes, pos + 4, s);
  }

  /** The lengths of an item that has been stored fit their word. */
  ghost predicate Storable(item: Item) {
    match item
    case Text8(s) => |s| < INT32_MAX
    case Text16(u) => 2 * |u| + 2 <= INT32_MAX
    case Vector(s) => |s| <= INT32_MAX
    case _ => true
  }

  lemma {:induction false} ItemRead(bytes: seq<Byte>, pos: nat, item: Item)
    requires Ranged(item) && Storable(item) && Ahead(bytes, pos, Encoded(item))
    ensures ReadItem(bytes, pos, item) == Got(item, pos + |Encoded(item)|, NoError)
  {
    hide ReadAligned, ReadInplace, Word, Padded, ReadText8, ReadText16, ReadVector;
    Widths();
    match item
    case Int32(v) => WordRead(bytes, pos, v, 4);
    case Int64(v) => WordRead(bytes, pos, v, 8);
    case Text8(s) => Text8Read(bytes, pos, s);
    case Text16(u) => Text16Read(bytes, pos, u);
    case Vector(s) => VectorOfBytesRead(bytes, pos, s);
  }

  lemma {:induction false} Text8Read(bytes: seq<Byte>, pos: nat, s: seq<Byte>)
    requires |s| < INT32_MAX && Ahead(bytes, pos, if s == [] then Word(0, 4) else Word(|s|, 4) + Padded(s + [0]))
    ensures ReadText8(bytes, pos) == Got(s, pos + 4 + (if s == [] then 0 else PadSize(|s| + 1)), NoError)
  {
    hide ReadAligned, ReadInplace, Word, Padded, PadSize;
    Widths();
    if s == [] {
      WordRead(bytes, pos, 0, 4);
    } else {
      PrefixedRead(bytes, pos, |s|, s + [0]);
      assert (s + [0])[..|s|] == s;
    }
  }

  lemma {:induction false} Text16Read(bytes: seq<Byte>, pos: nat, u: seq<Unit>)
    requires 2 * |u| + 2 <= INT32_MAX && Ahead(bytes, pos, Word(|u|, 4) + Padded(Units(u) + [0, 0]))
    ensures ReadText16(bytes, pos) == Got(u, pos + 4 + PadSize(2 * |u| + 2), NoError)
  {
    hide ReadAligned, ReadInplace, Word, Padded, PadSize;
    PrefixedRead(bytes, pos, |u|, Units(u) + [0, 0]);
    assert (Units(u) + [0, 0])[..2 * |u|] == Units(u);
    UnitsInverse(u);
  }

  lemma {:induction false} VectorOfBytesRead(bytes: seq<Byte>, pos: nat, s: seq<Byte>)
    requires |s| <= INT32_MAX && Ahead(bytes, pos, Word(|s|, 4) + Padded(s))
    ensures ReadVector(bytes, pos) == Got(s, pos + 4 + PadSize(|s|), NoError)
  {
    hide ReadAligned, ReadInplace, Word, Padded, PadSize;
    PrefixedRead(bytes, pos, |s|, s);
  }

  /** An item that did not fit is not read back with the position where its writer left it. */
  lemma {:induction false} DroppedNotRead(bytes: seq<Byte>, pos: nat, item: Item)
    requires (item.Text8? && item.s != []) || item.Text16?
    ensures ReadItem(bytes, pos, item) != Got(item, pos + 4, NoError)
  {
  }

  /** Each item, written and later read from the final contents, comes back with the read position in step. */
  ghost predicate InStep(bytes: seq<Byte>, p: Parcel, items: seq<Item>)
    requires Ok(p)
    decreases |items|
  {
    items == [] ||
      (ItemKeepsOk(p, items[0]);
       var (q, status) := WriteItem(p, items[0]);
       status == NoError && ReadItem(bytes, p.pos, items[0]) == Got(items[0], q.pos, NoError) && InStep(bytes, q, items[1..]))
  }

  /** What is written to an empty parcel is read back, with the positions in step, if and only if it fits. */
  lemma {:induction false} RoundTrip(items: seq<Item>)
    requires AllRanged(items)
    ensures InStep(WriteAll(EMPTY, items).0.bytes, EMPTY, items) <==> Fits(EMPTY, items)
  {
    hide WriteItem, WriteAll, EncodedAll, CapacityAfter, InStep;
    if Fits(EMPTY, items) {
      WholeExactlyIfFits(EMPTY, items);
      FitsInStep(WriteAll(EMPTY, items).0.bytes, EMPTY, items);
    } else {
      NotInStep(WriteAll(EMPTY, items).0.bytes, EMPTY, items);
    }
  }

  lemma {:induction false} FitsInStep(bytes: seq<Byte>, p: Parcel, items: seq<Item>)
    requires AtEnd(p) && AllRanged(items) && Fits(p, items) && Ahead(bytes, p.pos, EncodedAll(items))
    ensures InStep(bytes, p, items)
    decreases |items|
  {
    hide WriteItem, ReadItem, Encoded, CapacityAfter, Sizes;
    if items != [] {
      var item := items[0];
      ItemAtEnd(p, item);
      CapacitySplit(|p.bytes|, p.capacity, Sizes(item), AllSizes(items[1..]));
      AheadSplit(bytes, p.pos, Encoded(item), EncodedAll(items[1..]));
      FitsStorable(p, item);
      ItemRead(bytes, p.pos, item);
      EncodedSize(item);
      FitsInStep(bytes, WriteItem(p, item).0, items[1..]);
    }
  }

  lemma {:induction false} FitsStorable(p: Parcel, item: Item)
    requires AtEnd(p) && CapacityAfter(|p.bytes|, p.capacity, Sizes(item)).Some?
    ensures Storable(item)
  {
    hide Write, Inplace;
    match item
    case Text8(s) => PrefixedAtEnd(p, |s|, s + [0]);
    case Text16(u) => PrefixedAtEnd(p, |u|, Units(u) + [0, 0]);
    case Vector(s) => PrefixedAtEnd(p, |s|, s);
    case _ =>
  }

  lemma {:induction false} NotInStep(bytes: seq<Byte>, p: Parcel, items: seq<Item>)
    requires AtEnd(p) && !Fits(p, items)
    ensures !InStep(bytes, p, items)
    decreases |items|
  {
    hide WriteItem, ReadItem, Encoded, CapacityAfter, Sizes;
    assert items != [] by { assert CapacityAfter(|p.bytes|, p.capacity, []) == Some(p.capacity) by { Unfold(p); } }
    var item := items[0];
    ItemAtEnd(p, item);
    EncodedSize(item);
    CapacitySplit(|p.bytes|, p.capacity, Sizes(item), AllSizes(items[1..]));
    var (q, status) := WriteItem(p, item);
    if CapacityAfter(|p.bytes|, p.capacity, Sizes(item)).Some? {
      NotInStep(bytes, q, items[1..]);
    } else if status == NoError {
      OnlyStringsShrink(item);
      DroppedNotRead(bytes, p.pos, item);
    }
  }

  lemma {:induction false} Unfold(p: Parcel)
    ensures CapacityAfter(|p.bytes|, p.capacity, []) == Some(p.capacity)
  {
  }

  /** A string whose payload is left away while the writer reports success: 2^30 units into an empty parcel. */
  lemma {:induction false} LongStringIsLost(u: seq<Unit>)
    requires |u| == 0x4000_0000
    ensures WriteItem(EMPTY, Text16(u)) == (Parcel(Word(|u|, 4), 4, 6), NoError)
    ensures !InStep(WriteAll(EMPTY, [Text16(u)]).0.bytes, EMPTY, [Text16(u)])
  {
    hide WriteItem, Units, Word;
    var sizes := [4, PadSize(2 * |u| + 2)];
    assert sizes[1..] == [0x8000_0004] && CapacityAfter(4, 6, sizes[1..]) == None;
    assert [4][1..] == [] && CapacityAfter(0, 0, [4]) == Some(6) && CapacityAfter(0, 0, sizes) == None;
    LostAtEnd(u);
    var items := [Text16(u)];
    assert items[1..] == [] && AllSizes(items) == sizes + [] == sizes;
    NotInStep(WriteAll(EMPTY, items).0.bytes, EMPTY, items);
  }

  lemma {:induction false} LostAtEnd(u: seq<Unit>)
    requires CapacityAfter(0, 0, [4]) == Some(6) && CapacityAfter(0, 0, [4, PadSize(2 * |u| + 2)]) == None
    ensures WriteItem(EMPTY, Text16(u)) == (Parcel(Word(|u|, 4), 4, 6), NoError)
  {
    hide Units, Word, Write, Inplace, CapacityAfter;
    PrefixedAtEnd(EMPTY, |u|, Units(u) + [0, 0]);
    assert [] + Word(|u|, 4) == Word(|u|, 4);
  }
}
