/** The parcel as the object it is: a buffer that grows, a position and a size that every call moves. */
module ParcelBuffer {
  import opened Bytes
  import opened Options
  import opened ParcelSpec
  import opened ParcelProofs

  class OwnedParcel {
    var data: array<Byte> // mData; its length is mDataCapacity
    var size: nat         // mDataSize
    var pos: nat          // mDataPos

    ghost predicate Valid()
      reads this
    {
      size <= data.Length <= INT32_MAX
    }

    /** The position is within the data. */
    ghost predicate InData()
      reads this
    {
      Valid() && pos <= size
    }

    ghost function View(): Parcel
      requires Valid()
      reads this, data
    {
      Parcel(data[..size], pos, data.Length)
    }

    ghost function Extents(): Extent
      reads this
    {
      Extent(size, pos, data.Length)
    }

    constructor ()
      ensures InData() && View() == EMPTY && fresh(data)
    {
      data, size, pos := new Byte[0], 0, 0;
    }

    // ----- growing -----

    method Reallocate(n: nat) returns (bigger: array<Byte>)
      requires data.Length <= n
      ensures fresh(bigger) && bigger.Length == n && bigger[..data.Length] == data[..]
    {
      bigger := new Byte[n](_ => 0);
      for i := 0 to data.Length
        invariant bigger[..i] == data[..i]
      {
        bigger[i] := data[i];
      }
      assert data[..data.Length] == data[..];
    }

    method ContinueWrite(desired: nat) returns (status: Status)
      requires Valid()
      modifies this
      ensures Valid() && (data == old(data) || fresh(data))
      ensures (Extents(), status) == ParcelSpec.ContinueWrite(old(Extents()), desired)
      ensures old(data.Length) <= data.Length && data[..old(data.Length)] == old(data[..])
    {
      if desired > INT32_MAX {
        return BadValue;
      }
      if data.Length == 0 {
        data := new Byte[desired](_ => 0);
        size, pos := 0, 0;
      } else if desired > data.Length {
        var bigger := Reallocate(desired);
        data := bigger;
      } else {
        size := Min(size, desired);
        pos := Min(pos, desired);
      }
      return NoError;
    }

    method GrowData(n: nat) returns (status: Status)
      requires Valid()
      modifies this
      ensures Valid() && (data == old(data) || fresh(data))
      ensures (Extents(), status) == ParcelSpec.GrowData(old(Extents()), n)
      ensures old(data.Length) <= data.Length && data[..old(data.Length)] == old(data[..])
    {
      if n > INT32_MAX {
        return BadValue;
      }
      var newSize := (size + n) * 3 / 2;
      if newSize <= size {
        return NoMemory;
      }
      status := ContinueWrite(newSize);
    }

    // ----- writing -----

    method FinishWrite(n: nat) returns (status: Status)
      requires Valid() && pos + n <= data.Length
      modifies this`pos, this`size
      ensures Valid() && status == NoError
      ensures pos == old(pos) + n && size == if pos > old(size) then pos else old(size)
    {
      pos := pos + n;
      if pos > size {
        size := pos;
      }
      return NoError;
    }

    /** `memcpy` into the buffer. */
    method Copy(at: nat, s: seq<Byte>)
      requires at + |s| <= data.Length
      modifies data
      ensures data[..at] == old(data[..at]) && data[at..at + |s|] == s && data[at + |s|..] == old(data[at + |s|..])
    {
      for i := 0 to |s|
        invariant forall j :: 0 <= j < data.Length ==>
          data[j] == if at <= j < at + i then s[j - at] else old(data[j])
      {
        data[at + i] := s[i];
      }
    }

    /** The mask over the last word clears what is not payload. */
    method Zero(at: nat, n: nat)
      requires at + n <= data.Length
      modifies data
      ensures data[..at] == old(data[..at]) && data[at..at + n] == Zeros(n) && data[at + n..] == old(data[at + n..])
    {
      for i := 0 to n
        invariant forall j :: 0 <= j < data.Length ==> data[j] == if at <= j < at + i then 0 else old(data[j])
      {
        data[at + i] := 0;
      }
    }

    method Pad(n: nat)
      requires Valid() && pos + PadSize(n) <= data.Length
      modifies data
      ensures data[..pos + n] == old(data[..pos + n]) && data[pos + n..pos + PadSize(n)] == Zeros(PadSize(n) - n)
      ensures data[pos + PadSize(n)..] == old(data[pos + PadSize(n)..])
    {
      if PadSize(n) != n {
        Zero(pos + n, PadSize(n) - n);
      }
    }

    /** `memcpy` to where `writeInplace` has made room. */
    method Fill(at: nat, s: seq<Byte>)
      requires InData() && at + |s| <= size
      modifies data
      ensures InData() && View() == Filled(old(View()), at, s)
    {
      ghost var was := data[..];
      Copy(at, s);
      PatchedIn(was, data[..], at, s, size);
    }

    /** What a write finds: the data or, from a position behind it, whatever the buffer holds up to there. */
    ghost function Found(): Parcel
      requires Valid() && pos <= data.Length
      reads this, data
    {
      Parcel(data[..if size < pos then pos else size], pos, data.Length)
    }

    method MakeRoom(n: nat) returns (status: Status)
      requires Valid() && Safe(Extents(), n)
      modifies this
      ensures Valid() && (data == old(data) || fresh(data))
      ensures (Extents(), status) == Room(old(Extents()), n)
      ensures old(data.Length) <= data.Length && data[..old(data.Length)] == old(data[..])
      ensures status == NoError ==> pos + n <= data.Length
      ensures status != NoError ==> View() == old(View())
      ensures old(InData()) && status == NoError ==> InData() && Found() == old(View()).(capacity := data.Length)
      ensures !old(InData()) && status == NoError ==> size <= pos && data.Length > 0
    {
      ghost var e := Extents();
      status := NoError;
      if pos + n > data.Length {
        status := GrowData(n);
      }
      if status == NoError {
        RoomInData(e, n);
      }
    }

    method WriteAligned(v: int, n: nat) returns (status: Status)
      requires Valid() && Safe(Extents(), n)
      modifies this, data
      ensures Valid() && (data == old(data) || fresh(data)) && (status == NoError || old(InData()) ==> InData())
      ensures old(InData()) ==> (View(), status) == Write(old(View()), Word(v, n))
      ensures !old(InData()) ==> status == Room(old(Extents()), n).1
      ensures !old(InData()) && status != NoError ==> View() == old(View())
      ensures status == NoError ==> n <= pos
      ensures !old(InData()) && status == NoError ==>
        && Opens(old(Extents()), n, old(data[..]), View())
        && (View(), status) == Write(Opened(old(Extents()), n, View()), Word(v, n))
    {
      hide Store, Word;
      status := MakeRoom(n);
      if status != NoError {
        return;
      }
      ghost var before := Found();
      status := Place(Word(v, n));
      StoredLengths(before, Word(v, n));
      if old(InData()) {
        WriteStores(old(View()), before.capacity, Word(v, n));
      } else {
        OpenedIs(old(Extents()), n, old(data[..]), before, View());
        WriteStores(before, before.capacity, Word(v, n));
      }
    }

    /** The bytes at the position, where there is room. */
    method Place(s: seq<Byte>) returns (status: Status)
      requires Valid() && pos + |s| <= data.Length
      modifies this`pos, this`size, data
      ensures InData() && status == NoError && View() == Store(old(Found()), s)
    {
      hide Store;
      ghost var before, was := Found(), data[..];
      Copy(pos, s);
      StoredIn(before, s, was, data[..]);
      StoredLengths(before, s);
      status := FinishWrite(|s|);
    }

    /** `writeInplace`: room for n bytes, padded with zeros, and where it is. Whatever the caller then puts there is the
        payload. */
    method WriteInplace(n: nat) returns (at: Option<nat>)
      requires Valid() && (n <= INT32_MAX ==> Safe(Extents(), PadSize(n)))
      modifies this, data
      ensures Valid() && (data == old(data) || fresh(data)) && (at.Some? || old(InData()) ==> InData())
      ensures at.None? ==> View() == old(View())
      ensures at.Some? ==> at.value + n <= size && at.value == Room(old(Extents()), PadSize(n)).0.pos
      ensures old(InData()) && at.None? && (n > 0 || old(data.Length) > 0) ==>
        forall s: seq<Byte> :: |s| == n ==> Inplace(old(View()), s).1 != NoError
      ensures old(InData()) && at.Some? ==>
        forall s: seq<Byte> :: |s| == n ==> Inplace(old(View()), s) == (Filled(View(), at.value, s), NoError)
      ensures !old(InData()) ==> (at.Some? <==> n <= INT32_MAX && Room(old(Extents()), PadSize(n)).1 == NoError)
      ensures !old(InData()) && at.Some? ==>
        && Opens(old(Extents()), PadSize(n), old(data[..]), View())
        && forall s: seq<Byte> :: |s| == n ==>
          Inplace(Opened(old(Extents()), PadSize(n), View()), s) == (Filled(View(), at.value, s), NoError)
    {
      hide Store, Padded, ParcelSpec.GrowData;
      if n > INT32_MAX {
        return None;
      }
      var status := MakeRoom(PadSize(n));
      if status != NoError {
        return None;
      }
      ghost var before := Found();
      var start := TakeRoom(n);
      if old(InData()) {
        forall s: seq<Byte> | |s| == n
          ensures Inplace(old(View()), s) == (Store(before, Padded(s)), NoError)
        {
          InplaceStores(old(View()), before.capacity, s);
        }
      } else {
        OpenedIs(old(Extents()), PadSize(n), old(data[..]), before, View());
      }
      if data.Length == 0 {
        return None;
      }
      return Some(start);
    }

    method TakeRoom(n: nat) returns (start: nat)
      requires Valid() && pos + PadSize(n) <= data.Length
      modifies this`pos, this`size, data
      ensures InData() && start == old(pos) && start + n <= size && data.Length == old(data.Length)
      ensures forall s: seq<Byte> {:trigger Padded(s)} :: |s| == n ==> Filled(View(), start, s) == Store(old(Found()), Padded(s))
      ensures data[..start] == old(data[..pos])
      ensures n == 0 ==> View() == old(Found())
    {
      hide Store, Padded, PadSize, Filled;
      ghost var before, was := Found(), data[..];
      PadsUp(n);
      Pad(n);
      ghost var now := data[..];
      start := pos;
      assert now[..start] == was[..start] by { assert now[..start] == now[..start + n][..start]; }
      var _ := FinishWrite(PadSize(n));
      AnyPayload(before, n, was, now, View());
      if n == 0 {
        NoPayload(before, was, now);
      }
    }

    method WriteBytes(s: seq<Byte>) returns (status: Status)
      requires Valid() && (|s| <= INT32_MAX ==> Safe(Extents(), PadSize(|s|)))
      modifies this, data
      ensures Valid() && (data == old(data) || fresh(data)) && (old(InData()) ==> InData())
      ensures status == if |s| > INT32_MAX then BadValue else NoError
      ensures status != NoError ==> View() == old(View())
      ensures old(InData()) && status == NoError ==> View() == Inplace(old(View()), s).0
      ensures !old(InData()) && status == NoError ==>
        if Room(old(Extents()), PadSize(|s|)).1 != NoError then View() == old(View())
        else
          && Opens(old(Extents()), PadSize(|s|), old(data[..]), View())
          && View() == Inplace(Opened(old(Extents()), PadSize(|s|), View()), s).0
    {
      hide Inplace, PadSize, Room;
      if |s| > INT32_MAX {
        return BadValue;
      }
      var at := WriteInplace(|s|);
      if at.Some? {
        ghost var q := View();
        Fill(at.value, s);
        if !old(InData()) {
          StillOpened(old(Extents()), PadSize(|s|), old(data[..]), q, at.value, View());
        }
        return NoError;
      }
      if old(InData()) {
        InplaceFails(old(View()), s);
      }
      return NoError; // mError, which nobody has set
    }

    method WriteInt32(v: int) returns (status: Status)
      requires Valid() && Safe(Extents(), 4)
      modifies this, data
      ensures Valid() && (data == old(data) || fresh(data)) && (status == NoError || old(InData()) ==> InData())
      ensures status == NoError ==> 4 <= pos
      ensures old(InData()) ==> (View(), status) == WriteItem(old(View()), Int32(v))
      ensures !old(InData()) ==> WrittenBehind(old(Extents()), Int32(v), old(data[..]), View(), status)
    {
      status := WriteAligned(v, 4);
    }

    method WriteInt64(v: int) returns (status: Status)
      requires Valid() && Safe(Extents(), 8)
      modifies this, data
      ensures Valid() && (data == old(data) || fresh(data)) && (status == NoError || old(InData()) ==> InData())
      ensures old(InData()) ==> (View(), status) == WriteItem(old(View()), Int64(v))
      ensures !old(InData()) ==> WrittenBehind(old(Extents()), Int64(v), old(data[..]), View(), status)
    {
      status := WriteAligned(v, 8);
    }

    method WriteString8(s: seq<Byte>) returns (status: Status)
      requires Valid() && Safe(Extents(), 4)
      modifies this, data
      ensures Valid() && (data == old(data) || fresh(data)) && (status == NoError || old(InData()) ==> InData())
      ensures old(InData()) ==> (View(), status) == WriteItem(old(View()), Text8(s))
      ensures !old(InData()) ==> WrittenBehind(old(Extents()), Text8(s), old(data[..]), View(), status)
    {
      hide WrittenBehind, Inplace, WriteItem;
      ghost var e, was, p := Extents(), data[..], View();
      status := WriteInt32(|s|);
      ghost var q, first := View(), status;
      if |s| > 0 && status == NoError {
        status := WriteBytes(s + [0]);
      }
      Together(e, Text8(s), was, p, q, first, View(), status);
    }

    method WriteString16(u: seq<Unit>) returns (status: Status)
      requires Valid() && Safe(Extents(), 4)
      modifies this, data
      ensures Valid() && (data == old(data) || fresh(data)) && (status == NoError || old(InData()) ==> InData())
      ensures old(InData()) ==> (View(), status) == WriteItem(old(View()), Text16(u))
      ensures !old(InData()) ==> WrittenBehind(old(Extents()), Text16(u), old(data[..]), View(), status)
    {
      hide WrittenBehind, Inplace, WriteItem, Units;
      ghost var e, was, p := Extents(), data[..], View();
      status := WriteInt32(|u|);
      ghost var q, first := View(), status;
      if status == NoError {
        var at := WriteInplace(2 * |u| + 2);
        if at.Some? {
          Fill(at.value, Units(u) + [0, 0]);
        } else {
          InplaceFails(q, Units(u) + [0, 0]);
        }
      }
      Together(e, Text16(u), was, p, q, first, View(), status);
    }

    method WriteByteVector(s: seq<Byte>) returns (status: Status)
      requires Valid() && (|s| <= INT32_MAX ==> Safe(Extents(), 4))
      modifies this, data
      ensures Valid() && (data == old(data) || fresh(data)) && (status == NoError || old(InData()) ==> InData())
      ensures old(InData()) ==> (View(), status) == WriteItem(old(View()), Vector(s))
      ensures !old(InData()) ==> WrittenBehind(old(Extents()), Vector(s), old(data[..]), View(), status)
    {
      hide WrittenBehind, Inplace, WriteItem;
      ghost var e, was, p := Extents(), data[..], View();
      if |s| > INT32_MAX {
        TooLong(e, s, was, p);
        return BadValue;
      }
      status := WriteInt32(|s|);
      ghost var q, first := View(), status;
      if status == NoError {
        var at := WriteInplace(|s|);
        if at.Some? {
          Fill(at.value, s);
        } else {
          InplaceFails(q, s);
          status := BadValue;
        }
      }
      Together(e, Vector(s), was, p, q, first, View(), status);
    }

    // ----- reading -----

    method SetDataPosition(at: nat)
      requires at <= INT32_MAX
      modifies this`pos
      ensures pos == at
    {
      pos := at;
    }

    method GetWord(at: nat, n: nat) returns (v: nat)
      requires at + n <= data.Length
      ensures v == FromLittleEndian(data[at..at + n])
    {
      v := 0;
      for i := n downto 0
        invariant v == FromLittleEndian(data[at + i..at + n])
      {
        assert data[at + i..at + n][1..] == data[at + i + 1..at + n];
        v := data[at + i] + 256 * v;
      }
    }

    method GetUnits(at: nat, n: nat) returns (u: seq<Unit>)
      requires at + 2 * n <= data.Length
      ensures u == FromUnits(data[at..at + 2 * n])
    {
      u := [];
      Widths();
      for i := n downto 0
        invariant u == FromUnits(data[at + 2 * i..at + 2 * n])
      {
        var v := GetWord(at + 2 * i, 2);
        ghost var s := data[at + 2 * i..at + 2 * n];
        assert s[..2] == data[at + 2 * i..at + 2 * i + 2] && s[2..] == data[at + 2 * (i + 1)..at + 2 * n];
        FromLittleEndianBound(s[..2]);
        u := [v] + u;
      }
    }

    method ReadAligned(n: nat) returns (v: int, status: Status)
      requires Valid()
      modifies this`pos
      ensures Got(v, pos, status) == ParcelSpec.ReadAligned(data[..size], old(pos), n)
    {
      if pos + n > size {
        return 0, NotEnoughData;
      }
      assert data[..size][pos..pos + n] == data[pos..pos + n];
      var u := GetWord(pos, n);
      v := if u < Power256(n) / 2 then u else u - Power256(n);
      pos := pos + n;
      return v, NoError;
    }

    /** A pointer to the payload, or None. */
    method ReadInplace(n: nat) returns (at: Option<nat>)
      requires Valid()
      modifies this`pos
      ensures var (s, end) := ParcelSpec.ReadInplace(data[..size], old(pos), n); pos == end && (s.Some? <==> at.Some?)
      ensures at.Some? ==> at.value + n <= size
      ensures at.Some? ==> ParcelSpec.ReadInplace(data[..size], old(pos), n).0.value == data[at.value..at.value + n]
    {
      if n > INT32_MAX || pos + PadSize(n) > size {
        return None;
      }
      at := Some(pos);
      assert data[..size][pos..pos + n] == data[pos..pos + n];
      pos := pos + PadSize(n);
    }

    method ReadInt32() returns (v: int, status: Status)
      requires Valid()
      modifies this`pos
      ensures Got(v, pos, status) == ParcelSpec.ReadAligned(data[..size], old(pos), 4)
    {
      v, status := ReadAligned(4);
    }

    method ReadInt64() returns (v: int, status: Status)
      requires Valid()
      modifies this`pos
      ensures Got(v, pos, status) == ParcelSpec.ReadAligned(data[..size], old(pos), 8)
    {
      v, status := ReadAligned(8);
    }

    method ReadString8() returns (s: seq<Byte>)
      requires Valid()
      modifies this`pos
      ensures Got(s, pos, NoError) == ReadText8(data[..size], old(pos))
    {
      var n, _ := ReadInt32();
      if 0 < n < INT32_MAX {
        var at := ReadInplace(n + 1);
        if at.Some? {
          assert data[at.value..at.value + n + 1][..n] == data[at.value..at.value + n];
          return data[at.value..at.value + n];
        }
      }
      return [];
    }

    method ReadString16() returns (u: seq<Unit>, status: Status)
      requires Valid()
      modifies this`pos
      ensures Got(u, pos, status) == ReadText16(data[..size], old(pos))
    {
      var n, _ := ReadInt32();
      if 0 <= n < INT32_MAX {
        var at := ReadInplace((n + 1) * 2);
        if at.Some? {
          assert data[at.value..at.value + (n + 1) * 2][..2 * n] == data[at.value..at.value + 2 * n];
          u := GetUnits(at.value, n);
          return u, NoError;
        }
      }
      return [], UnexpectedNull;
    }

    method ReadByteVector() returns (s: seq<Byte>, status: Status)
      requires Valid()
      modifies this`pos
      ensures Got(s, pos, status) == ReadVector(data[..size], old(pos))
    {
      var n;
      n, status := ReadInt32();
      if status != NoError {
        return [], status;
      }
      if n < 0 {
        return [], UnexpectedNull;
      }
      if n > size - pos { // dataAvail()
        return [], BadValue;
      }
      var at := ReadInplace(n);
      if at.None? {
        return [], BadValue;
      }
      return data[at.value..at.value + n], NoError;
    }
  }

  /** The parcel that a write of n bytes found behind the data, seen from what it left. */
  function Opened(e: Extent, n: nat, view: Parcel): Parcel {
    var (g, _) := Room(e, n);
    Parcel(if g.pos <= |view.bytes| then view.bytes[..g.pos] else [], g.pos, g.capacity)
  }

  /** It ends at the position, and before that nothing in the buffer has changed. */
  ghost predicate Opens(e: Extent, n: nat, was: seq<Byte>, view: Parcel) {
    && AtEnd(Opened(e, n, view))
    && forall i :: 0 <= i < Room(e, n).0.pos && i < |was| ==> Opened(e, n, view).bytes[i] == was[i]
  }

  /** An item written behind the data: nothing changes when there is no room, and else the item follows on what the
      buffer held up to the position. */
  ghost predicate WrittenBehind(e: Extent, item: Item, was: seq<Byte>, view: Parcel, status: Status)
    requires e.size <= |was|
  {
    var n := Sizes(item)[0];
    if item.Vector? && |item.s| > INT32_MAX then status == BadValue && view == Parcel(was[..e.size], e.pos, |was|)
    else if Room(e, n).1 != NoError then status == Room(e, n).1 && view == Parcel(was[..e.size], e.pos, |was|)
    else Opens(e, n, was, view) && (view, status) == WriteItem(Opened(e, n, view), item)
  }

  function Count(item: Item): nat {
    match item
    case Int32(_) | Int64(_) => 0
    case Text8(s) => |s|
    case Text16(u) => |u|
    case Vector(s) => |s|
  }

  /** What follows the count of a string or a vector. */
  function Rest(item: Item, q: Parcel, first: Status): (Parcel, Status)
    requires Ok(q)
  {
    if first != NoError then (q, first) else
      match item
      case Int32(_) | Int64(_) => (q, first)
      case Text8(s) =>
        if s == [] then (q, first) else if |s| + 1 > INT32_MAX then (q, BadValue) else (Inplace(q, s + [0]).0, NoError)
      case Text16(u) => (Inplace(q, Units(u) + [0, 0]).0, NoError)
      case Vector(s) => (Inplace(q, s).0, if Inplace(q, s).1 == NoError then NoError else BadValue)
  }

  lemma {:induction false} RestOfItem(p: Parcel, item: Item)
    requires Ok(p) && !item.Int32? && !item.Int64? && (item.Vector? ==> |item.s| <= INT32_MAX)
    ensures var (q, first) := WriteItem(p, Int32(Count(item))); Ok(q) && WriteItem(p, item) == Rest(item, q, first)
  {
    hide Inplace, Write;
    WriteKeepsOk(p, Word(Count(item), 4));
  }

  lemma {:induction false} InplaceFront(q: Parcel, s: seq<Byte>)
    requires Ok(q)
    ensures var r := Inplace(q, s).0; q.pos <= |r.bytes| && r.bytes[..q.pos] == q.bytes[..q.pos]
  {
  }

  lemma {:induction false} RestFront(item: Item, q: Parcel, first: Status)
    requires Ok(q)
    ensures var r := Rest(item, q, first).0; q.pos <= |r.bytes| && r.bytes[..q.pos] == q.bytes[..q.pos]
  {
    hide Inplace;
    match item
    case Int32(_) | Int64(_) =>
    case Text8(s) => InplaceFront(q, s + [0]);
    case Text16(u) => InplaceFront(q, Units(u) + [0, 0]);
    case Vector(s) => InplaceFront(q, s);
  }

  /** A count and what follows it are an item, within the data and behind it. */
  lemma {:induction false} Together(e: Extent, item: Item, was: seq<Byte>, p: Parcel, q: Parcel, first: Status, r: Parcel,
      status: Status)
    requires !item.Int32? && !item.Int64? && (item.Vector? ==> |item.s| <= INT32_MAX)
    requires e.size <= |was| && p == Parcel(was[..e.size], e.pos, |was|)
    requires e.pos <= e.size ==> Ok(p) && (q, first) == WriteItem(p, Int32(Count(item)))
    requires e.pos > e.size ==> WrittenBehind(e, Int32(Count(item)), was, q, first)
    requires first == NoError ==> Ok(q) && (r, status) == Rest(item, q, first)
    requires first != NoError ==> (r, status) == (q, first)
    ensures e.pos <= e.size ==> (r, status) == WriteItem(p, item)
    ensures e.pos > e.size ==> WrittenBehind(e, item, was, r, status)
  {
    hide Write, Inplace;
    if e.pos <= e.size {
      RestOfItem(p, item);
    } else if Room(e, 4).1 == NoError {
      var o := Opened(e, 4, q);
      RestOfItem(o, item);
      WriteFront(o, Word(Count(item), 4));
      RestFront(item, q, first);
      StillOpened(e, 4, was, q, o.pos, r);
    }
  }

  lemma {:induction false} WriteFront(p: Parcel, s: seq<Byte>)
    requires Ok(p)
    ensures p.pos <= Write(p, s).0.pos <= |Write(p, s).0.bytes|
  {
  }

  lemma {:induction false} TooLong(e: Extent, s: seq<Byte>, was: seq<Byte>, p: Parcel)
    requires |s| > INT32_MAX && e.size <= |was| && p == Parcel(was[..e.size], e.pos, |was|)
    ensures Ok(p) ==> WriteItem(p, Vector(s)) == (p, BadValue)
    ensures WrittenBehind(e, Vector(s), was, p, BadValue)
  {
  }

  lemma {:induction false} RoomInData(e: Extent, n: nat)
    requires e.size <= e.capacity && Room(e, n).1 == NoError
    ensures e.pos <= e.size ==> Room(e, n).0 == e.(capacity := Room(e, n).0.capacity) && e.pos + n <= Room(e, n).0.capacity
    ensures e.pos > e.size ==> Room(e, n).0.size <= Room(e, n).0.pos && Room(e, n).0.capacity > 0
  {
    if e.pos + n > e.capacity && e.pos <= e.size {
      GrowthLeavesRoom(e, n);
    }
  }

  lemma {:induction false} OpenedIs(e: Extent, n: nat, was: seq<Byte>, before: Parcel, view: Parcel)
    requires var (g, _) := Room(e, n); before.pos == g.pos == |before.bytes| && before.capacity == g.capacity <= INT32_MAX
    requires before.pos <= |view.bytes| && view.bytes[..before.pos] == before.bytes && before.pos <= before.capacity
    requires forall i :: 0 <= i < before.pos && i < |was| ==> before.bytes[i] == was[i]
    ensures Opened(e, n, view) == before && Opens(e, n, was, view)
  {
    hide Room;
  }

  /** What follows behind the position does not matter. */
  lemma {:induction false} StillOpened(e: Extent, n: nat, was: seq<Byte>, q: Parcel, at: nat, r: Parcel)
    requires Opens(e, n, was, q) && Room(e, n).0.pos <= at <= |q.bytes| && at <= |r.bytes| && q.bytes[..at] == r.bytes[..at]
    ensures Opened(e, n, r) == Opened(e, n, q) && Opens(e, n, was, r)
  {
    hide Room;
  }

  /** s in place of what lies at `at`. */
  function Filled(p: Parcel, at: nat, s: seq<Byte>): Parcel
    requires at + |s| <= |p.bytes|
  {
    p.(bytes := p.bytes[..at] + s + p.bytes[at + |s|..])
  }

  lemma {:induction false} PatchedIn(was: seq<Byte>, now: seq<Byte>, at: nat, s: seq<Byte>, size: nat)
    requires at + |s| <= size <= |was| == |now|
    requires now[..at] == was[..at] && now[at..at + |s|] == s && now[at + |s|..] == was[at + |s|..]
    ensures now[..size] == was[..size][..at] + s + was[..size][at + |s|..]
  {
    assert now[..size] == now[..at] + now[at..at + |s|] + now[at + |s|..][..size - at - |s|];
  }

  lemma {:induction false} ThreeParts(a: seq<Byte>, m: seq<Byte>, z: seq<Byte>)
    ensures var s := a + m + z; s[..|a|] == a && s[|a|..|a| + |m|] == m && s[|a| + |m|..] == z
  {
  }

  /** Bytes put at the position, in the buffer and in its data. */
  lemma {:induction false} StoredIn(before: Parcel, s: seq<Byte>, was: seq<Byte>, now: seq<Byte>)
    requires before.pos <= |before.bytes| <= |was| == |now| && before.pos + |s| <= |was| && before.bytes == was[..|before.bytes|]
    requires var at := before.pos; now[..at] == was[..at] && now[at..at + |s|] == s && now[at + |s|..] == was[at + |s|..]
    ensures |Store(before, s).bytes| <= |now| && now[..|Store(before, s).bytes|] == Store(before, s).bytes
  {
    var end := before.pos + |s|;
    if end <= |before.bytes| {
      PatchedIn(was, now, before.pos, s, |before.bytes|);
    } else {
      PatchedIn(was, now, before.pos, s, end);
    }
  }

  lemma {:induction false} StoredLengths(before: Parcel, s: seq<Byte>)
    requires before.pos <= |before.bytes|
    ensures var after, end := Store(before, s), before.pos + |s|;
      && after.pos == end && after.capacity == before.capacity
      && |after.bytes| == (if end > |before.bytes| then end else |before.bytes|)
      && after.bytes[..before.pos] == before.bytes[..before.pos]
  {
  }

  lemma {:induction false} InplaceFails(p: Parcel, s: seq<Byte>)
    requires Ok(p)
    ensures Inplace(p, s).1 != NoError ==> Inplace(p, s).0 == p
    ensures p.capacity == 0 && s == [] ==> Inplace(p, s) == (p, NoError)
  {
  }

  /** Zeros behind the place of a payload, and then any payload there. */
  lemma {:induction false} PaddedIn(before: Parcel, s: seq<Byte>, was: seq<Byte>, now: seq<Byte>)
    requires before.pos <= |before.bytes| <= |was| == |now| && before.pos + PadSize(|s|) <= |was| && before.bytes == was[..|before.bytes|]
    requires var at, mid, end := before.pos, before.pos + |s|, before.pos + PadSize(|s|);
      now[..mid] == was[..mid] && now[mid..end] == Zeros(PadSize(|s|) - |s|) && now[end..] == was[end..]
    ensures var size := |Store(before, Padded(s)).bytes|;
      && before.pos + |s| <= size <= |now|
      && now[..size][..before.pos] + s + now[..size][before.pos + |s|..] == Store(before, Padded(s)).bytes
  {
    var at, mid, end := before.pos, before.pos + |s|, before.pos + PadSize(|s|);
    var full := now[..at] + s + now[mid..];
    assert now[mid..] == now[mid..end] + now[end..];
    assert now[..at] + s + (now[mid..end] + now[end..]) == now[..at] + (s + now[mid..end]) + now[end..];
    ThreeParts(now[..at], Padded(s), now[end..]);
    ThreeParts(now[..at], s, now[mid..]);
    assert full[..at] == now[..mid][..at] == was[..mid][..at] == was[..at];
    StoredIn(before, Padded(s), was, full);
    PatchedIn(now, full, at, s, |Store(before, Padded(s)).bytes|);
  }

  /** Whatever is put where there is room for n bytes. */
  lemma {:induction false} AnyPayload(before: Parcel, n: nat, was: seq<Byte>, now: seq<Byte>, view: Parcel)
    requires before.pos <= |before.bytes| <= |was| == |now| && before.pos + PadSize(n) <= |was| && before.bytes == was[..|before.bytes|]
    requires var mid, end := before.pos + n, before.pos + PadSize(n);
      now[..mid] == was[..mid] && now[mid..end] == Zeros(PadSize(n) - n) && now[end..] == was[end..]
    requires var end := before.pos + PadSize(n);
      view == Parcel(now[..if end > |before.bytes| then end else |before.bytes|], end, before.capacity)
    ensures before.pos + n <= |view.bytes|
    ensures forall s: seq<Byte> {:trigger Padded(s)} :: |s| == n ==> Filled(view, before.pos, s) == Store(before, Padded(s))
  {
    hide Store, Padded, PadSize;
    PadsUp(n);
    forall s: seq<Byte> {:trigger Padded(s)} | |s| == n
      ensures Filled(view, before.pos, s) == Store(before, Padded(s))
    {
      Lengths(before, s);
      PaddedIn(before, s, was, now);
    }
  }

  lemma PadsUp(n: nat)
    ensures n <= PadSize(n)
  {
  }

  lemma {:induction false} Lengths(before: Parcel, s: seq<Byte>)
    requires before.pos <= |before.bytes|
    ensures var after, end := Store(before, Padded(s)), before.pos + PadSize(|s|);
      && after.pos == end && after.capacity == before.capacity
      && |after.bytes| == if end > |before.bytes| then end else |before.bytes|
  {
  }

  lemma {:induction false} NoPayload(before: Parcel, was: seq<Byte>, now: seq<Byte>)
    requires before.pos <= |before.bytes| <= |was| == |now| && before.bytes == was[..|before.bytes|]
    requires now[..before.pos] == was[..before.pos] && now[before.pos + PadSize(0)..] == was[before.pos + PadSize(0)..]
    ensures PadSize(0) == 0 && now == was
  {
    assert now == now[..before.pos] + now[before.pos..] && was == was[..before.pos] + was[before.pos..];
  }

  lemma {:induction false} InplaceStores(p: Parcel, capacity: nat, s: seq<Byte>)
    requires Ok(p) && |s| <= INT32_MAX
    requires p.pos + PadSize(|s|) <= p.capacity ==> capacity == p.capacity
    requires p.pos + PadSize(|s|) > p.capacity ==>
      var (e, status) := GrowData(Extent(|p.bytes|, p.pos, p.capacity), PadSize(|s|));
      status == NoError && capacity == e.capacity
    ensures Inplace(p, s) == (Store(p.(capacity := capacity), Padded(s)), NoError)
  {
  }

  lemma {:induction false} WriteStores(p: Parcel, capacity: nat, s: seq<Byte>)
    requires Ok(p)
    requires var (e, status) := Room(Extent(|p.bytes|, p.pos, p.capacity), |s|); status == NoError && capacity == e.capacity
    ensures Write(p, s) == (Store(p.(capacity := capacity), s), NoError)
  {
    hide GrowData;
  }
}
