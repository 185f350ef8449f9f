/** A parcel that owns its buffer and holds no objects (Parcel.cpp), on values. */
module ParcelSpec {
  import opened Bytes
  import opened Options

  const INT32_MAX: nat := 0x7fff_ffff

  datatype Status = NoError | BadValue | NoMemory | NotEnoughData | UnexpectedNull | BadType

  /** `bytes` is the first `mDataSize` bytes of the buffer. What lies between there and the capacity is not data. */
  datatype Parcel = Parcel(bytes: seq<Byte>, pos: nat, capacity: nat)

  const EMPTY := Parcel([], 0, 0)

  ghost predicate Ok(p: Parcel) {
    p.pos <= |p.bytes| <= p.capacity <= INT32_MAX
  }

  // ----- growing -----

  /** `mDataSize`, `mDataPos` and `mDataCapacity`. A capacity of zero stands for a buffer that was never allocated. */
  datatype Extent = Extent(size: nat, pos: nat, capacity: nat)

  function Min(a: nat, b: nat): nat {
    if a <= b then a else b
  }

  function ContinueWrite(e: Extent, desired: nat): (Extent, Status) {
    if desired > INT32_MAX then (e, BadValue)
    else if e.capacity == 0 then (Extent(0, 0, desired), NoError)
    else if desired > e.capacity then (e.(capacity := desired), NoError)
    else (e.(size := Min(e.size, desired), pos := Min(e.pos, desired)), NoError)
  }

  function Grown(size: nat, n: nat): nat {
    (size + n) * 3 / 2
  }

  function GrowData(e: Extent, n: nat): (Extent, Status) {
    if n > INT32_MAX then (e, BadValue)
    else if Grown(e.size, n) <= e.size then (e, NoMemory)
    else ContinueWrite(e, Grown(e.size, n))
  }

  /** The check that precedes every write of n bytes, with the growth when there is no room. */
  function Room(e: Extent, n: nat): (Extent, Status) {
    if e.pos + n <= e.capacity then (e, NoError) else GrowData(e, n)
  }

  /** A write of n bytes stays inside the buffer. Nothing checks it again after a growth. */
  predicate Safe(e: Extent, n: nat) {
    e.pos <= e.size || (Room(e, n).1 == NoError ==> Room(e, n).0.pos + n <= Room(e, n).0.capacity)
  }

  // ----- writing -----

  function PadSize(n: nat): nat {
    (n + 3) / 4 * 4
  }

  function Zeros(n: nat): (s: seq<Byte>)
    ensures |s| == n
  {
    seq(n, i => 0)
  }

  function Padded(s: seq<Byte>): (r: seq<Byte>)
    ensures |r| == PadSize(|s|)
  {
    s + Zeros(PadSize(|s|) - |s|)
  }

  /** The bytes land at the position, over data or behind it, and `finishWrite` moves on. */
  function Store(p: Parcel, s: seq<Byte>): Parcel
    requires p.pos <= |p.bytes|
  {
    var rest := if p.pos + |s| <= |p.bytes| then p.bytes[p.pos + |s|..] else [];
    p.(bytes := p.bytes[..p.pos] + s + rest, pos := p.pos + |s|)
  }

  /** `writeAligned`. `writeInplace` is the same on what has been padded. */
  function Write(p: Parcel, s: seq<Byte>): (Parcel, Status)
    requires Ok(p)
  {
    if p.pos + |s| <= p.capacity then (Store(p, s), NoError)
    else
      var (e, status) := GrowData(Extent(|p.bytes|, p.pos, p.capacity), |s|);
      if status != NoError then (p, status) else (Store(p.(capacity := e.capacity), s), NoError)
  }

  function Inplace(p: Parcel, s: seq<Byte>): (Parcel, Status)
    requires Ok(p)
  {
    if |s| > INT32_MAX then (p, BadValue) else Write(p, Padded(s))
  }

  /** The two's complement of v in n bytes. */
  function Word(v: int, n: nat): (s: seq<Byte>)
    ensures |s| == n
  {
    LittleEndian(v % Power256(n), n)
  }

  function Signed(s: seq<Byte>): int {
    var v := FromLittleEndian(s);
    if v < Power256(|s|) / 2 then v else v - Power256(|s|)
  }

  function Units(u: seq<Unit>): (s: seq<Byte>)
    ensures |s| == 2 * |u|
  {
    if u == [] then [] else LittleEndian(u[0], 2) + Units(u[1..])
  }

  function FromUnits(s: seq<Byte>): (u: seq<Unit>)
    ensures |u| == |s| / 2
  {
    if |s| < 2 then [] else
      FromLittleEndianBound(s[..2]);
      Widths();
      [FromLittleEndian(s[..2])] + FromUnits(s[2..])
  }

  /** What a program can write: an `int32_t`, an `int64_t`, a String8, a String16 or a vector of bytes. */
  datatype Item = Int32(v: int) | Int64(v: int) | Text8(s: seq<Byte>) | Text16(u: seq<Unit>) | Vector(s: seq<Byte>)

  /** The string writers return `mError` when `writeInplace` gives them nothing, and nothing has set it. */
  function WriteItem(p: Parcel, item: Item): (Parcel, Status)
    requires Ok(p)
  {
    match item
    case Int32(v) => Write(p, Word(v, 4))
    case Int64(v) => Write(p, Word(v, 8))
    case Text8(s) =>
      WriteKeepsOk(p, Word(|s|, 4));
      var (q, status) := Write(p, Word(|s|, 4));
      if status != NoError || s == [] then (q, status)
      else if |s| + 1 > INT32_MAX then (q, BadValue)
      else (Inplace(q, s + [0]).0, NoError)
    case Text16(u) =>
      WriteKeepsOk(p, Word(|u|, 4));
      var (q, status) := Write(p, Word(|u|, 4));
      if status != NoError then (q, status) else (Inplace(q, Units(u) + [0, 0]).0, NoError)
    case Vector(s) =>
      WriteKeepsOk(p, Word(|s|, 4));
      if |s| > INT32_MAX then (p, BadValue)
      else
        var (q, status) := Write(p, Word(|s|, 4));
        if status != NoError then (q, status)
        else
          var (r, placed) := Inplace(q, s);
          (r, if placed == NoError then NoError else BadValue)
  }

  /** The writer stops at the first status that is not NO_ERROR. */
  function WriteAll(p: Parcel, items: seq<Item>): (Parcel, Status)
    requires Ok(p)
    decreases |items|
  {
    if items == [] then (p, NoError)
    else
      ItemKeepsOk(p, items[0]);
      var (q, status) := WriteItem(p, items[0]);
      if status != NoError then (q, status) else WriteAll(q, items[1..])
  }

  lemma {:induction false} WriteKeepsOk(p: Parcel, s: seq<Byte>)
    requires Ok(p)
    ensures Ok(Write(p, s).0)
  {
  }

  lemma {:induction false} ItemKeepsOk(p: Parcel, item: Item)
    requires Ok(p)
    ensures Ok(WriteItem(p, item).0)
  {
    hide Write;
    match item
    case Int32(v) => WriteKeepsOk(p, Word(v, 4));
    case Int64(v) => WriteKeepsOk(p, Word(v, 8));
    case Text8(s) =>
      WriteKeepsOk(p, Word(|s|, 4));
      WriteKeepsOk(Write(p, Word(|s|, 4)).0, Padded(s + [0]));
    case Text16(u) =>
      WriteKeepsOk(p, Word(|u|, 4));
      WriteKeepsOk(Write(p, Word(|u|, 4)).0, Padded(Units(u) + [0, 0]));
    case Vector(s) =>
      WriteKeepsOk(p, Word(|s|, 4));
      WriteKeepsOk(Write(p, Word(|s|, 4)).0, Padded(s));
  }

  // ----- reading -----

  /** A value, the position after it and a status. */
  datatype Got<T> = Got(value: T, pos: nat, status: Status)

  /** `readAligned`; the form that returns the value gives 0 for what is not there. */
  function ReadAligned(bytes: seq<Byte>, pos: nat, n: nat): (g: Got<int>)
    ensures pos <= g.pos && (pos <= |bytes| ==> g.pos <= |bytes|) && (g.status == NoError ==> g.pos == pos + n)
  {
    if pos + n <= |bytes| then Got(Signed(bytes[pos..pos + n]), pos + n, NoError) else Got(0, pos, NotEnoughData)
  }

  function ReadInplace(bytes: seq<Byte>, pos: nat, n: nat): (r: (Option<seq<Byte>>, nat))
    ensures r.0.Some? ==> |r.0.value| == n
  {
    if n > INT32_MAX || pos + PadSize(n) > |bytes| then (None, pos)
    else (Some(bytes[pos..pos + n]), pos + PadSize(n))
  }

  function ReadText8(bytes: seq<Byte>, pos: nat): Got<seq<Byte>> {
    var n := ReadAligned(bytes, pos, 4);
    if 0 < n.value < INT32_MAX then
      var (s, end) := ReadInplace(bytes, n.pos, n.value + 1);
      if s.Some? then Got(s.value[..n.value], end, NoError) else Got([], end, NoError)
    else Got([], n.pos, NoError)
  }

  function ReadText16(bytes: seq<Byte>, pos: nat): (g: Got<seq<Unit>>)
    ensures pos <= g.pos && (pos <= |bytes| ==> g.pos <= |bytes|) && (g.status == NoError ==> pos < g.pos)
  {
    var n := ReadAligned(bytes, pos, 4);
    if 0 <= n.value < INT32_MAX then
      var (s, end) := ReadInplace(bytes, n.pos, (n.value + 1) * 2);
      if s.Some? then Got(FromUnits(s.value[..2 * n.value]), end, NoError) else Got([], end, UnexpectedNull)
    else Got([], n.pos, UnexpectedNull)
  }

  function ReadVector(bytes: seq<Byte>, pos: nat): Got<seq<Byte>> {
    var n := ReadAligned(bytes, pos, 4);
    if n.status != NoError then Got([], n.pos, n.status)
    else if n.value < 0 then Got([], n.pos, UnexpectedNull)
    else if n.pos + n.value > |bytes| then Got([], n.pos, BadValue)
    else
      var (s, end) := ReadInplace(bytes, n.pos, n.value);
      if s.Some? then Got(s.value, end, NoError) else Got([], end, BadValue)
  }

  /** The reader that belongs to the writer of an item. */
  function ReadItem(bytes: seq<Byte>, pos: nat, like: Item): Got<Item> {
    match like
    case Int32(_) => var g := ReadAligned(bytes, pos, 4); Got(Int32(g.value), g.pos, g.status)
    case Int64(_) => var g := ReadAligned(bytes, pos, 8); Got(Int64(g.value), g.pos, g.status)
    case Text8(_) => var g := ReadText8(bytes, pos); Got(Text8(g.value), g.pos, g.status)
    case Text16(_) => var g := ReadText16(bytes, pos); Got(Text16(g.value), g.pos, g.status)
    case Vector(_) => var g := ReadVector(bytes, pos); Got(Vector(g.value), g.pos, g.status)
  }
}
