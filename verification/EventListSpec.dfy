/** The binary event list of log_event_list.c on values: one context for writing and for reading. */
module EventListSpec {
  import opened Bytes

  const MAX_PAYLOAD: nat := 4064  // LOGGER_ENTRY_MAX_PAYLOAD - sizeof(int32_t)
  const STORAGE_SIZE: nat := 4068 // LOGGER_ENTRY_MAX_PAYLOAD
  const MAX_NEST: nat := 8        // ANDROID_MAX_LIST_NEST_DEPTH

  const TYPE_INT: Byte := 0
  const TYPE_LONG: Byte := 1
  const TYPE_STRING: Byte := 2
  const TYPE_LIST: Byte := 3
  const TYPE_FLOAT: Byte := 4
  const TYPE_LIST_STOP: Byte := 10
  const TYPE_UNKNOWN: Byte := 63

  const EIO: int := 5
  const EBADF: int := 9
  const EINVAL: int := 22
  const EOVERFLOW: int := 75

  /** The fields of android_log_context_internal. `count` is the number of elements per open list, `list` the position
      of each open list's counter byte. */
  datatype Context = Context(
    writing: bool, pos: nat, count: seq<nat>, list: seq<nat>, depth: nat, len: nat, overflow: bool, stop: bool, storage: seq<Byte>)

  /** Only a context that has overflowed can be nested one level too deep. */
  ghost predicate Ok(c: Context) {
    && |c.count| == |c.list| == MAX_NEST + 1 && |c.storage| == STORAGE_SIZE
    && c.depth <= MAX_NEST + 1
    && (c.writing && c.depth > MAX_NEST ==> c.overflow)
    && (forall i :: 0 <= i < |c.list| ==> c.list[i] < STORAGE_SIZE)
    && (!c.writing ==> c.len <= MAX_PAYLOAD && c.pos <= c.len && forall i :: c.len <= i < STORAGE_SIZE ==> c.storage[i] == 0)
  }

  // ----- bytes -----

  function Put(storage: seq<Byte>, at: nat, bytes: seq<Byte>): (r: seq<Byte>)
    requires at + |bytes| <= |storage|
    ensures |r| == |storage|
  {
    storage[..at] + bytes + storage[at + |bytes|..]
  }

  // ----- writing -----

  /** `create_android_logger`: everything is a list. */
  function NewWriter(): Context {
    var zeros := seq(MAX_NEST + 1, i => 0);
    Context(true, 2, zeros, zeros[0 := 1], 0, 0, false, false, Put(seq(STORAGE_SIZE, i => 0), 0, [TYPE_LIST]))
  }

  /** `android_log_write_list_begin`. */
  function Begin(c: Context): (r: (Context, int))
    requires Ok(c)
  {
    if !c.writing then (c, -EBADF)
    else if c.depth > MAX_NEST then (c.(overflow := true), -EOVERFLOW)
    else if c.pos + 2 > MAX_PAYLOAD then (c.(overflow := true), -EIO)
    else
      var c1 := c.(count := c.count[c.depth := c.count[c.depth] + 1], depth := c.depth + 1);
      if c1.depth > MAX_NEST then (c1.(overflow := true), -EOVERFLOW)
      else if c1.overflow then (c1, -EIO)
      else
        (c1.(storage := Put(c1.storage, c1.pos, [TYPE_LIST, 0]),
             list := c1.list[c1.depth := c1.pos + 1],
             count := c1.count[c1.depth := 0],
             pos := c1.pos + 2), 0)
  }

  /** `android_log_write_int32`, `_int64` and `_float32`: a type byte and a fixed number of bytes. */
  function Scalar(c: Context, kind: Byte, bytes: seq<Byte>): (r: (Context, int))
    requires Ok(c)
  {
    if !c.writing then (c, -EBADF)
    else if c.overflow then (c, -EIO)
    else if c.pos + 1 + |bytes| > MAX_PAYLOAD then (c.(overflow := true), -EIO)
    else
      (c.(count := c.count[c.depth := c.count[c.depth] + 1],
          storage := Put(c.storage, c.pos, [kind] + bytes),
          pos := c.pos + 1 + |bytes|), 0)
  }

  /** `android_log_write_string8_len` with the string cut at its terminator. What does not fit is left away, but the
      position advances as if it had been written. */
  function Text(c: Context, s: seq<Byte>): (r: (Context, int))
    requires Ok(c)
  {
    if !c.writing then (c, -EBADF)
    else if c.overflow then (c, -EIO)
    else
      var fits := c.pos + 5 + |s| <= MAX_PAYLOAD;
      var len: int := if fits then |s| else MAX_PAYLOAD - c.pos - 5;
      if !fits && len <= 0 then (c.(overflow := true), -EIO)
      else
        (c.(count := c.count[c.depth := c.count[c.depth] + 1],
            storage := Put(c.storage, c.pos, [TYPE_STRING] + LittleEndian(len, 4) + s[..len]),
            pos := c.pos + 5 + |s|), len)
  }

  /** `android_log_write_list_end`. The counter is one byte. */
  function End(c: Context): (r: (Context, int))
    requires Ok(c)
  {
    if !c.writing then (c, -EBADF)
    else if c.depth > MAX_NEST then (c.(overflow := true, depth := c.depth - 1), -EOVERFLOW)
    else if c.depth == 0 then (c.(overflow := true), -EOVERFLOW)
    else if c.list[c.depth] == 0 then (c.(depth := c.depth - 1, overflow := true), -EOVERFLOW)
    else (c.(storage := c.storage[c.list[c.depth] := c.count[c.depth] % 256], depth := c.depth - 1), 0)
  }

  /** `android_log_write_list`: the message that is sent. A list of at most one element is sent without its header. */
  function Message(c: Context): seq<Byte>
    requires Ok(c) && c.writing && c.depth == 0 && 2 <= c.pos <= STORAGE_SIZE
  {
    var storage := c.storage[1 := c.count[0] % 256];
    if c.count[0] <= 1 then storage[2..c.pos] else storage[..c.pos]
  }

  // ----- reading -----

  datatype Data = Nothing | Number(n: nat) | Chars(s: seq<Byte>)

  datatype Element = Element(kind: Byte, data: Data, complete: bool)

  /** `create_android_log_parser`. */
  function NewReader(msg: seq<Byte>): Context {
    var zeros := seq(MAX_NEST + 1, i => 0);
    var len := if |msg| <= MAX_PAYLOAD then |msg| else MAX_PAYLOAD;
    Context(false, 0, zeros, zeros, 0, len, false, false, Put(seq(STORAGE_SIZE, i => 0), 0, msg[..len]))
  }

  /** One element of the current list has been read; when it was the last one a stop is due. */
  function Counted(c: Context, pos: nat): Context
    requires Ok(c) && c.depth <= MAX_NEST
  {
    var left := if c.count[c.depth] == 0 then 0 else c.count[c.depth] - 1;
    c.(count := c.count[c.depth := left], stop := left == 0, pos := pos)
  }

  /** `android_log_read_next`. */
  function Next(c: Context): (r: (Context, Element))
    requires Ok(c)
  {
    if c.writing || c.depth > MAX_NEST || c.count[c.depth] >= MAX_PAYLOAD / 2 then
      var stop := c.stop || (c.depth <= MAX_NEST && c.count[c.depth] == 0);
      (c, Element(if stop then TYPE_LIST_STOP else TYPE_UNKNOWN, Nothing, true))
    else if c.stop then
      var complete := c.count[0] == 0 && (c.depth == 0 || (c.depth == 1 && c.count[1] == 0));
      var pos := if c.storage[c.pos] == TYPE_LIST_STOP then c.pos + 1 else c.pos;
      var depth := if c.depth > 0 then c.depth - 1 else 0;
      var stop := c.depth > 0 && c.count[depth] == 0;
      (c.(pos := pos, depth := depth, stop := stop), Element(TYPE_LIST_STOP, Nothing, complete))
    else if c.pos + 1 > c.len then (c, Element(TYPE_UNKNOWN, Nothing, true))
    else
      var kind := c.storage[c.pos];
      var pos := c.pos + 1;
      var complete := c.depth == 0 && c.count[0] == 0;
      if kind == TYPE_INT || kind == TYPE_FLOAT || kind == TYPE_LONG then
        var size := if kind == TYPE_LONG then 8 else 4;
        if pos + size > c.len then (c, Element(TYPE_UNKNOWN, Nothing, false))
        else (Counted(c, pos + size), Element(kind, Number(FromLittleEndian(c.storage[pos..pos + size])), complete))
      else if kind == TYPE_STRING then
        if pos + 4 > c.len then (c, Element(TYPE_UNKNOWN, Nothing, true))
        else
          var size := FromLittleEndian(c.storage[pos..pos + 4]) % 0x1_0000; // uint16_t len
          var whole := pos + 4 + size <= c.len;
          var end := if whole then pos + 4 + size else c.len;
          if !whole && end == pos + 4 then (c, Element(TYPE_UNKNOWN, Nothing, true))
          else (Counted(c, end), Element(kind, Chars(c.storage[pos + 4..end]), complete))
      else if kind == TYPE_LIST then
        if pos + 1 > c.len then (c, Element(TYPE_UNKNOWN, Nothing, true))
        else
          var n := c.storage[pos];
          var left := if c.count[c.depth] == 0 then 0 else c.count[c.depth] - 1;
          var count := c.count[c.depth := left];
          (c.(count := if c.depth + 1 <= MAX_NEST then count[c.depth + 1 := n] else count,
              stop := n == 0, depth := c.depth + 1, pos := pos + 1),
           Element(kind, Nothing, c.depth >= MAX_NEST))
      else if kind == TYPE_LIST_STOP then
        if c.depth > 0 then (c.(pos := pos, depth := c.depth - 1), Element(TYPE_LIST_STOP, Nothing, false))
        else (c.(pos := pos), Element(TYPE_UNKNOWN, Nothing, true))
      else (c, Element(TYPE_UNKNOWN, Nothing, false))
  }
}
