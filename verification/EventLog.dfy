/** The event list context of log_event_list.c as the struct it is: fixed arrays that every call changes in place. */
module EventLog {
  import opened Bytes
  import opened EventListSpec
  import EventListProofs

  datatype LogId = Events | Security | OtherLog

  class LogContext {
    const writing: bool
    var pos: nat
    const count: array<nat>
    const list: array<nat>
    var depth: nat
    var len: nat
    var overflow: bool
    var stop: bool
    const storage: array<Byte>

    ghost function View(): Context
      reads this, count, list, storage
    {
      Context(writing, pos, count[..], list[..], depth, len, overflow, stop, storage[..])
    }

    ghost predicate Valid()
      reads this, count, list, storage
    {
      count != list && Ok(View())
    }

    constructor CreateLogger()
      ensures Valid() && View() == NewWriter() && fresh(count) && fresh(list) && fresh(storage)
    {
      writing, pos, depth, len, overflow, stop := true, 2, 0, 0, false, false;
      count := new nat[MAX_NEST + 1](_ => 0);
      list := new nat[MAX_NEST + 1](_ => 0);
      storage := new Byte[STORAGE_SIZE](_ => 0);
      new;
      storage[0] := TYPE_LIST;
      list[0] := 1;
      assert count[..] == seq(MAX_NEST + 1, i => 0);
      assert list[..] == seq(MAX_NEST + 1, i => 0)[0 := 1];
      assert storage[..] == Put(seq(STORAGE_SIZE, i => 0), 0, [TYPE_LIST]);
    }

    constructor CreateParser(msg: seq<Byte>)
      ensures Valid() && View() == NewReader(msg) && fresh(count) && fresh(list) && fresh(storage)
    {
      var n := if |msg| <= MAX_PAYLOAD then |msg| else MAX_PAYLOAD;
      writing, pos, depth, len, overflow, stop := false, 0, 0, n, false, false;
      count := new nat[MAX_NEST + 1](_ => 0);
      list := new nat[MAX_NEST + 1](_ => 0);
      storage := new Byte[STORAGE_SIZE](i => if 0 <= i < n <= |msg| then msg[i] else 0);
      new;
      assert count[..] == seq(MAX_NEST + 1, i => 0);
      assert list[..] == seq(MAX_NEST + 1, i => 0);
      assert storage[..] == Put(seq(STORAGE_SIZE, i => 0), 0, msg[..n]);
    }

    method StoreByte(at: nat, b: Byte)
      requires at < storage.Length
      modifies storage
      ensures storage[..] == Put(old(storage[..]), at, [b])
    {
      storage[at] := b;
    }

    /** `memcpy` into the storage. */
    method Copy(at: nat, bytes: seq<Byte>)
      requires at + |bytes| <= storage.Length
      modifies storage
      ensures storage[..] == Put(old(storage[..]), at, bytes)
    {
      hide Put;
      ghost var before := storage[..];
      EventListProofs.PutNothing(before, at);
      for i := 0 to |bytes|
        invariant storage[..] == Put(before, at, bytes[..i])
      {
        assert bytes[..i + 1] == bytes[..i] + [bytes[i]];
        EventListProofs.PutPut(before, at, bytes[..i], [bytes[i]]);
        StoreByte(at + i, bytes[i]);
      }
      assert bytes[..|bytes|] == bytes;
    }

    /** `copy4LE` and `copy8LE`. */
    method CopyLittleEndian(at: nat, v: nat, n: nat)
      requires at + n <= storage.Length
      modifies storage
      ensures storage[..] == Put(old(storage[..]), at, LittleEndian(v, n))
    {
      hide Put;
      ghost var before := storage[..];
      ghost var bytes := LittleEndian(v, n);
      EventListProofs.PutNothing(before, at);
      var rest := v;
      for i := 0 to n
        invariant LittleEndian(rest, n - i) == bytes[i..]
        invariant storage[..] == Put(before, at, bytes[..i])
      {
        assert bytes[i] == bytes[i..][0] && bytes[i..][1..] == bytes[i + 1..] && bytes[..i + 1] == bytes[..i] + [bytes[i]];
        EventListProofs.PutPut(before, at, bytes[..i], [bytes[i]]);
        StoreByte(at + i, rest % 256);
        rest := rest / 256;
      }
      assert bytes[..n] == bytes;
    }

    method ListBegin() returns (code: int)
      requires Valid()
      modifies this, count, list, storage
      ensures Valid() && (View(), code) == Begin(old(View()))
    {
      if !writing {
        return -EBADF;
      }
      if depth > MAX_NEST {
        overflow := true;
        return -EOVERFLOW;
      }
      if pos + 2 > MAX_PAYLOAD {
        overflow := true;
        return -EIO;
      }
      count[depth] := count[depth] + 1;
      depth := depth + 1;
      if depth > MAX_NEST {
        overflow := true;
        return -EOVERFLOW;
      }
      if overflow {
        return -EIO;
      }
      storage[pos] := TYPE_LIST;
      storage[pos + 1] := 0;
      list[depth] := pos + 1;
      count[depth] := 0;
      pos := pos + 2;
      assert storage[..] == Put(old(storage[..]), old(pos), [TYPE_LIST, 0]);
      return 0;
    }

    /** `android_log_write_int32`, `_int64` and `_float32`: the type byte and the bit pattern in `size` bytes. */
    method WriteScalar(kind: Byte, v: nat, size: nat) returns (code: int)
      requires Valid()
      modifies this, count, storage
      ensures Valid() && (View(), code) == Scalar(old(View()), kind, LittleEndian(v, size))
    {
      hide Put, LittleEndian;
      if !writing {
        return -EBADF;
      }
      if overflow {
        return -EIO;
      }
      var needed := 1 + size;
      if pos + needed > MAX_PAYLOAD {
        overflow := true;
        return -EIO;
      }
      count[depth] := count[depth] + 1;
      ghost var before := storage[..];
      StoreByte(pos, kind);
      CopyLittleEndian(pos + 1, v, size);
      EventListProofs.PutPut(before, pos, [kind], LittleEndian(v, size));
      assert storage[..] == Put(before, pos, [kind] + LittleEndian(v, size));
      pos := pos + needed;
      return 0;
    }

    /** `android_log_write_string8_len` with the string cut at its terminator. */
    method WriteString(s: seq<Byte>) returns (code: int)
      requires Valid()
      modifies this, count, storage
      ensures Valid() && (View(), code) == Text(old(View()), s)
    {
      hide Put, LittleEndian;
      if !writing {
        return -EBADF;
      }
      if overflow {
        return -EIO;
      }
      var len: int := |s|;
      var needed := 5 + |s|;
      if pos + needed > MAX_PAYLOAD {
        len := MAX_PAYLOAD - pos - 1 - 4;
        if len <= 0 {
          overflow := true;
          return -EIO;
        }
      }
      count[depth] := count[depth] + 1;
      ghost var before := storage[..];
      StoreByte(pos, TYPE_STRING);
      CopyLittleEndian(pos + 1, len, 4);
      Copy(pos + 5, s[..len]);
      EventListProofs.PutPut(before, pos, [TYPE_STRING], LittleEndian(len, 4));
      EventListProofs.PutPut(before, pos, [TYPE_STRING] + LittleEndian(len, 4), s[..len]);
      assert storage[..] == Put(before, pos, [TYPE_STRING] + LittleEndian(len, 4) + s[..len]);
      pos := pos + needed;
      return len;
    }

    method ListEnd() returns (code: int)
      requires Valid()
      modifies this, storage
      ensures Valid() && (View(), code) == End(old(View()))
    {
      if !writing {
        return -EBADF;
      }
      if depth > MAX_NEST {
        overflow := true;
        depth := depth - 1;
        return -EOVERFLOW;
      }
      if depth == 0 {
        overflow := true;
        return -EOVERFLOW;
      }
      if list[depth] <= 0 {
        depth := depth - 1;
        overflow := true;
        return -EOVERFLOW;
      }
      storage[list[depth]] := count[depth] % 256;
      depth := depth - 1;
      return 0;
    }

    /** `android_log_write_list`: where the message starts that is handed to the logger, and its length. A cut string can
        have moved the position past the storage; the length goes that far too. */
    method WriteList(id: LogId) returns (code: int, start: nat, n: nat)
      requires Valid()
      modifies this`len, storage
      ensures Valid()
      ensures code == if id == OtherLog then -EINVAL else if !writing then -EBADF else if depth != 0 then -EIO else 0
      ensures code != 0 ==> View() == old(View()) && n == 0
      ensures code == 0 ==> View() == old(View()).(storage := old(storage[..])[1 := count[0] % 256], len := pos)
      ensures code == 0 ==> start == (if count[0] <= 1 then 2 else 0) && n == if pos >= start then pos - start else 0
      ensures code == 0 && 2 <= pos <= STORAGE_SIZE ==> storage[start..start + n] == Message(old(View()))
    {
      start, n := 0, 0;
      if id != Events && id != Security {
        return -EINVAL, start, n;
      }
      if !writing {
        return -EBADF, start, n;
      }
      if depth != 0 {
        return -EIO, start, n;
      }
      storage[1] := count[0] % 256;
      assert storage[..] == old(storage[..])[1 := count[0] % 256];
      len, n := pos, pos;
      if count[0] <= 1 {
        n := if n < 2 then 0 else n - 2;
        start := 2;
      }
      return 0, start, n;
    }

    /** One element of the current list is consumed; the last one makes a stop due. */
    method CountDown(at: nat)
      requires Ok(View()) && depth <= MAX_NEST && count != list
      modifies this, count
      ensures View() == Counted(old(View()), at)
    {
      if count[depth] == 0 {
        stop := true;
      } else {
        count[depth] := count[depth] - 1;
        stop := count[depth] == 0;
      }
      pos := at;
      assert old(count[depth]) == 0 ==> old(count[..])[depth := 0] == count[..];
    }

    /** `get4LE` and `get8LE`. */
    method GetLittleEndian(at: nat, n: nat) returns (v: nat)
      requires at + n <= storage.Length
      ensures v == FromLittleEndian(storage[at..at + n])
    {
      v := 0;
      var i := n;
      assert storage[at + n..at + n] == [];
      while i > 0
        invariant 0 <= i <= n
        invariant v == FromLittleEndian(storage[at + i..at + n])
      {
        i := i - 1;
        assert storage[at + i..at + n][1..] == storage[at + i + 1..at + n];
        v := storage[at + i] + 256 * v;
      }
    }

    /** `android_log_read_next_internal`: a peek leaves the context as it was. */
    method ReadNext(peek: bool) returns (elem: Element)
      requires Valid()
      modifies this, count
      ensures Valid()
      ensures elem == Next(old(View())).1
      ensures View() == if peek then old(View()) else Next(old(View())).0
    {
      EventListProofs.NextKeepsOk(View());
      if writing || depth > MAX_NEST || count[depth] >= MAX_PAYLOAD / 2 {
        var stopDue := stop || (depth <= MAX_NEST && count[depth] == 0);
        return Element(if stopDue then TYPE_LIST_STOP else TYPE_UNKNOWN, Nothing, true);
      }
      if stop {
        elem := ReadStop(peek);
        return;
      }
      if pos + 1 > len {
        return Element(TYPE_UNKNOWN, Nothing, true);
      }
      var kind := storage[pos];
      if kind == TYPE_INT || kind == TYPE_FLOAT || kind == TYPE_LONG || kind == TYPE_STRING {
        elem := ReadData(peek);
      } else if kind == TYPE_LIST {
        elem := ReadList(peek);
      } else if kind == TYPE_LIST_STOP {
        elem := Element(if depth > 0 then TYPE_LIST_STOP else TYPE_UNKNOWN, Nothing, depth == 0);
        if !peek {
          pos := pos + 1;
          if depth > 0 {
            depth := depth - 1;
          }
        }
      } else {
        elem := Element(TYPE_UNKNOWN, Nothing, false);
      }
    }

    method ReadStop(peek: bool) returns (elem: Element)
      requires Valid() && !writing && depth <= MAX_NEST && count[depth] < MAX_PAYLOAD / 2 && stop
      modifies this
      ensures elem == Next(old(View())).1
      ensures View() == if peek then old(View()) else Next(old(View())).0
    {
      elem := Element(TYPE_LIST_STOP, Nothing, count[0] == 0 && (depth == 0 || (depth == 1 && count[1] == 0)));
      if !peek {
        if storage[pos] == TYPE_LIST_STOP {
          pos := pos + 1;
        }
        if depth > 0 {
          depth := depth - 1;
          if count[depth] != 0 {
            stop := false;
          }
        } else {
          stop := false;
        }
      }
    }

    method ReadData(peek: bool) returns (elem: Element)
      requires Valid() && !writing && depth <= MAX_NEST && count[depth] < MAX_PAYLOAD / 2 && !stop && pos + 1 <= len
      requires storage[pos] in {TYPE_INT, TYPE_FLOAT, TYPE_LONG, TYPE_STRING}
      modifies this, count
      ensures elem == Next(old(View())).1
      ensures View() == if peek then old(View()) else Next(old(View())).0
    {
      var kind, at := storage[pos], pos + 1;
      var data, end;
      if kind == TYPE_STRING {
        if at + 4 > len {
          return Element(TYPE_UNKNOWN, Nothing, true);
        }
        var size := GetLittleEndian(at, 4);
        size := size % 0x1_0000;
        at := at + 4;
        if at + size > len {
          size := len - at;
          if size == 0 {
            return Element(TYPE_UNKNOWN, Nothing, true);
          }
        }
        end := at + size;
        data := Chars(storage[at..end]);
      } else {
        var size := if kind == TYPE_LONG then 8 else 4;
        if at + size > len {
          return Element(TYPE_UNKNOWN, Nothing, false);
        }
        end := at + size;
        var v := GetLittleEndian(at, size);
        data := Number(v);
      }
      elem := Element(kind, data, depth == 0 && count[0] == 0);
      if !peek {
        CountDown(end);
      }
    }

    method ReadList(peek: bool) returns (elem: Element)
      requires Valid() && !writing && depth <= MAX_NEST && count[depth] < MAX_PAYLOAD / 2 && !stop && pos + 1 <= len
      requires storage[pos] == TYPE_LIST
      modifies this, count
      ensures elem == Next(old(View())).1
      ensures View() == if peek then old(View()) else Next(old(View())).0
    {
      var at := pos + 1;
      if at + 1 > len {
        return Element(TYPE_UNKNOWN, Nothing, true);
      }
      elem := Element(TYPE_LIST, Nothing, depth >= MAX_NEST);
      if peek {
        return;
      }
      if count[depth] != 0 {
        count[depth] := count[depth] - 1;
      }
      stop := storage[at] == 0;
      depth := depth + 1;
      if depth <= MAX_NEST {
        count[depth] := storage[at];
      }
      pos := at + 1;
      assert old(count[depth]) == 0 ==> old(count[..])[old(depth) := 0] == old(count[..]);
    }
  }
}
