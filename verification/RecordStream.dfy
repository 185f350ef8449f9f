/** Length-prefixed records out of a stream that arrives in arbitrary pieces (record_stream.c). */
module RecordStreams {
  import opened Bytes
  import opened Options

  const HEADER_SIZE: nat := 4

  function BigEndian(s: seq<Byte>): nat
    requires |s| == 4
  {
    ((s[0] as nat * 256 + s[1]) * 256 + s[2]) * 256 + s[3]
  }

  function ToBigEndian(n: nat): (s: seq<Byte>)
    requires n < 0x1_0000_0000
    ensures |s| == 4
  {
    [n / 0x100_0000, n / 0x1_0000 % 256, n / 256 % 256, n % 256]
  }

  /** `getEndOfRecord`: where the first record ends, if all of it is there. */
  function EndOfRecord(s: seq<Byte>): (end: Option<nat>)
    ensures end.Some? ==> HEADER_SIZE <= end.value <= |s|
  {
    if |s| < HEADER_SIZE || |s| < HEADER_SIZE + BigEndian(s[..4]) then None else Some(HEADER_SIZE + BigEndian(s[..4]))
  }

  datatype Outcome = Record(bytes: seq<Byte>) | Again | TooBig | End(code: int)

  /** What has been read and not returned, how far it is from the start of the buffer, and what is still to be read. */
  datatype State = State(buffered: seq<Byte>, offset: nat, stream: seq<Byte>)

  ghost predicate Ok(st: State, capacity: nat) {
    st.offset + |st.buffered| <= capacity
  }

  /** `read` may give less than there is room for. Nothing, or an error, is a code of at most zero. */
  function ReadCount(st: State, capacity: nat, n: int): int
    requires |st.buffered| <= capacity
  {
    var room := capacity - |st.buffered|;
    if n <= 0 then n
    else if n <= room && n <= |st.stream| then n
    else if room <= |st.stream| then room
    else |st.stream|
  }

  /** `record_stream_get_next` when the next `read` would give at most n bytes. */
  function Next(st: State, capacity: nat, n: int): (r: (State, Outcome))
    requires Ok(st, capacity)
    ensures Ok(r.0, capacity)
  {
    var end := EndOfRecord(st.buffered);
    if end.Some? then
      (State(st.buffered[end.value..], st.offset + end.value, st.stream), Record(st.buffered[HEADER_SIZE..end.value]))
    else if st.offset == 0 && |st.buffered| == capacity then (st, TooBig)
    else
      var count := ReadCount(st, capacity, n);
      if count <= 0 then (st.(offset := 0), End(count))
      else
        var buffered := st.buffered + st.stream[..count];
        var end := EndOfRecord(buffered);
        if end.None? then (State(buffered, 0, st.stream[count..]), Again)
        else
          (State(buffered[end.value..], end.value, st.stream[count..]), Record(buffered[HEADER_SIZE..end.value]))
  }

  // ----- streams of records -----

  function Encoded(records: seq<seq<Byte>>): seq<Byte>
    requires Short(records, 0xffff_ffff)
  {
    if records == [] then [] else ToBigEndian(|records[0]|) + records[0] + Encoded(records[1..])
  }

  ghost predicate Short(records: seq<seq<Byte>>, most: nat) {
    forall r :: r in records ==> |r| <= most
  }

  /** What was read and not returned, with what is to come, is the encoding of the records still to be returned. */
  ghost predicate Holds(st: State, records: seq<seq<Byte>>, most: nat) {
    Ok(st, most + HEADER_SIZE) && Short(records, 0xffff_ffff) && st.buffered + st.stream == Encoded(records)
  }

  /** The first record that is longer than the longest a caller has announced. */
  function FirstLong(records: seq<seq<Byte>>, most: nat): (i: nat)
    ensures i <= |records| && (i < |records| ==> |records[i]| > most)
    ensures forall j :: 0 <= j < i ==> |records[j]| <= most
  {
    if records == [] || |records[0]| > most then 0 else 1 + FirstLong(records[1..], most)
  }

  lemma {:induction false} BigEndianInverse(n: nat)
    requires n < 0x1_0000_0000
    ensures BigEndian(ToBigEndian(n)) == n
  {
    assert n / 256 == n / 0x1_0000 * 256 + n / 256 % 256;
    assert n / 0x1_0000 == n / 0x100_0000 * 256 + n / 0x1_0000 % 256;
  }

  /** The beginning of an encoding holds a full record exactly when it is as long as the first. */
  lemma {:induction false} FirstRecord(s: seq<Byte>, rest: seq<Byte>, records: seq<seq<Byte>>)
    requires Short(records, 0xffff_ffff) && s + rest == Encoded(records)
    ensures records == [] ==> EndOfRecord(s) == None && s == [] && rest == []
    ensures records != [] ==>
      EndOfRecord(s) == if |s| < HEADER_SIZE + |records[0]| then None else Some(HEADER_SIZE + |records[0]|)
    ensures EndOfRecord(s).Some? ==>
      records != [] && s[HEADER_SIZE..EndOfRecord(s).value] == records[0]
      && s[EndOfRecord(s).value..] + rest == Encoded(records[1..])
  {
    if records != [] {
      var r := records[0];
      var all := s + rest;
      assert all == ToBigEndian(|r|) + r + Encoded(records[1..]);
      assert |s| >= HEADER_SIZE ==> s[..4] == all[..4] == ToBigEndian(|r|);
      BigEndianInverse(|r|);
      if |s| >= HEADER_SIZE + |r| {
        var end := HEADER_SIZE + |r|;
        assert s[HEADER_SIZE..end] == all[HEADER_SIZE..end] == r;
        assert s[end..] + rest == all[end..] == Encoded(records[1..]);
      }
    }
  }

  /** One call: the record that is returned is the next one, the buffer is full without a record exactly when it has filled
      up and the next one is too long, and the stream ends only behind the last record. */
  lemma {:induction false} NextKeepsHolds(st: State, records: seq<seq<Byte>>, most: nat, n: int)
    requires Holds(st, records, most)
    ensures var (st', outcome) := Next(st, most + HEADER_SIZE, n);
      && (outcome == TooBig <==>
            st.offset == 0 && |st.buffered| == most + HEADER_SIZE && records != [] && |records[0]| > most)
      && (outcome.Record? ==>
            records != [] && outcome.bytes == records[0] && |records[0]| <= most && Holds(st', records[1..], most))
      && (!outcome.Record? ==> Holds(st', records, most))
      && (outcome.End? && n > 0 ==> records == [])
      && (outcome == Again ==> |st'.stream| < |st.stream|)
      && |st'.stream| <= |st.stream|
  {
    hide EndOfRecord, Encoded, Short;
    var capacity := most + HEADER_SIZE;
    ShortOf(records);
    FirstRecord(st.buffered, st.stream, records);
    if EndOfRecord(st.buffered).None? {
      var count := ReadCount(st, capacity, n);
      if count > 0 {
        assert st.buffered + st.stream[..count] + st.stream[count..] == st.buffered + st.stream;
        FirstRecord(st.buffered + st.stream[..count], st.stream[count..], records);
      } else if n > 0 && records != [] && |st.buffered| < capacity {
        assert st.stream == [] && st.buffered + [] == st.buffered;
        EncodedSize(records);
      }
    }
  }

  /** Why a stream ends: its code is what `read` gave, nothing or an error; and a call that reads has moved what is buffered to
      the front, unless the buffer is full of it. */
  lemma {:induction false} EndSaysWhy(st: State, capacity: nat, n: int)
    requires Ok(st, capacity)
    ensures var (st', outcome) := Next(st, capacity, n);
      && (outcome.End? ==> outcome.code == (if n <= 0 then n else 0) && (n > 0 ==> st.stream == []) && st'.buffered == st.buffered)
      && (EndOfRecord(st.buffered).None? && |st.buffered| < capacity ==>
            && (outcome.End? <==> n <= 0 || st.stream == [])
            && (outcome.End? || outcome == Again ==> st'.offset == 0))
  {
    hide EndOfRecord;
  }

  lemma {:induction false} ShortOf(records: seq<seq<Byte>>)
    requires Short(records, 0xffff_ffff)
    ensures records != [] ==> |records[0]| <= 0xffff_ffff && Short(records[1..], 0xffff_ffff)
  {
  }

  lemma {:induction false} EncodedSize(records: seq<seq<Byte>>)
    requires Short(records, 0xffff_ffff) && records != []
    ensures |Encoded(records)| >= HEADER_SIZE + |records[0]|
  {
  }

  // ----- runs -----

  /** The records a run of calls returns, and the state after it. */
  function Run(st: State, capacity: nat, ns: seq<int>): (r: (State, seq<seq<Byte>>, bool))
    requires Ok(st, capacity)
    decreases |ns|
  {
    if ns == [] then (st, [], false)
    else
      var (st1, outcome) := Next(st, capacity, ns[0]);
      var (st2, records, full) := Run(st1, capacity, ns[1..]);
      (st2, (if outcome.Record? then [outcome.bytes] else []) + records, full || outcome == TooBig)
  }

  lemma FirstLongUnfolds(records: seq<seq<Byte>>, most: nat)
    ensures FirstLong(records, most) == if records == [] || |records[0]| > most then 0 else 1 + FirstLong(records[1..], most)
  {
  }

  lemma NeedsOk(st: State, records: seq<seq<Byte>>, most: nat)
    requires Holds(st, records, most)
    ensures Ok(st, most + HEADER_SIZE)
  {
  }

  /** However the stream is cut, the records come out in order, nothing is lost between the stream, the buffer and the
      caller, and EFBIG is reached only in front of a record that is too long. */
  lemma {:induction false} RunReturnsRecords(st: State, records: seq<seq<Byte>>, most: nat, ns: seq<int>)
    requires Holds(st, records, most)
    ensures var (st', out, full) := Run(st, most + HEADER_SIZE, ns);
      && |out| <= FirstLong(records, most) && out == records[..|out|] && Holds(st', records[|out|..], most)
      && (full ==> |out| == FirstLong(records, most) < |records|)
    decreases |ns|
  {
    hide Next, Holds, FirstLong;
    NeedsOk(st, records, most);
    FirstLongUnfolds(records, most);
    if ns != [] {
      NextKeepsHolds(st, records, most, ns[0]);
      var (st1, outcome) := Next(st, most + HEADER_SIZE, ns[0]);
      if outcome.Record? {
        RunReturnsRecords(st1, records[1..], most, ns[1..]);
        var out := Run(st1, most + HEADER_SIZE, ns[1..]).1;
        assert [records[0]] + out == records[..|out| + 1] && records[1..][|out|..] == records[|out| + 1..];
      } else {
        RunReturnsRecords(st1, records, most, ns[1..]);
      }
    } else {
      assert records[0..] == records;
    }
  }

  /** Enough calls, none of whose reads comes back empty before the end, return all records up to the first that is too long,
      and end in EFBIG if and only if there is one. */
  lemma {:induction false} AllReturned(st: State, records: seq<seq<Byte>>, most: nat, ns: seq<int>)
    requires Holds(st, records, most)
    requires |ns| > |st.stream| + |records| && forall n :: n in ns ==> n > 0
    ensures var (_, out, full) := Run(st, most + HEADER_SIZE, ns);
      && out == records[..FirstLong(records, most)]
      && (full <==> FirstLong(records, most) < |records|)
    decreases |ns|
  {
    hide Next, Holds, FirstLong;
    NeedsOk(st, records, most);
    FirstLongUnfolds(records, most);
    NextKeepsHolds(st, records, most, ns[0]);
    var (st1, outcome) := Next(st, most + HEADER_SIZE, ns[0]);
    assert ns[0] in ns && forall n :: n in ns[1..] ==> n in ns;
    if outcome.Record? {
      AllReturned(st1, records[1..], most, ns[1..]);
      var i := FirstLong(records[1..], most);
      assert [records[0]] + records[1..][..i] == records[..i + 1];
    } else if outcome == Again {
      AllReturned(st1, records, most, ns[1..]);
    } else {
      RunReturnsRecords(st, records, most, ns);
    }
  }

  // ----- the object -----

  class RecordStream {
    const maxRecordLen: nat
    const buffer: array<Byte>
    var unconsumed: nat
    var readEnd: nat
    var stream: seq<Byte> // what the file descriptor has yet to give

    ghost predicate Valid()
      reads this
    {
      unconsumed <= readEnd <= buffer.Length == maxRecordLen + HEADER_SIZE
    }

    ghost function View(): State
      requires Valid()
      reads this, buffer
    {
      State(buffer[unconsumed..readEnd], unconsumed, stream)
    }

    constructor (maxRecordLen: nat, stream: seq<Byte>)
      requires maxRecordLen <= 0xffff
      ensures Valid() && View() == State([], 0, stream) && fresh(buffer) && this.maxRecordLen == maxRecordLen
    {
      this.maxRecordLen := maxRecordLen;
      this.stream := stream;
      buffer := new Byte[maxRecordLen + HEADER_SIZE](_ => 0);
      unconsumed, readEnd := 0, 0;
    }

    method GetEndOfRecord() returns (end: Option<nat>)
      requires Valid()
      ensures end == match EndOfRecord(View().buffered) case None => None case Some(n) => Some(unconsumed + n)
    {
      if readEnd < unconsumed + HEADER_SIZE {
        return None;
      }
      var b := unconsumed;
      var len := ((buffer[b] as nat * 256 + buffer[b + 1]) * 256 + buffer[b + 2]) * 256 + buffer[b + 3];
      assert len == BigEndian(View().buffered[..4]);
      end := if readEnd < b + HEADER_SIZE + len then None else Some(b + HEADER_SIZE + len);
    }

    method GetNextRecord() returns (record: Option<seq<Byte>>)
      requires Valid()
      modifies this`unconsumed
      ensures Valid()
      ensures var s := old(View().buffered);
        match EndOfRecord(s)
        case None => record == None && View() == old(View())
        case Some(n) => record == Some(s[HEADER_SIZE..n]) && View() == State(s[n..], old(unconsumed) + n, stream)
    {
      var end := GetEndOfRecord();
      if end.None? {
        return None;
      }
      var start := unconsumed + HEADER_SIZE;
      ghost var s, n := View().buffered, end.value - unconsumed;
      SliceOfSlice(buffer[..], unconsumed, readEnd, HEADER_SIZE, n);
      SliceOfSlice(buffer[..], unconsumed, readEnd, n, |s|);
      unconsumed := end.value;
      return Some(buffer[start..end.value]);
    }

    /** `memmove` of the remainder to the beginning of the buffer. */
    method Compact()
      requires Valid()
      modifies this`unconsumed, this`readEnd, buffer
      ensures Valid() && View() == old(View()).(offset := 0)
    {
      var toMove := readEnd - unconsumed;
      MoveDown(unconsumed, toMove);
      readEnd, unconsumed := toMove, 0;
    }

    method MoveDown(from: nat, n: nat)
      requires from + n <= buffer.Length
      modifies buffer
      ensures buffer[..n] == old(buffer[from..from + n])
    {
      for i := 0 to n
        invariant buffer[..i] == old(buffer[from..from + i])
        invariant buffer[i..] == old(buffer[i..])
      {
        assert buffer[from + i] == buffer[i..][from] == old(buffer[i..])[from];
        buffer[i] := buffer[from + i];
      }
    }

    /** `read` into the free end of the buffer. */
    method Read(n: int) returns (count: int)
      requires Valid() && unconsumed == 0
      modifies this`stream, buffer
      ensures count == ReadCount(old(View()), buffer.Length, n)
      ensures count <= 0 ==> stream == old(stream) && buffer[..] == old(buffer[..])
      ensures count > 0 ==> readEnd + count <= buffer.Length && count <= |old(stream)| && stream == old(stream)[count..]
      ensures count > 0 ==> buffer[..readEnd + count] == old(buffer[..readEnd] + stream[..count])
    {
      var room := buffer.Length - readEnd;
      count := if n <= 0 then n else if n <= room && n <= |stream| then n else if room <= |stream| then room else |stream|;
      if count <= 0 {
        return;
      }
      Store(stream[..count]);
      stream := stream[count..];
    }

    method Store(s: seq<Byte>)
      requires Valid() && readEnd + |s| <= buffer.Length
      modifies buffer
      ensures buffer[..readEnd + |s|] == old(buffer[..readEnd]) + s
    {
      for i := 0 to |s|
        invariant buffer[..readEnd + i] == old(buffer[..readEnd]) + s[..i]
      {
        buffer[readEnd + i] := s[i];
      }
    }

    method GetNext(n: int) returns (outcome: Outcome)
      requires Valid()
      modifies this, buffer
      ensures Valid() && (View(), outcome) == Next(old(View()), buffer.Length, n)
    {
      hide EndOfRecord;
      var record := GetNextRecord();
      if record.Some? {
        return Record(record.value);
      }
      if unconsumed == 0 && readEnd == buffer.Length {
        return TooBig;
      }
      var count := Refill(n);
      if count <= 0 {
        return End(count);
      }
      record := GetNextRecord();
      outcome := if record.None? then Again else Record(record.value);
    }

    /** The remainder goes to the start of the buffer and is read on from. */
    method Refill(n: int) returns (count: int)
      requires Valid()
      modifies this, buffer
      ensures Valid()
      ensures var st := old(View());
        && count == ReadCount(st, buffer.Length, n)
        && View() == if count <= 0 then st.(offset := 0) else State(st.buffered + st.stream[..count], 0, st.stream[count..])
    {
      if unconsumed != 0 {
        Compact();
      }
      count := Read(n);
      if count > 0 {
        readEnd := readEnd + count;
      }
    }
  }
}
