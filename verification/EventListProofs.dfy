/** An event list that is written and then read yields the same elements, including every list stop. */
module EventListProofs {
  import opened Bytes
  import opened EventListSpec

  datatype Event =
    | Int(n: nat)
    | Long(n: nat)
    | Float(n: nat)
    | Str(s: seq<Byte>)
    | List(items: seq<Event>)

  /** The bit patterns have their widths. */
  ghost predicate Fits(e: Event) {
    match e
    case Int(n) => n < 0x1_0000_0000
    case Float(n) => n < 0x1_0000_0000
    case Long(n) => n < 0x1_0000_0000_0000_0000
    case Str(s) => true
    case List(items) => forall x :: x in items ==> Fits(x)
  }

  ghost predicate AllFit(es: seq<Event>) {
    forall x :: x in es ==> Fits(x)
  }

  /** Every list is short enough for its one-byte counter. */
  ghost predicate Countable(e: Event) {
    e.List? ==> |e.items| < 256 && forall x :: x in e.items ==> Countable(x)
  }

  ghost predicate AllCountable(es: seq<Event>) {
    forall x :: x in es ==> Countable(x)
  }

  function Nesting(e: Event): nat {
    if e.List? then 1 + NestingAll(e.items) else 0
  }

  function NestingAll(es: seq<Event>): nat {
    if es == [] then 0
    else
      var a := Nesting(es[0]);
      var b := NestingAll(es[1..]);
      if a >= b then a else b
  }

  // ----- the bytes -----

  function Encode(e: Event): seq<Byte>
    requires Fits(e)
    decreases e, 0
  {
    match e
    case Int(n) => [TYPE_INT] + LittleEndian(n, 4)
    case Float(n) => [TYPE_FLOAT] + LittleEndian(n, 4)
    case Long(n) => [TYPE_LONG] + LittleEndian(n, 8)
    case Str(s) => [TYPE_STRING] + LittleEndian(|s|, 4) + s
    case List(items) => [TYPE_LIST, |items| % 256] + EncodeAll(items)
  }

  function EncodeAll(es: seq<Event>): seq<Byte>
    requires AllFit(es)
    decreases es, 1
  {
    if es == [] then [] else Encode(es[0]) + EncodeAll(es[1..])
  }

  // ----- the elements -----

  function Tokens(e: Event): seq<Element>
    decreases e, 0
  {
    match e
    case Int(n) => [Element(TYPE_INT, Number(n), false)]
    case Float(n) => [Element(TYPE_FLOAT, Number(n), false)]
    case Long(n) => [Element(TYPE_LONG, Number(n), false)]
    case Str(s) => [Element(TYPE_STRING, Chars(s), false)]
    case List(items) => [Element(TYPE_LIST, Nothing, false)] + TokensAll(items) + [Element(TYPE_LIST_STOP, Nothing, false)]
  }

  function TokensAll(es: seq<Event>): seq<Element>
    decreases es, 1
  {
    if es == [] then [] else Tokens(es[0]) + TokensAll(es[1..])
  }

  // ----- writing a tree -----

  /** The calls a program makes to log an element: begin, the elements, end. None of them may fail. */
  ghost function WriteEvent(c: Context, e: Event): (r: (Context, bool))
    requires Ok(c)
    ensures Ok(r.0)
    decreases e, 0
  {
    match e
    case Int(n) => var (c', code) := Scalar(c, TYPE_INT, LittleEndian(n, 4)); (c', code >= 0)
    case Float(n) => var (c', code) := Scalar(c, TYPE_FLOAT, LittleEndian(n, 4)); (c', code >= 0)
    case Long(n) => var (c', code) := Scalar(c, TYPE_LONG, LittleEndian(n, 8)); (c', code >= 0)
    case Str(s) => var (c', code) := Text(c, s); (c', code == |s|)
    case List(items) =>
      var (c1, code) := Begin(c);
      var (c2, good) := WriteAll(c1, items);
      var (c3, code') := End(c2);
      (c3, code >= 0 && good && code' >= 0)
  }

  ghost function WriteAll(c: Context, es: seq<Event>): (r: (Context, bool))
    requires Ok(c)
    ensures Ok(r.0)
    decreases es, 1
  {
    if es == [] then (c, true)
    else
      var (c1, good) := WriteEvent(c, es[0]);
      var (c2, good') := WriteAll(c1, es[1..]);
      (c2, good && good')
  }

  lemma {:induction false} PutNothing(s: seq<Byte>, at: nat)
    requires at <= |s|
    ensures Put(s, at, []) == s
  {
  }

  lemma {:induction false} PutPut(s: seq<Byte>, at: nat, a: seq<Byte>, b: seq<Byte>)
    requires at + |a| + |b| <= |s|
    ensures Put(Put(s, at, a), at + |a|, b) == Put(s, at, a + b)
  {
  }

  lemma {:induction false} PutCounter(s: seq<Byte>, at: nat, n: Byte, rest: seq<Byte>)
    requires at + 2 + |rest| <= |s|
    ensures Put(s, at, [TYPE_LIST, 0] + rest)[at + 1 := n] == Put(s, at, [TYPE_LIST, n] + rest)
  {
  }

  /** c' is c after n elements with these bytes were written to the current list. */
  ghost predicate Wrote(c: Context, c': Context, bytes: seq<Byte>, n: nat)
    requires Ok(c) && Ok(c') && c.depth <= MAX_NEST
  {
    && c'.writing && !c'.overflow && c'.depth == c.depth
    && c.pos + |bytes| <= MAX_PAYLOAD && c'.pos == c.pos + |bytes|
    && c'.storage == Put(c.storage, c.pos, bytes)
    && c'.count[c.depth] == c.count[c.depth] + n
    && c'.count[..c.depth] == c.count[..c.depth]
    && c'.list[..c.depth + 1] == c.list[..c.depth + 1]
  }

  ghost predicate Writing(c: Context) {
    Ok(c) && c.writing && !c.overflow && c.depth <= MAX_NEST && c.pos <= MAX_PAYLOAD
  }

  /** Writing an element succeeds exactly when it fits, in bytes and in nesting, and then appends its encoding. */
  lemma {:induction false} EventWritten(c: Context, e: Event)
    requires Writing(c) && Fits(e)
    ensures WriteEvent(c, e).1 <==> c.depth + Nesting(e) <= MAX_NEST && c.pos + |Encode(e)| <= MAX_PAYLOAD
    ensures WriteEvent(c, e).1 ==> Wrote(c, WriteEvent(c, e).0, Encode(e), 1)
    decreases e, 0
  {
    if e.List? {
      var (c1, code) := Begin(c);
      if code >= 0 {
        assert Writing(c1);
        AllWritten(c1, e.items);
        var (c2, good) := WriteAll(c1, e.items);
        if good {
          ListWritten(c, c1, c2, e.items);
        }
      }
    }
  }

  lemma {:induction false} ListWritten(c: Context, c1: Context, c2: Context, items: seq<Event>)
    requires Writing(c) && Fits(List(items)) && (c1, 0) == Begin(c) && Ok(c1) && Ok(c2) && Writing(c1)
    requires Wrote(c1, c2, EncodeAll(items), |items|)
    ensures End(c2).1 == 0 && Ok(End(c2).0) && Wrote(c, End(c2).0, Encode(List(items)), 1)
  {
    var bytes := EncodeAll(items);
    PutPut(c.storage, c.pos, [TYPE_LIST, 0], bytes);
    PutCounter(c.storage, c.pos, |items| % 256, bytes);
    assert c2.list[c1.depth] == c2.list[..c1.depth + 1][c1.depth] == c1.list[..c1.depth + 1][c1.depth] == c.pos + 1;
    assert c2.list[..c.depth + 1] == c2.list[..c1.depth + 1][..c.depth + 1] == c1.list[..c1.depth + 1][..c.depth + 1];
    assert c2.count[..c.depth] == c2.count[..c1.depth][..c.depth];
    assert c2.count[c.depth] == c2.count[..c1.depth][c.depth];
  }

  lemma {:induction false} AllWritten(c: Context, es: seq<Event>)
    requires Writing(c) && AllFit(es)
    ensures WriteAll(c, es).1 <==> c.depth + NestingAll(es) <= MAX_NEST && c.pos + |EncodeAll(es)| <= MAX_PAYLOAD
    ensures WriteAll(c, es).1 ==> Wrote(c, WriteAll(c, es).0, EncodeAll(es), |es|)
    decreases es, 1
  {
    if es != [] {
      EventWritten(c, es[0]);
      var (c1, good) := WriteEvent(c, es[0]);
      if good {
        AllWritten(c1, es[1..]);
        if WriteAll(c1, es[1..]).1 { WroteTwice(c, c1, WriteAll(c1, es[1..]).0, Encode(es[0]), EncodeAll(es[1..]), |es| - 1); }
      }
    } else {
      assert Put(c.storage, c.pos, []) == c.storage;
    }
  }

  lemma {:induction false} WroteTwice(c: Context, c1: Context, c2: Context, a: seq<Byte>, b: seq<Byte>, n: nat)
    requires Ok(c) && Ok(c1) && Ok(c2) && c.depth <= MAX_NEST && Wrote(c, c1, a, 1) && Wrote(c1, c2, b, n)
    ensures Wrote(c, c2, a + b, n + 1)
  {
    PutPut(c.storage, c.pos, a, b);
  }

  // ----- reading it back -----

  /** Reading n elements in a row. */
  ghost function ReadMany(c: Context, n: nat): (r: (Context, seq<Element>))
    requires Ok(c)
    ensures Ok(r.0) && |r.1| == n
    decreases n
  {
    if n == 0 then (c, [])
    else
      NextKeepsOk(c);
      var (c1, x) := Next(c);
      var (c2, rest) := ReadMany(c1, n - 1);
      (c2, [x] + rest)
  }

  lemma {:induction false} NextKeepsOk(c: Context)
    requires Ok(c)
    ensures Ok(Next(c).0)
  {
  }

  lemma {:induction false} ReadInTwo(c: Context, n: nat, k: nat)
    requires Ok(c)
    ensures var (c1, a) := ReadMany(c, n);
            var (c2, b) := ReadMany(c1, k);
            ReadMany(c, n + k) == (c2, a + b)
    decreases n
  {
    if n > 0 {
      NextKeepsOk(c);
      ReadInTwo(Next(c).0, n - 1, k);
      var (c1, x) := Next(c);
      var (c2, rest) := ReadMany(c1, n - 1);
      var (c3, more) := ReadMany(c2, k);
      assert [x] + (rest + more) == ([x] + rest) + more;
    } else {
      var (c1, a) := ReadMany(c, 0);
      assert a + ReadMany(c, k).1 == ReadMany(c, k).1;
    }
  }

  /** A reader inside a list, with n more elements of the list to come. */
  ghost predicate Reading(c: Context, n: nat) {
    && Ok(c) && !c.writing && 1 <= c.depth <= MAX_NEST
    && c.count[c.depth] == n < 256
    && c.stop == (n == 0)
    && (forall i :: 0 <= i < c.depth ==> c.count[i] < 256)
  }

  /** The bytes come next in the buffer, and what follows them is not a stop byte. */
  ghost predicate Ahead(c: Context, bytes: seq<Byte>)
    requires Ok(c)
  {
    && !c.writing && c.pos + |bytes| <= c.len && c.storage[c.pos..c.pos + |bytes|] == bytes
    && c.storage[c.pos + |bytes|] != TYPE_LIST_STOP
  }

  /** c' is c with these bytes and `n` elements of the current list consumed. */
  ghost predicate Consumed(c: Context, c': Context, size: nat, n: nat)
    requires Ok(c) && 1 <= c.depth <= MAX_NEST && n <= c.count[c.depth]
  {
    && Reading(c', c.count[c.depth] - n)
    && c'.pos == c.pos + size && c'.len == c.len && c'.storage == c.storage && c'.depth == c.depth
    && c'.count[..c.depth] == c.count[..c.depth]
  }

  /** Too deep for a reader at this depth, or with a list too long for its counter. */
  ghost predicate Bad(depth: nat, e: Event) {
    depth + Nesting(e) > MAX_NEST || !Countable(e)
  }

  ghost predicate SomeBad(depth: nat, es: seq<Event>) {
    depth + NestingAll(es) > MAX_NEST || !AllCountable(es)
  }

  lemma {:induction false} FirstOrRest(depth: nat, es: seq<Event>)
    requires es != []
    ensures SomeBad(depth, es) <==> Bad(depth, es[0]) || SomeBad(depth, es[1..])
  {
    assert es == [es[0]] + es[1..];
  }

  /** An element that is not bad is a list with none in it, one level deeper, or no list. */
  lemma {:induction false} BadList(depth: nat, e: Event)
    requires depth <= MAX_NEST
    ensures Bad(depth, e) <==> e.List? && (depth == MAX_NEST || |e.items| >= 256 || SomeBad(depth + 1, e.items))
  {
  }

  /** Reading an element gives its tokens and moves past its bytes. */
  lemma {:induction false} EventRead(c: Context, e: Event, n: nat)
    requires Fits(e) && Reading(c, n + 1) && Ahead(c, Encode(e)) && !Bad(c.depth, e)
    ensures var (c', xs) := ReadMany(c, |Tokens(e)|);
            xs == Tokens(e) && Consumed(c, c', |Encode(e)|, 1)
    decreases e, 1
  {
    if e.List? {
      ListRead(c, e, n);
    } else {
      OneRead(c);
      Widths();
      match e {
        case Int(v) => NumberRead(c, n, TYPE_INT, v, 4);
        case Float(v) => NumberRead(c, n, TYPE_FLOAT, v, 4);
        case Long(v) => NumberRead(c, n, TYPE_LONG, v, 8);
        case Str(s) => TextRead(c, n, s);
      }
    }
  }

  lemma {:induction false} NumberRead(c: Context, n: nat, kind: Byte, v: nat, size: nat)
    requires kind in {TYPE_INT, TYPE_FLOAT, TYPE_LONG} && size == (if kind == TYPE_LONG then 8 else 4) && v < Power256(size)
    requires Reading(c, n + 1) && Ahead(c, [kind] + LittleEndian(v, size))
    ensures var (c', x) := Next(c);
            x == Element(kind, Number(v), false) && Ok(c') && Consumed(c, c', 1 + size, 1)
  {
    var bytes := [kind] + LittleEndian(v, size);
    assert c.storage[c.pos] == bytes[0];
    LittleEndianInverse(v, size);
    assert c.storage[c.pos + 1..c.pos + 1 + size] == bytes[1..] == LittleEndian(v, size);
    NextKeepsOk(c);
  }

  lemma {:induction false} TextRead(c: Context, n: nat, s: seq<Byte>)
    requires Fits(Str(s)) && Reading(c, n + 1) && Ahead(c, Encode(Str(s)))
    ensures var (c', x) := Next(c);
            x == Element(TYPE_STRING, Chars(s), false) && Ok(c') && Consumed(c, c', 5 + |s|, 1)
  {
    hide LittleEndian, FromLittleEndian;
    var bytes := Encode(Str(s));
    assert |s| < c.len <= MAX_PAYLOAD;
    assert c.storage[c.pos] == bytes[0];
    Widths();
    LittleEndianInverse(|s|, 4);
    SliceOfSlice(c.storage, c.pos, c.pos + |bytes|, 1, 5);
    SliceOfSlice(c.storage, c.pos, c.pos + |bytes|, 5, |bytes|);
    assert c.storage[c.pos + 1..c.pos + 5] == bytes[1..5] == LittleEndian(|s|, 4);
    assert c.storage[c.pos + 5..c.pos + 5 + |s|] == bytes[5..|bytes|] == s;
    NextKeepsOk(c);
  }

  lemma {:induction false} FirstByte(es: seq<Event>)
    requires AllFit(es) && es != []
    ensures EncodeAll(es) != [] && EncodeAll(es)[0] != TYPE_LIST_STOP
  {
    assert Encode(es[0]) != [] && Encode(es[0])[0] != TYPE_LIST_STOP;
  }

  lemma {:induction false} AheadInTwo(c: Context, c': Context, a: seq<Byte>, b: seq<Byte>)
    requires Ok(c) && Ok(c') && Ahead(c, a + b)
    requires !c'.writing && c'.storage == c.storage && c'.len == c.len && c'.pos == c.pos + |a|
    ensures Ahead(c', b)
    ensures b == [] || b[0] != TYPE_LIST_STOP ==> Ahead(c, a)
  {
    var whole := c.storage[c.pos..c.pos + |a + b|];
    assert c.storage[c.pos..c.pos + |a|] == whole[..|a|] == a;
    assert c.storage[c.pos + |a|..c.pos + |a| + |b|] == whole[|a|..] == b;
    assert b != [] ==> c.storage[c.pos + |a|] == b[0];
  }

  /** A list begins: the reader steps into it. */
  lemma {:induction false} ListEntered(c: Context, items: seq<Event>, n: nat)
    requires Fits(List(items)) && Reading(c, n + 1) && Ahead(c, Encode(List(items))) && c.depth < MAX_NEST
    ensures var (c1, x) := Next(c);
            && x == Element(TYPE_LIST, Nothing, false)
            && Reading(c1, |items| % 256) && Ahead(c1, EncodeAll(items))
            && c1.depth == c.depth + 1 && c1.pos == c.pos + 2 && c1.len == c.len && c1.storage == c.storage
            && c1.count[..c1.depth] == c.count[..c.depth] + [n]
  {
    var bytes := Encode(List(items));
    assert c.storage[c.pos..c.pos + |bytes|][0] == TYPE_LIST && c.storage[c.pos..c.pos + |bytes|][1] == |items| % 256;
    NextKeepsOk(c);
    AheadInTwo(c, Next(c).0, [TYPE_LIST, |items| % 256], EncodeAll(items));
  }

  /** A list that has been read to its end is left by a stop. */
  lemma {:induction false} ListLeft(c: Context, c2: Context, n: nat)
    requires Ok(c) && Reading(c2, 0) && c2.depth >= 2 && c2.storage[c2.pos] != TYPE_LIST_STOP
    requires 1 <= c.depth == c2.depth - 1 && c2.count[..c2.depth] == c.count[..c.depth] + [n]
    ensures var (c3, x) := Next(c2);
            && x == Element(TYPE_LIST_STOP, Nothing, false)
            && Reading(c3, n) && c3.depth == c.depth && c3.count[..c.depth] == c.count[..c.depth]
            && c3.pos == c2.pos && c3.len == c2.len && c3.storage == c2.storage
  {
    NextKeepsOk(c2);
    assert c2.count[c.depth] == c2.count[..c2.depth][c.depth] == n;
    assert c2.count[..c.depth] == c2.count[..c2.depth][..c.depth];
  }

  lemma {:induction false} ListRead(c: Context, e: Event, n: nat)
    requires e.List? && Fits(e) && Reading(c, n + 1) && Ahead(c, Encode(e)) && !Bad(c.depth, e)
    ensures var (c', xs) := ReadMany(c, |Tokens(e)|);
            xs == Tokens(e) && Consumed(c, c', |Encode(e)|, 1)
    decreases e, 0
  {
    hide Next, Reading, Ahead, Fits, Bad, SomeBad;
    ReadingCounts(c, n + 1);
    BadList(c.depth, e);
    var k := |TokensAll(e.items)|;
    assert AllFit(e.items) by { ItemsFit(e); }
    ListEntered(c, e.items, n);
    NextKeepsOk(c);
    var (c1, x) := Next(c);
    assert ReadMany(c, 1) == (c1, [x]) by { OneRead(c); }
    AllRead(c1, e.items, 0);
    var (c2, xs) := ReadMany(c1, k);
    EndOfAhead(c1, c2, EncodeAll(e.items));
    ListLeft(c, c2, n);
    NextKeepsOk(c2);
    assert ReadMany(c2, 1) == (Next(c2).0, [Next(c2).1]) by { OneRead(c2); }
    ReadInTwo(c, 1, k);
    ReadInTwo(c, 1 + k, 1);
  }

  lemma {:induction false} ItemsFit(e: Event)
    requires e.List? && Fits(e)
    ensures AllFit(e.items)
  {
  }

  lemma {:induction false} ReadingCounts(c: Context, n: nat)
    requires Reading(c, n)
    ensures Ok(c) && 1 <= c.depth <= MAX_NEST && c.count[c.depth] == n
  {
  }

  lemma {:induction false} OneRead(c: Context)
    requires Ok(c)
    ensures ReadMany(c, 1) == (Next(c).0, [Next(c).1])
  {
    NextKeepsOk(c);
    var (c1, x) := Next(c);
    assert ReadMany(c1, 0) == (c1, []) && [x] + [] == [x];
  }

  lemma {:induction false} EndOfAhead(c: Context, c': Context, bytes: seq<Byte>)
    requires Ok(c) && Ok(c') && Ahead(c, bytes) && c'.storage == c.storage && c'.pos == c.pos + |bytes| && c'.pos < |c'.storage|
    ensures c'.storage[c'.pos] != TYPE_LIST_STOP
  {
  }

  lemma {:induction false} AllRead(c: Context, es: seq<Event>, n: nat)
    requires AllFit(es) && Reading(c, n + |es|) && Ahead(c, EncodeAll(es)) && !SomeBad(c.depth, es)
    ensures var (c', xs) := ReadMany(c, |TokensAll(es)|);
            xs == TokensAll(es) && Consumed(c, c', |EncodeAll(es)|, |es|)
    decreases es, 2
  {
    hide Next, Reading, Ahead, Encode, Tokens, Fits, Consumed, ReadMany, Bad, SomeBad;
    ReadingCounts(c, n + |es|);
    if es == [] {
      NothingRead(c, n);
    } else {
      FirstOrRest(c.depth, es);
      var a, b := Encode(es[0]), EncodeAll(es[1..]);
      if es[1..] != [] { FirstByte(es[1..]); }
      var k := |Tokens(es[0])|;
      AheadFirst(c, a, b);
      EventRead(c, es[0], n + |es| - 1);
      var (c1, xs) := ReadMany(c, k);
      ConsumedReads(c, c1, |a|, 1);
      AheadInTwo(c, c1, a, b);
      AllRead(c1, es[1..], n);
      var (c2, ys) := ReadMany(c1, |TokensAll(es[1..])|);
      ReadInTwo(c, k, |TokensAll(es[1..])|);
      ConsumedTwice(c, c1, c2, |a|, |b|, |es| - 1);
    }
  }

  lemma {:induction false} NothingRead(c: Context, n: nat)
    requires Reading(c, n)
    ensures ReadMany(c, 0) == (c, []) && Consumed(c, c, 0, 0)
  {
  }

  lemma {:induction false} ConsumedReads(c: Context, c': Context, size: nat, n: nat)
    requires Ok(c) && 1 <= c.depth <= MAX_NEST && n <= c.count[c.depth] && Consumed(c, c', size, n)
    ensures Reading(c', c.count[c.depth] - n) && c'.depth == c.depth && !c'.writing
    ensures c'.pos == c.pos + size && c'.len == c.len && c'.storage == c.storage
    ensures Ok(c') && c'.count[c'.depth] == c.count[c.depth] - n
  {
  }

  lemma {:induction false} ConsumedTwice(c: Context, c1: Context, c2: Context, a: nat, b: nat, n: nat)
    requires Ok(c) && 1 <= c.depth <= MAX_NEST && 1 + n <= c.count[c.depth] && Consumed(c, c1, a, 1)
    requires Ok(c1) && 1 <= c1.depth <= MAX_NEST && n <= c1.count[c1.depth] && Consumed(c1, c2, b, n)
    ensures Consumed(c, c2, a + b, 1 + n)
  {
  }

  lemma {:induction false} AheadFirst(c: Context, a: seq<Byte>, b: seq<Byte>)
    requires Ok(c) && Ahead(c, a + b) && (b == [] || b[0] != TYPE_LIST_STOP)
    ensures Ahead(c, a)
  {
    var whole := c.storage[c.pos..c.pos + |a + b|];
    assert c.storage[c.pos..c.pos + |a|] == whole[..|a|] == a;
    assert b != [] ==> whole[|a|] == b[0];
    assert a + [] == a;
  }

  // ----- the round trip -----

  /** Reading element by element until one is marked complete gives exactly these elements. */
  ghost predicate ReadsUntilComplete(c: Context, xs: seq<Element>)
    requires Ok(c)
  {
    && xs != [] && ReadMany(c, |xs|).1 == xs
    && xs[|xs| - 1].complete && forall i :: 0 <= i < |xs| - 1 ==> !xs[i].complete
  }

  /** The elements of a whole message: those of a list, the last stop marked complete. */
  function WholeTokens(items: seq<Event>): seq<Element> {
    [Element(TYPE_LIST, Nothing, false)] + TokensAll(items) + [Element(TYPE_LIST_STOP, Nothing, true)]
  }

  lemma {:induction false} NewWriterIsReady()
    ensures Writing(NewWriter()) && NewWriter().depth == 0 && NewWriter().pos == 2 && NewWriter().count[0] == 0
  {
  }

  /** What is sent: the encoding of the root list, or of its only element, or nothing. */
  lemma {:induction false} MessageIsEncoding(items: seq<Event>)
    requires AllFit(items) && WriteAll(NewWriter(), items).1
    ensures var w := WriteAll(NewWriter(), items).0;
            && Writing(w) && w.depth == 0 && 2 <= w.pos <= MAX_PAYLOAD
            && Message(w) == if |items| >= 2 then Encode(List(items)) else EncodeAll(items)
    ensures |EncodeAll(items)| + 2 <= MAX_PAYLOAD && NestingAll(items) <= MAX_NEST
  {
    NewWriterIsReady();
    AllWritten(NewWriter(), items);
    hide WriteAll, EncodeAll;
    HeaderFilled(WriteAll(NewWriter(), items).0, EncodeAll(items), |items|);
  }

  lemma {:induction false} HeaderFilled(w: Context, enc: seq<Byte>, n: nat)
    requires Ok(w) && Wrote(NewWriter(), w, enc, n)
    ensures Writing(w) && w.depth == 0 && 2 <= w.pos <= MAX_PAYLOAD
    ensures Message(w) == if n >= 2 then [TYPE_LIST, n % 256] + enc else enc
  {
    assert w.storage[2..w.pos] == enc;
    assert w.storage[1 := n % 256][2..w.pos] == enc;
    assert w.storage[1 := n % 256][..w.pos] == [TYPE_LIST, n % 256] + enc;
  }

  lemma {:induction false} NewReaderIsAtStart(msg: seq<Byte>)
    requires |msg| <= MAX_PAYLOAD
    ensures var r := NewReader(msg);
            Ok(r) && !r.writing && !r.stop && r.depth == 0 && r.pos == 0 && r.len == |msg| && Ahead(r, msg)
            && forall i :: 0 <= i <= MAX_NEST ==> r.count[i] == 0
  {
    var r := NewReader(msg);
    assert r.storage[0..|msg|] == msg;
  }

  lemma {:induction false} RootEntered(items: seq<Event>)
    requires AllFit(items) && |EncodeAll(items)| + 2 <= MAX_PAYLOAD
    ensures var r := NewReader(Encode(List(items)));
            Ok(r) && var (c1, x) := Next(r);
            && x == Element(TYPE_LIST, Nothing, false)
            && Reading(c1, |items| % 256) && Ahead(c1, EncodeAll(items)) && c1.depth == 1 && c1.count[0] == 0
  {
    hide EncodeAll, Put;
    var msg := Encode(List(items));
    NewReaderIsAtStart(msg);
    var r := NewReader(msg);
    assert r.storage[0..|msg|][0] == TYPE_LIST && r.storage[0..|msg|][1] == |items| % 256;
    NextKeepsOk(r);
    EntersRoot(r, |items| % 256);
    AheadInTwo(r, Next(r).0, [TYPE_LIST, |items| % 256], EncodeAll(items));
  }

  lemma {:induction false} EntersRoot(r: Context, n: nat)
    requires Ok(r) && !r.writing && !r.stop && r.pos == 0 && r.depth == 0 && r.count[0] == 0 && r.len >= 2
    requires r.storage[0] == TYPE_LIST && r.storage[1] == n
    ensures var (c1, x) := Next(r);
      && x == Element(TYPE_LIST, Nothing, false)
      && c1 == r.(count := r.count[0 := 0][1 := n], stop := n == 0, depth := 1, pos := 2)
  {
  }

  lemma {:induction false} RootLeft(c: Context)
    requires Reading(c, 0) && c.depth == 1 && c.count[0] == 0
    ensures Next(c).1 == Element(TYPE_LIST_STOP, Nothing, true)
  {
  }

  /** Reading the encoding of a list from the start gives its elements, if it is not nested too deep for a reader and all
      lists can be counted. */
  lemma {:induction false} ListMessageRead(items: seq<Event>)
    requires AllFit(items) && |EncodeAll(items)| + 2 <= MAX_PAYLOAD && NestingAll(items) < MAX_NEST && Countable(List(items))
    ensures Ok(NewReader(Encode(List(items)))) && ReadsUntilComplete(NewReader(Encode(List(items))), WholeTokens(items))
  {
    hide Next, Reading, Ahead, Encode, NewReader, Consumed, TokensAll, EncodeAll, NestingAll;
    RootEntered(items);
    var r := NewReader(Encode(List(items)));
    NextKeepsOk(r);
    var (c1, x) := Next(r);
    OneRead(r);
    AllRead(c1, items, 0);
    var k := |TokensAll(items)|;
    var (c2, xs) := ReadMany(c1, k);
    ReadingCounts(c1, |items|);
    ConsumedReads(c1, c2, |EncodeAll(items)|, |items|);
    LowerCounts(c1, c2, |EncodeAll(items)|, |items|);
    RootLeft(c2);
    OneRead(c2);
    ReadInTwo(r, 1, k);
    ReadInTwo(r, 1 + k, 1);
    NoneComplete(items);
  }

  lemma {:induction false} LowerCounts(c: Context, c': Context, size: nat, n: nat)
    requires Ok(c) && c.depth == 1 && n <= c.count[1] && Consumed(c, c', size, n)
    ensures c'.count[0] == c.count[0]
  {
    assert c'.count[..1][0] == c.count[..1][0];
  }

  lemma {:induction false} NoneComplete(es: seq<Event>)
    ensures forall i :: 0 <= i < |TokensAll(es)| ==> !TokensAll(es)[i].complete
    decreases es, 1
  {
    if es != [] {
      NoneCompleteIn(es[0]);
      NoneComplete(es[1..]);
    }
  }

  lemma {:induction false} NoneCompleteIn(e: Event)
    ensures forall i :: 0 <= i < |Tokens(e)| ==> !Tokens(e)[i].complete
    decreases e, 0
  {
    if e.List? { NoneComplete(e.items); }
  }

  // ----- lists that are nested too deep or too long -----

  /** The elements that are read differ from these at k. */
  ghost predicate DiffersAt(c: Context, k: nat, xs: seq<Element>)
    requires Ok(c)
  {
    k < |xs| && ReadMany(c, k + 1).1[k] != xs[k]
  }

  lemma {:induction false} DiffersLater(c: Context, first: nat, k: nat, a: seq<Element>, b: seq<Element>)
    requires Ok(c) && |a| == first && DiffersAt(ReadMany(c, first).0, k, b)
    ensures DiffersAt(c, first + k, a + b)
  {
    hide ReadMany;
    ReadInTwo(c, first, k + 1);
    assert first + (k + 1) == first + k + 1 && (a + b)[first + k] == b[k];
  }

  lemma {:induction false} DiffersLonger(c: Context, k: nat, a: seq<Element>, b: seq<Element>)
    requires Ok(c) && DiffersAt(c, k, a)
    ensures DiffersAt(c, k, a + b)
  {
  }

  /** A list that opens at the limit is marked complete at once; one that is too long ends early. Either way a reader gets
      something else than what was written. */
  lemma {:induction false} BadEventDiffers(c: Context, e: Event, n: nat) returns (k: nat)
    requires Fits(e) && Reading(c, n + 1) && Ahead(c, Encode(e)) && Bad(c.depth, e)
    ensures DiffersAt(c, k, Tokens(e))
    decreases e, 0
  {
    hide Ahead, Reading, Next, ReadMany, DiffersAt, Bad, SomeBad, Fits;
    ReadingCounts(c, n + 1);
    BadList(c.depth, e);
    OneRead(c);
    NextKeepsOk(c);
    if c.depth == MAX_NEST {
      k := 0;
      OpensAtLimit(c, e, n);
    } else {
      ItemsFit(e);
      ListEntered(c, e.items, n);
      var begin, stop := [Element(TYPE_LIST, Nothing, false)], [Element(TYPE_LIST_STOP, Nothing, false)];
      if |e.items| < 256 {
        k := BadAllDiffers(Next(c).0, e.items, 0);
      } else {
        k := LongDiffers(Next(c).0, e.items);
      }
      DiffersLater(c, 1, k, begin, TokensAll(e.items));
      DiffersLonger(c, 1 + k, begin + TokensAll(e.items), stop);
      k := 1 + k;
    }
  }

  lemma {:induction false} OpensAtLimit(c: Context, e: Event, n: nat)
    requires Fits(e) && e.List? && Reading(c, n + 1) && Ahead(c, Encode(e)) && c.depth == MAX_NEST
    ensures Next(c).1.complete && DiffersAt(c, 0, Tokens(e))
  {
    var bytes := Encode(e);
    assert c.storage[c.pos..c.pos + |bytes|][0] == TYPE_LIST;
    OneRead(c);
  }

  lemma {:induction false} BadAllDiffers(c: Context, es: seq<Event>, n: nat) returns (k: nat)
    requires AllFit(es) && Reading(c, n + |es|) && Ahead(c, EncodeAll(es)) && SomeBad(c.depth, es)
    ensures DiffersAt(c, k, TokensAll(es))
    decreases es, 1
  {
    hide Next, Reading, Ahead, Encode, Tokens, Fits, Consumed, ReadMany, DiffersAt, Bad, SomeBad;
    ReadingCounts(c, n + |es|);
    if es == [] {
      NoneIsBad(c.depth);
      assert false;
    }
    FirstOrRest(c.depth, es);
    var a, b := Encode(es[0]), EncodeAll(es[1..]);
    if es[1..] != [] { FirstByte(es[1..]); }
    AheadFirst(c, a, b);
    if Bad(c.depth, es[0]) {
      k := BadEventDiffers(c, es[0], n + |es| - 1);
      DiffersLonger(c, k, Tokens(es[0]), TokensAll(es[1..]));
    } else {
      EventRead(c, es[0], n + |es| - 1);
      var first := |Tokens(es[0])|;
      var c1 := ReadMany(c, first).0;
      ConsumedReads(c, c1, |a|, 1);
      AheadInTwo(c, c1, a, b);
      k := BadAllDiffers(c1, es[1..], n);
      DiffersLater(c, first, k, Tokens(es[0]), TokensAll(es[1..]));
      k := first + k;
    }
  }

  lemma NoneIsBad(depth: nat)
    requires depth <= MAX_NEST
    ensures !SomeBad(depth, [])
  {
  }

  /** Inside a list of more elements than its counter says: the stop comes after as many as it says. */
  lemma {:induction false} LongDiffers(c: Context, es: seq<Event>) returns (k: nat)
    requires AllFit(es) && |es| >= 256 && Reading(c, |es| % 256) && Ahead(c, EncodeAll(es))
    ensures DiffersAt(c, k, TokensAll(es))
    decreases es, 2
  {
    hide Next, Reading, Ahead, Encode, Tokens, TokensAll, EncodeAll, Fits, Consumed, ReadMany, DiffersAt, SomeBad;
    var m := |es| % 256;
    var few, rest := es[..m], es[m..];
    ReadingCounts(c, m);
    assert es == few + rest;
    AllSplit(few, rest);
    FirstByte(rest);
    AheadFirst(c, EncodeAll(few), EncodeAll(rest));
    if SomeBad(c.depth, few) {
      k := BadAllDiffers(c, few, 0);
      DiffersLonger(c, k, TokensAll(few), TokensAll(rest));
    } else {
      AllRead(c, few, 0);
      k := |TokensAll(few)|;
      var c1 := ReadMany(c, k).0;
      ConsumedReads(c, c1, |EncodeAll(few)|, m);
      StopInstead(c1, rest);
      DiffersLater(c, k, 0, TokensAll(few), TokensAll(rest));
    }
  }

  lemma {:induction false} AllSplit(a: seq<Event>, b: seq<Event>)
    requires AllFit(a) && AllFit(b)
    ensures AllFit(a + b)
    ensures EncodeAll(a + b) == EncodeAll(a) + EncodeAll(b) && TokensAll(a + b) == TokensAll(a) + TokensAll(b)
    decreases |a|
  {
    hide Encode, Tokens, Fits;
    if a == [] {
      assert a + b == b;
    } else {
      assert (a + b)[1..] == a[1..] + b;
      AllSplit(a[1..], b);
    }
  }

  lemma {:induction false} StopInstead(c: Context, es: seq<Event>)
    requires Reading(c, 0) && es != []
    ensures DiffersAt(c, 0, TokensAll(es))
  {
    OneRead(c);
    assert Next(c).1.kind == TYPE_LIST_STOP;
    FirstToken(es);
  }

  lemma {:induction false} FirstToken(es: seq<Event>)
    requires es != []
    ensures TokensAll(es) != [] && TokensAll(es)[0].kind != TYPE_LIST_STOP
  {
    assert Tokens(es[0]) != [] && Tokens(es[0])[0].kind != TYPE_LIST_STOP;
  }

  /** What the reader does not get back. */
  lemma {:induction false} ListMessageNotRead(items: seq<Event>)
    requires AllFit(items) && |EncodeAll(items)| + 2 <= MAX_PAYLOAD && (NestingAll(items) >= MAX_NEST || !Countable(List(items)))
    ensures Ok(NewReader(Encode(List(items)))) && !ReadsUntilComplete(NewReader(Encode(List(items))), WholeTokens(items))
  {
    hide Next, Reading, Ahead, Encode, NewReader, ReadMany, DiffersAt;
    RootEntered(items);
    var r := NewReader(Encode(List(items)));
    NextKeepsOk(r);
    OneRead(r);
    var c1 := Next(r).0;
    var k;
    if |items| < 256 {
      k := BadAllDiffers(c1, items, 0);
    } else {
      k := LongDiffers(c1, items);
    }
    var begin, stop := [Element(TYPE_LIST, Nothing, false)], [Element(TYPE_LIST_STOP, Nothing, true)];
    DiffersLater(r, 1, k, begin, TokensAll(items));
    DiffersLonger(r, 1 + k, begin + TokensAll(items), stop);
    NotAllRead(r, 1 + k, WholeTokens(items));
  }

  lemma {:induction false} NotAllRead(c: Context, k: nat, xs: seq<Element>)
    requires Ok(c) && DiffersAt(c, k, xs)
    ensures !ReadsUntilComplete(c, xs)
  {
    ReadInTwo(c, k + 1, |xs| - (k + 1));
    assert ReadMany(c, |xs|).1[k] == ReadMany(c, k + 1).1[k];
  }

  /** The round trip: a log of at least two elements that was written without a failing call reads back as the same
      elements, with every list stop, up to the one marked complete, exactly when it is nested less deep than the limit and
      neither it nor a list in it has more than 255 elements. */
  lemma {:induction false} RoundTrip(items: seq<Event>)
    requires AllFit(items) && 2 <= |items| && WriteAll(NewWriter(), items).1
    ensures var w := WriteAll(NewWriter(), items).0;
            && w.writing && w.depth == 0 && 2 <= w.pos <= STORAGE_SIZE && Ok(NewReader(Message(w)))
            && (ReadsUntilComplete(NewReader(Message(w)), WholeTokens(items)) <==>
                  NestingAll(items) < MAX_NEST && |items| <= 255 && AllCountable(items))
  {
    MessageIsEncoding(items);
    if NestingAll(items) < MAX_NEST && Countable(List(items)) { ListMessageRead(items); } else { ListMessageNotRead(items); }
  }

  /** A number inside k lists. */
  function Tower(k: nat): (e: Event)
    ensures Nesting(e) == k && Fits(e) && Countable(e)
  {
    if k == 0 then Int(0) else
      var inner := Tower(k - 1);
      assert NestingAll([inner]) == Nesting(inner);
      List([inner])
  }

  lemma {:induction false} TowerSize(k: nat)
    ensures |Encode(Tower(k))| == 2 * k + 5
  {
    if k > 0 {
      TowerSize(k - 1);
      assert EncodeAll([Tower(k - 1)]) == Encode(Tower(k - 1)) + [];
    }
  }

  lemma GroundFloor()
    ensures Tower(0) == Int(0)
  {
  }

  /** A log that every writing call accepts and that cannot be read back: a number and a number inside as many lists as the
      writer allows. */
  lemma {:induction false} DeepLogIsLost()
    ensures var items := [Int(0), Tower(MAX_NEST)];
            var (w, good) := WriteAll(NewWriter(), items);
            && good && AllFit(items)
            && w.writing && w.depth == 0 && 2 <= w.pos <= STORAGE_SIZE && Ok(NewReader(Message(w)))
            && !ReadsUntilComplete(NewReader(Message(w)), WholeTokens(items))
  {
    hide WriteAll, Encode, Tower;
    var items := [Int(0), Tower(MAX_NEST)];
    TowerSize(MAX_NEST);
    assert |Encode(Int(0))| == 5 by { TowerSize(0); GroundFloor(); }
    TwoSizes(Int(0), Tower(MAX_NEST));
    NewWriterIsReady();
    AllWritten(NewWriter(), items);
    RoundTrip(items);
  }

  lemma {:induction false} TwoSizes(a: Event, b: Event)
    requires Fits(a) && Fits(b)
    ensures AllFit([a, b]) && |EncodeAll([a, b])| == |Encode(a)| + |Encode(b)|
    ensures NestingAll([a, b]) == if Nesting(a) >= Nesting(b) then Nesting(a) else Nesting(b)
  {
    hide Encode, Nesting;
    assert [a, b][1..] == [b] && [b][1..] == [];
    assert EncodeAll([b]) == Encode(b) + EncodeAll([]);
    assert EncodeAll([a, b]) == Encode(a) + EncodeAll([b]);
    assert NestingAll([b]) == Nesting(b);
  }

  /** n zeros. */
  function Noughts(n: nat): (es: seq<Event>)
    ensures |es| == n && AllFit(es) && AllCountable(es) && NestingAll(es) == 0
  {
    if n == 0 then [] else [Int(0)] + Noughts(n - 1)
  }

  lemma {:induction false} NoughtsSize(n: nat)
    ensures |EncodeAll(Noughts(n))| == 5 * n
  {
    if n > 0 {
      NoughtsSize(n - 1);
      assert Noughts(n)[1..] == Noughts(n - 1);
      assert |LittleEndian(0, 4)| == 4;
    }
  }

  /** A log of 256 numbers that every writing call accepts and that cannot be read back. */
  lemma {:induction false} LongLogIsLost()
    ensures var items := Noughts(256);
            var (w, good) := WriteAll(NewWriter(), items);
            && good && AllFit(items) && NestingAll(items) == 0
            && w.writing && w.depth == 0 && 2 <= w.pos <= STORAGE_SIZE && Ok(NewReader(Message(w)))
            && !ReadsUntilComplete(NewReader(Message(w)), WholeTokens(items))
  {
    hide WriteAll, EncodeAll, Noughts;
    var items := Noughts(256);
    NoughtsSize(256);
    NewWriterIsReady();
    AllWritten(NewWriter(), items);
    RoundTrip(items);
  }

  /** A log of one list is sent without the root list, and reads back as that list exactly when no list has more than 255
      elements. */
  lemma {:induction false} SingleListRoundTrip(items: seq<Event>)
    requires Fits(List(items)) && WriteAll(NewWriter(), [List(items)]).1
    ensures var w := WriteAll(NewWriter(), [List(items)]).0;
            && w.writing && w.depth == 0 && 2 <= w.pos <= STORAGE_SIZE && Ok(NewReader(Message(w)))
            && (ReadsUntilComplete(NewReader(Message(w)), WholeTokens(items)) <==> |items| <= 255 && AllCountable(items))
  {
    MessageIsEncoding([List(items)]);
    assert EncodeAll([List(items)]) == Encode(List(items)) + [] == Encode(List(items));
    if Countable(List(items)) { ListMessageRead(items); } else { ListMessageNotRead(items); }
  }

  // ----- how far the position goes -----

  /** The calls that write, in any order. */
  datatype Call = BeginCall | ScalarCall(kind: Byte, bytes: seq<Byte>) | TextCall(s: seq<Byte>) | EndCall

  function Answer(c: Context, call: Call): (r: (Context, int))
    requires Ok(c)
    ensures Ok(r.0)
  {
    match call
    case BeginCall => Begin(c)
    case ScalarCall(kind, bytes) => Scalar(c, kind, bytes)
    case TextCall(s) => Text(c, s)
    case EndCall => End(c)
  }

  function Calls(c: Context, calls: seq<Call>): (r: Context)
    requires Ok(c)
    ensures Ok(r)
    decreases |calls|
  {
    if calls == [] then c else Calls(Answer(c, calls[0]).0, calls[1..])
  }

  /** A string is accepted here although it would reach past the storage, cut short. */
  predicate CutPastStorage(c: Context, call: Call)
    requires Ok(c)
  {
    call.TextCall? && Answer(c, call).1 >= 0 && c.pos + 5 + |call.s| > STORAGE_SIZE
  }

  /** One call moves the position past the storage exactly if it is such a string, and none moves it back. */
  lemma {:induction false} CallMoves(c: Context, call: Call)
    requires Ok(c) && c.writing
    ensures var c' := Answer(c, call).0;
      && c'.writing && c'.pos >= c.pos
      && (c'.pos > STORAGE_SIZE <==> c.pos > STORAGE_SIZE || CutPastStorage(c, call))
      && (CutPastStorage(c, call) ==> Answer(c, call).1 < |call.s|)
  {
  }

  lemma {:induction false} MovesFrom(c: Context, calls: seq<Call>)
    requires Ok(c) && c.writing
    ensures var c' := Calls(c, calls);
      && c'.writing && c'.pos >= c.pos
      && (c'.pos > STORAGE_SIZE <==>
            c.pos > STORAGE_SIZE || exists n :: 0 <= n < |calls| && CutPastStorage(Calls(c, calls[..n]), calls[n]))
    decreases |calls|
  {
    hide CutPastStorage, Answer;
    if calls != [] {
      var next := Answer(c, calls[0]).0;
      CallMoves(c, calls[0]);
      MovesFrom(next, calls[1..]);
      forall n {:trigger calls[..n]} | 0 < n < |calls|
        ensures Calls(c, calls[..n]) == Calls(next, calls[1..][..n - 1])
      {
        assert calls[..n][1..] == calls[1..][..n - 1];
      }
      assert Calls(c, calls[..0]) == c;
      if n: int :| 0 <= n < |calls[1..]| && CutPastStorage(Calls(next, calls[1..][..n]), calls[1..][n]) {
        assert calls[..n + 1] == [calls[0]] + calls[1..][..n];
        assert CutPastStorage(Calls(c, calls[..n + 1]), calls[n + 1]);
      }
      if n: int :| 0 <= n < |calls| && CutPastStorage(Calls(c, calls[..n]), calls[n]) {
        if n > 0 {
          assert CutPastStorage(Calls(next, calls[1..][..n - 1]), calls[1..][n - 1]);
        }
      }
    }
  }

  /** After any calls on a new context, what is handed to the logger lies within the storage if and only if no string was
      accepted, cut short, that would have reached past it. */
  lemma {:induction false} MessageInStorage(calls: seq<Call>)
    ensures var w := Calls(NewWriter(), calls);
      && w.writing && 2 <= w.pos
      && (w.pos <= STORAGE_SIZE <==>
            forall n :: 0 <= n < |calls| ==> !CutPastStorage(Calls(NewWriter(), calls[..n]), calls[n]))
  {
    NewWriterIsReady();
    MovesFrom(NewWriter(), calls);
  }

  /** One such string: the longest that the plain call takes. */
  lemma {:induction false} LongestIsCut()
    ensures var s := seq(MAX_PAYLOAD, i => 65);
      && Answer(NewWriter(), TextCall(s)).1 == MAX_PAYLOAD - 7
      && Answer(NewWriter(), TextCall(s)).0.pos == STORAGE_SIZE + 3
  {
  }

  // ----- calls that fail -----

  /** Which calls a writing context refuses, and with which code: EOVERFLOW (75) for lists that are opened too deep or closed
      without having been opened, EIO (5) for what finds no room or comes after a failure. */
  lemma {:induction false} RefusedExactly(c: Context, call: Call)
    requires Ok(c) && c.writing
    ensures var code := Answer(c, call).1;
      match call
      case BeginCall =>
        && (code == -75 <==> c.depth > 8 || (c.depth == 8 && c.pos + 2 <= 4064))
        && (code == -5 <==> c.depth <= 8 && (c.pos + 2 > 4064 || (c.depth < 8 && c.overflow)))
        && (code == 0 <==> c.depth < 8 && c.pos + 2 <= 4064 && !c.overflow)
      case ScalarCall(_, bytes) =>
        && (code == 0 <==> !c.overflow && c.pos + 1 + |bytes| <= 4064)
        && (code != 0 ==> code == -5)
      case TextCall(s) =>
        && (code == |s| <==> !c.overflow && c.pos + 5 + |s| <= 4064)
        && (0 < code < |s| <==> !c.overflow && c.pos + 5 < 4064 < c.pos + 5 + |s|)
        && (0 < code < |s| ==> code == 4064 - 5 - c.pos)
        && (code == -5 <==> c.overflow || (c.pos + 5 + |s| > 4064 && c.pos + 5 >= 4064))
        && (code == -5 || 0 <= code <= |s|)
      case EndCall =>
        && (code == 0 <==> 1 <= c.depth <= 8 && c.list[c.depth] != 0)
        && (code != 0 ==> code == -75)
  {
  }

  /** What an accepted string leaves in the storage: the encoding of as much of it as the code says. */
  lemma {:induction false} AcceptedText(c: Context, s: seq<Byte>)
    requires Ok(c) && c.writing && Answer(c, TextCall(s)).1 >= 0
    ensures var (c', code) := Answer(c, TextCall(s));
      && code <= |s| && c.pos + 5 + code <= STORAGE_SIZE
      && c'.storage[c.pos..c.pos + 5 + code] == Encode(Str(s[..code]))
  {
    hide LittleEndian;
  }

  /** Only reading contexts refuse everything, with EBADF (9). */
  lemma {:induction false} ReadersDoNotWrite(c: Context, call: Call)
    requires Ok(c)
    ensures Answer(c, call).1 == -9 <==> !c.writing
    ensures !c.writing ==> Answer(c, call).0 == c
  {
  }

  /** How deep a call leaves the context: an opened list counts even if it was refused for being one too deep or for coming
      after a failure, but not if there was no room for it; and whatever else happens, a closed one is closed. */
  lemma {:induction false} Depths(c: Context, call: Call)
    requires Ok(c) && c.writing
    ensures Answer(c, call).0.depth ==
      if call.BeginCall? && c.depth <= 8 && c.pos + 2 <= 4064 then c.depth + 1
      else if call.EndCall? && c.depth > 0 then c.depth - 1
      else c.depth
  {
  }

  /** One call that fails is enough: after it nothing is opened or added any more, whatever else is called. */
  lemma {:induction false} FailureSticks(c: Context, calls: seq<Call>, n: nat, call: Call)
    requires Ok(c) && c.writing && n < |calls| && Answer(Calls(c, calls[..n]), calls[n]).1 < 0 && !call.EndCall?
    ensures Answer(Calls(c, calls), call).1 < 0 && Calls(c, calls).pos == Calls(c, calls[..n]).pos
    decreases n
  {
    hide Answer;
    if n == 0 {
      assert calls[..0] == [];
      FailureSets(c, calls[0]);
      StaysFailed(Answer(c, calls[0]).0, calls[1..]);
      FailedRefuses(Calls(c, calls), call);
    } else {
      assert calls[..n][1..] == calls[1..][..n - 1];
      StillWriting(c, calls[0]);
      FailureSticks(Answer(c, calls[0]).0, calls[1..], n - 1, call);
    }
  }

  lemma {:induction false} StillWriting(c: Context, call: Call)
    requires Ok(c) && c.writing
    ensures Answer(c, call).0.writing
  {
  }

  lemma {:induction false} FailureSets(c: Context, call: Call)
    requires Ok(c) && c.writing && Answer(c, call).1 < 0
    ensures Answer(c, call).0.overflow && Answer(c, call).0.writing && Answer(c, call).0.pos == c.pos
  {
  }

  lemma {:induction false} FailedRefuses(c: Context, call: Call)
    requires Ok(c) && c.writing && c.overflow
    ensures Answer(c, call).0.overflow && Answer(c, call).0.writing && Answer(c, call).0.pos == c.pos
    ensures !call.EndCall? ==> Answer(c, call).1 < 0
  {
  }

  lemma {:induction false} StaysFailed(c: Context, calls: seq<Call>)
    requires Ok(c) && c.writing && c.overflow
    ensures Calls(c, calls).overflow && Calls(c, calls).writing && Calls(c, calls).pos == c.pos
    decreases |calls|
  {
    hide Answer;
    if calls != [] {
      FailedRefuses(c, calls[0]);
      StaysFailed(Answer(c, calls[0]).0, calls[1..]);
    }
  }

  // ----- a log of at most one element that is no list -----

  /** A log of one number or string is sent without the root list, and reads back as that element, marked complete. */
  lemma {:induction false} SingleElementRoundTrip(e: Event)
    requires Fits(e) && !e.List? && WriteAll(NewWriter(), [e]).1
    ensures var w := WriteAll(NewWriter(), [e]).0;
      && w.writing && w.depth == 0 && 2 <= w.pos <= STORAGE_SIZE && Ok(NewReader(Message(w)))
      && ReadsUntilComplete(NewReader(Message(w)), [Tokens(e)[0].(complete := true)])
  {
    hide WriteAll, Next, Message, NewReader, Encode, Ahead, Tokens;
    MessageIsEncoding([e]);
    assert EncodeAll([e]) == Encode(e) + [] == Encode(e);
    NewReaderIsAtStart(Encode(e));
    var r := NewReader(Encode(e));
    FirstElement(r, e);
    OneRead(r);
  }

  lemma {:induction false} FirstElement(c: Context, e: Event)
    requires Fits(e) && !e.List?
    requires Ok(c) && Ahead(c, Encode(e)) && !c.stop && c.depth == 0 && c.count[0] == 0
    ensures |Tokens(e)| == 1 && Next(c).1 == Tokens(e)[0].(complete := true)
  {
    hide Next, Ahead;
    Widths();
    match e {
      case Int(v) => FirstNumber(c, TYPE_INT, v, 4);
      case Float(v) => FirstNumber(c, TYPE_FLOAT, v, 4);
      case Long(v) => FirstNumber(c, TYPE_LONG, v, 8);
      case Str(s) => FirstText(c, s);
    }
  }

  lemma {:induction false} FirstNumber(c: Context, kind: Byte, v: nat, size: nat)
    requires kind in {TYPE_INT, TYPE_FLOAT, TYPE_LONG} && size == (if kind == TYPE_LONG then 8 else 4) && v < Power256(size)
    requires Ok(c) && Ahead(c, [kind] + LittleEndian(v, size)) && !c.stop && c.depth == 0 && c.count[0] == 0
    ensures Next(c).1 == Element(kind, Number(v), true)
  {
    var bytes := [kind] + LittleEndian(v, size);
    assert c.storage[c.pos] == bytes[0];
    LittleEndianInverse(v, size);
    assert c.storage[c.pos + 1..c.pos + 1 + size] == bytes[1..] == LittleEndian(v, size);
  }

  lemma {:induction false} FirstText(c: Context, s: seq<Byte>)
    requires Ok(c) && Ahead(c, Encode(Str(s))) && !c.stop && c.depth == 0 && c.count[0] == 0
    ensures Next(c).1 == Element(TYPE_STRING, Chars(s), true)
  {
    hide LittleEndian, FromLittleEndian;
    var bytes := Encode(Str(s));
    assert |s| < c.len <= MAX_PAYLOAD;
    assert c.storage[c.pos] == bytes[0];
    Widths();
    LittleEndianInverse(|s|, 4);
    SliceOfSlice(c.storage, c.pos, c.pos + |bytes|, 1, 5);
    SliceOfSlice(c.storage, c.pos, c.pos + |bytes|, 5, |bytes|);
    assert c.storage[c.pos + 1..c.pos + 5] == bytes[1..5] == LittleEndian(|s|, 4);
    assert c.storage[c.pos + 5..c.pos + 5 + |s|] == bytes[5..|bytes|] == s;
  }

  /** A log of nothing reads as the end. */
  lemma {:induction false} EmptyRoundTrip()
    ensures Message(NewWriter()) == [] && Ok(NewReader([]))
    ensures ReadsUntilComplete(NewReader([]), [Element(TYPE_UNKNOWN, Nothing, true)])
  {
    NewReaderIsAtStart([]);
    OneRead(NewReader([]));
  }

  // ----- what a reader makes of any bytes -----

  /** What is left to read of the message. */
  ghost function Left(c: Context): seq<Byte>
    requires Ok(c) && !c.writing
  {
    c.storage[c.pos..c.len]
  }

  /** A reader that is due an element and finds none that is whole: at the end, in front of a cut number or list, and in front
      of an unknown type it stays where it is, so that reading on gives the same for ever. Only at the end, for a cut length
      and for a string without a byte of its own does it say that it is complete. */
  lemma {:induction false} ReaderSticksExactly(c: Context)
    requires Ok(c) && !c.writing && c.depth <= 8 && c.count[c.depth] < 2032 && !c.stop
    ensures var left := Left(c);
      var cut := if left == [] then true else match left[0]
        case 0 => |left| < 5
        case 1 => |left| < 9
        case 2 => |left| < 5 || (|left| == 5 && (left[1] != 0 || left[2] != 0))
        case 3 => |left| < 2
        case 4 => |left| < 5
        case 10 => false
        case _ => true;
      && (Next(c).0 == c <==> cut)
      && (cut ==> Next(c).1 == Element(63, Nothing, left == [] || left[0] == 2 || left[0] == 3))
  {
    var left := Left(c);
    if left != [] {
      assert left[0] == c.storage[c.pos];
      if |left| >= 5 { TextLength(c); }
    }
  }

  lemma {:induction false} TextLength(c: Context)
    requires Ok(c) && !c.writing && c.pos + 5 <= c.len
    ensures FromLittleEndian(c.storage[c.pos + 1..c.pos + 5]) % 0x1_0000 == Left(c)[1] as nat + 256 * Left(c)[2] as nat
  {
    var s := c.storage[c.pos + 1..c.pos + 5];
    LowHalf(s);
    assert Left(c)[1] == s[0] && Left(c)[2] == s[1];
  }

  lemma {:induction false} LowHalf(s: seq<Byte>)
    requires |s| == 4
    ensures FromLittleEndian(s) % 0x1_0000 == s[0] as nat + 256 * s[1] as nat
  {
    var a: nat, b: nat := s[0], s[1];
    assert s[1..][0] == s[1] && s[1..][1..] == s[2..];
    assert FromLittleEndian(s) == a + 256 * (b + 256 * FromLittleEndian(s[2..]));
  }

  /** A string has as many bytes as the low half of its length says, or what is left of the message. */
  lemma {:induction false} TextIsCut(c: Context)
    requires Ok(c) && !c.writing && c.depth <= 8 && c.count[c.depth] < 2032 && !c.stop
    requires |Left(c)| > 5 && Left(c)[0] == 2
    ensures var left := Left(c);
      var n := left[1] as nat + 256 * left[2] as nat;
      var end := if 5 + n <= |left| then 5 + n else |left|;
      Next(c).1.data == Chars(left[5..end]) && Next(c).0.pos == c.pos + end
  {
    TextLength(c);
    var left := Left(c);
    var n := left[1] as nat + 256 * left[2] as nat;
    var end := if 5 + n <= |left| then 5 + n else |left|;
    assert left[0] == c.storage[c.pos];
    SliceOfSlice(c.storage, c.pos, c.len, 5, end);
    hide Left, FromLittleEndian;
  }

  /** A message is read up to the size a log entry can have. */
  lemma {:induction false} LongMessageIsCut(msg: seq<Byte>)
    ensures var r := NewReader(msg);
      Ok(r) && !r.writing && r.pos == 0 && r.depth == 0 && !r.stop && Left(r) == if |msg| <= 4064 then msg else msg[..4064]
  {
  }

  /** Where a list ends: its stop is due after its last element, and a stop byte that follows is taken with it. It is complete
      if that was the last list of the log. */
  lemma {:induction false} StopIsDue(c: Context)
    requires Ok(c) && !c.writing && c.depth <= 8 && c.count[c.depth] < 2032 && c.stop
    ensures var (c', x) := Next(c);
      && x.kind == 10 && x.data == Nothing
      && (x.complete <==> c.depth <= 1 && forall i :: 0 <= i <= c.depth ==> c.count[i] == 0)
      && c'.depth == (if c.depth == 0 then 0 else c.depth - 1)
      && c'.pos == c.pos + (if c.storage[c.pos] == 10 then 1 else 0)
      && (c'.stop <==> c.depth > 0 && c.count[c.depth - 1] == 0)
      && c'.count == c.count
  {
  }

  /** A stop byte where an element is due ends the list it is in; outside all lists it is an unknown element, the last. */
  lemma {:induction false} EarlyStop(c: Context)
    requires Ok(c) && !c.writing && c.depth <= 8 && c.count[c.depth] < 2032 && !c.stop && Left(c) != [] && Left(c)[0] == 10
    ensures var (c', x) := Next(c);
      && c'.pos == c.pos + 1 && c'.count == c.count && !c'.stop
      && (if c.depth > 0 then c'.depth == c.depth - 1 && x == Element(10, Nothing, false)
          else c'.depth == 0 && x == Element(63, Nothing, true))
  {
    assert Left(c)[0] == c.storage[c.pos];
  }

  /** A context that is written to, or nested too deep to be read, or that claims to have too many elements is complete at
      once. */
  lemma {:induction false} NothingToRead(c: Context)
    requires Ok(c) && (c.writing || c.depth > 8 || c.count[c.depth] >= 2032)
    ensures var (c', x) := Next(c);
      c' == c && x.complete && x.data == Nothing && x.kind == if c.stop || (c.depth <= 8 && c.count[c.depth] == 0) then 10 else 63
  {
  }
}
