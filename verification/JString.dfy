/** Java's modified UTF-8 and UTF-16 (strdup8to16.c, strdup16to8.c): what the two directions write, and that the buffer
    sizes computed beforehand are right. A text is what lies before the terminating zero. */
module JString {
  import opened Bytes
  import opened LeadBytes

  const REPLACEMENT: Unit := 0xfffd
  const UPPER_LIMIT: nat := 0x10_fffd
  const SIZE_MAX: nat := 0xffff_ffff_ffff_ffff

  /** No byte is the terminator. */
  ghost predicate Text(s: seq<Byte>) {
    forall i :: 0 <= i < |s| ==> s[i] != 0
  }

  predicate Continuation(b: Byte) {
    0x80 <= b < 0xc0
  }

  // ----- UTF-8 to UTF-16 -----

  /** The bits of a lead byte that belong to the code point. */
  function LeadBits(b: Byte): nat {
    match SequenceLength(b)
    case 1 => b
    case 2 => b % 0x20
    case 3 => b % 0x10
    case _ => b % 0x08
  }

  /** The continuation bytes of a sequence: the code point, or the replacement, and where the next sequence starts. */
  function Follow(s: seq<Byte>, i: nat, missing: nat, point: nat): (r: (nat, nat))
    requires i <= |s|
    ensures i <= r.1 <= |s|
    decreases missing
  {
    if missing == 0 then (point, i)
    else if i == |s| || !Continuation(s[i]) then (REPLACEMENT, i)
    else Follow(s, i + 1, missing - 1, point * 64 + s[i] % 64)
  }

  /** `getUtf32FromUtf8`. */
  function CodePoint(s: seq<Byte>, i: nat): (r: (nat, nat))
    requires i < |s|
    ensures i < r.1 <= |s|
  {
    if Continuation(s[i]) then (REPLACEMENT, i + 1)
    else Follow(s, i + 1, SequenceLength(s[i]) - 1, LeadBits(s[i]))
  }

  function UnitsOf(point: nat): (u: seq<Unit>)
    ensures 1 <= |u| <= 2
  {
    if point <= 0xffff then [point]
    else if point <= UPPER_LIMIT then [0xd800 + (point - 0x1_0000) / 0x400, 0xdc00 + (point - 0x1_0000) % 0x400]
    else [REPLACEMENT]
  }

  /** What `strcpy8to16` writes for the text from i on. */
  function Decoded(s: seq<Byte>, i: nat): seq<Unit>
    requires i <= |s|
    decreases |s| - i
  {
    if i == |s| then []
    else
      var (point, next) := CodePoint(s, i);
      UnitsOf(point) + Decoded(s, next)
  }

  /** What `strlen8to16` counts from i on, when so many continuation bytes are expected. */
  function Counted(s: seq<Byte>, i: nat, expected: int): nat
    requires i <= |s|
    decreases |s| - i
  {
    if i == |s| then 0
    else if Continuation(s[i]) then (if expected - 1 < 0 then 1 else 0) + Counted(s, i + 1, expected - 1)
    else
      (if SequenceLength(s[i]) == 4 then 2 else 1) + Counted(s, i + 1, SequenceLength(s[i]) - 1)
  }

  /** A four-byte lead whose sequence is no supplementary code point that UTF-16 can show. */
  predicate BadLead(s: seq<Byte>, i: nat)
    requires i < |s|
  {
    s[i] >= 0xf0 && !(0xffff < CodePoint(s, i).0 <= UPPER_LIMIT)
  }

  function BadLeads(s: seq<Byte>, i: nat): nat
    requires i <= |s|
    decreases |s| - i
  {
    if i == |s| then 0 else (if BadLead(s, i) then 1 else 0) + BadLeads(s, i + 1)
  }

  /** The buffer is always large enough: the count is what is written and one more for each bad four-byte lead. */
  lemma {:induction false} CountedIsWritten(s: seq<Byte>, i: nat, expected: int)
    requires i <= |s| && expected <= 0
    ensures Counted(s, i, expected) == |Decoded(s, i)| + BadLeads(s, i)
    decreases |s| - i
  {
    if i < |s| {
      if Continuation(s[i]) {
        CountedIsWritten(s, i + 1, expected - 1);
      } else {
        LeadCounts(s, i, expected);
        CountedIsWritten(s, CodePoint(s, i).1, 0);
      }
    }
  }

  lemma {:induction false} LeadCounts(s: seq<Byte>, i: nat, expected: int)
    requires i < |s| && !Continuation(s[i])
    ensures var (point, next) := CodePoint(s, i);
      Counted(s, i, expected) + BadLeads(s, next) == |UnitsOf(point)| + BadLeads(s, i) + Counted(s, next, 0)
  {
    hide Follow, LeadBits;
    var n, bits := SequenceLength(s[i]), LeadBits(s[i]);
    LeadBound(s[i]);
    FollowCounts(s, i + 1, n - 1, bits);
    FollowBound(s, i + 1, n - 1, bits);
  }

  lemma LeadBound(b: Byte)
    requires !Continuation(b)
    ensures SequenceLength(b) == 3 ==> LeadBits(b) < 0x10
    ensures SequenceLength(b) == 2 ==> LeadBits(b) < 0x400
    ensures SequenceLength(b) == 1 ==> LeadBits(b) < 0x1_0000
  {
  }

  /** The continuation bytes of a sequence are not counted and are no leads. */
  lemma {:induction false} FollowCounts(s: seq<Byte>, i: nat, missing: nat, point: nat)
    requires i <= |s|
    ensures var next := Follow(s, i, missing, point).1;
      Counted(s, i, missing) == Counted(s, next, 0) && BadLeads(s, i) == BadLeads(s, next)
    decreases missing
  {
    if missing > 0 && i < |s| && Continuation(s[i]) {
      FollowCounts(s, i + 1, missing - 1, point * 64 + s[i] % 64);
    }
  }

  /** Only four bytes reach a supplementary code point. */
  lemma {:induction false} FollowBound(s: seq<Byte>, i: nat, missing: nat, point: nat)
    requires i <= |s|
    requires missing == 0 ==> point < 0x1_0000
    requires missing == 1 ==> point < 0x400
    requires missing == 2 ==> point < 0x10
    ensures missing <= 2 ==> Follow(s, i, missing, point).0 < 0x1_0000
    decreases missing
  {
    if 0 < missing <= 2 && i < |s| && Continuation(s[i]) {
      FollowBound(s, i + 1, missing - 1, point * 64 + s[i] % 64);
    }
  }

  lemma {:induction false} NoBadLeads(s: seq<Byte>, i: nat)
    requires i <= |s|
    ensures BadLeads(s, i) == 0 <==> forall k :: i <= k < |s| ==> !BadLead(s, k)
    decreases |s| - i
  {
    if i < |s| {
      NoBadLeads(s, i + 1);
    }
  }

  /** `strcpy8to16` never writes more than `strlen8to16` says, and as much exactly when every four-byte lead decodes to a
      supplementary code point up to the limit. */
  lemma {:induction false} BufferIsLargeEnough(s: seq<Byte>)
    ensures |Decoded(s, 0)| <= Counted(s, 0, 0)
    ensures |Decoded(s, 0)| == Counted(s, 0, 0) <==>
      forall i :: 0 <= i < |s| && s[i] >= 0xf0 ==> 0xffff < CodePoint(s, i).0 <= UPPER_LIMIT
  {
    CountedIsWritten(s, 0, 0);
    NoBadLeads(s, 0);
    assert forall i :: 0 <= i < |s| ==> (BadLead(s, i) <==> s[i] >= 0xf0 && !(0xffff < CodePoint(s, i).0 <= UPPER_LIMIT));
  }

  // ----- UTF-16 to UTF-8 -----

  /** Zero takes two bytes, so that the text holds no terminator. */
  function EncodedUnit(u: Unit): (s: seq<Byte>) {
    if u > 0x7ff then [u / 0x1000 + 0xe0, u / 64 % 64 + 0x80, u % 64 + 0x80]
    else if u > 0x7f || u == 0 then [u / 64 + 0xc0, u % 64 + 0x80]
    else [u]
  }

  function Encoded(u: seq<Unit>): seq<Byte> {
    if u == [] then [] else EncodedUnit(u[0]) + Encoded(u[1..])
  }

  lemma {:induction false} EncodedSplit(a: seq<Unit>, b: seq<Unit>)
    ensures Encoded(a + b) == Encoded(a) + Encoded(b)
  {
    if a == [] {
      assert a + b == b;
    } else {
      assert (a + b)[1..] == a[1..] + b;
      EncodedSplit(a[1..], b);
    }
  }

  lemma {:induction false} EncodedIsText(u: seq<Unit>)
    ensures Text(Encoded(u)) && |u| <= |Encoded(u)| <= 3 * |u|
  {
    if u != [] {
      EncodedIsText(u[1..]);
    }
  }

  /** Every sequence of units, with zeros and unpaired surrogates, comes back. */
  lemma {:induction false} RoundTrip(u: seq<Unit>)
    ensures Decoded(Encoded(u), 0) == u
  {
    RoundTripFrom([], u);
    assert [] + Encoded(u) == Encoded(u);
  }

  lemma {:induction false} RoundTripFrom(before: seq<Byte>, u: seq<Unit>)
    ensures Decoded(before + Encoded(u), |before|) == u
    decreases |u|
  {
    hide CodePoint, EncodedUnit, Decoded;
    if u != [] {
      var first, rest := EncodedUnit(u[0]), Encoded(u[1..]);
      var s := before + (first + rest);
      assert s == before + first + rest;
      assert s[|before|..|before| + |first|] == first;
      UnitDecoded(s, |before|, u[0]);
      UnitStep(s, |before|, u[0], |before + first|);
      RoundTripFrom(before + first, u[1..]);
      assert u == [u[0]] + u[1..];
    } else {
      NothingDecoded(before + []);
    }
  }

  lemma NothingDecoded(s: seq<Byte>)
    ensures Decoded(s, |s|) == []
  {
  }

  lemma {:induction false} UnitStep(s: seq<Byte>, i: nat, u: Unit, next: nat)
    requires i < |s| && next <= |s| && CodePoint(s, i) == (u, next)
    ensures Decoded(s, i) == [u] + Decoded(s, next)
  {
    hide CodePoint;
  }

  lemma {:induction false} UnitDecoded(s: seq<Byte>, i: nat, u: Unit)
    requires i + |EncodedUnit(u)| <= |s| && s[i..i + |EncodedUnit(u)|] == EncodedUnit(u)
    ensures CodePoint(s, i) == (u, i + |EncodedUnit(u)|)
  {
    hide CodePoint;
    var e := EncodedUnit(u);
    assert forall k :: 0 <= k < |e| ==> s[i + k] == s[i..i + |e|][k] == e[k];
    if u > 0x7ff {
      ThreeBytes(s, i, u);
    } else if u > 0x7f || u == 0 {
      assert s[i] == e[0] && s[i + 1] == e[1];
      TwoBytes(s, i, u);
    } else {
      assert s[i] == e[0];
      OneByte(s, i, u);
    }
  }

  lemma {:induction false} OneByte(s: seq<Byte>, i: nat, u: Unit)
    requires 0 < u <= 0x7f && i < |s| && s[i] == u
    ensures CodePoint(s, i) == (u, i + 1)
  {
  }

  lemma {:induction false} TwoBytes(s: seq<Byte>, i: nat, u: Unit)
    requires u <= 0x7ff && i + 2 <= |s|
    requires s[i] == u / 64 + 0xc0 && s[i + 1] == u % 64 + 0x80
    ensures CodePoint(s, i) == (u, i + 2)
  {
    assert SequenceLength(s[i]) == 2 && LeadBits(s[i]) == u / 64;
    assert Follow(s, i + 2, 0, u) == (u, i + 2);
  }

  lemma {:induction false} ThreeBytes(s: seq<Byte>, i: nat, u: Unit)
    requires u > 0x7ff && i + 3 <= |s|
    requires s[i] == u / 0x1000 + 0xe0 && s[i + 1] == u / 64 % 64 + 0x80 && s[i + 2] == u % 64 + 0x80
    ensures CodePoint(s, i) == (u, i + 3)
  {
    var first := u / 0x1000;
    assert first < 0x10 && SequenceLength(s[i]) == 3 && LeadBits(s[i]) == first;
    assert u / 64 == first * 64 + u / 64 % 64;
    assert Follow(s, i + 3, 0, u) == (u, i + 3);
    assert Follow(s, i + 2, 1, u / 64) == (u, i + 3);
  }

  // ----- four bytes, and what is malformed -----

  /** The low six bits of a byte. */
  ghost function Six(b: Byte): nat {
    var n: nat := b;
    n % 64
  }

  /** What lead byte b says of a sequence: how many continuation bytes follow, and its share of the code point. */
  ghost function Announced(b: Byte): (nat, nat) {
    var n: nat := b;
    if n < 0xc0 then (0, n) else if n < 0xe0 then (1, n - 0xc0) else if n < 0xf0 then (2, n - 0xe0) else (3, n % 8)
  }

  lemma LeadAnnounces(b: Byte)
    requires !Continuation(b)
    ensures Announced(b) == (SequenceLength(b) - 1, LeadBits(b))
  {
  }

  /** A lead byte and the k continuation bytes that follow it, up to as many as it announces: with all of them the six-bit groups
      make the code point, with fewer it is the replacement. Either way the next sequence starts behind them. */
  lemma {:induction false} SequenceDecoded(s: seq<Byte>, i: nat, k: nat)
    requires i < |s| && !Continuation(s[i])
    requires k <= Announced(s[i]).0 && i + k < |s| && forall j :: i < j <= i + k ==> Continuation(s[j])
    requires k == Announced(s[i]).0 || i + k + 1 == |s| || !Continuation(s[i + k + 1])
    ensures CodePoint(s, i).1 == i + k + 1
    ensures var (n, bits) := Announced(s[i]);
      CodePoint(s, i).0 ==
        if k < n then 0xfffd
        else if n == 0 then bits
        else if n == 1 then bits * 64 + Six(s[i + 1])
        else if n == 2 then (bits * 64 + Six(s[i + 1])) * 64 + Six(s[i + 2])
        else ((bits * 64 + Six(s[i + 1])) * 64 + Six(s[i + 2])) * 64 + Six(s[i + 3])
  {
    hide SequenceLength, LeadBits;
    LeadAnnounces(s[i]);
    var (n, bits) := Announced(s[i]);
    hide Announced;
    if k >= 1 { FollowTakes(s, i + 1, n, bits); }
    if k >= 2 { FollowTakes(s, i + 2, n - 1, bits * 64 + Six(s[i + 1])); }
    if k >= 3 { FollowTakes(s, i + 3, n - 2, (bits * 64 + Six(s[i + 1])) * 64 + Six(s[i + 2])); }
  }

  lemma {:induction false} FollowTakes(s: seq<Byte>, i: nat, missing: nat, point: nat)
    requires i < |s| && missing > 0 && Continuation(s[i])
    ensures Follow(s, i, missing, point) == Follow(s, i + 1, missing - 1, point * 64 + Six(s[i]))
  {
  }

  /** A supplementary code point in four bytes becomes a surrogate pair, the high one first. */
  lemma {:induction false} SupplementaryIsPair(c: nat)
    requires 0x1_0000 <= c <= 0x10_fffd
    ensures var u := Decoded([0xf0 + c / 0x4_0000, 0x80 + c / 0x1000 % 64, 0x80 + c / 64 % 64, 0x80 + c % 64], 0);
      && |u| == 2 && 0xd800 <= u[0] < 0xdc00 && 0xdc00 <= u[1] < 0xe000
      && c == 0x1_0000 + (u[0] as int - 0xd800) * 0x400 + (u[1] as int - 0xdc00)
  {
    hide Decoded, CodePoint;
    var s: seq<Byte> := [0xf0 + c / 0x4_0000, 0x80 + c / 0x1000 % 64, 0x80 + c / 64 % 64, 0x80 + c % 64];
    FourIsPoint(s, c);
    LastDecoded(s, 0);
    SplitUnits(c);
  }

  lemma {:induction false} FourIsPoint(s: seq<Byte>, c: nat)
    requires c <= 0x1f_ffff
    requires s == [0xf0 + c / 0x4_0000, 0x80 + c / 0x1000 % 64, 0x80 + c / 64 % 64, 0x80 + c % 64]
    ensures CodePoint(s, 0) == (c, 4)
  {
    hide CodePoint;
    assert !Continuation(s[0]) && Continuation(s[1]) && Continuation(s[2]) && Continuation(s[3]);
    assert Announced(s[0]) == (3, c / 0x4_0000);
    assert Six(s[1]) == c / 0x1000 % 64 && Six(s[2]) == c / 64 % 64 && Six(s[3]) == c % 64;
    SequenceDecoded(s, 0, 3);
    Sextets(c);
  }

  lemma {:induction false} Sextets(c: nat)
    ensures ((c / 0x4_0000 * 64 + c / 0x1000 % 64) * 64 + c / 64 % 64) * 64 + c % 64 == c
  {
    Shift(c, 0x40);
    Shift(c, 0x1000);
    var a, b := c / 0x40, c / 0x1000;
    assert b == b / 64 * 64 + b % 64 && a == a / 64 * 64 + a % 64 && c == a * 64 + c % 64;
  }

  /** Six bits more are divided away. */
  lemma {:induction false} Shift(c: nat, n: nat)
    requires n == 0x40 || n == 0x1000
    ensures c / (n * 64) == c / n / 64
  {
    var q, r := c / n, c % n;
    assert c == q / 64 * (n * 64) + (q % 64 * n + r);
  }

  lemma {:induction false} SplitUnits(c: nat)
    requires 0x1_0000 <= c <= 0x10_fffd
    ensures var u := UnitsOf(c);
      && |u| == 2 && 0xd800 <= u[0] < 0xdc00 && 0xdc00 <= u[1] < 0xe000
      && c == 0x1_0000 + (u[0] as int - 0xd800) * 0x400 + (u[1] as int - 0xdc00)
  {
  }

  lemma {:induction false} LastDecoded(s: seq<Byte>, i: nat)
    requires i < |s| && CodePoint(s, i).1 == |s|
    ensures Decoded(s, i) == UnitsOf(CodePoint(s, i).0)
  {
    hide CodePoint, UnitsOf;
    var u := UnitsOf(CodePoint(s, i).0);
    assert Decoded(s, |s|) == [];
    assert u + [] == u;
  }

  /** A continuation byte that nothing asks for is replaced on its own. */
  lemma {:induction false} StrayReplaced(s: seq<Byte>, i: nat)
    requires i < |s| && Continuation(s[i])
    ensures Decoded(s, i) == [0xfffd] + Decoded(s, i + 1)
  {
  }

  /** A code point above what UTF-16 is used for here is replaced, and one of a single unit is that unit. */
  lemma {:induction false} OthersAreOne(s: seq<Byte>, i: nat)
    requires i < |s| && !(0x1_0000 <= CodePoint(s, i).0 <= 0x10_fffd)
    ensures var (point, next) := CodePoint(s, i);
      Decoded(s, i) == (if point < 0x1_0000 then [point] else [0xfffd]) + Decoded(s, next)
  {
    hide CodePoint;
  }

  // ----- the functions as they run -----

  /** The byte at i, or the terminator. */
  function At(s: seq<Byte>, i: nat): Byte
    requires i <= |s|
  {
    if i < |s| then s[i] else 0
  }

  method Strlen8to16(s: seq<Byte>) returns (len: nat)
    requires Text(s)
    ensures len == Counted(s, 0, 0)
  {
    len := 0;
    var expected := 0;
    var i := 0;
    while At(s, i) != 0
      invariant 0 <= i <= |s|
      invariant len + Counted(s, i, expected) == Counted(s, 0, 0)
      decreases |s| - i
    {
      var ic := At(s, i);
      i := i + 1;
      if Continuation(ic) {
        expected := expected - 1;
        if expected < 0 {
          len := len + 1;
        }
      } else {
        len := len + 1;
        expected := SequenceLength(ic) - 1;
        if expected == 3 {
          len := len + 1;
        }
      }
    }
  }

  method GetUtf32FromUtf8(s: seq<Byte>, from: nat) returns (point: nat, i: nat)
    requires Text(s) && from < |s|
    ensures (point, i) == CodePoint(s, from)
  {
    i := from;
    if Continuation(s[i]) {
      return REPLACEMENT, i + 1;
    }
    var n := SequenceLength(s[i]);
    point := LeadBits(s[i]);
    i := i + 1;
    for k := 1 to n
      invariant i <= |s| && Follow(s, i, n - k, point) == CodePoint(s, from)
    {
      if At(s, i) == 0 || !Continuation(s[i]) {
        return REPLACEMENT, i;
      }
      point := point * 64 + s[i] % 64;
      i := i + 1;
    }
  }

  /** The caller has allocated what `strlen8to16` says. */
  method Strcpy8to16(dest: array<Unit>, s: seq<Byte>) returns (outLen: nat)
    requires Text(s) && Counted(s, 0, 0) <= dest.Length
    modifies dest
    ensures outLen == |Decoded(s, 0)| <= dest.Length && dest[..outLen] == Decoded(s, 0)
    ensures dest[outLen..] == old(dest[outLen..])
  {
    hide CodePoint, UnitsOf;
    BufferIsLargeEnough(s);
    outLen := 0;
    var i := 0;
    while At(s, i) != 0
      invariant 0 <= i <= |s| && outLen <= dest.Length
      invariant dest[..outLen] + Decoded(s, i) == Decoded(s, 0)
      invariant dest[outLen..] == old(dest[..])[outLen..]
      decreases |s| - i
    {
      ghost var done, rest := dest[..outLen], Decoded(s, i);
      var point;
      point, i := GetUtf32FromUtf8(s, i);
      assert rest == UnitsOf(point) + Decoded(s, i);
      assert done + UnitsOf(point) + Decoded(s, i) == done + rest;
      outLen := PutPoint(dest, outLen, point);
    }
    assert dest[..outLen] + [] == dest[..outLen];
  }

  method PutPoint(dest: array<Unit>, at: nat, point: nat) returns (next: nat)
    requires at + |UnitsOf(point)| <= dest.Length
    modifies dest
    ensures at <= next <= dest.Length && dest[..next] == old(dest[..at]) + UnitsOf(point)
    ensures dest[next..] == old(dest[next..])
  {
    if point <= 0xffff {
      dest[at] := point;
      return at + 1;
    } else if point <= UPPER_LIMIT {
      dest[at] := 0xd800 + (point - 0x1_0000) / 0x400;
      dest[at + 1] := 0xdc00 + (point - 0x1_0000) % 0x400;
      return at + 2;
    } else {
      dest[at] := REPLACEMENT;
      return at + 1;
    }
  }

  function UnitSize(u: Unit): nat {
    if u > 0x7ff then 3 else if u > 0x7f || u == 0 then 2 else 1
  }

  /** The length of the encoding; one that no `size_t` can hold, or SIZE_MAX itself, is answered with SIZE_MAX - 1. */
  method Strnlen16to8(u: seq<Unit>) returns (n: nat)
    requires |u| <= SIZE_MAX
    ensures n == if |Encoded(u)| < 0xffff_ffff_ffff_ffff then |Encoded(u)| else 0xffff_ffff_ffff_fffe
  {
    hide EncodedUnit, Encoded;
    n := 0;
    assert Encoded([]) == [] by { NoUnits(); }
    assert u[..|u|] == u && Encoded(u[..0]) == [];
    if |u| < (SIZE_MAX - 1) / 3 {
      for i := 0 to |u|
        invariant n == |Encoded(u[..i])|
      {
        n := n + UnitSize(u[i]);
        OneMore(u, i);
      }
      EncodedIsText(u);
      return;
    }
    for i := 0 to |u|
      invariant n == |Encoded(u[..i])| <= SIZE_MAX
    {
      var before := n;
      n := (n + UnitSize(u[i])) % (SIZE_MAX + 1);
      OneMore(u, i);
      if n < before {
        return SIZE_MAX - 1;
      }
    }
    if n == SIZE_MAX {
      n := SIZE_MAX - 1;
    }
  }

  lemma NoUnits()
    ensures Encoded([]) == []
  {
  }

  lemma {:induction false} OneMore(u: seq<Unit>, i: nat)
    requires i < |u|
    ensures Encoded(u[..i + 1]) == Encoded(u[..i]) + EncodedUnit(u[i])
    ensures |Encoded(u[..i + 1])| == |Encoded(u[..i])| + UnitSize(u[i]) <= |Encoded(u)|
  {
    assert u[..i + 1] == u[..i] + [u[i]] && u == u[..i + 1] + u[i + 1..];
    EncodedSplit(u[..i], [u[i]]);
    EncodedSplit(u[..i + 1], u[i + 1..]);
    assert [u[i]][1..] == [];
  }

  method Strncpy16to8(dest: array<Byte>, u: seq<Unit>)
    requires |Encoded(u)| + 1 <= dest.Length
    modifies dest
    ensures dest[..|Encoded(u)| + 1] == Encoded(u) + [0]
  {
    hide EncodedUnit;
    var at := 0;
    assert u[..|u|] == u && Encoded(u[..0]) == [];
    for i := 0 to |u|
      invariant at == |Encoded(u[..i])| <= |Encoded(u)|
      invariant dest[..at] == Encoded(u[..i])
    {
      OneMore(u, i);
      at := PutUnit(dest, at, u[i]);
    }
    dest[at] := 0;
  }

  method PutUnit(dest: array<Byte>, at: nat, uic: Unit) returns (next: nat)
    requires at + |EncodedUnit(uic)| <= dest.Length
    modifies dest
    ensures next == at + |EncodedUnit(uic)| && dest[..next] == old(dest[..at]) + EncodedUnit(uic)
  {
    if uic > 0x7ff {
      dest[at] := uic / 0x1000 + 0xe0;
      dest[at + 1] := uic / 64 % 64 + 0x80;
      dest[at + 2] := uic % 64 + 0x80;
      return at + 3;
    } else if uic > 0x7f || uic == 0 {
      dest[at] := uic / 64 + 0xc0;
      dest[at + 1] := uic % 64 + 0x80;
      return at + 2;
    } else {
      dest[at] := uic;
      return at + 1;
    }
  }
}
