/** Bytes in memory: the little-endian layout that every serializer of the repository relies on. */
module Bytes {

  type Byte = b: nat | b < 256

  /** A UTF-16 code unit, `char16_t`. */
  type Unit = u: nat | u < 0x1_0000

  /** The n low bytes of v, least significant first. */
  function LittleEndian(v: nat, n: nat): (s: seq<Byte>)
    ensures |s| == n
  {
    if n == 0 then [] else [v % 256] + LittleEndian(v / 256, n - 1)
  }

  /** Byte i has the bits from 8 * i on. */
  lemma {:induction false} LittleEndianAt(v: nat, n: nat, i: nat)
    requires i < n
    ensures LittleEndian(v, n)[i] == v / Power256(i) % 256
  {
    if i > 0 {
      LittleEndianAt(v / 256, n - 1, i - 1);
      DivideTwice(v, Power256(i - 1));
    }
  }

  lemma {:induction false} DivideTwice(v: nat, b: nat)
    requires b > 0
    ensures v / 256 / b == v / (256 * b)
  {
    var q, r := v / 256 / b, v / 256 % b;
    assert v / 256 == q * b + r;
    assert q * (256 * b) == 256 * (q * b);
    Quotient(v, 256 * b, q, 256 * r + v % 256);
  }

  lemma {:induction false} Quotient(v: nat, d: nat, q: nat, r: nat)
    requires r < d && v == q * d + r
    ensures v / d == q
  {
    var p := v / d;
    assert v == p * d + v % d;
    Monotone(p + 1, q, d);
    Monotone(q + 1, p, d);
  }

  lemma {:induction false} Monotone(a: nat, b: nat, d: nat)
    ensures a <= b ==> a * d <= b * d
  {
  }

  function FromLittleEndian(s: seq<Byte>): nat {
    if s == [] then 0 else s[0] + 256 * FromLittleEndian(s[1..])
  }

  function Power256(n: nat): (r: nat)
    ensures r > 0
  {
    if n == 0 then 1 else 256 * Power256(n - 1)
  }

  lemma Widths()
    ensures Power256(2) == 0x1_0000 && Power256(4) == 0x1_0000_0000 && Power256(8) == 0x1_0000_0000_0000_0000
  {
    assert Power256(1) == 256 && Power256(2) == 0x1_0000 && Power256(3) == 0x100_0000;
    assert Power256(5) == 0x100_0000_0000 && Power256(6) == 0x1_0000_0000_0000 && Power256(7) == 0x100_0000_0000_0000;
  }

  lemma {:induction false} LittleEndianInverse(v: nat, n: nat)
    requires v < Power256(n)
    ensures FromLittleEndian(LittleEndian(v, n)) == v
  {
    if n > 0 {
      LittleEndianInverse(v / 256, n - 1);
      assert LittleEndian(v, n)[1..] == LittleEndian(v / 256, n - 1);
    }
  }

  lemma {:induction false} FromLittleEndianBound(s: seq<Byte>)
    ensures FromLittleEndian(s) < Power256(|s|)
  {
    if s != [] {
      FromLittleEndianBound(s[1..]);
    }
  }

  lemma {:induction false} SliceOfSlice(a: seq<Byte>, lo: nat, hi: nat, x: nat, y: nat)
    requires lo <= hi <= |a| && x <= y <= hi - lo
    ensures a[lo..hi][x..y] == a[lo + x..lo + y]
  {
    forall k | 0 <= k < y - x
      ensures a[lo..hi][x..y][k] == a[lo + x..lo + y][k]
    {
      assert a[lo..hi][x..y][k] == a[lo..hi][x + k] == a[lo + x + k];
    }
  }
}
