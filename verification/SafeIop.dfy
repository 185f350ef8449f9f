/** Checked arithmetic at every width (safe_iop.h): the tests that need no wider type are exact. */
module SafeIop {

  /** `half` is two to the power of the width less one. */
  datatype IntType = IntType(signed: bool, half: nat)

  /** An operand with its type, as `typeof` sees it. */
  datatype Num = Num(t: IntType, v: int)

  predicate InRange(t: IntType, v: int) {
    if t.signed then -(t.half as int) <= v < t.half else 0 <= v < 2 * t.half
  }

  predicate Operand(a: Num) {
    a.t.half > 0 && InRange(a.t, a.v)
  }

  /** A cast. */
  function Wrap(t: IntType, v: int): int
    requires t.half > 0
  {
    var u := v % (2 * t.half);
    if t.signed && u >= t.half then u - 2 * t.half else u
  }

  function Complement(t: IntType, v: int): int
    requires t.half > 0
  {
    Wrap(t, -1 - v)
  }

  function Smax(t: IntType): int
    requires t.half > 0
  {
    Complement(t, Wrap(t, t.half))
  }

  function Smin(t: IntType): int
    requires t.half > 0
  {
    Wrap(t, -Smax(t) - 1)
  }

  function Umax(t: IntType): int
    requires t.half > 0
  {
    Complement(t, 0)
  }

  /** What the bit tricks come to. */
  lemma {:induction false} Limits(t: IntType)
    requires t.half > 0
    ensures Smax(t) == t.half - 1
    ensures Smin(t) == if t.signed then -(t.half as int) else t.half
    ensures Umax(t) == if t.signed then -1 else 2 * t.half - 1
  {
    var n: int := 2 * t.half;
    WrapOf(t, t.half, 0);
    if t.signed {
      WrapOf(t, -1 - (t.half - n), 0);
      WrapOf(t, -(t.half as int), -1);
    } else {
      WrapOf(t, -1 - t.half, -1);
      WrapOf(t, -(t.half as int), -1);
    }
    WrapOf(t, -1, -1);
  }

  lemma {:induction false} WrapOf(t: IntType, v: int, turns: int)
    requires t.half > 0 && 2 * t.half * turns <= v < 2 * t.half * turns + 2 * t.half
    ensures Wrap(t, v) == if t.signed && v - 2 * t.half * turns >= t.half then v - 2 * t.half * turns - 2 * t.half
                          else v - 2 * t.half * turns
  {
    var n: int := 2 * t.half;
    assert v == n * turns + (v - n * turns);
    assert v % n == v - n * turns by { Remainder(v, n, turns); }
  }

  lemma {:induction false} Remainder(v: int, n: int, k: int)
    requires n > 0 && n * k <= v < n * k + n
    ensures v / n == k && v % n == v - n * k
  {
    var q, r := v / n, v % n;
    assert v == n * q + r && 0 <= r < n;
    if q < k {
      Monotone(n, q + 1, k);
    } else if q > k {
      Monotone(n, k + 1, q);
    }
  }

  lemma {:induction false} Monotone(n: int, x: int, y: int)
    requires n >= 0 && x <= y
    ensures n * x <= n * y
  {
    assert n * y - n * x == n * (y - x) && n * (y - x) >= 0;
  }

  // ----- division that truncates -----

  function Abs(a: int): nat {
    if a < 0 then -a else a
  }

  function Quotient(a: int, b: int): int
    requires b != 0
  {
    if (a < 0) == (b < 0) then Abs(a) / Abs(b) else -(Abs(a) / Abs(b))
  }

  function Modulo(a: int, b: int): int
    requires b != 0
  {
    a - b * Quotient(a, b)
  }

  /** The quotient is the exact one without its fraction; the remainder has the sign of the dividend. */
  lemma {:induction false} TruncatingDivision(a: int, b: int)
    requires b != 0
    ensures a == b * Quotient(a, b) + Modulo(a, b)
    ensures Abs(Modulo(a, b)) < Abs(b) && (Modulo(a, b) == 0 || (Modulo(a, b) < 0 <==> a < 0))
    ensures Abs(Quotient(a, b)) <= Abs(a)
  {
    var d: nat := Abs(b);
    var q: int := Abs(a) / d;
    NatDivision(Abs(a), d);
    var p: int := d * q;
    if (a < 0) == (b < 0) {
      Product(b, q, a < 0, d, p);
    } else {
      Product(b, -q, a < 0, d, p);
    }
  }

  lemma {:induction false} NatDivision(n: nat, d: nat)
    requires d > 0
    ensures n == d * (n / d) + n % d && n % d < d && 0 <= n / d <= n
  {
    if n / d > n {
      Grows(d, n / d);
    }
  }

  /** The sign of a product with the quotient. */
  lemma {:induction false} Product(b: int, q: int, negative: bool, d: nat, p: int)
    requires b != 0 && d == Abs(b) && p == d * Abs(q)
    requires q == 0 || (q > 0 && negative == (b < 0)) || (q < 0 && negative == (b > 0))
    ensures b * q == if negative then -p else p
  {
    if q == 0 {
      assert d * 0 == 0 && b * 0 == 0;
    } else if q > 0 {
      assert (-b) * q == -(b * q);
    } else {
      assert b * (-q) == -(b * q) && (-b) * (-q) == b * q;
    }
  }

  lemma {:induction false} Grows(n: nat, q: nat)
    requires n > 0
    ensures n * q >= q
  {
    assert n * q == (n - 1) * q + q && (n - 1) * q >= 0;
  }

  // ----- the operations -----

  datatype Operation = Add | Sub | Mul | Div | Mod

  /** The mathematical result; C leaves the quotient and remainder by zero, and the least value by -1, undefined. */
  predicate Defined(op: Operation, t: IntType, a: int, b: int) {
    match op
    case Div => b != 0 && !(t.signed && a == -(t.half as int) && b == -1)
    case Mod => b != 0 && !(t.signed && a == -(t.half as int) && b == -1)
    case _ => true
  }

  function Exact(op: Operation, t: IntType, a: int, b: int): int
    requires Defined(op, t, a, b)
  {
    match op
    case Add => a + b
    case Sub => a - b
    case Mul => a * b
    case Div => Quotient(a, b)
    case Mod => Modulo(a, b)
  }

  /** The result exists and the type can hold it. */
  predicate Fits(op: Operation, t: IntType, a: int, b: int) {
    Defined(op, t, a, b) && InRange(t, Exact(op, t, a, b))
  }

  /** Nothing but the undefined cases makes a division fail. */
  lemma {:induction false} DivisionFits(op: Operation, t: IntType, a: int, b: int)
    requires t.half > 0 && InRange(t, a) && InRange(t, b) && (op == Div || op == Mod)
    ensures Fits(op, t, a, b) <==> b != 0 && !(t.signed && a == -(t.half as int) && b == -1)
  {
    hide Quotient, Modulo;
    if Defined(op, t, a, b) {
      TruncatingDivision(a, b);
      QuotientSign(a, b);
      if op == Div && t.signed && Quotient(a, b) == t.half {
        HalfNeedsMinusOne(a, b, t.half);
      }
    }
  }

  lemma {:induction false} QuotientSign(a: int, b: int)
    requires b != 0
    ensures a >= 0 && b > 0 ==> Quotient(a, b) >= 0
  {
  }

  lemma {:induction false} HalfNeedsMinusOne(a: int, b: int, half: nat)
    requires half > 0 && -(half as int) <= a < half && b != 0 && Quotient(a, b) == half
    ensures a == -(half as int) && b == -1
  {
    var n := Abs(b);
    assert Abs(a) / n == half && Abs(a) >= n * half;
    assert n * half == (n - 1) * half + half;
    if n > 1 {
      Grows(n - 1, half);
    }
  }

  // ----- products -----

  /** For b > 0, a <= n / b compares the product. */
  lemma {:induction false} ProductBound(a: int, b: int, n: nat)
    requires b > 0
    ensures a <= n / b <==> a * b <= n
  {
    var q := n / b;
    NatDivision(n, b);
    if a <= q {
      Monotone(b, a, q);
    } else {
      Monotone(b, q + 1, a);
    }
  }

  /** The four comparisons of `safe_smul`, one for each pair of signs. */
  lemma {:induction false} SignedProduct(a: int, b: int, half: nat)
    requires half > 0 && -(half as int) <= a < half && -(half as int) <= b < half
    ensures a > 0 && b > 0 ==> (a > Quotient(half - 1, b) <==> a * b > half - 1)
    ensures a > 0 && b <= 0 ==> (b < Quotient(-(half as int), a) <==> a * b < -(half as int))
    ensures a <= 0 && b > 0 ==> (a < Quotient(-(half as int), b) <==> a * b < -(half as int))
    ensures a < 0 && b <= 0 ==> (b < Quotient(half - 1, a) <==> a * b > half - 1)
  {
    if a > 0 && b > 0 {
      ProductBound(a, b, half - 1);
    } else if a > 0 {
      ProductBound(-b, a, half);
      assert (-b) * a == -(a * b);
    } else if b > 0 {
      ProductBound(-a, b, half);
      assert (-a) * b == -(a * b);
    } else if a < 0 {
      ProductBound(-b, -a, half - 1);
      assert (-b) * (-a) == a * b;
    }
  }

  lemma {:induction false} ProductSign(a: int, b: int)
    ensures (a >= 0 && b >= 0) || (a <= 0 && b <= 0) ==> a * b >= 0
    ensures (a >= 0 && b <= 0) || (a <= 0 && b >= 0) ==> a * b <= 0
  {
  }

  // ----- the macros; `p` is what the pointer shows before and after -----

  method SafeUadd(p: int, a: Num, b: Num) returns (ok: bool, r: int)
    requires Operand(a) && Operand(b) && a.t == b.t && !a.t.signed
    ensures ok == Fits(Add, a.t, a.v, b.v) && r == if ok then a.v + b.v else p
  {
    Limits(a.t);
    WrapOf(a.t, Umax(a.t) - a.v, 0);
    WrapOf(a.t, b.v, 0);
    if Wrap(a.t, b.v) <= Wrap(a.t, Umax(a.t) - a.v) {
      return true, a.v + b.v;
    }
    return false, p;
  }

  method SafeSadd(p: int, a: Num, b: Num) returns (ok: bool, r: int)
    requires Operand(a) && Operand(b) && a.t == b.t && a.t.signed
    ensures ok == Fits(Add, a.t, a.v, b.v) && r == if ok then a.v + b.v else p
  {
    Limits(a.t);
    ok := true;
    if b.v > 0 && a.v > 0 {
      assert InRange(a.t, Smax(a.t) - b.v);
      WrapOf(a.t, Smax(a.t) - b.v, 0);
      if a.v > Wrap(a.t, Smax(a.t) - b.v) {
        ok := false;
      }
    } else if !(b.v > 0) && !(a.v > 0) {
      assert InRange(a.t, Smin(a.t) - b.v);
      WrapOf(a.t, Smin(a.t) - b.v, if Smin(a.t) - b.v < 0 then -1 else 0);
      if a.v < Wrap(a.t, Smin(a.t) - b.v) {
        ok := false;
      }
    }
    r := if ok then a.v + b.v else p;
  }

  method SafeUsub(p: int, a: Num, b: Num) returns (ok: bool, r: int)
    requires Operand(a) && Operand(b) && a.t == b.t && !a.t.signed
    ensures ok == Fits(Sub, a.t, a.v, b.v) && r == if ok then a.v - b.v else p
  {
    if a.v >= b.v {
      return true, a.v - b.v;
    }
    return false, p;
  }

  method SafeSsub(p: int, a: Num, b: Num) returns (ok: bool, r: int)
    requires Operand(a) && Operand(b) && a.t == b.t && a.t.signed
    ensures ok == Fits(Sub, a.t, a.v, b.v) && r == if ok then a.v - b.v else p
  {
    Limits(a.t);
    assert b.v <= 0 ==> InRange(a.t, Smax(a.t) + b.v);
    assert b.v > 0 ==> InRange(a.t, Smin(a.t) + b.v);
    if !(b.v <= 0 && a.v > Smax(a.t) + b.v) && !(b.v > 0 && a.v < Smin(a.t) + b.v) {
      return true, a.v - b.v;
    }
    return false, p;
  }

  method SafeUmul(p: int, a: Num, b: Num) returns (ok: bool, r: int)
    requires Operand(a) && Operand(b) && a.t == b.t && !a.t.signed
    ensures ok == Fits(Mul, a.t, a.v, b.v) && r == if ok then a.v * b.v else p
  {
    Limits(a.t);
    assert a.v * b.v >= 0;
    if b.v != 0 {
      ProductBound(a.v, b.v, Umax(a.t));
    }
    if b.v == 0 || a.v <= Quotient(Umax(a.t), b.v) {
      return true, a.v * b.v;
    }
    return false, p;
  }

  method SafeSmul(p: int, a: Num, b: Num) returns (ok: bool, r: int)
    requires Operand(a) && Operand(b) && a.t == b.t && a.t.signed
    ensures ok == Fits(Mul, a.t, a.v, b.v) && r == if ok then a.v * b.v else p
  {
    hide Quotient, Smax, Smin;
    Limits(a.t);
    SignedProduct(a.v, b.v, a.t.half);
    ProductSign(a.v, b.v);
    ok := true;
    if a.v > 0 {
      if b.v > 0 {
        if a.v > Quotient(Smax(a.t), b.v) {
          ok := false;
        }
      } else if b.v < Quotient(Smin(a.t), a.v) {
        ok := false;
      }
    } else {
      if b.v > 0 {
        if a.v < Quotient(Smin(a.t), b.v) {
          ok := false;
        }
      } else if a.v != 0 && b.v < Quotient(Smax(a.t), a.v) {
        ok := false;
      }
    }
    r := if ok then a.v * b.v else p;
  }

  /** `safe_udiv`, `safe_sdiv`, `safe_umod` and `safe_smod`, which differ in the second test and the operator. */
  method SafeDivide(op: Operation, p: int, a: Num, b: Num) returns (ok: bool, r: int)
    requires Operand(a) && Operand(b) && a.t == b.t && (op == Div || op == Mod)
    ensures ok == Fits(op, a.t, a.v, b.v) && r == if ok then Exact(op, a.t, a.v, b.v) else p
  {
    Limits(a.t);
    DivisionFits(op, a.t, a.v, b.v);
    if b.v != 0 && (!a.t.signed || a.v != Smin(a.t) || b.v != -1) {
      return true, if op == Div then Quotient(a.v, b.v) else Modulo(a.v, b.v);
    }
    return false, p;
  }

  /** `type_enforce`: both signed or both unsigned, told by whether the least value is positive, and of one size. */
  predicate SameType(a: Num, b: Num)
    requires a.t.half > 0 && b.t.half > 0
  {
    ((Smin(a.t) <= 0 && Smin(b.t) <= 0) || (Smin(a.t) > 0 && Smin(b.t) > 0)) && a.t.half == b.t.half
  }

  lemma {:induction false} SameTypeExactly(a: Num, b: Num)
    requires a.t.half > 0 && b.t.half > 0
    ensures SameType(a, b) <==> a.t == b.t
  {
    Limits(a.t);
    Limits(b.t);
  }

  /** `safe_add`, `safe_sub`, `safe_mul`, `safe_div` and `safe_mod` with assertions compiled out: the operation succeeds
      exactly when the types agree and the result fits, and only then the pointer is written. */
  method Safe(op: Operation, p: int, a: Num, b: Num) returns (ok: bool, r: int)
    requires Operand(a) && Operand(b)
    ensures ok <==> a.t == b.t && Fits(op, a.t, a.v, b.v)
    ensures r == if ok then Exact(op, a.t, a.v, b.v) else p
  {
    SameTypeExactly(a, b);
    if !SameType(a, b) {
      return false, p;
    }
    Limits(a.t);
    match op {
      case Add =>
        if Smin(a.t) <= 0 {
          ok, r := SafeSadd(p, a, b);
        } else {
          ok, r := SafeUadd(p, a, b);
        }
      case Sub =>
        if Umax(a.t) <= 0 {
          ok, r := SafeSsub(p, a, b);
        } else {
          ok, r := SafeUsub(p, a, b);
        }
      case Mul =>
        if Umax(a.t) <= 0 {
          ok, r := SafeSmul(p, a, b);
        } else {
          ok, r := SafeUmul(p, a, b);
        }
      case _ => ok, r := SafeDivide(op, p, a, b);
    }
  }

  // ----- chains -----

  /** Every prefix of the chain has a result that fits. */
  predicate ChainFits(op: Operation, a: Num, rest: seq<Num>)
    decreases |rest|
  {
    rest == [] ||
      (a.t == rest[0].t && Fits(op, a.t, a.v, rest[0].v)
       && ChainFits(op, Num(a.t, Exact(op, a.t, a.v, rest[0].v)), rest[1..]))
  }

  function ChainResult(op: Operation, a: Num, rest: seq<Num>): int
    requires ChainFits(op, a, rest)
    decreases |rest|
  {
    if rest == [] then a.v else ChainResult(op, Num(a.t, Exact(op, a.t, a.v, rest[0].v)), rest[1..])
  }

  method Safe3(op: Operation, p: int, a: Num, b: Num, c: Num) returns (ok: bool, r: int)
    requires Operand(a) && Operand(b) && Operand(c)
    ensures ok == ChainFits(op, a, [b, c]) && r == if ok then ChainResult(op, a, [b, c]) else p
  {
    hide Fits, Exact;
    var x;
    r := p;
    ok, x := Safe(op, 0, a, b);
    assert [b, c][1..] == [c];
    if ok {
      FitsIsOperand(op, a, b);
      ChainOfOne(op, Num(a.t, x), c);
      ok, r := Safe(op, p, Num(a.t, x), c);
    }
  }

  lemma {:induction false} ChainOfOne(op: Operation, a: Num, b: Num)
    ensures ChainFits(op, a, [b]) <==> a.t == b.t && Fits(op, a.t, a.v, b.v)
    ensures ChainFits(op, a, [b]) ==> ChainResult(op, a, [b]) == Exact(op, a.t, a.v, b.v)
  {
    hide Fits, Exact;
    assert [b][1..] == [];
  }

  lemma {:induction false} FitsIsOperand(op: Operation, a: Num, b: Num)
    requires Operand(a) && Fits(op, a.t, a.v, b.v)
    ensures Operand(Num(a.t, Exact(op, a.t, a.v, b.v)))
  {
  }

  method Safe4(op: Operation, p: int, a: Num, b: Num, c: Num, d: Num) returns (ok: bool, r: int)
    requires Operand(a) && Operand(b) && Operand(c) && Operand(d)
    ensures ok == ChainFits(op, a, [b, c, d]) && r == if ok then ChainResult(op, a, [b, c, d]) else p
  {
    hide Fits, Exact;
    var x;
    r := p;
    ok, x := Safe(op, 0, a, b);
    assert [b, c, d][1..] == [c, d];
    if ok {
      FitsIsOperand(op, a, b);
      ok, r := Safe3(op, p, Num(a.t, x), c, d);
    }
  }

  method Safe5(op: Operation, p: int, a: Num, b: Num, c: Num, d: Num, e: Num) returns (ok: bool, r: int)
    requires Operand(a) && Operand(b) && Operand(c) && Operand(d) && Operand(e)
    ensures ok == ChainFits(op, a, [b, c, d, e]) && r == if ok then ChainResult(op, a, [b, c, d, e]) else p
  {
    hide Fits, Exact;
    var x;
    r := p;
    ok, x := Safe(op, 0, a, b);
    assert [b, c, d, e][1..] == [c, d, e];
    if ok {
      FitsIsOperand(op, a, b);
      ok, r := Safe4(op, p, Num(a.t, x), c, d, e);
    }
  }
}
