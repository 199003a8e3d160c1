/** GF(2^128) in the reflected bit order of GCM. A 128-bit number is its bit
    string, most significant bit first, and bit i is the coefficient of x^i. */
module Gf128 {

  type Bits = seq<bool>

  const WIDTH: nat := 128

  function Zero(n: nat): (z: Bits)
    ensures |z| == n
  {
    seq(n, _ => false)
  }

  function Xor(a: Bits, b: Bits): (c: Bits)
    requires |a| == |b|
    ensures |c| == |a|
  {
    seq(|a|, i requires 0 <= i < |a| => a[i] != b[i])
  }

  /** 0xE1 << 120: the coefficients of x^7 + x^2 + x + 1. */
  function Tail(): (t: Bits)
    ensures |t| == WIDTH
  {
    seq(WIDTH, i => i == 0 || i == 1 || i == 2 || i == 7)
  }

  /** v >> 1 */
  function ShiftRight(v: Bits): (w: Bits)
    requires |v| == WIDTH
    ensures |w| == WIDTH
  {
    [false] + v[..WIDTH - 1]
  }

  /** One step of the loop: multiply by x and reduce. */
  function MulX(v: Bits): (w: Bits)
    requires |v| == WIDTH
    ensures |w| == WIDTH
  {
    if v[WIDTH - 1] then Xor(ShiftRight(v), Tail()) else ShiftRight(v)
  }

  function XPow(a: Bits, k: nat): (w: Bits)
    requires |a| == WIDTH
    ensures |w| == WIDTH
  {
    if k == 0 then a else MulX(XPow(a, k - 1))
  }

  /** The partial product over the first k coefficients of b. */
  function DotTo(a: Bits, b: Bits, k: nat): (z: Bits)
    requires |a| == |b| == WIDTH && k <= WIDTH
    ensures |z| == WIDTH
  {
    if k == 0 then Zero(WIDTH)
    else if b[k - 1] then Xor(DotTo(a, b, k - 1), XPow(a, k - 1))
    else DotTo(a, b, k - 1)
  }

  /** Multiplication in the field. */
  function Dot(a: Bits, b: Bits): (z: Bits)
    requires |a| == |b| == WIDTH
    ensures |z| == WIDTH
  {
    DotTo(a, b, WIDTH)
  }

  /** The inner loop of ghash: shift and reduce. */
  method MulShift(y: Bits, h: Bits) returns (z: Bits)
    requires |y| == |h| == WIDTH
    ensures z == Dot(y, h)
  {
    z := Zero(WIDTH);
    var v := y;
    for i := 0 to WIDTH
      invariant |z| == |v| == WIDTH
      invariant z == DotTo(y, h, i) && v == XPow(y, i)
    {
      if h[i] {
        z := Xor(z, v);
      }
      if v[WIDTH - 1] {
        v := Xor(ShiftRight(v), Tail());
      } else {
        v := ShiftRight(v);
      }
    }
  }

  // ---- Xor -----------------------------------------------------------------

  lemma XorComm(a: Bits, b: Bits)
    requires |a| == |b|
    ensures Xor(a, b) == Xor(b, a)
  {
  }

  lemma XorAssoc(a: Bits, b: Bits, c: Bits)
    requires |a| == |b| == |c|
    ensures Xor(Xor(a, b), c) == Xor(a, Xor(b, c))
  {
  }

  lemma XorZero(a: Bits)
    ensures Xor(a, Zero(|a|)) == a && Xor(Zero(|a|), a) == a && Xor(a, a) == Zero(|a|)
  {
  }

  lemma XorSwap(a: Bits, b: Bits, c: Bits, d: Bits)
    requires |a| == |b| == |c| == |d|
    ensures Xor(Xor(a, b), Xor(c, d)) == Xor(Xor(a, c), Xor(b, d))
  {
  }

  // ---- Linearity -----------------------------------------------------------

  lemma MulXLinear(a: Bits, b: Bits)
    requires |a| == |b| == WIDTH
    ensures MulX(Xor(a, b)) == Xor(MulX(a), MulX(b))
  {
    var s := Xor(a, b);
    assert ShiftRight(s) == Xor(ShiftRight(a), ShiftRight(b));
    var t := Tail();
    if a[WIDTH - 1] && b[WIDTH - 1] {
      XorSwap(ShiftRight(a), t, ShiftRight(b), t);
      XorZero(t);
      XorZero(ShiftRight(s));
    } else if a[WIDTH - 1] {
      XorAssoc(ShiftRight(a), t, ShiftRight(b));
      XorComm(t, ShiftRight(b));
      XorAssoc(ShiftRight(a), ShiftRight(b), t);
    } else if b[WIDTH - 1] {
      XorAssoc(ShiftRight(a), ShiftRight(b), t);
    }
  }

  lemma MulXZero()
    ensures MulX(Zero(WIDTH)) == Zero(WIDTH)
  {
  }

  lemma {:induction false} XPowLinear(a: Bits, b: Bits, k: nat)
    requires |a| == |b| == WIDTH
    ensures XPow(Xor(a, b), k) == Xor(XPow(a, k), XPow(b, k))
  {
    if k > 0 {
      XPowLinear(a, b, k - 1);
      MulXLinear(XPow(a, k - 1), XPow(b, k - 1));
    }
  }

  lemma {:induction false} XPowMulX(a: Bits, k: nat)
    requires |a| == WIDTH
    ensures XPow(MulX(a), k) == MulX(XPow(a, k)) == XPow(a, k + 1)
  {
    if k > 0 {
      XPowMulX(a, k - 1);
    }
  }

  lemma {:induction false} DotLinearLeft(a: Bits, b: Bits, c: Bits, k: nat)
    requires |a| == |b| == |c| == WIDTH && k <= WIDTH
    ensures DotTo(Xor(a, b), c, k) == Xor(DotTo(a, c, k), DotTo(b, c, k))
  {
    if k == 0 {
      XorZero(Zero(WIDTH));
    } else {
      DotLinearLeft(a, b, c, k - 1);
      XPowLinear(a, b, k - 1);
      XorSwap(DotTo(a, c, k - 1), DotTo(b, c, k - 1), XPow(a, k - 1), XPow(b, k - 1));
    }
  }

  lemma {:induction false} DotLinearRight(a: Bits, b: Bits, c: Bits, k: nat)
    requires |a| == |b| == |c| == WIDTH && k <= WIDTH
    ensures DotTo(a, Xor(b, c), k) == Xor(DotTo(a, b, k), DotTo(a, c, k))
  {
    if k == 0 {
      XorZero(Zero(WIDTH));
    } else {
      DotLinearRight(a, b, c, k - 1);
      var d, e, x := DotTo(a, b, k - 1), DotTo(a, c, k - 1), XPow(a, k - 1);
      if b[k - 1] && c[k - 1] {
        XorSwap(d, x, e, x);
        XorZero(x);
        XorZero(Xor(d, e));
      } else if b[k - 1] {
        XorAssoc(d, e, x);
        XorComm(e, x);
        XorAssoc(d, x, e);
      } else if c[k - 1] {
        XorAssoc(d, e, x);
      }
    }
  }

  /** Multiplying the left factor by x multiplies the product by x. */
  lemma {:induction false} DotXLeft(a: Bits, b: Bits, k: nat)
    requires |a| == |b| == WIDTH && k <= WIDTH
    ensures DotTo(MulX(a), b, k) == MulX(DotTo(a, b, k))
  {
    if k == 0 {
      MulXZero();
    } else {
      DotXLeft(a, b, k - 1);
      XPowMulX(a, k - 1);
      MulXLinear(DotTo(a, b, k - 1), XPow(a, k - 1));
    }
  }

  lemma {:induction false} DotXPowLeft(a: Bits, b: Bits, k: nat)
    requires |a| == |b| == WIDTH
    ensures Dot(XPow(a, k), b) == XPow(Dot(a, b), k)
  {
    if k > 0 {
      DotXPowLeft(a, b, k - 1);
      DotXLeft(XPow(a, k - 1), b, WIDTH);
    }
  }

  // ---- One, and the relation x^128 = x^7 + x^2 + x + 1 ----------------------

  /** The single coefficient x^j. */
  function Unit(j: nat): (u: Bits)
    requires j < WIDTH
    ensures |u| == WIDTH
  {
    seq(WIDTH, i => i == j)
  }

  lemma {:induction false} XPowOne(k: nat)
    requires k < WIDTH
    ensures XPow(Unit(0), k) == Unit(k)
  {
    if k > 0 {
      XPowOne(k - 1);
      assert ShiftRight(Unit(k - 1)) == Unit(k);
    }
  }

  lemma {:induction false} DotOneTo(a: Bits, k: nat)
    requires |a| == WIDTH && k <= WIDTH
    ensures DotTo(Unit(0), a, k) == a[..k] + Zero(WIDTH - k)
  {
    if k == 0 {
      assert a[..0] + Zero(WIDTH) == Zero(WIDTH);
    } else {
      DotOneTo(a, k - 1);
      XPowOne(k - 1);
      var d := a[..k - 1] + Zero(WIDTH - (k - 1));
      if a[k - 1] {
        assert Xor(d, Unit(k - 1)) == a[..k] + Zero(WIDTH - k);
      } else {
        assert d == a[..k] + Zero(WIDTH - k);
      }
    }
  }

  /** x^0 is the identity. */
  lemma DotOne(a: Bits)
    requires |a| == WIDTH
    ensures Dot(Unit(0), a) == a
  {
    DotOneTo(a, WIDTH);
    assert a[..WIDTH] + Zero(0) == a;
  }

  /** a + x a + x^2 a + x^7 a */
  function FourTerms(a: Bits): (s: Bits)
    requires |a| == WIDTH
    ensures |s| == WIDTH
  {
    Xor(Xor(a, XPow(a, 1)), Xor(XPow(a, 2), XPow(a, 7)))
  }

  lemma TailIsFourUnits()
    ensures Tail() == Xor(Xor(Unit(0), Unit(1)), Xor(Unit(2), Unit(7)))
  {
  }

  lemma TopOfOne()
    ensures XPow(Unit(0), 128) == Tail() == FourTerms(Unit(0))
  {
    XPowOne(127);
    assert ShiftRight(Unit(127)) == Zero(WIDTH);
    XorZero(Tail());
    assert MulX(Unit(127)) == Tail();
    XPowOne(1);
    XPowOne(2);
    XPowOne(7);
    TailIsFourUnits();
  }

  /** Multiplication by the field polynomial's relation, for every element. */
  lemma Relation(a: Bits)
    requires |a| == WIDTH
    ensures XPow(a, 128) == FourTerms(a)
  {
    var one := Unit(0);
    DotOne(a);
    DotXPowLeft(one, a, 128);
    TopOfOne();
    DotLinearLeft(Xor(one, XPow(one, 1)), Xor(XPow(one, 2), XPow(one, 7)), a, WIDTH);
    DotLinearLeft(one, XPow(one, 1), a, WIDTH);
    DotLinearLeft(XPow(one, 2), XPow(one, 7), a, WIDTH);
    DotXPowLeft(one, a, 1);
    DotXPowLeft(one, a, 2);
    DotXPowLeft(one, a, 7);
  }

  lemma {:induction false} DotUnit(a: Bits, j: nat, k: nat)
    requires |a| == WIDTH && j < WIDTH && k <= WIDTH
    ensures DotTo(a, Unit(j), k) == if j < k then XPow(a, j) else Zero(WIDTH)
  {
    if k > 0 {
      DotUnit(a, j, k - 1);
      XorZero(XPow(a, k - 1));
    }
  }

  lemma DotTail(a: Bits)
    requires |a| == WIDTH
    ensures Dot(a, Tail()) == XPow(a, 128)
  {
    TailIsFourUnits();
    DotLinearRight(a, Xor(Unit(0), Unit(1)), Xor(Unit(2), Unit(7)), WIDTH);
    DotLinearRight(a, Unit(0), Unit(1), WIDTH);
    DotLinearRight(a, Unit(2), Unit(7), WIDTH);
    DotUnit(a, 0, WIDTH);
    DotUnit(a, 1, WIDTH);
    DotUnit(a, 2, WIDTH);
    DotUnit(a, 7, WIDTH);
    Relation(a);
  }

  lemma {:induction false} DotShift(a: Bits, b: Bits, k: nat)
    requires |a| == |b| == WIDTH && k < WIDTH
    ensures DotTo(a, ShiftRight(b), k + 1) == MulX(DotTo(a, b, k))
  {
    if k == 0 {
      MulXZero();
      assert DotTo(a, ShiftRight(b), 1) == DotTo(a, ShiftRight(b), 0);
    } else {
      DotShift(a, b, k - 1);
      assert ShiftRight(b)[k] == b[k - 1];
      MulXLinear(DotTo(a, b, k - 1), XPow(a, k - 1));
    }
  }

  /** Multiplying the right factor by x multiplies the product by x. */
  lemma DotXRight(a: Bits, b: Bits)
    requires |a| == |b| == WIDTH
    ensures Dot(a, MulX(b)) == MulX(Dot(a, b))
  {
    DotShift(a, b, WIDTH - 1);
    if b[WIDTH - 1] {
      DotLinearRight(a, ShiftRight(b), Tail(), WIDTH);
      DotTail(a);
      MulXLinear(DotTo(a, b, WIDTH - 1), XPow(a, WIDTH - 1));
    }
  }

  lemma {:induction false} DotXPowRight(a: Bits, b: Bits, k: nat)
    requires |a| == |b| == WIDTH
    ensures Dot(a, XPow(b, k)) == XPow(Dot(a, b), k)
  {
    if k > 0 {
      DotXPowRight(a, b, k - 1);
      DotXRight(a, XPow(b, k - 1));
    }
  }

  lemma DotZeroRight(a: Bits, k: nat)
    requires |a| == WIDTH && k <= WIDTH
    ensures DotTo(a, Zero(WIDTH), k) == Zero(WIDTH)
  {
  }

  lemma {:induction false} DotZeroLeft(a: Bits, k: nat)
    requires |a| == WIDTH && k <= WIDTH
    ensures DotTo(Zero(WIDTH), a, k) == Zero(WIDTH)
  {
    var z := Zero(WIDTH);
    XorZero(z);
    DotLinearLeft(z, z, a, k);
    XorZero(DotTo(z, a, k));
  }

  lemma {:induction false} DotAssocTo(a: Bits, b: Bits, c: Bits, k: nat)
    requires |a| == |b| == |c| == WIDTH && k <= WIDTH
    ensures DotTo(Dot(a, b), c, k) == Dot(a, DotTo(b, c, k))
  {
    if k == 0 {
      DotZeroRight(a, WIDTH);
    } else {
      DotAssocTo(a, b, c, k - 1);
      DotXPowRight(a, b, k - 1);
      DotLinearRight(a, DotTo(b, c, k - 1), XPow(b, k - 1), WIDTH);
    }
  }

  lemma DotAssoc(a: Bits, b: Bits, c: Bits)
    requires |a| == |b| == |c| == WIDTH
    ensures Dot(Dot(a, b), c) == Dot(a, Dot(b, c))
  {
    DotAssocTo(a, b, c, WIDTH);
  }

  lemma {:induction false} DotCommTo(a: Bits, b: Bits, k: nat)
    requires |a| == |b| == WIDTH && k <= WIDTH
    ensures Dot(DotTo(Unit(0), b, k), a) == DotTo(a, b, k)
  {
    if k == 0 {
      DotZeroLeft(a, WIDTH);
    } else {
      DotCommTo(a, b, k - 1);
      DotLinearLeft(DotTo(Unit(0), b, k - 1), XPow(Unit(0), k - 1), a, WIDTH);
      DotXPowLeft(Unit(0), a, k - 1);
      DotOne(a);
    }
  }

  lemma DotComm(a: Bits, b: Bits)
    requires |a| == |b| == WIDTH
    ensures Dot(a, b) == Dot(b, a)
  {
    DotCommTo(a, b, WIDTH);
    DotOne(b);
  }

  // ---- The reference: multiply polynomials, then divide --------------------

  /** x^k times a, as a polynomial of n coefficients. */
  function Place(a: Bits, k: nat, n: nat): (p: Bits)
    requires k + |a| <= n
    ensures |p| == n
  {
    Zero(k) + a + Zero(n - k - |a|)
  }

  /** The schoolbook product of two polynomials, unreduced. */
  function Product(a: Bits, b: Bits, k: nat): (p: Bits)
    requires |a| == |b| == WIDTH && k <= WIDTH
    ensures |p| == 2 * WIDTH
  {
    if k == 0 then Zero(2 * WIDTH)
    else if b[k - 1] then Xor(Product(a, b, k - 1), Place(a, k - 1, 2 * WIDTH))
    else Product(a, b, k - 1)
  }

  /** Long division by x^128 + x^7 + x^2 + x + 1: cancel the top term until
      only 128 coefficients are left. */
  function Remainder(p: Bits): (r: Bits)
    requires |p| >= WIDTH
    ensures |r| == WIDTH
    decreases |p|
  {
    var n := |p| - 1;
    if n < WIDTH then p
    else if p[n] then Remainder(Xor(p[..n], Place(Tail(), n - WIDTH, n)))
    else Remainder(p[..n])
  }

  lemma {:induction false} RemainderLinear(p: Bits, q: Bits)
    requires |p| == |q| >= WIDTH
    ensures Remainder(Xor(p, q)) == Xor(Remainder(p), Remainder(q))
    decreases |p|
  {
    var n := |p| - 1;
    if n >= WIDTH {
      var t := Place(Tail(), n - WIDTH, n);
      var p', q' := p[..n], q[..n];
      var s' := Xor(p', q');
      assert Xor(p, q)[..n] == s';
      RemainderLinear(if p[n] then Xor(p', t) else p', if q[n] then Xor(q', t) else q');
      if p[n] && q[n] {
        XorSwap(p', t, q', t);
        XorZero(t);
        XorZero(s');
      } else if p[n] {
        XorAssoc(p', t, q');
        XorComm(t, q');
        XorAssoc(p', q', t);
      } else if q[n] {
        XorAssoc(p', q', t);
      }
    }
  }

  /** Dividing x p leaves x times the remainder, reduced. */
  lemma {:induction false} RemainderTimesX(p: Bits)
    requires |p| >= WIDTH
    ensures Remainder([false] + p) == MulX(Remainder(p))
    decreases |p|
  {
    var n := |p| - 1;
    var x := [false] + p;
    if n < WIDTH {
      assert x[..WIDTH] == ShiftRight(p);
      assert Place(Tail(), 0, WIDTH) == Tail();
    } else {
      assert x[..n + 1] == [false] + p[..n];
      var t := Place(Tail(), n - WIDTH, n);
      if p[n] {
        assert Xor(x[..n + 1], Place(Tail(), n + 1 - WIDTH, n + 1)) == [false] + Xor(p[..n], t);
        RemainderTimesX(Xor(p[..n], t));
      } else {
        RemainderTimesX(p[..n]);
      }
    }
  }

  lemma {:induction false} RemainderPadding(a: Bits, j: nat)
    requires |a| >= WIDTH
    ensures Remainder(a + Zero(j)) == Remainder(a)
  {
    if j == 0 {
      assert a + Zero(0) == a;
    } else {
      var p := a + Zero(j);
      assert p[..|p| - 1] == a + Zero(j - 1);
      RemainderPadding(a, j - 1);
    }
  }

  lemma {:induction false} RemainderShifted(a: Bits, k: nat)
    requires |a| == WIDTH
    ensures Remainder(Zero(k) + a) == XPow(a, k)
  {
    if k == 0 {
      assert Zero(0) + a == a;
    } else {
      RemainderShifted(a, k - 1);
      assert Zero(k) + a == [false] + (Zero(k - 1) + a);
      RemainderTimesX(Zero(k - 1) + a);
    }
  }

  lemma RemainderPlace(a: Bits, k: nat, n: nat)
    requires |a| == WIDTH && k + WIDTH <= n
    ensures Remainder(Place(a, k, n)) == XPow(a, k)
  {
    RemainderPadding(Zero(k) + a, n - k - WIDTH);
    RemainderShifted(a, k);
  }

  lemma RemainderZero()
    ensures Remainder(Zero(2 * WIDTH)) == Zero(WIDTH)
  {
    assert Zero(2 * WIDTH) == Zero(WIDTH) + Zero(WIDTH);
    RemainderPadding(Zero(WIDTH), WIDTH);
  }

  lemma {:induction false} DotIsRemainderTo(a: Bits, b: Bits, k: nat)
    requires |a| == |b| == WIDTH && k <= WIDTH
    ensures DotTo(a, b, k) == Remainder(Product(a, b, k))
  {
    if k == 0 {
      RemainderZero();
    } else {
      DotIsRemainderTo(a, b, k - 1);
      RemainderPlace(a, k - 1, 2 * WIDTH);
      RemainderLinear(Product(a, b, k - 1), Place(a, k - 1, 2 * WIDTH));
    }
  }

  /** The shift-and-reduce loop is polynomial multiplication followed by
      division by x^128 + x^7 + x^2 + x + 1. */
  lemma DotIsRemainder(a: Bits, b: Bits)
    requires |a| == |b| == WIDTH
    ensures Dot(a, b) == Remainder(Product(a, b, WIDTH))
  {
    DotIsRemainderTo(a, b, WIDTH);
  }
}
