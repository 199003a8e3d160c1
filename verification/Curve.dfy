/** Short Weierstrass curves y^2 = x^3 + a x + b modulo m: affine addition, the
    mixed Jacobian formula, and why the second refines the first. */
module Curve {
  import opened Limbs
  import opened ModArith

  datatype Point = Infinity | Affine(x: int, y: int)

  datatype Jacobian = Jacobian(x: int, y: int, z: int)

  type Modulus = m: int | 2 < m witness 3

  datatype Curve = Curve(m: Modulus, a: int, b: int) {

    // ---- Inverses modulo p ---------------------------------------------------

    predicate IsInverse(a: int, r: int)
    {
      0 <= r < m && a * r % m == 1
    }

    lemma InverseSame(a: int, r: int, s: int)
      requires IsInverse(a, r) && IsInverse(a, s)
      ensures r == s
    {
      RemainderUnique(1, m, 0, 1);
      assert a * r == r * a && a * s == s * a;
      CongCancel(m, r, s, a, r);
      CongEqual(m, r, s);
    }

    lemma InverseUnique(a: int)
      ensures forall r, s :: IsInverse(a, r) && IsInverse(a, s) ==> r == s
    {
      forall r, s | IsInverse(a, r) && IsInverse(a, s)
        ensures r == s
      {
        InverseSame(a, r, s);
      }
    }

    /** The inverse of a modulo p (0 when there is none). */
    function Inverse(a: int): int
    {
      InverseUnique(a);
      if exists r :: 0 <= r < m && IsInverse(a, r) then var r :| 0 <= r < m && IsInverse(a, r); r else 0
    }

    lemma FermatIsInverse(a: int)
      requires Fermat(m) && !Cong(m, a, 0)
      ensures IsInverse(a, Pow(a % m, m - 2) % m)
    {
      var w := Pow(a % m, m - 2);
      FermatInverse(m, a);
      CongMod(m, w);
      RemainderUnique(1, m, 0, 1);
      assert w % m * a == a * (w % m);
    }

    /** Over a prime every nonzero residue has an inverse. */
    lemma InverseExists(a: int)
      requires Fermat(m) && !Cong(m, a, 0)
      ensures IsInverse(a, Inverse(a)) && Cong(m, a * Inverse(a), 1)
      ensures Inverse(a) == Pow(a % m, m - 2) % m
    {
      FermatIsInverse(a);
      InverseUnique(a);
      RemainderUnique(1, m, 0, 1);
    }

    /** A prime field has no zero divisors. */
    lemma NoZeroDivisors(a: int, b: int)
      requires Fermat(m) && Cong(m, a * b, 0)
      ensures Cong(m, a, 0) || Cong(m, b, 0)
    {
      if !Cong(m, b, 0) {
        InverseExists(b);
        assert Cong(m, a * b, 0 * b);
        CongCancel(m, a, 0, b, Inverse(b));
      }
    }

    // ---- Affine addition -----------------------------------------------------

    /** The chord or tangent through the point (x1, y1) with slope lam. */
    function Chord(x1: int, y1: int, x2: int, lam: int): Point
    {
      var x3 := (lam * lam - x1 - x2) % m;
      Affine(x3, (lam * (x1 - x3) - y1) % m)
    }

    /** aff_add */
    function Add(p1: Point, p2: Point): Point
    {
      match p1
      case Infinity => p2
      case Affine(x1, y1) =>
        match p2
        case Infinity => p1
        case Affine(x2, y2) =>
          if x1 == x2 && (y1 + y2) % m == 0 then Infinity
          else Chord(x1, y1, x2, Slope(p1, p2))
    }

    /** The slope of the chord, or of the tangent at a point added to itself. */
    function Slope(p: Point, q: Point): int
      requires p.Affine? && q.Affine?
    {
      if p.x == q.x then (3 * p.x * p.x + a) * Inverse(2 * p.y) % m
      else (q.y - p.y) * Inverse(q.x - p.x) % m
    }

    // ---- The mixed formula ---------------------------------------------------

    /** madd: Jacobian plus affine, with no test for equal or opposite points. */
    function Madd(p1: Jacobian, x2: int, y2: int): Jacobian
    {
      var z1z1 := p1.z * p1.z % m;
      var u2 := x2 * z1z1 % m;
      var z1cubed := p1.z * z1z1 % m;
      var s2 := y2 * z1cubed % m;
      var h := (u2 - p1.x) % m;
      var r := (s2 - p1.y) % m;
      var hh := h * h % m;
      var hhh := h * hh % m;
      var v := p1.x * hh % m;
      var x3 := (r * r - hhh - 2 * v) % m;
      var y3 := (r * ((v - x3) % m) - p1.y * hhh) % m;
      Jacobian(x3, y3, h * p1.z % m)
    }

    /** to_affine: inversion by Fermat, so that infinity becomes (0, 0). */
    function ToAffine(p: Jacobian): (int, int)
    {
      if p.z % m == 0 then (0, 0)
      else
        var zinv := Pow(p.z, m - 2) % m;
        var zinv2 := zinv * zinv % m;
        (p.x * zinv2 % m, p.y * zinv2 % m * zinv % m)
    }

    /** (x : y : z) stands for the affine point (ax, ay): the same statement
        without division. */
    ghost predicate Represents(p: Jacobian, ax: int, ay: int)
    {
      Cong(m, p.x, ax * (p.z * p.z)) && Cong(m, p.y, ay * (p.z * (p.z * p.z)))
    }

    lemma FermatPower(z: int)
      requires Fermat(m) && !Cong(m, z, 0)
      ensures Cong(m, z * (Pow(z, m - 2) % m), 1)
    {
      var w := Pow(z, m - 2);
      PowLast(z, m - 1);
      CongMod(m, w);
      CongMul(m, z, z, w % m, w);
    }

    lemma ScaledOut(z: int, zi: int, zi2: int)
      requires Cong(m, z * zi, 1) && Cong(m, zi2, zi * zi)
      ensures Cong(m, zi2 * (z * z), 1)
      ensures Cong(m, (zi2 * zi) * (z * (z * z)), 1)
    {
      CongMul(m, zi2, zi * zi, z * z, z * z);
      Interchange(zi, zi, z, z);
      CongMul(m, z * zi, 1, z * zi, 1);
      CongMul(m, zi2 * (z * z), 1, z * zi, 1);
      assert (zi2 * (z * z)) * (z * zi) == (zi2 * zi) * (z * (z * z)) by {
        Regroup(zi2, zi, z, z * z);
      }
    }

    lemma Regroup(a: int, b: int, z: int, w: int)
      ensures (a * w) * (z * b) == (a * b) * (z * w)
    {
    }

    lemma ToAffineRepresents(p: Jacobian)
      requires Fermat(m) && !Cong(m, p.z, 0)
      ensures var (ax, ay) := ToAffine(p);
        Represents(p, ax, ay) && 0 <= ax < m && 0 <= ay < m
    {
      var z := p.z;
      FermatPower(z);
      var zi := Pow(z, m - 2) % m;
      var zi2 := zi * zi % m;
      CongMod(m, zi * zi);
      ScaledOut(z, zi, zi2);
      var ax := p.x * zi2 % m;
      CongMod(m, p.x * zi2);
      ScaleBack(p.x, ax, zi2, z * z);
      var t := p.y * zi2 % m;
      CongMod(m, p.y * zi2);
      CongMul(m, t, p.y * zi2, zi, zi);
      MulAssoc(p.y, zi2, zi);
      CongMod(m, t * zi);
      ScaleBack(p.y, t * zi % m, zi2 * zi, z * (z * z));
      RemainderZero(z);
    }

    lemma RemainderZero(z: int)
      ensures z % m == 0 <==> Cong(m, z, 0)
    {
      RemainderUnique(0, m, 0, 0);
    }

    lemma ScaleBack(x: int, ax: int, s: int, w: int)
      requires Cong(m, ax, x * s) && Cong(m, s * w, 1)
      ensures Cong(m, x, ax * w)
    {
      CongMul(m, ax, x * s, w, w);
      MulAssoc(x, s, w);
      CongMul(m, x, x, s * w, 1);
    }

    /** The affine point a finite Jacobian triple stands for is unique. */
    lemma RepresentsToAffine(p: Jacobian, ax: int, ay: int)
      requires Fermat(m) && !Cong(m, p.z, 0)
      requires Represents(p, ax, ay) && 0 <= ax < m && 0 <= ay < m
      ensures ToAffine(p) == (ax, ay)
    {
      ToAffineRepresents(p);
      var (ux, uy) := ToAffine(p);
      var z := p.z;
      FermatPower(z);
      var zi := Pow(z, m - 2) % m;
      ScaledOut(z, zi, zi * zi);
      CancelScale(ax, ux, z * z, zi * zi);
      CancelScale(ay, uy, z * (z * z), zi * zi * zi);
      CongEqual(m, ax, ux);
      CongEqual(m, ay, uy);
    }

    lemma CancelScale(a: int, b: int, w: int, inv: int)
      requires Cong(m, a * w, b * w) && Cong(m, inv * w, 1)
      ensures Cong(m, a, b)
    {
      CongCancel(m, a, b, w, inv);
    }

    // ---- madd refines affine addition ----------------------------------------

    /** The reduced intermediates h, r and z1^2 h^2 of madd, as polynomials. */
    lemma MaddFront(p: Jacobian, x2: int, y2: int, ax: int, ay: int, lam: int)
      requires Represents(p, ax, ay) && Cong(m, lam * (x2 - ax), y2 - ay)
      ensures var z := p.z;
        var h := (x2 * (z * z % m) % m - p.x) % m;
        var r := (y2 * (z * (z * z % m) % m) % m - p.y) % m;
        Cong(m, h, (x2 - ax) * (z * z)) && Cong(m, r, lam * (z * h))
    {
      var z := p.z;
      var zz, d := z * z, x2 - ax;
      var zzz := z * zz;
      var z1z1 := zz % m;
      var h := (x2 * z1z1 % m - p.x) % m;
      MaddH(p, x2, ax);
      CongMod(m, zz);
      var z1cubed := z * z1z1 % m;
      CongMod(m, z * z1z1);
      CongMul(m, z, z, z1z1, zz);
      CongMul(m, y2, y2, z1cubed, zzz);
      CongMod(m, y2 * z1cubed);
      var r := (y2 * z1cubed % m - p.y) % m;
      CongAdd(m, y2 * z1cubed % m, y2 * zzz, p.y, ay * zzz);
      CongMod(m, y2 * z1cubed % m - p.y);
      Expand2(y2, ay, zzz);
      CongMul(m, lam * d, y2 - ay, zzz, zzz);
      CongMul(m, z, z, h, d * zz);
      CongMul(m, lam, lam, z * h, z * (d * zz));
      SlopeShape(lam, d, z, zz);
    }

    lemma SlopeShape(lam: int, d: int, z: int, zz: int)
      ensures (lam * d) * (z * zz) == lam * (z * (d * zz))
    {
    }

    /** With t = z1 h and q = t^2: hh, hhh and v in terms of q. */
    lemma MaddMiddle(z: int, h: int, x1: int, ax: int, d: int)
      requires Cong(m, h, d * (z * z)) && Cong(m, x1, ax * (z * z))
      ensures var hh := h * h % m;
        var hhh := h * hh % m;
        var v := x1 * hh % m;
        var q := (z * h) * (z * h);
        Cong(m, hh, h * h) && Cong(m, hhh, h * (h * h)) && Cong(m, hhh, d * q) && Cong(m, v, ax * q)
    {
      var hh := h * h % m;
      CongMod(m, h * h);
      CongMul(m, h, h, hh, h * h);
      CongMod(m, h * hh);
      CongMul(m, h, d * (z * z), h * h, h * h);
      CongMul(m, x1, ax * (z * z), hh, h * h);
      CongMod(m, x1 * hh);
      SquareShape(d, z, h);
      SquareShape(ax, z, h);
    }

    lemma SquareShape(a: int, z: int, h: int)
      ensures (a * (z * z)) * (h * h) == a * ((z * h) * (z * h))
    {
      Interchange(z, z, h, h);
      MulAssoc(a, z * z, h * h);
    }

    /** x3 = (lam^2 - x1 - x2) q. */
    lemma MaddX(lam: int, t: int, r: int, hhh: int, v: int, ax: int, x2: int, x3: int)
      requires Cong(m, r, lam * t) && Cong(m, hhh, (x2 - ax) * (t * t)) && Cong(m, v, ax * (t * t))
      requires Cong(m, x3, lam * lam - ax - x2)
      ensures Cong(m, r * r - hhh - 2 * v, x3 * (t * t))
    {
      var q := t * t;
      CongMul(m, r, lam * t, r, lam * t);
      Interchange(lam, t, lam, t);
      CongAdd(m, r * r, (lam * lam) * q, hhh, (x2 - ax) * q);
      CongMul(m, 2, 2, v, ax * q);
      CongAdd(m, r * r - hhh, (lam * lam) * q - (x2 - ax) * q, 2 * v, 2 * (ax * q));
      Collect(lam * lam, x2, ax, q);
      CongMul(m, x3, lam * lam - ax - x2, q, q);
    }

    lemma Collect(l: int, x2: int, ax: int, q: int)
      ensures l * q - (x2 - ax) * q - 2 * (ax * q) == (l - ax - x2) * q
    {
    }

    /** y3 = (lam (x1 - x3) - y1) t^3. */
    lemma MaddY(lam: int, z: int, h: int, r: int, hhh: int, v: int, x3j: int, ax: int, x3: int,
                y1: int, ay: int, y3: int)
      requires Cong(m, r, lam * (z * h)) && Cong(m, hhh, h * (h * h))
      requires Cong(m, v, ax * ((z * h) * (z * h))) && Cong(m, x3j, x3 * ((z * h) * (z * h)))
      requires Cong(m, y1, ay * (z * (z * z))) && Cong(m, y3, lam * (ax - x3) - ay)
      ensures Cong(m, r * ((v - x3j) % m) - y1 * hhh, y3 * ((z * h) * ((z * h) * (z * h))))
    {
      var t := z * h;
      var q := t * t;
      CongAdd(m, v, ax * q, x3j, x3 * q);
      CongMod(m, v - x3j);
      Expand2(ax, x3, q);
      CongMul(m, r, lam * t, (v - x3j) % m, (ax - x3) * q);
      CongMul(m, y1, ay * (z * (z * z)), hhh, h * (h * h));
      CubeShape(ay, z, h);
      Interchange(lam, t, ax - x3, q);
      CongAdd(m, r * ((v - x3j) % m), (lam * (ax - x3)) * (t * q), y1 * hhh, ay * (t * q));
      Expand2(lam * (ax - x3), ay, t * q);
      CongMul(m, y3, lam * (ax - x3) - ay, t * q, t * q);
    }

    lemma CubeShape(a: int, z: int, h: int)
      ensures (a * (z * (z * z))) * (h * (h * h)) == a * ((z * h) * ((z * h) * (z * h)))
    {
      MulAssoc(a, z * (z * z), h * (h * h));
      Interchange(z, z * z, h, h * h);
      Interchange(z, z, h, h);
    }

    /** h = z1^2 times the difference of the affine x-coordinates. */
    lemma MaddH(p: Jacobian, x2: int, ax: int)
      requires Cong(m, p.x, ax * (p.z * p.z))
      ensures Cong(m, (x2 * (p.z * p.z % m) % m - p.x) % m, (x2 - ax) * (p.z * p.z))
    {
      var zz := p.z * p.z;
      CongMod(m, zz);
      CongMul(m, x2, x2, zz % m, zz);
      CongMod(m, x2 * (zz % m));
      CongAdd(m, x2 * (zz % m) % m, x2 * zz, p.x, ax * zz);
      Expand2(x2, ax, zz);
      CongMod(m, x2 * (zz % m) % m - p.x);
    }

    /** z3 = h z1, whatever the two points are. */
    lemma MaddZ(p: Jacobian, x2: int, y2: int, ax: int, ay: int)
      requires Represents(p, ax, ay)
      ensures Cong(m, Madd(p, x2, y2).z, ((x2 - ax) * (p.z * p.z)) * p.z)
      ensures Cong(m, Madd(p, x2, y2).z, p.z * ((x2 * (p.z * p.z % m) % m - p.x) % m))
    {
      var h := (x2 * (p.z * p.z % m) % m - p.x) % m;
      assert Madd(p, x2, y2).z == h * p.z % m;
      MaddH(p, x2, ax);
      CongMod(m, h * p.z);
      CongMul(m, h, (x2 - ax) * (p.z * p.z), p.z, p.z);
    }

    /** The mixed formula on a representative of (ax, ay) represents the chord
        point, whenever the slope is that of the chord. */
    lemma MaddRepresents(p: Jacobian, x2: int, y2: int, ax: int, ay: int, lam: int)
      requires Represents(p, ax, ay) && Cong(m, lam * (x2 - ax), y2 - ay)
      ensures var c := Chord(ax, ay, x2, lam); Represents(Madd(p, x2, y2), c.x, c.y)
    {
      var z, d := p.z, x2 - ax;
      var h := (x2 * (z * z % m) % m - p.x) % m;
      var r := (y2 * (z * (z * z % m) % m) % m - p.y) % m;
      MaddFront(p, x2, y2, ax, ay, lam);
      MaddMiddle(z, h, p.x, ax, d);
      var t := z * h;
      var c := Chord(ax, ay, x2, lam);
      var hh := h * h % m;
      var hhh, v := h * hh % m, p.x * hh % m;
      CongMod(m, lam * lam - ax - x2);
      MaddX(lam, t, r, hhh, v, ax, x2, c.x);
      var x3j := (r * r - hhh - 2 * v) % m;
      CongMod(m, r * r - hhh - 2 * v);
      CongMod(m, lam * (ax - c.x) - ay);
      MaddY(lam, z, h, r, hhh, v, x3j, ax, c.x, p.y, ay, c.y);
      CongMod(m, r * ((v - x3j) % m) - p.y * hhh);
      var w := Madd(p, x2, y2);
      assert w.x == x3j && w.y == (r * ((v - x3j) % m) - p.y * hhh) % m;
      MaddZ(p, x2, y2, ax, ay);
      RepresentsVia(w, t, c.x, c.y);
    }

    /** Powers of z may be computed from anything congruent to it. */
    lemma RepresentsVia(p: Jacobian, t: int, ax: int, ay: int)
      requires 0 <= p.x < m && 0 <= p.y < m && 0 <= p.z < m
      requires Cong(m, p.z, t) && Cong(m, p.x, ax * (t * t)) && Cong(m, p.y, ay * (t * (t * t)))
      ensures Represents(p, ax, ay)
    {
      CongMul(m, p.z, t, p.z, t);
      CongMul(m, p.z, t, p.z * p.z, t * t);
      CongMul(m, ax, ax, p.z * p.z, t * t);
      CongMul(m, ay, ay, p.z * (p.z * p.z), t * (t * t));
    }

    /** The slope that aff_add uses between points with different x. */
    lemma SlopeCorrect(ax: int, ay: int, x2: int, y2: int)
      requires Fermat(m) && !Cong(m, x2 - ax, 0)
      ensures Cong(m, ((y2 - ay) * Inverse(x2 - ax) % m) * (x2 - ax), y2 - ay)
    {
      var d, e := x2 - ax, y2 - ay;
      InverseExists(d);
      CongMod(m, e * Inverse(d));
      CongMul(m, e * Inverse(d) % m, e * Inverse(d), d, d);
      MulAssoc(e, Inverse(d), d);
      CongMul(m, e, e, Inverse(d) * d, 1);
    }

    /** The refinement: for a finite point with h nonzero, leaving Jacobian
        coordinates after madd is affine addition after leaving them. */
    lemma MaddRefinesAdd(p: Jacobian, x2: int, y2: int)
      requires Fermat(m) && !Cong(m, p.z, 0)
      requires !Cong(m, x2 * (p.z * p.z), p.x)
      ensures var (ax, ay) := ToAffine(p);
        var (sx, sy) := ToAffine(Madd(p, x2, y2));
        Affine(sx, sy) == Add(Affine(ax, ay), Affine(x2, y2))
      ensures !Cong(m, Madd(p, x2, y2).z, 0)
    {
      var (ax, ay) := ToAffine(p);
      ToAffineRepresents(p);
      var d := x2 - ax;
      if Cong(m, d, 0) {
        CongMul(m, d, 0, p.z * p.z, p.z * p.z);
        Expand2(x2, ax, p.z * p.z);
        CongAdd(m, x2 * (p.z * p.z) - ax * (p.z * p.z), 0, ax * (p.z * p.z), p.x);
        assert false;
      }
      assert ax != x2;
      SlopeCorrect(ax, ay, x2, y2);
      var lam := (y2 - ay) * Inverse(d) % m;
      MaddRepresents(p, x2, y2, ax, ay, lam);
      MaddZ(p, x2, y2, ax, ay);
      MaddFinite(d, p.z, Madd(p, x2, y2).z);
      var c := Chord(ax, ay, x2, lam);
      assert c == Add(Affine(ax, ay), Affine(x2, y2));
      RepresentsToAffine(Madd(p, x2, y2), c.x, c.y);
    }

    /** madd's h vanishes exactly when the two points share an x-coordinate. */
    lemma ClashMeansSameX(p: Jacobian, x2: int)
      requires Fermat(m) && !Cong(m, p.z, 0) && 0 <= x2 < m
      ensures Cong(m, x2 * (p.z * p.z), p.x) <==> x2 == ToAffine(p).0
    {
      var (ax, ay) := ToAffine(p);
      ToAffineRepresents(p);
      if Cong(m, x2 * (p.z * p.z), p.x) {
        FermatPower(p.z);
        var zi := Pow(p.z, m - 2) % m;
        ScaledOut(p.z, zi, zi * zi);
        CancelScale(x2, ax, p.z * p.z, zi * zi);
        CongEqual(m, x2, ax);
      }
    }

    lemma MaddFinite(d: int, z: int, z3: int)
      requires Fermat(m) && !Cong(m, d, 0) && !Cong(m, z, 0) && Cong(m, z3, (d * (z * z)) * z)
      ensures !Cong(m, z3, 0)
    {
      if Cong(m, z3, 0) {
        NoZeroDivisors(d * (z * z), z);
        NoZeroDivisors(d, z * z);
        NoZeroDivisors(z, z);
      }
    }

    // ---- The curve -----------------------------------------------------------

    predicate OnEquation(x: int, y: int)
    {
      (y * y - Cubic(x)) % m == 0
    }

    function Cubic(x: int): int
    {
      x * x * x + a * x + b
    }

    /** on_curve, for a point with canonical coordinates. */
    predicate OnCurve(p: Point)
    {
      p.Affine? ==>
        0 <= p.x < m && 0 <= p.y < m && OnEquation(p.x, p.y)
    }

    // ---- Addition as geometry ------------------------------------------------

    /** The line of slope lam through (x1, y1). */
    function Line(x1: int, y1: int, lam: int, t: int): int
    {
      lam * (t - x1) + y1
    }

    /** The line of slope lam through (x1, y1) meets the curve at x1, x2 and x3
        and, with multiplicities, nowhere else. */
    ghost predicate MeetsAt(x1: int, y1: int, lam: int, x2: int, x3: int)
    {
      forall t :: MeetsIn(x1, y1, lam, x2, x3, t)
    }

    ghost predicate MeetsIn(x1: int, y1: int, lam: int, x2: int, x3: int, t: int)
    {
      Cong(m, Cubic(t) - Line(x1, y1, lam, t) * Line(x1, y1, lam, t), (t - x1) * ((t - x2) * (t - x3)))
    }

    lemma CubicDifference(t: int, u: int)
      ensures Cubic(t) - Cubic(u) == (t - u) * (t * t + t * u + u * u + a)
    {
    }

    /** The cofactor of t - x1 in the difference of cubic and squared line. */
    function Cofactor(x1: int, y1: int, lam: int, t: int): int
    {
      t * t + t * x1 + x1 * x1 + a - lam * (lam * (t - x1) + 2 * y1)
    }

    lemma FirstRoot(x1: int, y1: int, lam: int, t: int)
      ensures Cubic(t) - Line(x1, y1, lam, t) * Line(x1, y1, lam, t)
           == (Cubic(x1) - y1 * y1) + (t - x1) * Cofactor(x1, y1, lam, t)
    {
      CubicDifference(t, x1);
      SquareSum(lam * (t - x1), y1);
      var d, k := t - x1, lam * (t - x1) + 2 * y1;
      MulAssoc(d, lam, k);
      assert lam * d == d * lam;
      assert d * (t * t + t * x1 + x1 * x1 + a) - d * (lam * k) == d * (t * t + t * x1 + x1 * x1 + a - lam * k);
    }

    lemma SquareSum(k: int, y: int)
      ensures (k + y) * (k + y) == y * y + k * (k + 2 * y)
    {
    }

    lemma SecondRoot(x1: int, y1: int, lam: int, x2: int, t: int)
      ensures Cofactor(x1, y1, lam, t) - Cofactor(x1, y1, lam, x2) == (t - x2) * (t + x2 + x1 - lam * lam)
    {
      var p, q := lam * (t - x1) + 2 * y1, lam * (x2 - x1) + 2 * y1;
      assert lam * p - lam * q == lam * (p - q);
      assert p - q == lam * (t - x2) by {
        assert lam * (t - x1) - lam * (x2 - x1) == lam * ((t - x1) - (x2 - x1));
      }
      MulAssoc(lam, lam, t - x2);
      assert (t - x2) * (lam * lam) == (lam * lam) * (t - x2);
      assert t * t - x2 * x2 == (t - x2) * (t + x2);
      assert t * x1 - x2 * x1 == (t - x2) * x1;
      assert (t - x2) * (t + x2) + (t - x2) * x1 - (t - x2) * (lam * lam) == (t - x2) * (t + x2 + x1 - lam * lam);
    }

    /** A line that meets the curve at x1 and x2 meets it at a third place. */
    lemma ThirdRoot(x1: int, y1: int, lam: int, x2: int, x3: int)
      requires Cong(m, Cubic(x1) - y1 * y1, 0) && Cong(m, Cofactor(x1, y1, lam, x2), 0)
      requires Cong(m, x3, lam * lam - x1 - x2)
      ensures MeetsAt(x1, y1, lam, x2, x3)
    {
      forall t
        ensures MeetsIn(x1, y1, lam, x2, x3, t)
      {
        var c, d := Cofactor(x1, y1, lam, x2), t - x2;
        FirstRoot(x1, y1, lam, t);
        SecondRoot(x1, y1, lam, x2, t);
        CongAdd(m, t, t, x3, lam * lam - x1 - x2);
        CongMul(m, d, d, t - x3, t + x2 + x1 - lam * lam);
        CongAdd(m, c, 0, d * (t + x2 + x1 - lam * lam), d * (t - x3));
        CongMul(m, t - x1, t - x1, Cofactor(x1, y1, lam, t), d * (t - x3));
        CongAdd(m, Cubic(x1) - y1 * y1, 0, (t - x1) * Cofactor(x1, y1, lam, t), (t - x1) * (d * (t - x3)));
      }
    }

    /** r is the mirror image of the third place where the line through p and q,
        the tangent if they are one point, meets the curve. */
    ghost predicate ThirdPoint(p: Point, q: Point, r: Point, lam: int)
      requires p.Affine? && q.Affine? && r.Affine?
    {
      && Cong(m, lam * (q.x - p.x), q.y - p.y) && MeetsAt(p.x, p.y, lam, q.x, r.x)
      && Cong(m, r.y, -Line(p.x, p.y, lam, r.x)) && 0 <= r.x < m && 0 <= r.y < m
    }

    predicate Opposite(p: Point, q: Point)
    {
      p.Affine? && q.Affine? && p.x == q.x && (p.y + q.y) % m == 0
    }

    lemma OnCurveCong(p: Point)
      requires OnCurve(p) && p.Affine?
      ensures Cong(m, p.y * p.y, Cubic(p.x)) && Cong(m, Cubic(p.x) - p.y * p.y, 0)
    {
      RemainderUnique(0, m, 0, 0);
      CongAdd(m, p.y * p.y - Cubic(p.x), 0, Cubic(p.x), Cubic(p.x));
      CongAdd(m, Cubic(p.x), p.y * p.y, p.y * p.y, p.y * p.y);
    }

    /** The slope of the chord makes the second point a root. */
    lemma ChordRoot(p: Point, q: Point, lam: int)
      requires Fermat(m) && OnCurve(p) && OnCurve(q) && p.Affine? && q.Affine? && p.x != q.x
      requires Cong(m, lam * (q.x - p.x), q.y - p.y)
      ensures Cong(m, Cofactor(p.x, p.y, lam, q.x), 0)
    {
      var d, l, c := q.x - p.x, Line(p.x, p.y, lam, q.x), Cofactor(p.x, p.y, lam, q.x);
      OnCurveCong(p);
      OnCurveCong(q);
      CongAdd(m, lam * d, q.y - p.y, p.y, p.y);
      CongMul(m, l, q.y, l, q.y);
      CongAdd(m, Cubic(q.x), q.y * q.y, l * l, q.y * q.y);
      FirstRoot(p.x, p.y, lam, q.x);
      CongAdd(m, Cubic(q.x) - l * l, 0, Cubic(p.x) - p.y * p.y, 0);
      NoZeroDivisors(d, c);
      if Cong(m, d, 0) {
        CongAdd(m, d, 0, p.x, p.x);
        CongEqual(m, q.x, p.x);
        assert false;
      }
    }

    /** The slope of the tangent makes the point a double root. */
    lemma TangentRoot(x: int, y: int, lam: int)
      requires Cong(m, lam * (2 * y), 3 * x * x + a)
      ensures Cong(m, Cofactor(x, y, lam, x), 0)
    {
      assert lam * (x - x) == 0;
      assert 3 * x * x == x * x + x * x + x * x;
      CongAdd(m, 3 * x * x + a, 3 * x * x + a, lam * (2 * y), 3 * x * x + a);
    }

    /** aff_add of two finite points is that third point, unless they are
        opposite; then it is infinity. */
    lemma AddIsThirdPoint(p: Point, q: Point)
      requires Fermat(m) && OnCurve(p) && OnCurve(q) && p.Affine? && q.Affine?
      ensures Add(p, q) == Infinity <==> Opposite(p, q)
      ensures !Opposite(p, q) ==> exists lam :: ThirdPoint(p, q, Add(p, q), lam)
    {
      if !Opposite(p, q) {
        var lam := Slope(p, q);
        var s, r := lam * lam - p.x - q.x, Chord(p.x, p.y, q.x, lam);
        assert Add(p, q) == r;
        SlopeRoot(p, q);
        OnCurveCong(p);
        CongMod(m, s);
        ThirdRoot(p.x, p.y, lam, q.x, r.x);
        var l := lam * (p.x - r.x) - p.y;
        CongMod(m, l);
        assert lam * (p.x - r.x) == -(lam * (r.x - p.x));
        assert ThirdPoint(p, q, r, lam);
      }
    }

    lemma SlopeRoot(p: Point, q: Point)
      requires Fermat(m) && OnCurve(p) && OnCurve(q) && p.Affine? && q.Affine? && !Opposite(p, q)
      ensures Cong(m, Slope(p, q) * (q.x - p.x), q.y - p.y)
      ensures Cong(m, Cofactor(p.x, p.y, Slope(p, q), q.x), 0)
    {
      if p.x == q.x {
        SameX(p, q);
        assert 2 * p.y == p.y + q.y;
        RemainderZero(2 * p.y);
        SlopeCorrect(0, 0, 2 * p.y, 3 * p.x * p.x + a);
        TangentRoot(p.x, p.y, Slope(p, q));
        assert Slope(p, q) * (q.x - p.x) == 0 == q.y - p.y;
      } else {
        if Cong(m, q.x - p.x, 0) {
          CongAdd(m, q.x - p.x, 0, p.x, p.x);
          CongEqual(m, q.x, p.x);
          assert false;
        }
        SlopeCorrect(p.x, p.y, q.x, q.y);
        ChordRoot(p, q, Slope(p, q));
      }
    }

    /** The third point lies on the curve. */
    lemma ThirdPointOnCurve(p: Point, q: Point, r: Point, lam: int)
      requires p.Affine? && q.Affine? && r.Affine? && ThirdPoint(p, q, r, lam)
      ensures OnCurve(r)
    {
      var l := Line(p.x, p.y, lam, r.x);
      assert MeetsIn(p.x, p.y, lam, q.x, r.x, r.x);
      assert (r.x - p.x) * ((r.x - q.x) * 0) == 0;
      CongMul(m, r.y, -l, r.y, -l);
      assert (-l) * (-l) == l * l;
      SquareMatches(r.y * r.y, l * l, Cubic(r.x));
    }

    lemma SquareMatches(y: int, l: int, c: int)
      requires Cong(m, y, l) && Cong(m, c - l, 0)
      ensures (y - c) % m == 0
    {
      CongAdd(m, y, l, c, c);
      CongAdd(m, 0, 0, c - l, 0);
      RemainderZero(y - c);
    }

    /** The curve is closed under addition. */
    lemma AddOnCurve(p: Point, q: Point)
      requires Fermat(m) && OnCurve(p) && OnCurve(q)
      ensures OnCurve(Add(p, q))
    {
      if p.Affine? && q.Affine? && !Opposite(p, q) {
        AddIsThirdPoint(p, q);
        var lam :| ThirdPoint(p, q, Add(p, q), lam);
        ThirdPointOnCurve(p, q, Add(p, q), lam);
      }
    }

    ghost predicate AssociativeAt(p: Point, q: Point, r: Point)
    {
      OnCurve(p) && OnCurve(q) && OnCurve(r) ==> Add(Add(p, q), r) == Add(p, Add(q, r))
    }

    /** k * p by repeated addition. */
    function Mul(k: nat, p: Point): Point
    {
      if k == 0 then Infinity else Add(Mul(k - 1, p), p)
    }

    /** What is taken on trust: m is prime, and addition is associative. */
    ghost predicate CurveGroup()
    {
      && Fermat(m)
      && (forall p, q, r {:trigger AssociativeAt(p, q, r)} :: AssociativeAt(p, q, r))
    }

    // ---- Multiples -----------------------------------------------------------

    lemma {:induction false} MulOnCurve(k: nat, p: Point)
      requires CurveGroup() && OnCurve(p)
      ensures OnCurve(Mul(k, p))
    {
      if k > 0 {
        MulOnCurve(k - 1, p);
        AddOnCurve(Mul(k - 1, p), p);
      }
    }

    lemma {:induction false} MulAdd(j: nat, k: nat, p: Point)
      requires CurveGroup() && OnCurve(p)
      ensures Mul(j + k, p) == Add(Mul(j, p), Mul(k, p))
    {
      if k > 0 {
        MulAdd(j, k - 1, p);
        MulOnCurve(j, p);
        MulOnCurve(k - 1, p);
        assert AssociativeAt(Mul(j, p), Mul(k - 1, p), p);
      }
    }

    function Neg(p: Point): Point
    {
      if p.Infinity? then Infinity else Affine(p.x, if p.y == 0 then 0 else m - p.y)
    }

    lemma NegOnCurve(p: Point)
      requires OnCurve(p)
      ensures OnCurve(Neg(p)) && Add(p, Neg(p)) == Infinity
    {
      RemainderUnique(0, m, 0, 0);
      RemainderUnique(m, m, 1, 0);
      if p.Affine? && p.y != 0 {
        NegOnEquation(p.x, p.y);
        assert p.y + (m - p.y) == m;
      }
    }

    lemma NegOnEquation(x: int, y: int)
      requires OnEquation(x, y)
      ensures OnEquation(x, m - y)
    {
      var rhs := Cubic(x);
      SquareNeg(y);
      CongIntro(m, (m - y) * (m - y), y * y, m - 2 * y);
      CongAdd(m, (m - y) * (m - y), y * y, rhs, rhs);
    }

    lemma SquareNeg(y: int)
      ensures (m - y) * (m - y) == y * y + m * (m - 2 * y)
    {
    }

    /** Equal multiples differ by a multiple that is infinity. */
    lemma EqualMultiples(j: nat, k: nat, g: Point)
      requires CurveGroup() && OnCurve(g) && j <= k && Mul(j, g) == Mul(k, g)
      ensures Mul(k - j, g) == Infinity
    {
      var q, r := Mul(j, g), Mul(k - j, g);
      MulOnCurve(j, g);
      MulOnCurve(k - j, g);
      MulAdd(k - j, j, g);
      NegOnCurve(q);
      assert AssociativeAt(r, q, Neg(q));
    }

    /** Points of the curve with one x-coordinate are equal or opposite. */
    lemma SameX(p: Point, q: Point)
      requires Fermat(m) && OnCurve(p) && OnCurve(q) && p.Affine? && q.Affine? && p.x == q.x
      ensures p == q || Add(p, q) == Infinity
    {
      var y1, y2, rhs := p.y, q.y, Cubic(p.x);
      RemainderUnique(0, m, 0, 0);
      CongAdd(m, y1 * y1 - rhs, 0, y2 * y2 - rhs, 0);
      assert (y1 - y2) * (y1 + y2) == y1 * y1 - y2 * y2;
      NoZeroDivisors(y1 - y2, y1 + y2);
      if Cong(m, y1 - y2, 0) {
        CongAdd(m, y1 - y2, 0, y2, y2);
        CongEqual(m, y1, y2);
      }
    }
  }
}
