/** The 64-block fixed-base comb over an addition formula that is wrong for
    equal or opposite points, and why it never meets them. */
module Comb {
  import opened Limbs
  import opened ModArith
  import opened Curve
  import Fold
  import Montgomery

  const BLOCKS: nat := 64
  const ENTRIES: nat := 15
  /** 15 * 2^252, the largest weight in the table */
  const MAX_ADDEND: int := 0xF000000000000000000000000000000000000000000000000000000000000000

  ghost predicate OrderAt(c: Curve, g: Point, n: int, k: nat)
    requires 0 < n
  {
    c.Mul(k, g) == Infinity <==> k % n == 0
  }

  /** What is taken on trust: the curve is a group over a prime field, and g is
      a point of order exactly n, with n in the range of the P-256 order. */
  ghost predicate Generates(c: Curve, g: Point, n: int)
  {
    && c.CurveGroup() && c.OnCurve(g)
    && MAX_ADDEND < n < R
    && (forall k: nat {:trigger OrderAt(c, g, n, k)} :: OrderAt(c, g, n, k))
  }

  /** The order of g, used: distinct multiples below n whose sum is not n have
      distinct x-coordinates. */
  lemma DistinctX(c: Curve, g: Point, n: int, j: nat, k: nat)
    requires Generates(c, g, n) && 0 < j < k < n && j + k != n
    ensures c.Mul(j, g).Affine? && c.Mul(k, g).Affine? && c.Mul(j, g).x != c.Mul(k, g).x
  {
    FiniteMultiple(c, g, n, j);
    FiniteMultiple(c, g, n, k);
    FiniteMultiple(c, g, n, k - j);
    FiniteMultiple(c, g, n, j + k);
    c.MulOnCurve(j, g);
    c.MulOnCurve(k, g);
    if c.Mul(j, g).x == c.Mul(k, g).x {
      c.SameX(c.Mul(j, g), c.Mul(k, g));
      c.MulAdd(j, k, g);
      if c.Mul(j, g) == c.Mul(k, g) {
        c.EqualMultiples(j, k, g);
      }
      assert false;
    }
  }

  /** Below 2 n only 0 and n are multiples of the order. */
  lemma FiniteMultiple(c: Curve, g: Point, n: int, k: nat)
    requires Generates(c, g, n) && k < 2 * n
    ensures c.Mul(k, g) == Infinity <==> k == 0 || k == n
    ensures k % n == 0 <==> k == 0 || k == n
  {
    assert OrderAt(c, g, n, k);
    if k < n {
      RemainderUnique(k, n, 0, k);
    } else {
      RemainderUnique(k, n, 1, k - n);
    }
  }

  /** Reducing the scalar first changes nothing. */
  lemma MulModOrder(c: Curve, g: Point, n: int, k: nat)
    requires Generates(c, g, n)
    ensures c.Mul(k % n, g) == c.Mul(k, g)
  {
    DivParts(k, n);
    assert OrderAt(c, g, n, n * (k / n));
    c.MulAdd(n * (k / n), k % n, g);
  }

  lemma DivParts(k: nat, n: nat)
    requires 0 < n
    ensures 0 <= n * (k / n) && n * (k / n) % n == 0 && k == n * (k / n) + k % n
  {
    MulMonotone(0, k / n, n);
    RemainderUnique(n * (k / n), n, k / n, 0);
  }

  // ---- The oracle and the table --------------------------------------------

  /** aff_mul: textbook left-to-right double-and-add. */
  method AffMul(c: Curve, k: nat, p: Point) returns (r: Point)
    requires c.CurveGroup() && c.OnCurve(p)
    ensures r == c.Mul(k, p)
  {
    r := Infinity;
    var i := BitLength(k);
    BitLengthBound(k);
    while i > 0
      invariant r == c.Mul(Shr(k, i), p)
    {
      i := i - 1;
      BitStep(c, k, i, p);
      r := c.Add(r, r);
      if Shr(k, i) % 2 == 1 {
        r := c.Add(r, p);
      }
    }
  }

  /** One bit of double-and-add. */
  lemma BitStep(c: Curve, k: nat, i: nat, p: Point)
    requires c.CurveGroup() && c.OnCurve(p)
    ensures var q := c.Mul(Shr(k, i + 1), p);
      c.Mul(Shr(k, i), p) == if Shr(k, i) % 2 == 1 then c.Add(c.Add(q, q), p) else c.Add(q, q)
  {
    var h := Shr(k, i + 1);
    c.MulAdd(h, h, p);
    assert Shr(k, i) == h + h + Shr(k, i) % 2;
  }

  /** k >> i */
  function Shr(k: nat, i: nat): nat
  {
    if i == 0 then k else Shr(k, i - 1) / 2
  }

  function BitLength(k: nat): nat
  {
    if k == 0 then 0 else 1 + BitLength(k / 2)
  }

  lemma {:induction false} ShrHalf(k: nat, i: nat)
    ensures Shr(k, i + 1) == Shr(k / 2, i)
  {
    if i > 0 {
      ShrHalf(k, i - 1);
    }
  }

  lemma {:induction false} BitLengthBound(k: nat)
    ensures Shr(k, BitLength(k)) == 0
  {
    if k > 0 {
      BitLengthBound(k / 2);
      ShrHalf(k, BitLength(k / 2));
    }
  }

  /** The weight of nibble i. */
  function Weight(i: nat): (w: nat)
    ensures w > 0
  {
    if i == 0 then 1 else 16 * Weight(i - 1)
  }

  /** Row i of the table holds j * 16^i * g at index j - 1. */
  ghost predicate IsRow(c: Curve, g: Point, row: seq<Point>, i: nat)
  {
    && |row| == ENTRIES
    && forall j | 0 <= j < ENTRIES :: row[j] == c.Mul((j + 1) * Weight(i), g)
  }

  ghost predicate IsTable(c: Curve, g: Point, table: seq<seq<Point>>)
  {
    |table| == BLOCKS && forall i | 0 <= i < BLOCKS :: IsRow(c, g, table[i], i)
  }

  /** build_table: each row by repeated addition of its base, each base by four
      doublings of the one before. */
  method BuildTable(c: Curve, g: Point) returns (table: seq<seq<Point>>)
    requires c.CurveGroup() && c.OnCurve(g)
    ensures IsTable(c, g, table)
  {
    table := [];
    var base := g;
    assert c.Mul(1, g) == c.Add(c.Mul(0, g), g);
    for i := 0 to BLOCKS
      invariant |table| == i && base == c.Mul(Weight(i), g)
      invariant forall k | 0 <= k < i :: IsRow(c, g, table[k], k)
    {
      var row := BuildRow(c, g, base, i);
      table := table + [row];
      base := Double4(c, g, base, Weight(i));
    }
  }

  method BuildRow(c: Curve, g: Point, base: Point, i: nat) returns (row: seq<Point>)
    requires c.CurveGroup() && c.OnCurve(g) && base == c.Mul(Weight(i), g)
    ensures IsRow(c, g, row, i)
  {
    row := [];
    var acc := Infinity;
    for j := 0 to ENTRIES
      invariant |row| == j && acc == Entry(c, g, i, j)
      invariant forall k: nat | k < j :: row[k] == Entry(c, g, i, k + 1)
    {
      EntryStep(c, g, i, j);
      acc := c.Add(acc, base);
      row := row + [acc];
    }
  }

  /** j * 16^i * g */
  ghost function Entry(c: Curve, g: Point, i: nat, j: nat): Point
  {
    c.Mul(j * Weight(i), g)
  }

  lemma EntryStep(c: Curve, g: Point, i: nat, j: nat)
    requires c.CurveGroup() && c.OnCurve(g)
    ensures Entry(c, g, i, j + 1) == c.Add(Entry(c, g, i, j), c.Mul(Weight(i), g))
  {
    Expand2(j, 1, Weight(i));
    c.MulAdd(j * Weight(i), Weight(i), g);
  }

  method Double4(c: Curve, g: Point, base: Point, w: nat) returns (r: Point)
    requires c.CurveGroup() && c.OnCurve(g) && base == c.Mul(w, g)
    ensures r == c.Mul(16 * w, g)
  {
    r := base;
    var v := w;
    for j := 0 to 4
      invariant r == c.Mul(v, g)
      invariant v == if j == 0 then w else if j == 1 then 2 * w else if j == 2 then 4 * w else if j == 3 then 8 * w else 16 * w
    {
      c.MulAdd(v, v, g);
      r, v := c.Add(r, r), v + v;
    }
  }

  // ---- The comb ------------------------------------------------------------

  lemma {:induction false} WeightAdd(i: nat, j: nat)
    ensures Weight(i + j) == Weight(i) * Weight(j)
  {
    if i > 0 {
      WeightAdd(i - 1, j);
      MulAssoc(16, Weight(i - 1), Weight(j));
    }
  }

  lemma WeightTop()
    ensures Weight(64) == R && 15 * Weight(63) == MAX_ADDEND
  {
    assert Weight(8) == 0x1_0000_0000;
    WeightAdd(8, 8);
    WeightAdd(16, 16);
    WeightAdd(32, 32);
  }

  lemma {:induction false} WeightMonotone(i: nat, j: nat)
    requires i <= j
    ensures Weight(i) <= Weight(j)
    decreases j - i
  {
    if i < j {
      WeightMonotone(i, j - 1);
    }
  }

  /** Nibble i of k. */
  function Nibble(k: nat, i: nat): (d: nat)
    ensures d < 16
  {
    k / Weight(i) % 16
  }

  lemma NibbleStep(k: nat, i: nat)
    ensures k % Weight(i + 1) == k % Weight(i) + Nibble(k, i) * Weight(i)
    ensures 0 <= k % Weight(i) < Weight(i)
  {
    var w, q := Weight(i), k / Weight(i);
    DivMod(k, w);
    NibbleCompose(k, w, q / 16, q % 16, k % w);
  }

  lemma DivMod(k: int, w: int)
    requires 0 < w
    ensures k == w * (k / w) + k % w && 0 <= k % w < w
  {
  }

  lemma NibbleCompose(k: int, w: int, q: int, d: int, r: int)
    requires 0 <= r < w && 0 <= d < 16 && k == w * (16 * q + d) + r
    ensures k % (16 * w) == d * w + r
  {
    NibbleAlgebra(w, q, d);
    MulMonotone(d, 15, w);
    MulMonotone(0, d, w);
    RemainderUnique(k, 16 * w, q, d * w + r);
  }

  lemma NibbleAlgebra(w: int, q: int, d: int)
    ensures w * (16 * q + d) == (16 * w) * q + d * w
  {
  }

  /** The accumulator r stands for k * g: z is 0 exactly at infinity. */
  ghost predicate Holds(c: Curve, g: Point, r: Jacobian, k: nat)
  {
    match c.Mul(k, g)
    case Infinity => r.z == 0
    case Affine(x, y) => 0 < r.z < c.m && c.ToAffine(r) == (x, y)
  }

  /** The mixed formula's precondition fails: its h is zero. */
  ghost predicate Clash(c: Curve, r: Jacobian, x2: int)
  {
    r.z != 0 && Cong(c.m, x2 * (r.z * r.z), r.x)
  }

  /** Block i adds the table point for digit d to the sum j of the lower
      nibbles: madd is right except when the two sum to n, and there its z3 = 0
      is the right answer too. */
  lemma BlockCorrect(c: Curve, g: Point, n: int, r: Jacobian, j: nat, i: nat, d: nat)
    requires Generates(c, g, n) && i < BLOCKS && j < Weight(i) && 1 <= d < 16 && Holds(c, g, r, j)
    ensures var a := c.Mul(d * Weight(i), g);
      && a.Affine?
      && (Clash(c, r, a.x) <==> j > 0 && j + d * Weight(i) == n)
      && Holds(c, g, if r.z == 0 then Jacobian(a.x, a.y, 1) else c.Madd(r, a.x, a.y), j + d * Weight(i))
  {
    var k := d * Weight(i);
    BlockRange(n, j, i, d);
    FiniteMultiple(c, g, n, k);
    FiniteMultiple(c, g, n, j);
    FiniteMultiple(c, g, n, j + k);
    c.MulOnCurve(k, g);
    c.MulOnCurve(j, g);
    c.MulAdd(j, k, g);
    var a := c.Mul(k, g);
    if j == 0 {
      FirstBlock(c, a);
    } else {
      assert !Cong(c.m, r.z, 0) by { NonZero(c.m, r.z); }
      c.ClashMeansSameX(r, a.x);
      if j + k == n {
        OppositeBlock(c, r, a);
      } else {
        DistinctX(c, g, n, j, k);
        c.MaddRefinesAdd(r, a.x, a.y);
        MaddZRange(c, r, a);
      }
    }
  }

  lemma BlockRange(n: int, j: nat, i: nat, d: nat)
    requires MAX_ADDEND < n < R && i < BLOCKS && j < Weight(i) && 1 <= d < 16
    ensures 0 <= j < d * Weight(i) < n && j + d * Weight(i) < 2 * n
  {
    WeightTop();
    WeightMonotone(i, 63);
    MulMonotone(1, d, Weight(i));
    MulMonotone(d, 15, Weight(i));
  }

  lemma NonZero(m: int, z: int)
    requires 0 < z < m
    ensures !Cong(m, z, 0)
  {
    RemainderUnique(z, m, 0, z);
    RemainderUnique(0, m, 0, 0);
  }

  lemma FirstBlock(c: Curve, a: Point)
    requires Fermat(c.m) && c.OnCurve(a) && a.Affine?
    ensures c.ToAffine(Jacobian(a.x, a.y, 1)) == (a.x, a.y)
  {
    var r := Jacobian(a.x, a.y, 1);
    NonZero(c.m, 1);
    assert a.x * (r.z * r.z) == a.x && a.y * (r.z * (r.z * r.z)) == a.y;
    c.RepresentsToAffine(r, a.x, a.y);
  }

  lemma MaddZRange(c: Curve, r: Jacobian, a: Point)
    requires a.Affine?
    ensures 0 <= c.Madd(r, a.x, a.y).z < c.m
    ensures Cong(c.m, c.Madd(r, a.x, a.y).z, 0) <==> c.Madd(r, a.x, a.y).z == 0
  {
    var z := c.Madd(r, a.x, a.y).z;
    RemainderUnique(z, c.m, 0, z);
    RemainderUnique(0, c.m, 0, 0);
  }

  /** Adding the opposite point leaves z3 = 0. */
  lemma OppositeBlock(c: Curve, r: Jacobian, a: Point)
    requires Fermat(c.m) && !Cong(c.m, r.z, 0) && a.Affine?
    requires a.x == c.ToAffine(r).0
    ensures c.Madd(r, a.x, a.y).z == 0
  {
    var (ax, ay) := c.ToAffine(r);
    c.ToAffineRepresents(r);
    c.MaddZ(r, a.x, a.y, ax, ay);
    ZeroProduct(a.x - ax, r.z * r.z, r.z);
    MaddZRange(c, r, a);
  }

  lemma ZeroProduct(d: int, w: int, z: int)
    requires d == 0
    ensures (d * w) * z == 0
  {
  }

  /** x & mask, for the all-ones or all-zeros mask of the constant-time select. */
  function Masked(x: nat, keep: bool): nat
  {
    if keep then x else 0
  }

  /** Bitwise or of two naturals. */
  function BitOr(x: nat, y: nat): nat
  {
    if x == 0 && y == 0 then 0
    else (if x % 2 == 1 || y % 2 == 1 then 1 else 0) + 2 * BitOr(x / 2, y / 2)
  }

  lemma {:induction false} BitOrZero(x: nat)
    ensures BitOr(x, 0) == x && BitOr(0, x) == x
  {
    if x > 0 {
      BitOrZero(x / 2);
    }
  }

  /** The constant-time select: read all fifteen entries, keep the one whose
      index is d; digit 0 leaves (0, 0). */
  method Select(row: seq<Point>, d: nat) returns (ax: nat, ay: nat)
    requires |row| == ENTRIES && d < 16
    requires forall j | 0 <= j < ENTRIES :: row[j].Affine? && row[j].x >= 0 && row[j].y >= 0
    ensures d == 0 ==> ax == 0 && ay == 0
    ensures d > 0 ==> row[d - 1] == Affine(ax, ay)
  {
    ax, ay := 0, 0;
    for j := 1 to ENTRIES + 1
      invariant if 1 <= d < j then row[d - 1] == Affine(ax, ay) else ax == 0 && ay == 0
    {
      BitOrZero(ax);
      BitOrZero(ay);
      BitOrZero(row[j - 1].x);
      BitOrZero(row[j - 1].y);
      ax := BitOr(ax, Masked(row[j - 1].x, j == d));
      ay := BitOr(ay, Masked(row[j - 1].y, j == d));
    }
  }

  /** Every table entry is a finite point of the curve. */
  lemma RowFinite(c: Curve, g: Point, n: int, row: seq<Point>, i: nat)
    requires Generates(c, g, n) && i < BLOCKS && IsRow(c, g, row, i)
    ensures forall j | 0 <= j < ENTRIES :: row[j].Affine? && row[j].x >= 0 && row[j].y >= 0
  {
    forall j | 0 <= j < ENTRIES
      ensures row[j].Affine? && row[j].x >= 0 && row[j].y >= 0
    {
      BlockRange(n, 0, i, j + 1);
      FiniteMultiple(c, g, n, (j + 1) * Weight(i));
      c.MulOnCurve((j + 1) * Weight(i), g);
    }
  }

  /** The nibbles up to block i sum to n only at the last block of k = n. */
  lemma LastBlock(n: int, k: nat, i: nat)
    requires MAX_ADDEND < n < R && i < BLOCKS
    ensures k % Weight(i) > 0 && Nibble(k, i) > 0 && k % Weight(i) + Nibble(k, i) * Weight(i) == n
       <==> i == BLOCKS - 1 && k % R == n
  {
    NibbleStep(k, i);
    WeightTop();
    WeightMonotone(i + 1, 64);
    if Nibble(k, i) > 0 {
      BlockRange(n, 0, i, Nibble(k, i));
    }
    WeightMonotone(i, 63);
    if i < 63 {
      WeightMonotone(i + 1, 63);
    }
  }

  /** One block: select, add, and the two masked moves. */
  method CombBlock(c: Curve, g: Point, n: int, k: nat, row: seq<Point>, i: nat, r: Jacobian)
    returns (next: Jacobian, ghost clash: bool)
    requires Generates(c, g, n) && i < BLOCKS && IsRow(c, g, row, i) && Holds(c, g, r, k % Weight(i))
    ensures Holds(c, g, next, k % Weight(i + 1))
    ensures clash <==> i == BLOCKS - 1 && k % R == n
  {
    var d := Nibble(k, i);
    NibbleStep(k, i);
    LastBlock(n, k, i);
    RowFinite(c, g, n, row, i);
    var ax, ay := Select(row, d);
    var cand := c.Madd(r, ax, ay);
    next := cand;
    if r.z == 0 {
      next := Jacobian(ax, ay, 1);
    }
    if d == 0 {
      next := r;
    } else {
      BlockCorrect(c, g, n, r, k % Weight(i), i, d);
      assert row[d - 1] == c.Mul(d * Weight(i), g);
    }
    clash := d > 0 && Clash(c, r, ax);
  }

  /** comb_mul_base: for every scalar k, of which the low 256 bits are read
      unreduced, the result is k * g. `clashes` collects the blocks at which a
      contributing mixed addition met plus or minus its own addend: none,
      except the last block of k = n. */
  method CombMulBase(c: Curve, g: Point, n: int, k: nat, table: seq<seq<Point>>)
    returns (x: int, y: int, ghost clashes: set<nat>)
    requires Generates(c, g, n) && IsTable(c, g, table)
    ensures match c.Mul(k % R, g)
      case Affine(ax, ay) => x == ax && y == ay
      case Infinity => x == 0 && y == 0
    ensures clashes == if k % R == n then {BLOCKS - 1} else {}
  {
    var r := Jacobian(0, 0, 0);
    clashes := {};
    WeightTop();
    assert k % 1 == 0;
    for i := 0 to BLOCKS
      invariant Holds(c, g, r, k % Weight(i))
      invariant clashes == if i == BLOCKS && k % R == n then {BLOCKS - 1} else {}
    {
      ghost var clash;
      r, clash := CombBlock(c, g, n, k, table[i], i, r);
      if clash {
        clashes := clashes + {i};
      }
    }
    var affine := c.ToAffine(r);
    x, y := affine.0, affine.1;
    assert 0 % c.m == 0 by { RemainderUnique(0, c.m, 0, 0); }
  }

  // ---- P-256 ---------------------------------------------------------------

  const P256: Curve :=
    Curve(Fold.P, Fold.P - 3, 0x5AC635D8AA3A93E7B3EBBD55769886BC651D06B0CC53B0F63BCE3C3E27D2604B)

  const G: Point :=
    Affine(0x6B17D1F2E12C4247F8BCE6E563A440F277037D812DEB33A0F4A13945D898C296,
           0x4FE342E2FE1A7F9B8EE7EB4A7C0F9E162BCE33576B315ECECBB6406837BF51F5)

  const N: int := Montgomery.N

  /** G lies on the curve and n is in the range the block argument needs. */
  lemma GeneratorOnCurve()
    ensures P256.OnCurve(G) && MAX_ADDEND < N < R
  {
  }

  lemma OriginOffCurve()
    ensures !P256.OnCurve(Affine(0, 0))
  {
    assert P256.Cubic(0) == P256.b;
  }

  /** The comb on its own table agrees with the reduced-scalar oracle, for every
      256-bit scalar and the (0, 0) convention for infinity. */
  method PointMulBase(k: nat) returns (x: int, y: int)
    requires Generates(P256, G, N) && k < R
    ensures P256.Mul(k, G) == P256.Mul(k % N, G) && P256.OnCurve(P256.Mul(k, G))
    ensures match P256.Mul(k, G)
      case Affine(ax, ay) => x == ax && y == ay
      case Infinity => x == 0 && y == 0
    ensures P256.Mul(k, G) == Infinity <==> k == 0 || k == N
    ensures P256.Mul(k, G) == Infinity <==> x == 0 && y == 0
  {
    var table := BuildTable(P256, G);
    ghost var clashes;
    x, y, clashes := CombMulBase(P256, G, N, k, table);
    RemainderUnique(k, R, 0, k);
    MulModOrder(P256, G, N, k);
    P256.MulOnCurve(k, G);
    OriginOffCurve();
    FiniteMultiple(P256, G, N, k);
  }
}
