/** The word-and-carry sequence of the Montgomery multiply modulo the P-256
    group order n. Every `assert` about a carry is one the assembly relies on
    without an instruction for it. */
module Montgomery {
  import opened Limbs
  import opened ModArith

  lemma PowR()
    ensures Pow(B64, 4) == R && Pow(B64, 8) == R * R
  {
    PowFour();
    PowAdd(B64, 4, 4);
  }

  // ---- Phase 1: the 4x4 product --------------------------------------------

  /** A partial product over i + 1 words of `bw` fits in i + 5 words. */
  lemma RowBound(aw: seq<Word>, bw: seq<Word>, i: nat)
    requires |aw| == 4 && i < |bw|
    ensures 0 <= Value(aw) * Value(bw[..i + 1]) < Pow(B64, i + 5)
  {
    var a, b := Value(aw), Value(bw[..i + 1]);
    ValBound(B64, aw);
    ValBound(B64, bw[..i + 1]);
    MulMonotone(0, a, b);
    MulMonotone(a, Pow(B64, 4) - 1, b);
    MulMonotone(b, Pow(B64, i + 1) - 1, Pow(B64, 4));
    PowAdd(B64, 4, i + 1);
    Expand2(Pow(B64, 4), 1, b);
    Expand2(Pow(B64, i + 1), 1, Pow(B64, 4));
    PowPositive(B64, 4);
  }

  /** The partial products: appending word i of `bw` adds a * b[i] at word i. */
  lemma RowSum(aw: seq<Word>, bw: seq<Word>, i: nat, lo: int, hi: int)
    requires i < |bw| && lo + B64 * hi == Value(aw) * bw[i]
    ensures Value(aw) * Value(bw[..i]) + Pow(B64, i) * lo + Pow(B64, i + 1) * hi
         == Value(aw) * Value(bw[..i + 1])
  {
    ValSnoc(B64, bw, i);
    RowAlgebra(B64, Pow(B64, i), Value(aw), bw[i], Value(bw[..i]), lo, hi);
  }

  lemma RowAlgebra(base: int, p: int, a: int, x: int, below: int, lo: int, hi: int)
    requires lo + base * hi == a * x
    ensures a * below + p * lo + (base * p) * hi == a * (below + x * p)
  {
    ScaleHi(base, p, hi);
    Expand2(lo, base * hi, p);
    Swap(p, a, x);
    Expand2(below, x * p, a);
  }

  lemma ScaleHi(base: int, p: int, hi: int)
    ensures (base * p) * hi == p * (base * hi)
  {
  }

  method ProductRow(t: seq<Word>, i: nat, aw: seq<Word>, bw: seq<Word>) returns (r: seq<Word>)
    requires |t| == 8 && |aw| == |bw| == 4 && i < 4
    requires Value(t) == Value(aw) * Value(bw[..i])
    requires forall k | i + 4 <= k < 8 :: t[k] == 0
    ensures |r| == 8
    ensures Value(r) == Value(aw) * Value(bw[..i + 1])
    ensures forall k | i + 5 <= k < 8 :: r[k] == 0
  {
    var lo, hi := MulHalves(aw, bw[i]);
    var c;
    r, c := AddChain(t, i, lo);
    ValUpdate(B64, r, i + 4, c);
    r := r[i + 4 := c];
    var r1 := r;
    r, c := AddChain(r1, i + 1, hi);
    RowSum(aw, bw, i, Value(lo), Value(hi));
    RowBound(aw, bw, i);
    ValBound(B64, r);
    OneOrMore(c, Pow(B64, i + 5));
    assert c == 0;  // no carry out of t[i + 4]
  }

  method Product(aw: seq<Word>, bw: seq<Word>) returns (t: seq<Word>)
    requires |aw| == |bw| == 4
    ensures |t| == 8 && Value(t) == Value(aw) * Value(bw)
  {
    t := [0, 0, 0, 0, 0, 0, 0, 0];
    ValZeros(B64, t);
    for i := 0 to 4
      invariant |t| == 8
      invariant Value(t) == Value(aw) * Value(bw[..i])
      invariant forall k | i + 4 <= k < 8 :: t[k] == 0
    {
      t := ProductRow(t, i, aw, bw);
    }
    assert bw[..4] == bw;
  }

  // ---- Phase 2: the reduction rounds ---------------------------------------

  /** Add the two-word carry c1 + 2^64 c2 at word i + 4 and let it run up
      through t[7] into the ninth word `ext`. */
  method Deposit(t: seq<Word>, ext: nat, i: nat, c1: Word, c2: Word)
    returns (r: seq<Word>, e: nat)
    requires |t| == 8 && i < 4 && ext <= 1 && c2 <= 1
    ensures |r| == 8
    ensures Value(r) + e * Pow(B64, 8)
         == Value(t) + ext * Pow(B64, 8) + (c1 + B64 * c2) * Pow(B64, i + 4)
    ensures forall k | 0 <= k < i + 4 :: r[k] == t[k]
  {
    r, e := t, ext;
    var p := Pow(B64, i + 4);
    Distribute(B64, c2, c1, p);
    var s := r[i + 4] + c1;
    ValUpdate(B64, r, i + 4, s % B64);
    CarryStep(B64, s, p);
    Expand2(s % B64, r[i + 4], p);
    Expand2(r[i + 4], c1, p);
    r := r[i + 4 := s % B64];
    var c := s / B64;
    assert Value(r) + c * (B64 * p) == Value(t) + c1 * p;
    Expand2(c2, c, B64 * p);
    s := (if i + 5 <= 7 then r[i + 5] else e) + c2 + c;
    if i + 5 <= 7 {
      assert Value(r) + (c2 + c) * Pow(B64, i + 5) + e * Pow(B64, 8)
          == Value(t) + ext * Pow(B64, 8) + (c1 + B64 * c2) * p;
      r, e := Ripple(r, e, i + 5, c2 + c);
    } else {
      Expand2(e, c2 + c, Pow(B64, 8));
      e := s;
    }
  }

  /** The tail of the deposit: add a small carry at word k and propagate it. */
  method Ripple(t: seq<Word>, ext: nat, j: nat, carry: nat) returns (r: seq<Word>, e: nat)
    requires |t| == 8 && j < 8 && carry <= 2
    ensures |r| == 8
    ensures Value(r) + e * Pow(B64, 8) == Value(t) + ext * Pow(B64, 8) + carry * Pow(B64, j)
    ensures forall k | 0 <= k < j :: r[k] == t[k]
  {
    r, e := t, ext;
    var c: nat := carry;
    for k := j to 8
      invariant |r| == 8 && c <= 2
      invariant Value(r) + c * Pow(B64, k) == Value(t) + carry * Pow(B64, j)
      invariant forall l | 0 <= l < j :: r[l] == t[l]
    {
      RippleWord(r, k, c);
      var s := r[k] + c;
      r, c := r[k := s % B64], s / B64;
    }
    Expand2(e, c, Pow(B64, 8));
    e := e + c;
  }

  /** Adding a carry at one word moves its weight into the next carry. */
  lemma RippleWord(t: seq<Word>, k: nat, c: nat)
    requires |t| == 8 && k < 8
    ensures var s := t[k] + c;
      Value(t[k := s % B64]) + s / B64 * Pow(B64, k + 1) == Value(t) + c * Pow(B64, k)
  {
    var s, p := t[k] + c, Pow(B64, k);
    ValUpdate(B64, t, k, s % B64);
    CarryStep(B64, s, p);
    Expand2(s % B64, t[k], p);
    Expand2(t[k], c, p);
  }

  /** The chosen multiplier makes the low word vanish. */
  lemma Vanishes(b: int, ti: int, n0: int, inv: int)
    requires 0 < b && Cong(b, n0 * inv, -1)
    ensures (ti + (ti * inv % b) * n0 % b) % b == 0
  {
    var m := ti * inv % b;
    CongMod(b, ti * inv);
    CongMul(b, m, ti * inv, n0, n0);
    MulAssoc(ti, n0, inv);
    Reassoc(ti, inv, n0);
    CongMul(b, ti, ti, n0 * inv, -1);
    CongMod(b, m * n0);
    CongAdd(b, ti, ti, m * n0 % b, ti * -1);
  }

  lemma RoundAlgebra(p: int, p3: int, lo: int, hi: int, top: int)
    ensures p * lo + (B64 * p) * hi + top * ((B64 * p) * p3) == p * (lo + B64 * (hi + top * p3))
  {
    ScaleHi(B64, p, hi + top * p3);
    Expand2(lo, B64 * (hi + top * p3), p);
    Expand2(hi, top * p3, B64 * p);
    Swap(B64 * p, top, p3);
  }

  /** Dividing by R modulo m and multiplying by it again changes nothing. */
  lemma ScaledBack(m: int, x: int, big: int, inv: int)
    requires 1 < m && big * inv % m == 1
    ensures Cong(m, (x * inv % m) * big, x)
  {
    CongMod(m, x * inv);
    CongMul(m, x * inv % m, x * inv, big, big);
    MulAssoc(x, inv, big);
    RemainderUnique(1, m, 0, 1);
    CongMul(m, x, x, big * inv, 1);
  }

  lemma SameResidue(m: int, r: int, s: int, big: int, inv: int)
    requires 0 <= r < m && 0 <= s < m && 1 < m && Cong(m, r * big, s * big) && big * inv % m == 1
    ensures r == s
  {
    RemainderUnique(1, m, 0, 1);
    CongCancel(m, r, s, big, inv);
    CongEqual(m, r, s);
  }

  lemma Subtracted(m: int, out: int, resv: int, big: int, ab: int, mult: int)
    requires 0 < m && (out == resv || out == resv - m) && resv * big == ab + mult * m
    ensures Cong(m, out * big, ab)
  {
    CongIntro(m, out, resv, if out == resv then 0 else -1);
    CongMul(m, out, resv, big, big);
    CongIntro(m, resv * big, ab, mult);
  }

  lemma AtMostOne(v: int, e: int, top: int)
    requires 0 <= v && 0 < top && v + e * top < 2 * top
    ensures e <= 1
  {
    if e >= 2 {
      MulMonotone(2, e, top);
    }
  }

  lemma Small(a: int, m: int)
    requires 0 <= a < m
    ensures a % m == a
  {
    RemainderUnique(a, m, 0, a);
  }

  lemma ProductBound(a: int, b: int, m: int, big: int)
    requires 0 <= a < m && 0 <= b < big
    ensures a * b < m * big
  {
    MulMonotone(a, m, b);
    MulMonotone(b, big - 1, m);
    Expand2(big, 1, m);
  }

  type Word4Modulus = m: int | 1 < m < R witness 3

  /** A modulus below 2^256, with -n^-1 mod 2^64 and R^-1 mod n. */
  datatype Modulus = Modulus(n: Word4Modulus, n0inv: Word, rinv: int) {

    ghost predicate Valid() {
      Words(n)[0] * n0inv % B64 == B64 - 1 && R * rinv % n == 1
    }

    /** R^2 mod n, the constant that enters Montgomery form */
    function RR(): (r: int)
      ensures 0 <= r < n
    {
      R * R % n
    }

    lemma WordsOfN()
      ensures Value(Words(n)) == n
    {
      PowR();
      RemainderUnique(n, R, 0, n);
    }

    /** One round: m * n is added at word i, which clears t[i]. */
    method ReductionRound(t: seq<Word>, ext: nat, i: nat)
      returns (r: seq<Word>, e: nat, ghost m: Word)
      requires Valid() && |t| == 8 && i < 4 && ext <= 1
      requires forall k | 0 <= k < i :: t[k] == 0
      requires Value(t) + ext * Pow(B64, 8) + Pow(B64, i) * ((B64 - 1) * n) < 2 * Pow(B64, 8)
      ensures |r| == 8 && e <= 1
      ensures forall k | 0 <= k <= i :: r[k] == 0
      ensures Value(r) + e * Pow(B64, 8) == Value(t) + ext * Pow(B64, 8) + Pow(B64, i) * (m * n)
    {
      var mm: Word := t[i] * n0inv % B64;
      m := mm;
      var c1, c2;
      WordsOfN();
      r, c1, c2 := RoundChains(t, i, mm, Words(n));
      var r2 := r;
      r, e := Deposit(r2, ext, i, c1, c2);
      RoundStep(i, mm);
      ValBound(B64, r);
      PowPositive(B64, 8);
      AtMostOne(Value(r), e, Pow(B64, 8));  // the fifth result word never exceeds 1
    }

    /** The two chains of a round, low halves then high halves, leave the
        two-word carry (c2 : c1) for word i + 4. */
    method RoundChains(t: seq<Word>, i: nat, m: Word, nw: seq<Word>) returns (r: seq<Word>, c1: Word, c2: Word)
      requires |t| == 8 && i < 4 && m == t[i] * n0inv % B64
      requires |nw| == 4 && Value(nw) == n && nw[0] * n0inv % B64 == B64 - 1
      requires forall k | 0 <= k < i :: t[k] == 0
      ensures |r| == 8 && c2 <= 1
      ensures forall k | 0 <= k <= i :: r[k] == 0
      ensures Value(r) + (c1 + B64 * c2) * Pow(B64, i + 4) == Value(t) + Pow(B64, i) * (m * n)
    {
      var lo, hi := MulHalves(nw, m);
      var c;
      r, c1 := AddChain(t, i, lo);
      Vanishes(B64, t[i], nw[0], n0inv);
      var r1 := r;
      r, c := AddChain(r1, i + 1, hi[..3]);
      RoundSum(i, m, lo, hi);
      Expand3(c1, hi[3], c, Pow(B64, i + 4));
      var s := c1 + hi[3] + c;
      c1, c2 := s % B64, s / B64;
      assert c2 <= 1;
    }

    /** Both chains of a round together add m * n at word i. */
    lemma RoundSum(i: nat, m: Word, lo: seq<Word>, hi: seq<Word>)
      requires |lo| == |hi| == 4 && Value(lo) + B64 * Value(hi) == n * m
      ensures Pow(B64, i) * Value(lo) + Pow(B64, i + 1) * Value(hi[..3]) + hi[3] * Pow(B64, i + 4)
           == Pow(B64, i) * (m * n)
    {
      ValSnoc(B64, hi, 3);
      assert hi[..4] == hi;
      PowAdd(B64, i + 1, 3);
      RoundAlgebra(Pow(B64, i), Pow(B64, 3), Value(lo), Value(hi[..3]), hi[3]);
    }

    /** What a round adds is at most what the room for it allows. */
    lemma RoundStep(i: nat, m: Word)
      ensures 0 <= Pow(B64, i) * (m * n) <= Pow(B64, i) * ((B64 - 1) * n)
    {
      PowPositive(B64, i);
      MulMonotone(0, m, n);
      MulMonotone(m, B64 - 1, n);
      MulMonotone(0, m * n, Pow(B64, i));
      MulMonotone(m * n, (B64 - 1) * n, Pow(B64, i));
    }

    method Reduce(t: seq<Word>) returns (r: seq<Word>, ext: nat, ghost mult: nat)
      requires Valid() && |t| == 8 && Value(t) < n * R
      ensures |r| == 8 && ext <= 1
      ensures forall k | 0 <= k < 4 :: r[k] == 0
      ensures Value(r) + ext * Pow(B64, 8) == Value(t) + mult * n && mult < Pow(B64, 4)
    {
      r, ext, mult := t, 0, 0;
      for i := 0 to 4
        invariant |r| == 8 && ext <= 1
        invariant forall k | 0 <= k < i :: r[k] == 0
        invariant Value(r) + ext * Pow(B64, 8) == Value(t) + mult * n
        invariant mult < Pow(B64, i)
      {
        ghost var m;
        RoundRoom(Value(t), mult, i);
        r, ext, m := ReductionRound(r, ext, i);
        NextMultiplier(mult, m, i);
        mult := mult + Pow(B64, i) * m;
      }
    }

    lemma NextMultiplier(mult: nat, m: Word, i: nat)
      requires mult < Pow(B64, i)
      ensures 0 <= mult + Pow(B64, i) * m < Pow(B64, i + 1)
      ensures (mult + Pow(B64, i) * m) * n == mult * n + Pow(B64, i) * (m * n)
    {
      var p := Pow(B64, i);
      MulMonotone(0, m, p);
      MulMonotone(m, B64 - 1, p);
      assert p * (B64 - 1) == B64 * p - p;
      Expand2(mult, p * m, n);
      MulAssoc(p, m, n);
    }

    /** a * b + M * n stays below 2 n R while M < 2^(64 i), i <= 4. */
    lemma RoundRoom(v: int, mult: nat, i: nat)
      requires i < 4 && v < n * R && mult < Pow(B64, i)
      ensures v + mult * n + Pow(B64, i) * ((B64 - 1) * n) < 2 * Pow(B64, 8)
    {
      PowR();
      NextMultiplier(mult, B64 - 1, i);
      PowAdd(B64, i + 1, 3 - i);
      PowPositive(B64, 3 - i);
      PowPositive(B64, i + 1);
      MulMonotone(1, Pow(B64, 3 - i), Pow(B64, i + 1));
      assert Pow(B64, i + 1) <= R;
      var next := mult + Pow(B64, i) * (B64 - 1);
      MulMonotone(next, R, n);
      MulAssoc(Pow(B64, i), B64 - 1, n);
    }

    // ---- The whole multiply --------------------------------------------------

    /** The Montgomery product as a number: a b / R mod n. */
    function MontMul(a: int, b: int): (r: int)
      ensures 0 <= r < n
    {
      a * b * rinv % n
    }

    /** Any value in range that R carries to a b is the Montgomery product. */
    lemma MontMulUnique(a: int, b: int, r: int)
      requires Valid() && 0 <= r < n && Cong(n, r * R, a * b)
      ensures r == MontMul(a, b)
    {
      ScaledBack(n, a * b, R, rinv);
      SameResidue(n, r, MontMul(a, b), R, rinv);
    }

    /** mont_mul_hw: for operands whose product is below n R (in particular one
        operand below n), one conditional subtraction gives the canonical
        product. `subtracted` is the audit record of that choice. */
    method MontMulHw(aw: seq<Word>, bw: seq<Word>)
      returns (out: seq<Word>, ext: nat, subtracted: bool)
      requires Valid() && |aw| == |bw| == 4 && Value(aw) * Value(bw) < n * R
      ensures |out| == 4 && ext <= 1
      ensures 0 <= Value(out) < n
      ensures Value(out) == MontMul(Value(aw), Value(bw))
    {
      var t := Product(aw, bw);
      ghost var mult;
      t, ext, mult := Reduce(t);
      HighHalf(t, ext, Value(aw) * Value(bw), mult);
      var res := t[4..8];
      out, subtracted := SubtractOnce(res, ext);
      Subtracted(n, Value(out), Value(res) + ext * R, R, Value(aw) * Value(bw), mult);
      MontMulUnique(Value(aw), Value(bw), Value(out));
    }

    /** The conditional subtraction, refused when the borrow out of the fifth
        word says that it went negative. */
    method SubtractOnce(res: seq<Word>, ext: nat) returns (out: seq<Word>, subtracted: bool)
      requires |res| == 4 && Value(res) + ext * R < 2 * n
      ensures |out| == 4 && 0 <= Value(out) < n
      ensures subtracted <==> Value(res) + ext * R >= n
      ensures Value(out) == Value(res) + ext * R - if subtracted then n else 0
    {
      PowR();
      WordsOfN();
      var d, borrow := SubChain(res, Words(n));
      ValBound(B64, res);
      ValBound(B64, d);
      var refused := if ext - borrow < 0 then 1 else 0;
      out := if refused == 1 then res else d;
      subtracted := refused == 0;
    }

    /** With its low half cleared, the accumulator is R times its high half. */
    lemma HighHalf(t: seq<Word>, ext: nat, ab: int, mult: nat)
      requires |t| == 8 && forall k | 0 <= k < 4 :: t[k] == 0
      requires Value(t) + ext * Pow(B64, 8) == ab + mult * n
      requires ab < n * R && mult < Pow(B64, 4)
      ensures (Value(t[4..8]) + ext * R) * R == ab + mult * n
      ensures Value(t[4..8]) + ext * R < 2 * n
    {
      PowR();
      ValSplit(B64, t, 4);
      ValZeros(B64, t[..4]);
      assert t[4..] == t[4..8];
      var v := Value(t[4..8]) + ext * R;
      assert v * R == ab + mult * n;
      MulMonotone(mult, R - 1, n);
    }

    /** mont_mul: the wrapper on numbers, which keeps four words of each operand. */
    method MontMulInt(a: nat, b: nat) returns (r: nat)
      requires Valid() && (a % R) * (b % R) < n * R
      ensures r == MontMul(a % R, b % R)
    {
      PowR();
      var out, _, _ := MontMulHw(Words(a), Words(b));
      ValFour(B64, out);
      r := out[0] + B64 * (out[1] + B64 * (out[2] + B64 * out[3]));
    }

    /** The same for operands that lose nothing, one of them reduced. */
    method MontMulReduced(a: nat, b: nat) returns (r: nat)
      requires Valid() && a < n && b < R
      ensures r == MontMul(a, b)
    {
      Small(a, R);
      Small(b, R);
      ProductBound(a, b, n, R);
      r := MontMulInt(a, b);
    }
  }

  /** The order of the P-256 base point. */
  const N: int := 0xFFFFFFFF00000000FFFFFFFFFFFFFFFFBCE6FAADA7179E84F3B9CAC2FC632551

  const MOD_N: Modulus := Modulus(
    N, 0xccd1c8aaee00bc4f, 0x60d066334905c1e907f8b6041e607725badef3e243566fafce1bc8f79c197c79)

  lemma ModNValid()
    ensures MOD_N.Valid() && MOD_N.n == N
  {
    assert Words(N)[0] == N % B64;
  }
}
