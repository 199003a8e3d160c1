/** Numbers as little-endian sequences of digits, and the add-with-carry and
    subtract-with-borrow chains that the hand-written carry code is made of. */
module Limbs {

  const B32: int := 0x1_0000_0000
  const B64: int := 0x1_0000_0000_0000_0000
  /** 2^256 */
  const R: int := 0x1_0000000000000000000000000000000000000000000000000000000000000000

  /** One 64-bit machine word. */
  type Word = x: int | 0 <= x < B64

  function Pow(b: int, k: nat): int
  {
    if k == 0 then 1 else b * Pow(b, k - 1)
  }

  /** The number whose base-`b` digits, least significant first, are `w`.
      Digits may be negative or too large: the sum is what counts. */
  function Val(b: int, w: seq<int>): int
  {
    if |w| == 0 then 0 else w[0] + b * Val(b, w[1..])
  }

  /** The value of a sequence of 64-bit words. */
  function Value(w: seq<int>): int
  {
    Val(B64, w)
  }

  ghost predicate Digits(b: int, w: seq<int>)
  {
    forall k | 0 <= k < |w| :: 0 <= w[k] < b
  }

  lemma PowPositive(b: int, k: nat)
    requires 0 < b
    ensures 0 < Pow(b, k)
  {
    if k > 0 {
      PowPositive(b, k - 1);
      MulPositive(b, Pow(b, k - 1));
    }
  }

  lemma MulPositive(x: int, y: int)
    requires 0 < x && 0 < y
    ensures 0 < x * y
  {
  }

  lemma MulMonotone(x: int, y: int, z: int)
    requires x <= y && 0 <= z
    ensures x * z <= y * z
    ensures z * x <= z * y
  {
  }

  lemma OneOrMore(c: nat, top: int)
    requires 0 <= top
    ensures c == 0 || c * top >= top
  {
    MulMonotone(if c == 0 then 0 else 1, c, top);
  }

  lemma {:induction false} PowAdd(b: int, j: nat, k: nat)
    ensures Pow(b, j + k) == Pow(b, j) * Pow(b, k)
  {
    if j > 0 {
      PowAdd(b, j - 1, k);
      assert Pow(b, j + k) == b * Pow(b, (j - 1) + k);
      MulAssoc(b, Pow(b, j - 1), Pow(b, k));
    }
  }

  lemma MulAssoc(x: int, y: int, z: int)
    ensures x * (y * z) == (x * y) * z
  {
  }

  /** Replacing one digit moves the value by the difference times its weight. */
  lemma {:induction false} ValUpdate(b: int, w: seq<int>, k: nat, v: int)
    requires k < |w|
    ensures Val(b, w[k := v]) == Val(b, w) + (v - w[k]) * Pow(b, k)
  {
    var u := w[k := v];
    if k == 0 {
      assert u[1..] == w[1..];
    } else {
      assert u[1..] == w[1..][k - 1 := v];
      ValUpdate(b, w[1..], k - 1, v);
      var d, p := v - w[k], Pow(b, k - 1);
      assert b * (Val(b, w[1..]) + d * p) == b * Val(b, w[1..]) + d * (b * p) by {
        Shuffle(b, Val(b, w[1..]), d, p);
      }
    }
  }

  lemma Shuffle(b: int, x: int, d: int, p: int)
    ensures b * (x + d * p) == b * x + d * (b * p)
  {
  }

  /** Cutting a digit sequence in two cuts its value in two. */
  lemma {:induction false} ValSplit(b: int, w: seq<int>, k: nat)
    requires k <= |w|
    ensures Val(b, w) == Val(b, w[..k]) + Pow(b, k) * Val(b, w[k..])
  {
    if k == 0 {
      assert w[0..] == w;
    } else {
      ValSplit(b, w[1..], k - 1);
      assert w[1..][..k - 1] == w[..k][1..];
      assert w[1..][k - 1..] == w[k..];
      var x, p, y := Val(b, w[..k][1..]), Pow(b, k - 1), Val(b, w[k..]);
      assert b * (x + p * y) == b * x + (b * p) * y by {
        Shuffle(b, x, y, p);
        assert p * y == y * p && y * (b * p) == (b * p) * y;
      }
    }
  }

  lemma ValSnoc(b: int, w: seq<int>, k: nat)
    requires k < |w|
    ensures Val(b, w[..k + 1]) == Val(b, w[..k]) + w[k] * Pow(b, k)
  {
    var u := w[..k + 1];
    ValSplit(b, u, k);
    assert u[..k] == w[..k] && u[k..] == [w[k]];
    ValSingle(b, w[k]);
  }

  lemma ValSingle(b: int, x: int)
    ensures Val(b, [x]) == x
  {
    assert Val(b, [x][1..]) == 0;
  }

  lemma {:induction false} ValBound(b: int, w: seq<int>)
    requires 0 < b && Digits(b, w)
    ensures 0 <= Val(b, w) < Pow(b, |w|)
  {
    if |w| > 0 {
      ValBound(b, w[1..]);
      var v, p := Val(b, w[1..]), Pow(b, |w| - 1);
      MulMonotone(0, v, b);
      MulMonotone(v, p - 1, b);
      assert b * (p - 1) == b * p - b;
    }
  }

  lemma {:induction false} ValZeros(b: int, w: seq<int>)
    requires forall k | 0 <= k < |w| :: w[k] == 0
    ensures Val(b, w) == 0
  {
    if |w| > 0 {
      ValZeros(b, w[1..]);
    }
  }

  /** Digits are determined by the value: a representation is unique. */
  lemma {:induction false} ValUnique(b: int, u: seq<int>, w: seq<int>)
    requires 0 < b && Digits(b, u) && Digits(b, w)
    requires |u| == |w| && Val(b, u) == Val(b, w)
    ensures u == w
  {
    if |u| > 0 {
      var x, y := Val(b, u[1..]), Val(b, w[1..]);
      assert u[0] - w[0] == b * (y - x);
      if y > x {
        MulMonotone(1, y - x, b);
        assert false;
      } else if y < x {
        MulMonotone(y - x, -1, b);
        assert false;
      }
      ValUnique(b, u[1..], w[1..]);
      assert u == [u[0]] + u[1..] && w == [w[0]] + w[1..];
    }
  }

  /** One step of a carry chain, at weight `p`: writing s mod b and carrying
      s div b is the same as adding s. */
  lemma CarryStep(b: int, s: int, p: int)
    requires 0 < b
    ensures (s % b) * p + (s / b) * (b * p) == s * p
  {
    assert s == b * (s / b) + s % b;
    Distribute(b, s / b, s % b, p);
  }

  lemma Distribute(b: int, q: int, r: int, p: int)
    ensures (b * q + r) * p == r * p + q * (b * p)
  {
  }

  lemma Expand3(x: int, y: int, z: int, p: int)
    ensures (x + y + z) * p == x * p + y * p + z * p
  {
  }

  lemma Expand2(x: int, y: int, p: int)
    ensures (x + y) * p == x * p + y * p
    ensures (x - y) * p == x * p - y * p
  {
  }

  /** `adds`/`adcs`: add the words `x` into `t` starting at word `off`. The
      carry out has the weight of word off + |x|, which is not written. */
  method AddChain(t: seq<Word>, off: nat, x: seq<Word>) returns (r: seq<Word>, c: Word)
    requires off + |x| <= |t|
    ensures |r| == |t| && c <= 1
    ensures Value(r) + c * Pow(B64, off + |x|) == Value(t) + Pow(B64, off) * Value(x)
    ensures forall k | 0 <= k < |t| && !(off <= k < off + |x|) :: r[k] == t[k]
    ensures |x| > 0 ==> r[off] == (t[off] + x[0]) % B64
  {
    r, c := t, 0;
    assert x[..0] == [];
    for j := 0 to |x|
      invariant |r| == |t| && c <= 1
      invariant Value(r) + c * Pow(B64, off + j) == Value(t) + Pow(B64, off) * Value(x[..j])
      invariant forall k | 0 <= k < |t| && !(off <= k < off + j) :: r[k] == t[k]
      invariant if j == 0 then c == 0 else r[off] == (t[off] + x[0]) % B64
    {
      var s := r[off + j] + x[j] + c;
      AddStep(r, off, x, j, c, s);
      r, c := r[off + j := s % B64], s / B64;
    }
    assert x[..|x|] == x;
  }

  lemma AddStep(r: seq<Word>, off: nat, x: seq<Word>, j: nat, c: int, s: int)
    requires j < |x| && off + |x| <= |r|
    requires s == r[off + j] + x[j] + c
    ensures Value(r[off + j := s % B64]) + (s / B64) * Pow(B64, off + j + 1)
         == Value(r) + c * Pow(B64, off + j) + Pow(B64, off) * (Value(x[..j + 1]) - Value(x[..j]))
  {
    var k, p := off + j, Pow(B64, off + j);
    ValUpdate(B64, r, k, s % B64);
    CarryStep(B64, s, p);
    Expand2(s % B64, r[k], p);
    Expand3(r[k], x[j], c, p);
    ValSnoc(B64, x, j);
    PowAdd(B64, off, j);
    assert Pow(B64, off) * (x[j] * Pow(B64, j)) == x[j] * p by {
      Swap(Pow(B64, off), x[j], Pow(B64, j));
    }
  }

  lemma Swap(a: int, x: int, b: int)
    ensures a * (x * b) == x * (a * b)
  {
  }

  /** `subs`/`sbcs`: x - y over words, with the borrow out. */
  method SubChain(x: seq<Word>, y: seq<Word>) returns (d: seq<Word>, borrow: Word)
    requires |x| == |y|
    ensures |d| == |x| && borrow <= 1
    ensures Value(d) - borrow * Pow(B64, |x|) == Value(x) - Value(y)
    ensures borrow == 1 <==> Value(x) < Value(y)
  {
    d, borrow := [], 0;
    for j := 0 to |x|
      invariant |d| == j && borrow <= 1
      invariant Value(d) - borrow * Pow(B64, j) == Value(x[..j]) - Value(y[..j])
    {
      var s := x[j] - y[j] - borrow;
      SubStep(d, x, y, j, borrow, s);
      d, borrow := d + [s % B64], if s < 0 then 1 else 0;
    }
    assert x[..|x|] == x && y[..|x|] == y;
    ValBound(B64, d);
  }

  lemma SubStep(d: seq<Word>, x: seq<Word>, y: seq<Word>, j: nat, borrow: int, s: int)
    requires |d| == j < |x| == |y| && 0 <= borrow <= 1
    requires s == x[j] - y[j] - borrow
    ensures Value(d + [s % B64]) - (if s < 0 then 1 else 0) * Pow(B64, j + 1)
         == Value(d) - borrow * Pow(B64, j)
            + (Value(x[..j + 1]) - Value(x[..j])) - (Value(y[..j + 1]) - Value(y[..j]))
  {
    var e, p := d + [s % B64], Pow(B64, j);
    ValSnoc(B64, e, j);
    assert e[..j] == d && e[..j + 1] == e;
    ValSnoc(B64, x, j);
    ValSnoc(B64, y, j);
    BorrowStep(x[j], y[j], borrow, p);
    assert Pow(B64, j + 1) == B64 * p;
  }

  lemma BorrowStep(x: int, y: int, borrow: int, p: int)
    requires 0 <= x < B64 && 0 <= y < B64 && 0 <= borrow <= 1
    ensures var s := x - y - borrow;
      (s % B64) * p - (if s < 0 then 1 else 0) * (B64 * p) == x * p - y * p - borrow * p
  {
    var s := x - y - borrow;
    CarryStep(B64, s, p);
    assert s / B64 == if s < 0 then -1 else 0;
    Expand3(x, -y, -borrow, p);
  }

  /** The low and high halves of a[j] * b for every word of `a`. */
  method MulHalves(a: seq<Word>, b: Word) returns (lo: seq<Word>, hi: seq<Word>)
    ensures |lo| == |hi| == |a|
    ensures Value(lo) + B64 * Value(hi) == Value(a) * b
    ensures forall j | 0 <= j < |a| :: lo[j] == a[j] * b % B64 && hi[j] == a[j] * b / B64
    ensures forall j | 0 <= j < |a| :: hi[j] <= B64 - 2
  {
    lo, hi := [], [];
    for j := 0 to |a|
      invariant |lo| == |hi| == j
      invariant Value(lo) + B64 * Value(hi) == Value(a[..j]) * b
      invariant forall k | 0 <= k < j :: lo[k] == a[k] * b % B64 && hi[k] == a[k] * b / B64
      invariant forall k | 0 <= k < j :: hi[k] <= B64 - 2
    {
      var pr := a[j] * b;
      ProductHalves(a[j], b);
      HalvesStep(lo, hi, a, j, b, pr);
      lo, hi := lo + [pr % B64], hi + [pr / B64];
    }
    assert a[..|a|] == a;
  }

  /** A product of two words has a high half of at most 2^64 - 2. */
  lemma ProductHalves(x: Word, y: Word)
    ensures 0 <= x * y
    ensures 0 <= x * y / B64 <= B64 - 2
  {
    MulMonotone(0, x, y);
    MulMonotone(x, B64 - 1, y);
    assert (B64 - 1) * y == B64 * y - y;
  }

  lemma HalvesStep(lo: seq<Word>, hi: seq<Word>, a: seq<Word>, j: nat, b: Word, pr: int)
    requires |lo| == |hi| == j < |a| && pr == a[j] * b
    requires Value(lo) + B64 * Value(hi) == Value(a[..j]) * b
    ensures Value(lo + [pr % B64]) + B64 * Value(hi + [pr / B64]) == Value(a[..j + 1]) * b
  {
    var l, h, p := lo + [pr % B64], hi + [pr / B64], Pow(B64, j);
    ValSnoc(B64, l, j);
    ValSnoc(B64, h, j);
    assert l[..j] == lo && l[..j + 1] == l && h[..j] == hi && h[..j + 1] == h;
    ValSnoc(B64, a, j);
    CarryStep(B64, pr, p);
    assert B64 * ((pr / B64) * p) == (pr / B64) * (B64 * p);
    assert (Value(a[..j]) + a[j] * p) * b == Value(a[..j]) * b + pr * p by {
      Expand2(Value(a[..j]), a[j] * p, b);
      Reassoc(a[j], p, b);
    }
  }

  lemma Reassoc(x: int, p: int, b: int)
    ensures (x * p) * b == (x * b) * p
  {
  }

  /** The four words of a number, least significant first; higher bits are lost. */
  function Words(v: nat): (w: seq<Word>)
    ensures |w| == 4 && Value(w) == v % Pow(B64, 4)
  {
    WordsValue(v);
    [v % B64, v / B64 % B64, v / B64 / B64 % B64, v / B64 / B64 / B64 % B64]
  }

  lemma WordsValue(v: nat)
    ensures Value([v % B64, v / B64 % B64, v / B64 / B64 % B64, v / B64 / B64 / B64 % B64])
         == v % Pow(B64, 4)
  {
    var q1, q2, q3 := v / B64, v / B64 / B64, v / B64 / B64 / B64;
    var w := [v % B64, q1 % B64, q2 % B64, q3 % B64];
    ValFour(B64, w);
    PowFour();
    var x := w[0] + B64 * (w[1] + B64 * (w[2] + B64 * w[3]));
    assert v == x + B64 * B64 * B64 * B64 * (q3 / B64);
    RemainderUnique(v, Pow(B64, 4), q3 / B64, x);
  }

  lemma ValFour(b: int, w: seq<int>)
    requires |w| == 4
    ensures Val(b, w) == w[0] + b * (w[1] + b * (w[2] + b * w[3]))
  {
    assert Val(b, w[3..]) == w[3];
    assert Val(b, w[2..]) == w[2] + b * Val(b, w[3..]);
    assert Val(b, w[1..]) == w[1] + b * Val(b, w[2..]);
  }

  lemma PowFour()
    ensures Pow(B64, 4) == B64 * B64 * B64 * B64
  {
    assert Pow(B64, 3) == B64 * B64 * B64;
  }

  lemma RemainderUnique(x: int, m: int, q: int, r: int)
    requires 0 <= r < m && x == m * q + r
    ensures x % m == r && x / m == q
  {
    var q', r' := x / m, x % m;
    assert x == m * q' + r';
    assert m * (q - q') == r' - r;
    if q > q' {
      MulMonotone(1, q - q', m);
      assert false;
    } else if q < q' {
      MulMonotone(q - q', -1, m);
      assert false;
    }
  }
}
