/** The hardware-faithful P-256 reduction: fold, propagate carries twice over
    signed 32-bit digits, then correct over five 64-bit limbs. */
module Reduce {
  import opened Limbs
  import opened ModArith
  import opened Fold

  // ---- The table, row by row -----------------------------------------------

  lemma RowEntries(k: nat)
    requires 8 <= k
    ensures forall j | 0 <= j < 8 :: Row(k)[j] == Row(k - 1)[j] - Row(k - 2)[j] - Row(k - 5)[j] + Row(k - 8)[j]
    ensures var r := Row(k); r == [r[0], r[1], r[2], r[3], r[4], r[5], r[6], r[7]]
  {
  }

  lemma Row8()
    ensures Row(8) == [1, 0, 0, -1, 0, 0, -1, 1]
    ensures RowValue(8) == 0xfffffffeffffffffffffffffffffffff000000000000000000000001
  {
    PowB32();
    RowEntries(8);
  }

  lemma Row9()
    ensures Row(9) == [1, 1, 0, -1, -1, 0, -1, 0]
    ensures RowValue(9) == -0x1000000000000000100000000fffffffffffffffeffffffff
  {
    Row8();
    PowB32();
    RowEntries(9);
  }

  lemma Row10()
    ensures Row(10) == [0, 1, 1, 0, -1, -1, 0, -1]
    ensures RowValue(10) == -0x1000000000000000100000000fffffffffffffffeffffffff00000000
  {
    Row9();
    Row8();
    PowB32();
    RowEntries(10);
  }

  lemma Row11()
    ensures Row(11) == [-1, 0, 1, 2, 0, -1, 0, -1]
    ensures RowValue(11) == -0x10000000000000000fffffffffffffffdffffffff0000000000000001
  {
    Row10();
    Row9();
    PowB32();
    RowEntries(11);
  }

  lemma Row12()
    ensures Row(12) == [-1, -1, 0, 2, 2, 0, 0, -1]
    ensures RowValue(12) == -0xfffffffffffffffffffffffdfffffffe000000000000000100000001
  {
    Row11();
    Row10();
    PowB32();
    RowEntries(12);
  }

  lemma Row13()
    ensures Row(13) == [-1, -1, -1, 1, 2, 2, 1, -1]
    ensures RowValue(13) == -0xfffffffefffffffdfffffffdffffffff000000010000000100000001
  {
    Row12();
    Row11();
    Row8();
    PowB32();
    RowEntries(13);
  }

  lemma Row14()
    ensures Row(14) == [-1, -1, -1, 0, 1, 2, 3, 0]
    ensures RowValue(14) == 0x30000000200000000fffffffffffffffefffffffeffffffff
  {
    Row13();
    Row12();
    Row9();
    PowB32();
    RowEntries(14);
  }

  lemma Row15()
    ensures Row(15) == [0, -1, -1, -1, 0, 1, 2, 3]
    ensures RowValue(15) == 0x30000000200000000fffffffffffffffefffffffeffffffff00000000
  {
    Row14();
    Row13();
    Row10();
    PowB32();
    RowEntries(15);
  }

  lemma RowValues()
    ensures RowValue(8) == 0xfffffffeffffffffffffffffffffffff000000000000000000000001
    ensures RowValue(9) == -0x1000000000000000100000000fffffffffffffffeffffffff
    ensures RowValue(10) == -0x1000000000000000100000000fffffffffffffffeffffffff00000000
    ensures RowValue(11) == -0x10000000000000000fffffffffffffffdffffffff0000000000000001
    ensures RowValue(12) == -0xfffffffffffffffffffffffdfffffffe000000000000000100000001
    ensures RowValue(13) == -0xfffffffefffffffdfffffffdffffffff000000010000000100000001
    ensures RowValue(14) == 0x30000000200000000fffffffffffffffefffffffeffffffff
    ensures RowValue(15) == 0x30000000200000000fffffffffffffffefffffffeffffffff00000000
  {
    Row8(); Row9(); Row10(); Row11(); Row12(); Row13(); Row14(); Row15();
  }

  lemma PowTop()
    ensures Pow(B32, 8) == Pow(B64, 4) == 0x10000000000000000000000000000000000000000000000000000000000000000
  {
    PowB32();
  }

  lemma PowB32()
    ensures Pow(B32, 1) == 0x100000000
    ensures Pow(B32, 2) == 0x10000000000000000
    ensures Pow(B32, 3) == 0x1000000000000000000000000
    ensures Pow(B32, 4) == 0x100000000000000000000000000000000
    ensures Pow(B32, 5) == 0x10000000000000000000000000000000000000000
    ensures Pow(B32, 6) == 0x1000000000000000000000000000000000000000000000000
    ensures Pow(B32, 7) == 0x100000000000000000000000000000000000000000000000000000000
    ensures Pow(B32, 8) == Pow(B64, 4) == 0x10000000000000000000000000000000000000000000000000000000000000000
  {
    PowFour();
    assert Pow(B32, 1) == B32;
    assert Pow(B32, 2) == B32 * Pow(B32, 1);
    assert Pow(B32, 3) == B32 * Pow(B32, 2);
    assert Pow(B32, 4) == B32 * Pow(B32, 3);
    assert Pow(B32, 5) == B32 * Pow(B32, 4);
    assert Pow(B32, 6) == B32 * Pow(B32, 5);
    assert Pow(B32, 7) == B32 * Pow(B32, 6);
  }

  lemma RowSmall(i: nat, j: nat)
    requires 8 <= i < 16 && j < 8
    ensures -3 <= Row(i)[j] <= 3
  {
    Row8(); Row9(); Row10(); Row11(); Row12(); Row13(); Row14(); Row15();
  }

  // ---- Signed 64-bit registers ---------------------------------------------

  /** The signed reading of the low 64 bits. */
  function S64(x: int): (r: int)
    ensures -0x8000_0000_0000_0000 <= x < 0x8000_0000_0000_0000 ==> r == x
  {
    var y := x % B64;
    if y >= 0x8000_0000_0000_0000 then y - B64 else y
  }

  /** Every entry is at most m in magnitude. */
  ghost predicate Fits(a: seq<int>, m: int)
  {
    forall j | 0 <= j < |a| :: -m <= a[j] <= m
  }

  // ---- The fold ------------------------------------------------------------

  /** Add c times row r to the accumulators. */
  function Axpy(a: seq<int>, c: int, r: seq<int>): (s: seq<int>)
    requires |a| == |r|
    ensures |s| == |a|
  {
    seq(|a|, j requires 0 <= j < |a| => a[j] + r[j] * c)
  }

  /** The accumulators after the words below n have been folded in. */
  function Folded(d: seq<int>, n: nat): (a: seq<int>)
    requires |d| == 16 && 8 <= n <= 16
    ensures |a| == 8
  {
    if n == 8 then d[..8] else Axpy(Folded(d, n - 1), d[n - 1], Row(n - 1))
  }

  lemma {:induction false} ValAxpy(b: int, a: seq<int>, c: int, r: seq<int>)
    requires |a| == |r|
    ensures Val(b, Axpy(a, c, r)) == Val(b, a) + Val(b, r) * c
  {
    if |a| > 0 {
      ValAxpy(b, a[1..], c, r[1..]);
      assert Axpy(a, c, r)[1..] == Axpy(a[1..], c, r[1..]);
      AxpyScale(b, Val(b, a[1..]), Val(b, r[1..]), c, r[0]);
    }
  }

  lemma AxpyScale(b: int, x: int, y: int, c: int, r0: int)
    ensures b * (x + y * c) + r0 * c == b * x + (r0 + b * y) * c
  {
  }

  /** What the fold makes of the high words, as a number. */
  function HighValue(d: seq<int>, n: nat): int
    requires |d| == 16 && 8 <= n <= 16
  {
    if n == 8 then 0 else HighValue(d, n - 1) + RowValue(n - 1) * d[n - 1]
  }

  lemma {:induction false} FoldedValue(d: seq<int>, n: nat)
    requires |d| == 16 && 8 <= n <= 16
    ensures Val(B32, Folded(d, n)) == Val(B32, d[..8]) + HighValue(d, n)
  {
    if n > 8 {
      FoldedValue(d, n - 1);
      ValAxpy(B32, Folded(d, n - 1), d[n - 1], Row(n - 1));
      RowValueIsValue(n - 1);
    }
  }

  /** The fold keeps the residue. */
  lemma {:induction false} FoldedCongruent(d: seq<int>, n: nat)
    requires |d| == 16 && 8 <= n <= 16
    ensures Cong(P, Val(B32, d[..8]) + HighValue(d, n), Val(B32, d[..n]))
  {
    if n > 8 {
      FoldedCongruent(d, n - 1);
      ValSnoc(B32, d, n - 1);
      RowValueCongruent(n - 1);
      FoldedStep(P, Val(B32, d[..8]), HighValue(d, n - 1), Val(B32, d[..n - 1]), RowValue(n - 1),
                 Pow(B32, n - 1), d[n - 1]);
    }
  }

  lemma FoldedStep(m: int, low: int, high: int, value: int, row: int, weight: int, digit: int)
    requires 0 < m && Cong(m, low + high, value) && Cong(m, row, weight)
    ensures Cong(m, low + (high + row * digit), value + digit * weight)
    ensures Cong(m, low + (high + row * digit), value + weight * digit)
  {
    CongAxpy(m, low + high, value, row, weight, digit);
  }

  lemma {:induction false} FoldedBounds(d: seq<int>, n: nat)
    requires |d| == 16 && 8 <= n <= 16 && Digits(B32, d)
    ensures Fits(Folded(d, n), (3 * (n - 8) + 1) * B32)
  {
    if n > 8 {
      FoldedBounds(d, n - 1);
      var a, r, f, c := Folded(d, n - 1), Row(n - 1), Folded(d, n), d[n - 1];
      var m := (3 * (n - 9) + 1) * B32;
      assert m + 3 * B32 == (3 * (n - 8) + 1) * B32;
      forall j | 0 <= j < 8
        ensures -(m + 3 * B32) <= f[j] <= m + 3 * B32
      {
        assert f[j] == a[j] + r[j] * c;
        assert -m <= a[j] <= m;
        RowFitsAt(n - 1, j, c, 3 * B32);
      }
    }
  }

  /** A row scaled by c moves no accumulator by more than 3 |c|. */
  lemma RowFitsAt(i: nat, j: nat, c: int, m: int)
    requires 8 <= i < 16 && j < 8 && -m <= 3 * c <= m
    ensures -m <= Row(i)[j] * c <= m
  {
    RowSmall(i, j);
    var x := Row(i)[j];
    assert x == -3 || x == -2 || x == -1 || x == 0 || x == 1 || x == 2 || x == 3;
  }

  lemma RowFits(i: nat, c: int, m: int)
    requires 8 <= i < 16 && -m <= 3 * c <= m
    ensures var r := Row(i); forall j | 0 <= j < 8 :: -m <= r[j] * c <= m
  {
    forall j | 0 <= j < 8 {
      RowFitsAt(i, j, c, m);
    }
  }

  /** The accumulation loops of reduce_hw: no 64-bit register ever wraps. */
  method Accumulate(d: seq<int>) returns (acc: seq<int>)
    requires |d| == 16 && Digits(B32, d)
    ensures acc == Folded(d, 16)
  {
    acc := d[..8];
    for i := 8 to 16
      invariant acc == Folded(d, i)
    {
      var table := RewriteHighWord(i);
      FoldedBounds(d, i + 1);
      acc := AddRow(acc, table, i, d[i]);
    }
  }

  /** Fold c units of word i into the accumulators, in whatever order the
      table lists its columns. */
  method AddRow(a: seq<int>, table: map<int, int>, i: nat, c: int) returns (acc: seq<int>)
    requires |a| == 8 && table == Table(i)
    requires Fits(Axpy(a, c, Row(i)), 0x7fff_ffff_ffff_ffff)
    ensures acc == Axpy(a, c, Row(i))
  {
    acc := a;
    var todo := table.Keys;
    while todo != {}
      invariant |acc| == 8 && todo <= table.Keys
      invariant forall j | 0 <= j < 8 ::
        acc[j] == if j in table && j !in todo then Axpy(a, c, Row(i))[j] else a[j]
      decreases todo
    {
      var j :| j in todo;
      acc := acc[j := S64(acc[j] + table[j] * c)];
      todo := todo - {j};
    }
    assert forall j | 0 <= j < 8 && j !in table :: Row(i)[j] == 0;
  }

  // ---- Carry propagation ---------------------------------------------------

  /** Propagate signed carries through eight accumulators, arithmetic shift and
      all: the digits and the carry together are the same number. */
  method Propagate(vals: seq<int>) returns (digit: seq<int>, carry: int)
    requires |vals| == 8
    requires Fits(vals, 0x100_0000_0000)
    ensures |digit| == 8 && Digits(B32, digit)
    ensures Val(B32, digit) + carry * Pow(B32, 8) == Val(B32, vals)
    ensures carry == Val(B32, vals) / Pow(B32, 8)
  {
    digit, carry := [], 0;
    for j := 0 to 8
      invariant |digit| == j && Digits(B32, digit)
      invariant -0x1000 <= carry <= 0x1000
      invariant Val(B32, digit) + carry * Pow(B32, j) == Val(B32, vals[..j])
    {
      var s := S64(vals[j] + carry);
      assert s == vals[j] + carry;  // no signed wrap
      PropagateStep(digit, vals, j, carry, s);
      digit, carry := digit + [s % B32], s / B32;
    }
    assert vals[..8] == vals;
    ValBound(B32, digit);
    RemainderUnique(Val(B32, vals), Pow(B32, 8), carry, Val(B32, digit));
  }

  lemma PropagateStep(digit: seq<int>, vals: seq<int>, j: nat, carry: int, s: int)
    requires |digit| == j < |vals| && s == vals[j] + carry
    ensures Val(B32, digit + [s % B32]) + (s / B32) * Pow(B32, j + 1) - (Val(B32, digit) + carry * Pow(B32, j))
         == Val(B32, vals[..j + 1]) - Val(B32, vals[..j])
  {
    var e, p := digit + [s % B32], Pow(B32, j);
    ValSnoc(B32, e, j);
    assert e[..j] == digit && e[..j + 1] == e;
    ValSnoc(B32, vals, j);
    CarryStep(B32, s, p);
    Expand2(vals[j], carry, p);
  }

  // ---- The carry bounds ----------------------------------------------------

  /** The exact value of the folded accumulators. */
  function FoldValue(d: seq<int>): int
    requires |d| == 16
  {
    Val(B32, d[..8]) + HighValue(d, 16)
  }

  lemma HighValueTerms(d: seq<int>)
    requires |d| == 16
    ensures HighValue(d, 16) == RowValue(8) * d[8] + RowValue(9) * d[9] + RowValue(10) * d[10] + RowValue(11) * d[11]
      + RowValue(12) * d[12] + RowValue(13) * d[13] + RowValue(14) * d[14] + RowValue(15) * d[15]
  {
    assert HighValue(d, 9) == HighValue(d, 8) + RowValue(8) * d[8];
    assert HighValue(d, 10) == HighValue(d, 9) + RowValue(9) * d[9];
    assert HighValue(d, 11) == HighValue(d, 10) + RowValue(10) * d[10];
    assert HighValue(d, 12) == HighValue(d, 11) + RowValue(11) * d[11];
    assert HighValue(d, 13) == HighValue(d, 12) + RowValue(12) * d[12];
    assert HighValue(d, 14) == HighValue(d, 13) + RowValue(13) * d[13];
    assert HighValue(d, 15) == HighValue(d, 14) + RowValue(14) * d[14];
    assert HighValue(d, 16) == HighValue(d, 15) + RowValue(15) * d[15];
  }

  /** The first carry is between -4 and 4 for every input. */
  lemma FirstCarry(d: seq<int>)
    requires |d| == 16 && Digits(B32, d)
    ensures -4 * Pow(B32, 8) <= FoldValue(d) < 5 * Pow(B32, 8)
  {
    HighValueRange(d);
    ValBound(B32, d[..8]);
    PowTop();
  }

  lemma HighValueRange(d: seq<int>)
    requires |d| == 16 && Digits(B32, d)
    ensures -4 * Pow(B32, 8) <= HighValue(d, 16) < 4 * Pow(B32, 8)
  {
    HighValueTerms(d);
    RowValues();
    PowTop();
  }

  lemma {:induction false} ValMax(b: int, w: seq<int>)
    requires forall k | 0 <= k < |w| :: w[k] == b - 1
    ensures Val(b, w) == Pow(b, |w|) - 1
  {
    if |w| > 0 {
      ValMax(b, w[1..]);
      assert b * (Pow(b, |w| - 1) - 1) == b * Pow(b, |w| - 1) - b;
    }
  }

  function Spread(low: int, plus: int, minus: int): seq<int>
  {
    seq(8, _ => low) + [plus, minus, minus, minus, minus, minus, plus, plus]
  }

  /** Both ends occur. */
  lemma FirstCarryTight()
    ensures Digits(B32, Spread(0, 0, B32 - 1)) && Digits(B32, Spread(B32 - 1, B32 - 1, 0))
    ensures FoldValue(Spread(0, 0, B32 - 1)) / Pow(B32, 8) == -4
    ensures FoldValue(Spread(B32 - 1, B32 - 1, 0)) / Pow(B32, 8) == 4
  {
    var lo, hi := Spread(0, 0, B32 - 1), Spread(B32 - 1, B32 - 1, 0);
    HighValueTerms(lo);
    HighValueTerms(hi);
    ValMax(B32, hi[..8]);
    ValZeros(B32, lo[..8]);
    RowValues();
    PowB32();
  }

  // ---- reduce_hw -----------------------------------------------------------

  /** The sixteen 32-bit halves of eight words, low half first. */
  function Halves(t: seq<Word>): (d: seq<int>)
    ensures |d| == 2 * |t| && Digits(B32, d)
  {
    if t == [] then [] else [t[0] % B32, t[0] / B32] + Halves(t[1..])
  }

  lemma {:induction false} HalvesValue(t: seq<Word>)
    ensures Val(B32, Halves(t)) == Value(t)
  {
    if t != [] {
      HalvesValue(t[1..]);
      var h := Halves(t);
      assert h[1..][1..] == Halves(t[1..]);
      assert Val(B32, h[1..]) == h[1] + B32 * Val(B32, h[1..][1..]);
    }
  }

  /** What two folds make of the input: the folded value less carry times p. */
  function Refolded(d: seq<int>): int
    requires |d| == 16
  {
    FoldValue(d) - FoldValue(d) / Pow(B32, 8) * P
  }

  /** The first fold and its carry, which is between -4 and 4. */
  method FirstFold(d: seq<int>) returns (digit: seq<int>, carry: int)
    requires |d| == 16 && Digits(B32, d)
    ensures |digit| == 8 && Digits(B32, digit) && -4 <= carry <= 4
    ensures carry == FoldValue(d) / Pow(B32, 8)
    ensures Val(B32, digit) + carry * Pow(B32, 8) == FoldValue(d)
  {
    var acc := Accumulate(d);
    FoldedBounds(d, 16);
    FoldedValue(d, 16);
    digit, carry := Propagate(acc);
    CarryRange(d);
  }

  lemma CarryRange(d: seq<int>)
    requires |d| == 16 && Digits(B32, d)
    ensures -4 <= FoldValue(d) / Pow(B32, 8) <= 4
  {
    FirstCarry(d);
    PowPositive(B32, 8);
    QuotientRange(FoldValue(d), Pow(B32, 8), -4, 4);
  }

  lemma QuotientRange(x: int, m: int, lo: int, hi: int)
    requires 0 < m && lo * m <= x < (hi + 1) * m
    ensures lo <= x / m <= hi
  {
    var q := x / m;
    assert x == m * q + x % m;
    if q < lo {
      MulMonotone(q + 1, lo, m);
      Expand2(q, 1, m);
    }
    if q > hi {
      MulMonotone(hi + 1, q, m);
    }
  }

  /** reduce_hw: four words and a signed overflow `ext`, together congruent to
      the input and within one p of range. The first carry is in [-4, 4], the
      second in {-1, 0, 1}. */
  method ReduceHw(t: seq<Word>) returns (out: seq<Word>, ext: int)
    requires |t| == 8
    ensures |out| == 4 && -1 <= ext <= 1
    ensures Value(out) + ext * Pow(B64, 4) == Refolded(Halves(t))
  {
    var digit, carry := FirstFold(Halves(t));
    var table := RewriteHighWord(8);
    SecondFold(digit, carry);
    digit := AddRow(digit, table, 8, carry);
    assert Val(B32, digit) == Refolded(Halves(t));
    PowTop();
    var digitp;
    digitp, ext := Propagate(digit);
    out := Pack(digitp);
  }

  /** Join pairs of 32-bit digits into words. */
  method Pack(digit: seq<int>) returns (out: seq<Word>)
    requires |digit| == 8 && Digits(B32, digit)
    ensures |out| == 4 && Value(out) == Val(B32, digit)
  {
    out := [];
    for k := 0 to 4
      invariant |out| == k
      invariant Halves(out) == digit[..2 * k]
    {
      var w: Word := digit[2 * k] + B32 * digit[2 * k + 1];
      HalvesSnoc(out, w);
      out := out + [w];
    }
    HalvesValue(out);
    assert digit[..8] == digit;
  }

  lemma {:induction false} HalvesSnoc(t: seq<Word>, w: Word)
    ensures Halves(t + [w]) == Halves(t) + [w % B32, w / B32]
  {
    if t == [] {
      assert t + [w] == [w];
      assert Halves([w]) == [w % B32, w / B32] + Halves([]);
    } else {
      assert (t + [w])[1..] == t[1..] + [w];
      HalvesSnoc(t[1..], w);
    }
  }

  /** Folding the first carry back in replaces it by carry * (2^256 - p). */
  lemma SecondFold(digit: seq<int>, carry: int)
    requires |digit| == 8 && Digits(B32, digit) && -4 <= carry <= 4
    ensures Fits(Axpy(digit, carry, Row(8)), 0x100_0000_0000)
    ensures Val(B32, Axpy(digit, carry, Row(8))) == Val(B32, digit) + carry * Pow(B32, 8) - carry * P
    ensures -P < Val(B32, Axpy(digit, carry, Row(8))) < 2 * P
  {
    RowFits(8, carry, 12);
    ValAxpy(B32, digit, carry, Row(8));
    RowValueIsValue(8);
    SecondFoldValue(carry);
    ValBound(B32, digit);
  }

  lemma SecondFoldValue(carry: int)
    ensures RowValue(8) * carry == carry * Pow(B32, 8) - carry * P
    ensures Pow(B32, 8) == 0x10000000000000000000000000000000000000000000000000000000000000000
  {
    Row8();
    PowB32();
  }

  // ---- canonicalize --------------------------------------------------------

  /** The limbs of p. */
  const PL: seq<Word> := [0xffffffffffffffff, 0x00000000ffffffff, 0, 0xffffffff00000001]

  lemma PrimeLimbs()
    ensures Value(PL) == P
  {
    ValFour(B64, PL);
  }

  /** One correction round, five limbs wide: subtract p, and keep the result
      when the borrow out of the fifth limb says it did not go negative. */
  method CorrectionRound(r: seq<Word>, ext: int) returns (s: seq<Word>, e: int)
    requires |r| == 4
    ensures |s| == 4
    ensures var v := Value(r) + ext * Pow(B64, 4);
      Value(s) + e * Pow(B64, 4) == if v >= P then v - P else v
    ensures Value(r) + ext * Pow(B64, 4) < P ==> s == r && e == ext
  {
    PrimeLimbs();
    var cand, borrow := SubChain(r, PL);
    var candExt := ext - borrow;
    ValBound(B64, cand);
    PowB32();
    if candExt >= 0 {
      s, e := cand, candExt;
    } else {
      s, e := r, ext;
    }
  }

  /** The first step of canonicalize: add p once if the overflow is negative. */
  method AddPrime(r: seq<Word>, ext: int) returns (s: seq<Word>, e: int)
    requires |r| == 4
    ensures |s| == 4
    ensures Value(s) + e * Pow(B64, 4) == Value(r) + ext * Pow(B64, 4) + if ext < 0 then P else 0
  {
    s, e := r, ext;
    if e < 0 {
      PrimeLimbs();
      PowTop();
      var carry;
      s, carry := AddChain(s, 0, PL);
      e := e + carry;
    }
  }

  lemma EnteringRange(r: seq<Word>, ext: int)
    requires |r| == 4 && -P <= Value(r) + ext * Pow(B64, 4) < 2 * P
    ensures 0 <= Value(r) + ext * Pow(B64, 4) + (if ext < 0 then P else 0) < 2 * P
  {
    PowTop();
    ValBound(B64, r);
  }

  /** canonicalize: add p once if the overflow is negative, then two rounds, of
      which the second never changes anything. */
  method Canonicalize(r: seq<Word>, ext: int) returns (s: seq<Word>, e: int)
    requires |r| == 4
    requires -P <= Value(r) + ext * Pow(B64, 4) < 2 * P
    ensures |s| == 4 && e == 0
    ensures 0 <= Value(s) < P
    ensures Cong(P, Value(s), Value(r) + ext * Pow(B64, 4))
  {
    ghost var v := Value(r) + ext * Pow(B64, 4);
    EnteringRange(r, ext);
    s, e := AddPrime(r, ext);
    ghost var entering := Value(s) + e * Pow(B64, 4);
    s, e := CorrectionRound(s, e);
    ghost var s1, e1 := s, e;
    s, e := CorrectionRound(s, e);
    assert s == s1 && e == e1;  // the second round is a no-op
    CorrectedRange(s, e, entering);
    CorrectedCong(P, Value(s), entering, v);
  }

  lemma CorrectedRange(s: seq<Word>, e: int, v: int)
    requires |s| == 4 && 0 <= v < 2 * P
    requires Value(s) + e * Pow(B64, 4) == if v >= P then v - P else v
    ensures e == 0 && 0 <= Value(s) < P
  {
    ValBound(B64, s);
    PowTop();
  }

  lemma CorrectedCong(m: int, s: int, entering: int, v: int)
    requires 0 < m && (entering == v || entering == v + m) && (s == entering || s == entering - m)
    ensures Cong(m, s, v)
  {
    CongIntro(m, s, v, if s == v then 0 else if s == v + m then 1 else -1);
  }

  /** reduce_full: for every eight-word input, exactly its residue mod p. */
  method ReduceFull(t: seq<Word>) returns (val: int)
    requires |t| == 8
    ensures val == Value(t) % P
  {
    var out, ext := ReduceHw(t);
    RefoldedCongruent(t);
    RefoldedRange(t);
    var r;
    r, ext := Canonicalize(out, ext);
    assert ext == 0;
    ValFour(B64, r);
    val := r[0] + B64 * (r[1] + B64 * (r[2] + B64 * r[3]));
    CongMod(P, Value(t));
    CongEqual(P, val, Value(t) % P);
  }

  lemma RefoldedCongruent(t: seq<Word>)
    requires |t| == 8
    ensures Cong(P, Refolded(Halves(t)), Value(t))
  {
    var d := Halves(t);
    HalvesValue(t);
    assert d[..16] == d;
    FoldedCongruent(d, 16);
    LessMultiple(P, FoldValue(d), FoldValue(d) / Pow(B32, 8), Value(t));
  }

  lemma LessMultiple(m: int, s: int, c: int, v: int)
    requires 0 < m && Cong(m, s, v)
    ensures Cong(m, s - c * m, v)
  {
    CongIntro(m, s - c * m, s, -c);
  }

  lemma RefoldedRange(t: seq<Word>)
    requires |t| == 8
    ensures -P < Refolded(Halves(t)) < 2 * P
  {
    FirstCarry(Halves(t));
    PowTop();
  }

  /** The 32-bit halves of (2^256 - 1) * (2^256 - 2^192 + 2^64 - 1). */
  const WIDE: seq<int> :=
    [0x1, 0x0, 0xffffffff, 0xffffffff, 0xffffffff, 0xffffffff, 0x0, 0x0,
     0xfffffffe, 0xffffffff, 0x0, 0x0, 0x0, 0x0, 0xffffffff, 0xffffffff]

  /** The same as words. */
  const WIDE_WORDS: seq<Word> :=
    [0x1, 0xffffffffffffffff, 0xffffffffffffffff, 0x0, 0xfffffffffffffffe, 0x0, 0x0, 0xffffffffffffffff]

  lemma WideDigits()
    ensures Digits(B32, WIDE)
  {
    forall k | 0 <= k < 16
      ensures 0 <= WIDE[k] < B32
    {
      assert k < 8 || 8 <= k < 16;
      assert k in {0, 1, 2, 3, 4, 5, 6, 7, 8, 9, 10, 11, 12, 13, 14, 15};
    }
  }

  lemma WideLow()
    ensures Val(B32, WIDE[..8]) == 0xffffffffffffffffffffffffffffffff0000000000000001
  {
    ValEight(B32, WIDE[..8]);
  }

  lemma WideHigh()
    ensures HighValue(WIDE, 16) == 0x3fffffffe00000000fffffffcfffffffd000000020000000100000001fffffffe
  {
    HighValueTerms(WIDE);
    RowValues();
  }

  lemma WideHighHalf()
    ensures Val(B32, WIDE[8..]) == 0xffffffffffffffff00000000000000000000000000000000fffffffffffffffe
  {
    ValEight(B32, WIDE[8..]);
  }

  /** The known input is that product. */
  lemma WideIsProduct()
    ensures Val(B32, WIDE)
         == 0xffffffffffffffffffffffffffffffffffffffffffffffffffffffffffffffff
            * 0xffffffffffffffff00000000000000000000000000000000ffffffffffffffff
  {
    ValSplit(B32, WIDE, 8);
    WideLow();
    WideHighHalf();
    PowTop();
  }

  lemma WideLowWords()
    ensures Value(WIDE_WORDS[..4]) == 0xffffffffffffffffffffffffffffffff0000000000000001
  {
    ValFour(B64, WIDE_WORDS[..4]);
  }

  lemma WideHighWords()
    ensures Value(WIDE_WORDS[4..]) == 0xffffffffffffffff00000000000000000000000000000000fffffffffffffffe
  {
    ValFour(B64, WIDE_WORDS[4..]);
  }

  lemma WideValues()
    ensures Value(WIDE_WORDS) == Val(B32, WIDE)
  {
    ValSplit(B64, WIDE_WORDS, 4);
    WideLowWords();
    WideHighWords();
    ValSplit(B32, WIDE, 8);
    WideLow();
    WideHighHalf();
    PowTop();
  }

  lemma WideWords()
    ensures Halves(WIDE_WORDS) == WIDE
  {
    var h := Halves(WIDE_WORDS);
    WideValues();
    WideDigits();
    HalvesValue(WIDE_WORDS);
    assert |h| == 16;
    ValUnique(B32, h, WIDE);
  }

  /** The fifth limb is needed. For this input the second carry is 1 while the
      four low limbs are below p, so a round that looked only at their borrow
      would keep a value that is not reduced. */
  lemma FiveLimbTestNeeded()
    ensures Digits(B32, WIDE)
    ensures Pow(B64, 4) <= Refolded(WIDE) < Pow(B64, 4) + P
  {
    WideDigits();
    WideLow();
    WideHigh();
    PowB32();
    RemainderUnique(FoldValue(WIDE), Pow(B32, 8), 3, FoldValue(WIDE) - 3 * Pow(B32, 8));
  }

  /** A correction round that looks only at the borrow out of the fourth limb,
      as the round was once modelled. */
  method FourLimbRound(r: seq<Word>, ext: int) returns (s: seq<Word>, e: int)
    requires |r| == 4
    ensures |s| == 4 && e == ext
    ensures Value(s) == if Value(r) >= P then Value(r) - P else Value(r)
  {
    PrimeLimbs();
    PowTop();
    var cand, borrow := SubChain(r, PL);
    ValBound(B64, cand);
    ValBound(B64, r);
    s, e := if borrow == 0 then cand else r, ext;
  }

  /** On the known input both such rounds refuse a value of p or more. */
  method FourLimbsRefuse() returns (r: seq<Word>, ext: int)
    ensures |r| == 4 && ext == 1 && Value(r) < P
    ensures Value(r) + ext * Pow(B64, 4) == Refolded(WIDE) >= P
  {
    WideWords();
    FiveLimbTestNeeded();
    r, ext := ReduceHw(WIDE_WORDS);
    TopLimb(r, ext);
    r, ext := FourLimbRound(r, ext);
    r, ext := FourLimbRound(r, ext);
  }

  lemma TopLimb(r: seq<Word>, ext: int)
    requires |r| == 4 && -1 <= ext <= 1 && Pow(B64, 4) <= Value(r) + ext * Pow(B64, 4) < Pow(B64, 4) + P
    ensures ext == 1 && Value(r) < P && Pow(B64, 4) >= P
  {
    ValBound(B64, r);
    PowTop();
  }

  lemma ValEight(b: int, w: seq<int>)
    requires |w| == 8
    ensures Val(b, w) == w[0] + b * (w[1] + b * (w[2] + b * (w[3] + b * (w[4] + b * (w[5] + b * (w[6] + b * w[7]))))))
  {
    ValFour(b, w[4..]);
    assert Val(b, w[3..]) == w[3] + b * Val(b, w[4..]);
    assert Val(b, w[2..]) == w[2] + b * Val(b, w[3..]);
    assert Val(b, w[1..]) == w[1] + b * Val(b, w[2..]);
  }
}
