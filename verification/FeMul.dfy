/** Field multiplication modulo p: the unrolled 4x4 product followed by the
    reduction. */
module FeMul {
  import opened Limbs
  import opened Fold
  import opened Reduce
  import Montgomery

  /** Row 0 writes the five low words outright. */
  method FirstRow(aw: seq<Word>, b: Word) returns (t: seq<Word>)
    requires |aw| == 4
    ensures |t| == 8 && Value(t) == Value(aw) * b
    ensures forall k | 5 <= k < 8 :: t[k] == 0
  {
    var lo, hi := MulHalves(aw, b);
    t := SetRow(lo, hi);
  }

  method SetRow(lo: seq<Word>, hi: seq<Word>) returns (t: seq<Word>)
    requires |lo| == |hi| == 4 && hi[3] <= B64 - 2
    ensures |t| == 8 && Value(t) == Value(lo) + B64 * Value(hi)
    ensures forall k | 5 <= k < 8 :: t[k] == 0
  {
    var s1 := (hi[0] as int) + lo[1];
    var s2 := (hi[1] as int) + lo[2] + s1 / B64;
    var s3 := (hi[2] as int) + lo[3] + s2 / B64;
    var s4 := (hi[3] as int) + s3 / B64;
    assert s4 < B64;  // no carry past t[4]
    t := [lo[0], s1 % B64, s2 % B64, s3 % B64, s4, 0, 0, 0];
    ValFour(B64, lo);
    ValFour(B64, hi);
    RowValue8(t);
  }

  lemma RowValue8(t: seq<int>)
    requires |t| == 8 && t[5] == t[6] == t[7] == 0
    ensures Value(t) == t[0] + B64 * (t[1] + B64 * (t[2] + B64 * (t[3] + B64 * t[4])))
  {
    ValSplit(B64, t, 4);
    ValFour(B64, t[..4]);
    ValFour(B64, t[4..]);
    PowFour();
  }

  /** The limbs of a row: with the words above it clear, a value below
      2^(64 (j + 1)) has a word j below 2^64. */
  lemma TopWordFits(t: seq<int>, j: nat)
    requires |t| == 8 && j < 8
    requires forall k | 0 <= k < j :: 0 <= t[k] < B64
    requires forall k | j < k < 8 :: t[k] == 0
    requires Value(t) < Pow(B64, j + 1)
    ensures t[j] < B64
  {
    ValSplit(B64, t, j);
    ValBound(B64, t[..j]);
    ValZeros(B64, t[j + 1..]);
    assert t[j..][1..] == t[j + 1..];
    assert Value(t[j..]) == t[j];
    PowPositive(B64, j);
    if t[j] >= B64 {
      MulMonotone(B64, t[j], Pow(B64, j));
    }
  }

  /** Rows 1 to 3 accumulate; the last `adc` has no carry out. */
  method NextRow(t: seq<Word>, i: nat, aw: seq<Word>, bw: seq<Word>) returns (r: seq<Word>)
    requires |t| == 8 && |aw| == |bw| == 4 && 1 <= i < 4
    requires Value(t) == Value(aw) * Value(bw[..i])
    requires forall k | i + 4 <= k < 8 :: t[k] == 0
    ensures |r| == 8 && Value(r) == Value(aw) * Value(bw[..i + 1])
    ensures forall k | i + 5 <= k < 8 :: r[k] == 0
  {
    var lo, hi := MulHalves(aw, bw[i]);
    Montgomery.RowSum(aw, bw, i, Value(lo), Value(hi));
    Montgomery.RowBound(aw, bw, i);
    r := AccumulateRow(t, i, lo, hi);
  }

  method AccumulateRow(t: seq<Word>, i: nat, lo: seq<Word>, hi: seq<Word>) returns (r: seq<Word>)
    requires |t| == 8 && |lo| == |hi| == 4 && i < 4
    requires forall k | i + 4 <= k < 8 :: t[k] == 0
    requires Value(t) + Pow(B64, i) * Value(lo) + Pow(B64, i + 1) * Value(hi) < Pow(B64, i + 5)
    ensures |r| == 8
    ensures Value(r) == Value(t) + Pow(B64, i) * Value(lo) + Pow(B64, i + 1) * Value(hi)
    ensures forall k | i + 5 <= k < 8 :: r[k] == 0
  {
    var c;
    r, c := AddChain(t, i, lo);
    ValUpdate(B64, r, i + 4, c);
    r := r[i + 4 := c];
    var r1 := r;
    r, c := AddChain(r1, i + 1, hi[..3]);
    var s := (r[i + 4] as int) + hi[3] + c;
    TopHalf(hi, i);
    TopWord(r, i, hi[3], c);
    assert s < B64;  // the row does not carry past t[i + 4]
    r := r[i + 4 := s];
  }

  lemma TopWord(r: seq<int>, i: nat, h: int, c: int)
    requires |r| == 8 && i < 4 && Digits(B64, r)
    requires forall k | i + 5 <= k < 8 :: r[k] == 0
    requires Value(r) + (h + c) * Pow(B64, i + 4) < Pow(B64, i + 5)
    ensures r[i + 4] + h + c < B64
    ensures Value(r[i + 4 := r[i + 4] + h + c]) == Value(r) + (h + c) * Pow(B64, i + 4)
    ensures (h + c) * Pow(B64, i + 4) == h * Pow(B64, i + 4) + c * Pow(B64, i + 4)
  {
    var s := r[i + 4] + h + c;
    ValUpdate(B64, r, i + 4, s);
    Expand2(h, c, Pow(B64, i + 4));
    TopWordFits(r[i + 4 := s], i + 4);
  }

  lemma TopHalf(hi: seq<Word>, i: nat)
    requires |hi| == 4
    ensures Pow(B64, i + 1) * Value(hi) == Pow(B64, i + 1) * Value(hi[..3]) + hi[3] * Pow(B64, i + 4)
  {
    ValSnoc(B64, hi, 3);
    assert hi[..4] == hi;
    PowAdd(B64, i + 1, 3);
    Swap(Pow(B64, i + 1), hi[3], Pow(B64, 3));
    Expand2(Value(hi[..3]), hi[3] * Pow(B64, 3), Pow(B64, i + 1));
  }

  /** mul4x4_hw: the eight product words of any two four-word numbers, exactly. */
  method Mul4x4Hw(aw: seq<Word>, bw: seq<Word>) returns (t: seq<Word>)
    requires |aw| == |bw| == 4
    ensures |t| == 8 && Value(t) == Value(aw) * Value(bw)
  {
    t := FirstRow(aw, bw[0]);
    assert bw[..1] == [bw[0]];
    ValSingle(B64, bw[0]);
    for i := 1 to 4
      invariant |t| == 8 && Value(t) == Value(aw) * Value(bw[..i])
      invariant forall k | i + 4 <= k < 8 :: t[k] == 0
    {
      t := NextRow(t, i, aw, bw);
    }
    assert bw[..4] == bw;
  }

  /** fe_mul_hw: for all a and b, of which the low 256 bits are read, canonical
      or not, the canonical product mod p. */
  method FeMulHw(a: nat, b: nat) returns (r: int)
    ensures r == (a % Pow(B64, 4)) * (b % Pow(B64, 4)) % P
    ensures a < Pow(B64, 4) && b < Pow(B64, 4) ==> r == a * b % P
  {
    var t := Mul4x4Hw(Words(a), Words(b));
    r := ReduceFull(t);
    SmallOperands(a, b, Pow(B64, 4));
  }

  lemma SmallOperands(a: nat, b: nat, m: int)
    requires 0 < m
    ensures a < m && b < m ==> (a % m) * (b % m) == a * b
  {
    if a < m && b < m {
      RemainderUnique(a, m, 0, a);
      RemainderUnique(b, m, 0, b);
    }
  }
}
