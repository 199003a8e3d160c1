/** The fold table of the P-256 reduction, derived from the Solinas form of the
    prime: each 32-bit word of weight 2^(32 k), k >= 8, is rewritten into
    words of weight below 2^256. */
module Fold {
  import opened Limbs
  import opened ModArith

  const P: int := 0xffffffff00000001000000000000000000000000ffffffffffffffffffffffff

  /** 2^256 = p + 2^224 - 2^192 - 2^96 + 1, at any weight. */
  lemma Solinas(k: nat)
    requires 8 <= k
    ensures Pow(B32, k)
         == Pow(B32, k - 1) - Pow(B32, k - 2) - Pow(B32, k - 5) + Pow(B32, k - 8) + P * Pow(B32, k - 8)
  {
    var x := Pow(B32, k - 8);
    assert Pow(B32, k - 5) == B32 * B32 * B32 * x by {
      assert Pow(B32, k - 7) == B32 * x && Pow(B32, k - 6) == B32 * Pow(B32, k - 7);
    }
    assert Pow(B32, k - 2) == B32 * B32 * B32 * Pow(B32, k - 5) by {
      assert Pow(B32, k - 4) == B32 * Pow(B32, k - 5) && Pow(B32, k - 3) == B32 * Pow(B32, k - 4);
    }
    assert Pow(B32, k - 1) == B32 * Pow(B32, k - 2);
  }

  /** Row k: the coefficients, lowest word first, that 2^(32 k) folds to. */
  function Row(k: nat): (r: seq<int>)
    ensures |r| == 8
  {
    if k < 8 then seq(8, j => if j == k then 1 else 0)
    else seq(8, j requires 0 <= j < 8 => Row(k - 1)[j] - Row(k - 2)[j] - Row(k - 5)[j] + Row(k - 8)[j])
  }

  lemma RowValueSmall(k: nat)
    requires k < 8
    ensures Val(B32, Row(k)) == Pow(B32, k)
  {
    var zero := seq(8, _ => 0);
    assert Row(k) == zero[k := 1];
    ValZeros(B32, zero);
    ValUpdate(B32, zero, k, 1);
  }

  lemma {:induction false} ValCombine(b: int, r: seq<int>, s: seq<int>, t: seq<int>, u: seq<int>, v: seq<int>)
    requires |r| == |s| == |t| == |u| == |v|
    requires forall j | 0 <= j < |r| :: r[j] == s[j] - t[j] - u[j] + v[j]
    ensures Val(b, r) == Val(b, s) - Val(b, t) - Val(b, u) + Val(b, v)
  {
    if |r| > 0 {
      ValCombine(b, r[1..], s[1..], t[1..], u[1..], v[1..]);
      CombineScale(b, Val(b, s[1..]), Val(b, t[1..]), Val(b, u[1..]), Val(b, v[1..]));
    }
  }

  lemma CombineScale(b: int, s: int, t: int, u: int, v: int)
    ensures b * (s - t - u + v) == b * s - b * t - b * u + b * v
  {
  }

  lemma RowValueStep(k: nat)
    requires 8 <= k
    ensures Val(B32, Row(k))
         == Val(B32, Row(k - 1)) - Val(B32, Row(k - 2)) - Val(B32, Row(k - 5)) + Val(B32, Row(k - 8))
  {
    var r, s, t, u, v := Row(k), Row(k - 1), Row(k - 2), Row(k - 5), Row(k - 8);
    assert forall j | 0 <= j < 8 :: r[j] == s[j] - t[j] - u[j] + v[j];
    ValCombine(B32, r, s, t, u, v);
  }

  /** The number that row k spells. */
  function RowValue(k: nat): int
  {
    if k < 8 then Pow(B32, k)
    else RowValue(k - 1) - RowValue(k - 2) - RowValue(k - 5) + RowValue(k - 8)
  }

  lemma {:induction false} RowValueIsValue(k: nat)
    ensures Val(B32, Row(k)) == RowValue(k)
  {
    if k < 8 {
      RowValueSmall(k);
    } else {
      RowValueStep(k);
      RowValueIsValue(k - 1);
      RowValueIsValue(k - 2);
      RowValueIsValue(k - 5);
      RowValueIsValue(k - 8);
    }
  }

  lemma {:induction false} RowValueCongruent(k: nat)
    ensures Cong(P, RowValue(k), Pow(B32, k))
  {
    if k >= 8 {
      RowValueCongruent(k - 1);
      RowValueCongruent(k - 2);
      RowValueCongruent(k - 5);
      RowValueCongruent(k - 8);
      FoldCongruent(k, RowValue(k - 1), RowValue(k - 2), RowValue(k - 5), RowValue(k - 8));
    }
  }

  lemma FoldCongruent(k: nat, s: int, t: int, u: int, v: int)
    requires 8 <= k
    requires Cong(P, s, Pow(B32, k - 1)) && Cong(P, t, Pow(B32, k - 2))
    requires Cong(P, u, Pow(B32, k - 5)) && Cong(P, v, Pow(B32, k - 8))
    ensures Cong(P, s - t - u + v, Pow(B32, k))
  {
    CongCombine(P, s, Pow(B32, k - 1), t, Pow(B32, k - 2), u, Pow(B32, k - 5), v, Pow(B32, k - 8));
    FoldWeight(k);
  }

  lemma FoldWeight(k: nat)
    requires 8 <= k
    ensures Cong(P, Pow(B32, k - 1) - Pow(B32, k - 2) - Pow(B32, k - 5) + Pow(B32, k - 8), Pow(B32, k))
  {
    Solinas(k);
    var x := Pow(B32, k - 8);
    var y := Pow(B32, k) - P * x;
    CongIntro(P, Pow(B32, k), y, x);
  }

  lemma CongCombine(m: int, s: int, s': int, t: int, t': int, u: int, u': int, v: int, v': int)
    requires 0 < m && Cong(m, s, s') && Cong(m, t, t') && Cong(m, u, u') && Cong(m, v, v')
    ensures Cong(m, s - t - u + v, s' - t' - u' + v')
  {
    CongAdd(m, s, s', t, t');
    CongAdd(m, s - t, s' - t', u, u');
    CongAdd(m, s - t - u, s' - t' - u', v, v');
  }

  // ---- Term dictionaries: exponent -> coefficient --------------------------

  type Terms = map<int, int>

  function Get(terms: Terms, e: int): int
  {
    if e in terms then terms[e] else 0
  }

  /** The sum over k < n of the coefficient at exponent 32 k times w(k). */
  ghost function Sum(terms: Terms, w: nat -> int, n: nat): int
  {
    if n == 0 then 0 else Sum(terms, w, n - 1) + Get(terms, 32 * (n - 1)) * w(n - 1)
  }

  /** `after` differs from `before` by d at exponent 32 k only. */
  ghost predicate Shifted(before: Terms, after: Terms, k: int, d: int)
  {
    forall e {:trigger Get(after, e), Get(before, e)} ::
      Get(after, e) == Get(before, e) + (if e == 32 * k then d else 0)
  }

  lemma {:induction false} SumShifted(before: Terms, after: Terms, k: nat, d: int, w: nat -> int, n: nat)
    requires Shifted(before, after, k, d)
    ensures Sum(after, w, n) == Sum(before, w, n) + (if k < n then d * w(k) else 0)
  {
    if n > 0 {
      SumShifted(before, after, k, d, w, n - 1);
      Expand2(Get(before, 32 * (n - 1)), d, w(n - 1));
      assert Get(after, 32 * (n - 1)) == Get(before, 32 * (n - 1)) + (if k == n - 1 then d else 0);
    }
  }

  /** The effect of such a change on every weighted sum. */
  ghost predicate Moved(before: Terms, after: Terms, k: nat, d: int)
  {
    forall w: nat -> int, n: nat {:trigger Sum(after, w, n)} ::
      k < n ==> Sum(after, w, n) == Sum(before, w, n) + d * w(k)
  }

  lemma ShiftedMoves(before: Terms, after: Terms, k: nat, d: int)
    requires Shifted(before, after, k, d)
    ensures Moved(before, after, k, d)
  {
    forall w: nat -> int, n: nat | k < n
      ensures Sum(after, w, n) == Sum(before, w, n) + d * w(k)
    {
      SumShifted(before, after, k, d, w, n);
    }
  }

  /** A measure of the exponents present. */
  ghost function Measure(terms: Terms, n: nat): int
  {
    if n == 0 then 0 else Measure(terms, n - 1) + (if 32 * (n - 1) in terms then Pow(2, n - 1) else 0)
  }

  lemma {:induction false} MeasureNonNegative(terms: Terms, n: nat)
    ensures 0 <= Measure(terms, n)
  {
    if n > 0 {
      MeasureNonNegative(terms, n - 1);
      PowPositive(2, n - 1);
    }
  }

  lemma {:induction false} MeasureRemove(terms: Terms, k: nat, n: nat)
    ensures Measure(terms - {32 * k}, n)
         == Measure(terms, n) - (if k < n && 32 * k in terms then Pow(2, k) else 0)
  {
    if n > 0 {
      MeasureRemove(terms, k, n - 1);
    }
  }

  lemma {:induction false} MeasureInsert(before: Terms, after: Terms, k: nat, n: nat)
    requires after.Keys <= before.Keys + {32 * k}
    ensures Measure(after, n) <= Measure(before, n) + Pow(2, k)
    ensures k >= n ==> Measure(after, n) <= Measure(before, n)
  {
    PowPositive(2, k);
    if n > 0 {
      PowPositive(2, n - 1);
      MeasureInsert(before, after, k, n - 1);
    }
  }

  // ---- The rewriting -------------------------------------------------------

  ghost predicate WellFormed(terms: Terms, i: nat)
  {
    forall e | e in terms :: e % 32 == 0 && 0 <= e <= 32 * i && terms[e] != 0
  }

  /** The effect of one dictionary update. */
  ghost predicate Added(terms: Terms, r: Terms, k: nat, d: int, i: nat)
  {
    && WellFormed(r, i) && Moved(terms, r, k, d)
    && r.Keys <= terms.Keys + {32 * k} && SameKeys(terms, r, 32 * k)
  }

  /** Add d to the coefficient at exponent 32 k, dropping it when it cancels. */
  method AddTerm(terms: Terms, k: nat, d: int, ghost i: nat) returns (r: Terms)
    requires WellFormed(terms, i) && k <= i
    ensures Added(terms, r, k, d, i)
  {
    r := terms[32 * k := Get(terms, 32 * k) + d];
    if r[32 * k] == 0 {
      r := r - {32 * k};
    }
    ShiftedMoves(terms, r, k, d);
  }

  /** What one rewrite promises: the same value modulo p and the same columns,
      a lower measure, and a lower maximum exactly if it took the maximum. */
  ghost predicate RewrittenTo(terms: Terms, r: Terms, k: nat, i: nat)
  {
    && WellFormed(r, i) && Measure(r, i + 1) < Measure(terms, i + 1)
    && (forall j | 0 <= j < 8 :: Sum(r, RowWeight(j), i + 8) == Sum(terms, RowWeight(j), i + 8))
    && Cong(P, Sum(r, Weight, i + 8), Sum(terms, Weight, i + 8))
    && forall top | Tops(terms, top) :: (forall e | e in r :: e < top) <==> top == 32 * k
  }

  /** Replace c at weight k by c at k - 1, -c at k - 2 and k - 5, c at k - 8. */
  method RewriteTerm(terms: Terms, k: nat, ghost i: nat) returns (r: Terms)
    requires WellFormed(terms, i) && 8 <= k <= i && 32 * k in terms
    ensures RewrittenTo(terms, r, k, i)
  {
    var c := terms[32 * k];
    var t0 := terms - {32 * k};
    ShiftedMoves(terms, t0, k, -c);
    var t1 := AddTerm(t0, k - 1, c, i);
    var t2 := AddTerm(t1, k - 2, -c, i);
    var t3 := AddTerm(t2, k - 5, -c, i);
    r := AddTerm(t3, k - 8, c, i);
    RewriteDone(terms, t1, t2, t3, r, k, c, i);
  }

  /** The five dictionary updates of one rewrite. */
  ghost predicate Chain(t: Terms, t1: Terms, t2: Terms, t3: Terms, t4: Terms, k: nat, c: int, i: nat)
  {
    && 8 <= k <= i && 32 * k in t && Moved(t, t - {32 * k}, k, -c)
    && Added(t - {32 * k}, t1, k - 1, c, i) && Added(t1, t2, k - 2, -c, i)
    && Added(t2, t3, k - 5, -c, i) && Added(t3, t4, k - 8, c, i)
  }

  lemma RewriteDone(t: Terms, t1: Terms, t2: Terms, t3: Terms, t4: Terms, k: nat, c: int, i: nat)
    requires Chain(t, t1, t2, t3, t4, k, c, i)
    ensures RewrittenTo(t, t4, k, i)
  {
    ChainKeeps(t, t1, t2, t3, t4, k, c, i);
    ChainFalls(t, t1, t2, t3, t4, k, c, i);
  }

  lemma ChainKeeps(t: Terms, t1: Terms, t2: Terms, t3: Terms, t4: Terms, k: nat, c: int, i: nat)
    requires Chain(t, t1, t2, t3, t4, k, c, i)
    ensures forall j | 0 <= j < 8 :: Sum(t4, RowWeight(j), i + 8) == Sum(t, RowWeight(j), i + 8)
    ensures Cong(P, Sum(t4, Weight, i + 8), Sum(t, Weight, i + 8))
  {
    RewriteKeeps(t, t - {32 * k}, t1, t2, t3, t4, k, c, i + 8);
  }

  lemma ChainFalls(t: Terms, t1: Terms, t2: Terms, t3: Terms, t4: Terms, k: nat, c: int, i: nat)
    requires Chain(t, t1, t2, t3, t4, k, c, i)
    ensures Measure(t4, i + 1) < Measure(t, i + 1)
    ensures forall top | Tops(t, top) :: (forall e | e in t4 :: e < top) <==> top == 32 * k
  {
    RewriteMeasure(t, t1, t2, t3, t4, k, i);
    RewriteTop(t, t1, t2, t3, t4, k);
  }

  /** The maximum drops exactly when the exponent rewritten is the maximum. */
  lemma RewriteTop(t: Terms, t1: Terms, t2: Terms, t3: Terms, t4: Terms, k: nat)
    requires 32 * k in t && SameKeys(t - {32 * k}, t1, 32 * (k - 1)) && SameKeys(t1, t2, 32 * (k - 2))
    requires SameKeys(t2, t3, 32 * (k - 5)) && SameKeys(t3, t4, 32 * (k - 8))
    ensures forall top | Tops(t, top) :: (forall e | e in t4 :: e < top) <==> top == 32 * k
  {
    forall e | e >= 32 * k
      ensures e in t4 <==> e in t && e != 32 * k
    {
      assert e in t1 <==> e in t - {32 * k};
    }
  }

  /** The keys agree except perhaps for one. */
  ghost predicate SameKeys(before: Terms, after: Terms, e: int)
  {
    forall x | x != e :: x in after <==> x in before
  }

  /** The largest exponent present. */
  ghost predicate Tops(terms: Terms, top: int)
  {
    top in terms && forall e | e in terms :: e <= top
  }

  // The dictionary with its order, the oldest key first.

  type Ordered = seq<(int, int)>

  /** Add x at exponent e: in place, at the end if it is new, gone if it cancels. */
  function Put(d: Ordered, e: int, x: int): Ordered
  {
    if d == [] then if x == 0 then [] else [(e, x)]
    else if d[0].0 != e then [d[0]] + Put(d[1..], e, x)
    else if d[0].1 + x == 0 then d[1..]
    else [(e, d[0].1 + x)] + d[1..]
  }

  /** The position of the first exponent from 256 on. */
  function FirstHigh(d: Ordered): (j: nat)
    ensures j <= |d| && (j < |d| ==> d[j].0 >= 256) && forall k | 0 <= k < j :: d[k].0 < 256
  {
    if d == [] || d[0].0 >= 256 then 0 else 1 + FirstHigh(d[1..])
  }

  /** One round of rewrite_high_word, which takes the oldest high exponent. */
  function RewriteFirst(d: Ordered): Ordered
    requires FirstHigh(d) < |d|
  {
    var j := FirstHigh(d);
    var (e, c) := d[j];
    Put(Put(Put(Put(d[..j] + d[j + 1..], e - 32, c), e - 64, -c), e - 160, -c), e - 256, c)
  }

  lemma FirstRound()
    ensures RewriteFirst([(416, 1)]) == [(384, 1), (352, -1), (256, -1), (160, 1)]
  {
    var d: Ordered := [(416, 1)];
    assert FirstHigh(d) == 0 && d[..0] + d[1..] == [];
    PutFour(384, 1, 352, -1, 256, -1, 160, 1);
    assert RewriteFirst(d) == Put(Put(Put(Put([], 384, 1), 352, -1), 256, -1), 160, 1);
  }

  lemma SecondRound()
    ensures RewriteFirst([(384, 1), (352, -1), (256, -1), (160, 1)])
         == [(256, -1), (160, 1), (320, -1), (224, -1), (128, 1)]
  {
    var d: Ordered := [(384, 1), (352, -1), (256, -1), (160, 1)];
    var rest: Ordered := [(352, -1), (256, -1), (160, 1)];
    var left: Ordered := [(256, -1), (160, 1)];
    assert FirstHigh(d) == 0 && d[..0] + d[1..] == rest;
    assert Put(rest, 352, 1) == rest[1..] == left;
    PutNew(left, 320, -1);
    PutNew(left + [(320, -1)], 224, -1);
    PutNew(left + [(320, -1)] + [(224, -1)], 128, 1);
    assert RewriteFirst(d) == Put(Put(Put(Put(rest, 352, 1), 320, -1), 224, -1), 128, 1);
  }

  lemma PutFour(e0: int, x0: int, e1: int, x1: int, e2: int, x2: int, e3: int, x3: int)
    requires x0 != 0 && x1 != 0 && x2 != 0 && x3 != 0 && e0 > e1 > e2 > e3
    ensures Put(Put(Put(Put([], e0, x0), e1, x1), e2, x2), e3, x3) == [(e0, x0), (e1, x1), (e2, x2), (e3, x3)]
  {
    PutNew([], e0, x0);
    PutNew([] + [(e0, x0)], e1, x1);
    PutNew([] + [(e0, x0)] + [(e1, x1)], e2, x2);
    PutNew([] + [(e0, x0)] + [(e1, x1)] + [(e2, x2)], e3, x3);
  }

  /** The oldest need not be the largest: two rounds into word 13, 256 is taken
      while 320 is present. */
  lemma OldestNotLargest()
    ensures var d := RewriteFirst(RewriteFirst([(416, 1)]));
      FirstHigh(d) < |d| && d[FirstHigh(d)].0 == 256 && (320, -1) in d
  {
    FirstRound();
    SecondRound();
    var d: Ordered := [(256, -1), (160, 1), (320, -1), (224, -1), (128, 1)];
    assert FirstHigh(d) == 0 && d[2] == (320, -1);
  }

  lemma {:induction false} PutNew(d: Ordered, e: int, x: int)
    requires x != 0 && forall k | 0 <= k < |d| :: d[k].0 != e
    ensures Put(d, e, x) == d + [(e, x)]
    decreases |d|
  {
    if d != [] {
      PutNew(d[1..], e, x);
    }
  }

  lemma RewriteKeeps(t: Terms, t0: Terms, t1: Terms, t2: Terms, t3: Terms, t4: Terms, k: nat, c: int, n: nat)
    requires Rewritten(t, t0, t1, t2, t3, t4, k, c) && k < n
    ensures forall j | 0 <= j < 8 :: Sum(t4, RowWeight(j), n) == Sum(t, RowWeight(j), n)
    ensures Cong(P, Sum(t4, Weight, n), Sum(t, Weight, n))
  {
    forall j | 0 <= j < 8
      ensures Sum(t4, RowWeight(j), n) == Sum(t, RowWeight(j), n)
    {
      RewriteKeepsRow(t, t0, t1, t2, t3, t4, k, c, n, j);
    }
    RewriteKeepsValue(t, t0, t1, t2, t3, t4, k, c, n);
  }

  lemma RewriteKeepsRow(
    t: Terms, t0: Terms, t1: Terms, t2: Terms, t3: Terms, t4: Terms, k: nat, c: int, n: nat, j: nat)
    requires Rewritten(t, t0, t1, t2, t3, t4, k, c) && k < n && j < 8
    ensures Sum(t4, RowWeight(j), n) == Sum(t, RowWeight(j), n)
  {
    var w := RowWeight(j);
    RewriteSum(t, t0, t1, t2, t3, t4, k, c, w, n);
    Cancel5(c, w(k), w(k - 1), w(k - 2), w(k - 5), w(k - 8));
  }

  lemma RewriteKeepsValue(
    t: Terms, t0: Terms, t1: Terms, t2: Terms, t3: Terms, t4: Terms, k: nat, c: int, n: nat)
    requires Rewritten(t, t0, t1, t2, t3, t4, k, c) && k < n
    ensures Cong(P, Sum(t4, Weight, n), Sum(t, Weight, n))
  {
    RewriteSum(t, t0, t1, t2, t3, t4, k, c, Weight, n);
    Solinas(k);
    RewriteAlgebra(P, c, Pow(B32, k), Pow(B32, k - 1), Pow(B32, k - 2), Pow(B32, k - 5), Pow(B32, k - 8));
    CongIntro(P, Sum(t4, Weight, n), Sum(t, Weight, n), -(c * Pow(B32, k - 8)));
  }

  lemma RewriteAlgebra(p: int, c: int, w0: int, w1: int, w2: int, w5: int, w8: int)
    requires w0 == w1 - w2 - w5 + w8 + p * w8
    ensures -(c * w0) + c * w1 + (-c) * w2 + (-c) * w5 + c * w8 == p * -(c * w8)
  {
    Cancel5(c, w0 - p * w8, w1, w2, w5, w8);
    Expand2(w0, p * w8, c);
    Swap(p, c, w8);
  }

  ghost function RowWeight(j: nat): nat -> int
    requires j < 8
  {
    (k: nat) => Row(k)[j]
  }

  function Weight(k: nat): int
  {
    Pow(B32, k)
  }

  lemma Cancel5(c: int, w0: int, w1: int, w2: int, w5: int, w8: int)
    requires w0 == w1 - w2 - w5 + w8
    ensures -(c * w0) + c * w1 + (-c) * w2 + (-c) * w5 + c * w8 == 0
  {
  }

  /** What they do to the weighted sums. */
  ghost predicate Rewritten(t: Terms, t0: Terms, t1: Terms, t2: Terms, t3: Terms, t4: Terms, k: nat, c: int)
  {
    && 8 <= k && Moved(t, t0, k, -c) && Moved(t0, t1, k - 1, c) && Moved(t1, t2, k - 2, -c)
    && Moved(t2, t3, k - 5, -c) && Moved(t3, t4, k - 8, c)
  }

  lemma RewriteSum(t: Terms, t0: Terms, t1: Terms, t2: Terms, t3: Terms, t4: Terms, k: nat, c: int,
                   w: nat -> int, n: nat)
    requires Rewritten(t, t0, t1, t2, t3, t4, k, c) && k < n
    ensures Sum(t4, w, n)
         == Sum(t, w, n) - c * w(k) + c * w(k - 1) + (-c) * w(k - 2) + (-c) * w(k - 5) + c * w(k - 8)
  {
  }

  lemma RewriteMeasure(t: Terms, t1: Terms, t2: Terms, t3: Terms, t4: Terms, k: nat, i: nat)
    requires 8 <= k <= i && 32 * k in t
    requires t1.Keys <= (t - {32 * k}).Keys + {32 * (k - 1)} && t2.Keys <= t1.Keys + {32 * (k - 2)}
    requires t3.Keys <= t2.Keys + {32 * (k - 5)} && t4.Keys <= t3.Keys + {32 * (k - 8)}
    ensures Measure(t4, i + 1) < Measure(t, i + 1)
  {
    MeasureRemove(t, k, i + 1);
    MeasureInsert(t - {32 * k}, t1, k - 1, i + 1);
    MeasureInsert(t1, t2, k - 2, i + 1);
    MeasureInsert(t2, t3, k - 5, i + 1);
    MeasureInsert(t3, t4, k - 8, i + 1);
    PowPositive(2, k - 8);
    assert Pow(2, k - 5) == 8 * Pow(2, k - 8) by {
      assert Pow(2, k - 7) == 2 * Pow(2, k - 8) && Pow(2, k - 6) == 2 * Pow(2, k - 7);
    }
    assert Pow(2, k - 2) == 8 * Pow(2, k - 5) by {
      assert Pow(2, k - 4) == 2 * Pow(2, k - 5) && Pow(2, k - 3) == 2 * Pow(2, k - 4);
    }
    assert Pow(2, k - 1) == 2 * Pow(2, k - 2);
  }

  /** The table entry for word i: the nonzero coefficients of its row. */
  function Table(i: nat): map<int, int>
  {
    map j | 0 <= j < 8 && Row(i)[j] != 0 :: Row(i)[j]
  }

  /** rewrite_high_word: whichever high exponent is taken next, the rewriting
      ends, keeps the residue of 2^(32 i) at every step, and ends in row i. */
  method RewriteHighWord(i: nat) returns (table: map<int, int>)
    ensures table == Table(i)
  {
    var terms: Terms := map[32 * i := 1];
    SingleTerm(terms, i, Weight, i + 8);
    forall j | 0 <= j < 8
      ensures Sum(terms, RowWeight(j), i + 8) == Row(i)[j]
    {
      SingleTerm(terms, i, RowWeight(j), i + 8);
    }
    while true
      invariant WellFormed(terms, i)
      invariant Cong(P, Sum(terms, Weight, i + 8), Pow(B32, i))
      invariant forall j | 0 <= j < 8 :: Sum(terms, RowWeight(j), i + 8) == Row(i)[j]
      decreases Measure(terms, i + 1)
    {
      MeasureNonNegative(terms, i + 1);
      var high := set e | e in terms && e >= 256;
      assert forall e | e in terms && e >= 256 :: e in high;
      if high == {} {
        break;
      }
      var e :| e in high;
      assert e in terms && e % 32 == 0 && 256 <= e <= 32 * i;
      assert e == 32 * (e / 32) && 8 <= e / 32 <= i;
      terms := RewriteTerm(terms, e / 32, i);
    }
    table := map e | e in terms :: e / 32 := terms[e];
    LowTerms(terms, table, i);
  }

  lemma LowTerms(terms: Terms, table: map<int, int>, i: nat)
    requires WellFormed(terms, i) && forall e | e in terms :: e < 256
    requires forall j | 0 <= j < 8 :: Sum(terms, RowWeight(j), i + 8) == Row(i)[j]
    requires table == map e | e in terms :: e / 32 := terms[e]
    ensures table == Table(i)
  {
    forall j | 0 <= j < 8
      ensures Row(i)[j] == Get(terms, 32 * j)
    {
      LowSum(terms, j, i + 8);
    }
    assert forall e | e in terms :: e == 32 * (e / 32) && 0 <= e / 32 < 8;
    assert forall j | j in table :: 32 * j in terms && table[j] == terms[32 * j];
    assert forall j | 0 <= j < 8 && 32 * j in terms :: (32 * j) / 32 in table;
  }

  lemma {:induction false} SingleTerm(terms: Terms, i: nat, w: nat -> int, n: nat)
    requires terms == map[32 * i := 1]
    ensures Sum(terms, w, n) == if i < n then w(i) else 0
  {
    if n > 0 {
      SingleTerm(terms, i, w, n - 1);
    }
  }

  /** With only low exponents left, column j of the rows picks coefficient j. */
  lemma {:induction false} LowSum(terms: Terms, j: nat, n: nat)
    requires j < 8 && forall e | e in terms :: e < 256
    ensures Sum(terms, RowWeight(j), n) == if j < n then Get(terms, 32 * j) else 0
  {
    if n > 0 {
      LowSum(terms, j, n - 1);
    }
  }
}
