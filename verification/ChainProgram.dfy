/** The generator of the addition chain for n - 2: a ladder of "k ones" values,
    then one instruction per run of ones in the exponent. */
module ChainProgram {
  import opened Wrappers
  import opened Limbs
  import opened ModArith
  import opened Chain
  import Montgomery

  /** The Fermat exponent. */
  const E: int := Montgomery.N - 2

  /** The run lengths the ladder has a value for. */
  predicate InLadder(k: int)
  {
    1 <= k <= 6 || k == 8 || k == 16 || k == 32
  }

  /** Which slot holds x^(2^k - 1): all of them lie below the accumulator. */
  function Slot(k: int): (s: nat)
    requires InLadder(k)
    ensures s < ACC && s != NO_MUL
  {
    if k <= 6 then k - 1 else if k == 8 then 6 else if k == 16 then 7 else 8
  }

  // ---- Bit strings, most significant bit first -----------------------------

  /** bin(v) without its prefix, for v > 0. */
  function Bin(v: nat): seq<bool>
  {
    if v == 0 then [] else Bin(v / 2) + [v % 2 == 1]
  }

  /** Shift the bits into e from the right. */
  function Fold(e: int, bits: seq<bool>): int
  {
    if bits == [] then e
    else 2 * Fold(e, bits[..|bits| - 1]) + (if bits[|bits| - 1] then 1 else 0)
  }

  function Repeat(b: bool, k: nat): seq<bool>
  {
    seq(k, _ => b)
  }

  lemma {:induction false} FoldAppend(e: int, a: seq<bool>, b: seq<bool>)
    ensures Fold(e, a + b) == Fold(Fold(e, a), b)
  {
    if b == [] {
      assert a + b == a;
    } else {
      var n := |b| - 1;
      assert (a + b)[..|a + b| - 1] == a + b[..n];
      FoldAppend(e, a, b[..n]);
    }
  }

  lemma {:induction false} FoldRepeat(e: int, b: bool, k: nat)
    ensures Fold(e, Repeat(b, k)) == e * Pow(2, k) + (if b then Pow(2, k) - 1 else 0)
  {
    if k > 0 {
      assert Repeat(b, k)[..k - 1] == Repeat(b, k - 1);
      FoldRepeat(e, b, k - 1);
      assert 2 * (e * Pow(2, k - 1)) == e * (2 * Pow(2, k - 1));
    } else {
      assert Repeat(b, 0) == [];
    }
  }

  /** Shifting bits into e is e * 2^len plus the number the bits spell. */
  lemma {:induction false} FoldValue(e: int, bits: seq<bool>)
    ensures Fold(e, bits) == e * Pow(2, |bits|) + Fold(0, bits)
  {
    if bits != [] {
      var n := |bits| - 1;
      FoldValue(e, bits[..n]);
      assert 2 * (e * Pow(2, n)) == e * (2 * Pow(2, n));
    }
  }

  /** A bit string that starts with 1 is the binary form of its value. */
  lemma {:induction false} BinFold(bits: seq<bool>)
    requires bits != [] && bits[0]
    ensures Fold(0, bits) > 0 && Bin(Fold(0, bits)) == bits
  {
    var n := |bits| - 1;
    if n == 0 {
      assert bits == [true];
      assert bits[..0] == [];
      assert Bin(1) == [true];
    } else {
      BinFold(bits[..n]);
      var f, b := Fold(0, bits[..n]), bits[n];
      assert Fold(0, bits) / 2 == f;
      assert bits == bits[..n] + [b];
    }
  }

  // ---- Runs of ones --------------------------------------------------------

  /** Positions i..j hold a maximal run of ones. */
  ghost predicate IsRun(bits: seq<bool>, i: int, j: int)
  {
    && 0 <= i < j <= |bits|
    && (forall k | i <= k < j :: bits[k])
    && (i > 0 ==> !bits[i - 1])
    && (j < |bits| ==> !bits[j])
  }

  ghost predicate RunsInLadder(bits: seq<bool>)
  {
    forall i, j | IsRun(bits, i, j) :: InLadder(j - i)
  }

  /** `zeros` zeros followed by `ones` ones. */
  datatype Segment = Segment(zeros: nat, ones: nat)

  function SegmentBits(s: Segment): seq<bool>
  {
    Repeat(false, s.zeros) + Repeat(true, s.ones)
  }

  function FromSegments(ss: seq<Segment>): seq<bool>
  {
    if ss == [] then [] else SegmentBits(ss[0]) + FromSegments(ss[1..])
  }

  function SegmentInstr(s: Segment): Instr
    requires InLadder(s.ones)
  {
    Instr(ACC, ACC, s.zeros + s.ones, Slot(s.ones))
  }

  ghost predicate LadderSegments(ss: seq<Segment>)
  {
    forall k | 0 <= k < |ss| :: InLadder(ss[k].ones)
  }

  /** Every segment starts with a zero, so neighbouring runs do not touch. */
  ghost predicate Separated(ss: seq<Segment>)
  {
    forall k | 0 <= k < |ss| :: ss[k].zeros >= 1
  }

  function SegmentProgram(ss: seq<Segment>): seq<Instr>
    requires LadderSegments(ss)
  {
    if ss == [] then [] else [SegmentInstr(ss[0])] + SegmentProgram(ss[1..])
  }

  lemma {:induction false} SegmentsSnoc(ss: seq<Segment>, s: Segment)
    requires LadderSegments(ss) && InLadder(s.ones)
    ensures LadderSegments(ss + [s])
    ensures FromSegments(ss + [s]) == FromSegments(ss) + SegmentBits(s)
    ensures SegmentProgram(ss + [s]) == SegmentProgram(ss) + [SegmentInstr(s)]
  {
    if ss == [] {
      assert ss + [s] == [s];
      assert FromSegments([s]) == SegmentBits(s) + FromSegments([]);
    } else {
      assert (ss + [s])[1..] == ss[1..] + [s];
      SegmentsSnoc(ss[1..], s);
    }
  }

  lemma {:induction false} SegmentsRuns(ss: seq<Segment>)
    requires LadderSegments(ss)
    requires Separated(ss)
    ensures RunsInLadder(FromSegments(ss))
    ensures ss != [] ==> var b := FromSegments(ss); b != [] && !b[0] && b[|b| - 1]
  {
    if ss != [] {
      SegmentsRuns(ss[1..]);
      var b, rest, p, q := FromSegments(ss), FromSegments(ss[1..]), ss[0].zeros, ss[0].zeros + ss[0].ones;
      assert b[p];
      forall i, j | IsRun(b, i, j)
        ensures InLadder(j - i)
      {
        if i < q {
          assert b[i];
          assert i == p;
          assert rest != [] ==> !b[q];
          assert j == q;
        } else {
          assert forall k | 0 <= k < |rest| :: rest[k] == b[q + k];
          assert IsRun(rest, i - q, j - q);
        }
      }
    }
  }

  /** A bit string has one decomposition into separated segments. */
  lemma {:induction false} SegmentsUnique(a: seq<Segment>, b: seq<Segment>)
    requires LadderSegments(a) && LadderSegments(b) && Separated(a) && Separated(b)
    requires FromSegments(a) == FromSegments(b)
    ensures a == b
  {
    if a != [] && b != [] {
      SameHead(a, b);
      var u, v := FromSegments(a), FromSegments(b);
      var q := |SegmentBits(a[0])|;
      assert u[q..] == FromSegments(a[1..]) && v[q..] == FromSegments(b[1..]);
      SegmentsUnique(a[1..], b[1..]);
      assert a == [a[0]] + a[1..] && b == [b[0]] + b[1..];
    }
  }

  lemma SameHead(a: seq<Segment>, b: seq<Segment>)
    requires LadderSegments(a) && LadderSegments(b) && Separated(a) && Separated(b)
    requires a != [] && b != [] && FromSegments(a) == FromSegments(b)
    ensures a[0] == b[0]
  {
    var u, v := FromSegments(a), FromSegments(b);
    assert u[a[0].zeros] && v[b[0].zeros];
    assert a[0].zeros == b[0].zeros;
    SegmentsRuns(a[1..]);
    SegmentsRuns(b[1..]);
    var p, q := a[0].zeros + a[0].ones, b[0].zeros + b[0].ones;
    assert p < |u| ==> u[p] == FromSegments(a[1..])[0];
    assert q < |v| ==> v[q] == FromSegments(b[1..])[0];
  }

  // ---- What an encoded program does to an exponent -------------------------

  /** Every ladder slot k up to `top` holds the exponent 2^k - 1. */
  ghost predicate LadderTo(slots: Slots<int>, top: int)
  {
    && |slots| == NSLOTS
    && forall k {:trigger Slot(k)} | InLadder(k) && k <= top :: slots[Slot(k)] == Some(Pow(2, k) - 1)
  }

  ghost predicate LadderReady(slots: Slots<int>)
  {
    LadderTo(slots, 32)
  }

  function Squarings(prog: seq<Instr>): nat
  {
    if prog == [] then 0 else prog[0].nsq + Squarings(prog[1..])
  }

  function Multiplies(prog: seq<Instr>): nat
  {
    if prog == [] then 0 else (if prog[0].mul == NO_MUL then 0 else 1) + Multiplies(prog[1..])
  }

  lemma {:induction false} CostAppend(p: seq<Instr>, q: seq<Instr>)
    ensures Squarings(p + q) == Squarings(p) + Squarings(q)
    ensures Multiplies(p + q) == Multiplies(p) + Multiplies(q)
  {
    if p == [] {
      assert p + q == q;
    } else {
      assert (p + q)[1..] == p[1..] + q;
      CostAppend(p[1..], q);
    }
  }

  lemma {:induction false} SquaredDoubles(e: int, nsq: nat)
    ensures Squared(e, nsq, Add) == e * Pow(2, nsq)
    decreases nsq
  {
    if nsq > 0 {
      var f := Add(e, e);
      SquaredDoubles(f, nsq - 1);
      assert f * Pow(2, nsq - 1) == e * (2 * Pow(2, nsq - 1)) by {
        Double(e, Pow(2, nsq - 1));
      }
      assert Squared(e, nsq, Add) == Squared(f, nsq - 1, Add);
    }
  }

  lemma Double(e: int, p: int)
    ensures (e + e) * p == e * (2 * p)
  {
  }

  /** On a ready ladder `prog` turns an accumulator e into Fold(e, bits) and
      touches nothing else. */
  ghost predicate ShiftsIn(prog: seq<Instr>, bits: seq<bool>)
  {
    forall slots: Slots<int>, e: int ::
      LadderReady(slots) && slots[ACC] == Some(e) ==>
      Run(slots, prog, Add) == Some(slots[ACC := Some(Fold(e, bits))])
  }

  lemma {:induction false} SegmentsShiftIn(ss: seq<Segment>, slots: Slots<int>, e: int)
    requires LadderSegments(ss) && LadderReady(slots) && slots[ACC] == Some(e)
    ensures Run(slots, SegmentProgram(ss), Add) == Some(slots[ACC := Some(Fold(e, FromSegments(ss)))])
    decreases |ss|
  {
    if ss != [] {
      var s, rest := ss[0], ss[1..];
      var f := Fold(e, SegmentBits(s));
      var next := slots[ACC := Some(f)];
      SegmentStep(s, slots, e);
      RunCons(slots, SegmentInstr(s), next, SegmentProgram(rest));
      SegmentsShiftIn(rest, next, f);
      FoldAppend(e, SegmentBits(s), FromSegments(rest));
      var g := Some(Fold(f, FromSegments(rest)));
      assert next[ACC := g] == slots[ACC := g];
    } else {
      assert slots[ACC := Some(e)] == slots;
    }
  }

  lemma RunCons(slots: Slots<int>, ins: Instr, next: Slots<int>, rest: seq<Instr>)
    requires Step(slots, ins, Add) == Some(next)
    ensures Run(slots, [ins] + rest, Add) == Run(next, rest, Add)
  {
    assert ([ins] + rest)[1..] == rest;
  }

  lemma SegmentValue(s: Segment, e: int)
    ensures Fold(e, SegmentBits(s)) == e * Pow(2, s.zeros + s.ones) + (Pow(2, s.ones) - 1)
  {
    FoldAppend(e, Repeat(false, s.zeros), Repeat(true, s.ones));
    FoldRepeat(e, false, s.zeros);
    FoldRepeat(e * Pow(2, s.zeros), true, s.ones);
    PowAdd(2, s.zeros, s.ones);
    MulAssoc(e, Pow(2, s.zeros), Pow(2, s.ones));
  }

  /** One instruction that multiplies by ladder slot k, as arithmetic. */
  lemma StepValue(slots: Slots<int>, ins: Instr, e: int, k: nat)
    requires |slots| == NSLOTS && InLadder(k) && slots[Slot(k)] == Some(Pow(2, k) - 1)
    requires ins.mul == Slot(k) && ins.src < NSLOTS && ins.dst < NSLOTS && slots[ins.src] == Some(e)
    ensures Step(slots, ins, Add) == Some(slots[ins.dst := Some(e * Pow(2, ins.nsq) + (Pow(2, k) - 1))])
  {
    SquaredDoubles(e, ins.nsq);
  }

  lemma SegmentStep(s: Segment, slots: Slots<int>, e: int)
    requires InLadder(s.ones) && LadderReady(slots) && slots[ACC] == Some(e)
    ensures Step(slots, SegmentInstr(s), Add) == Some(slots[ACC := Some(Fold(e, SegmentBits(s)))])
  {
    SegmentValue(s, e);
    StepValue(slots, SegmentInstr(s), e, s.ones);
  }

  lemma {:induction false} SegmentsCost(ss: seq<Segment>)
    requires LadderSegments(ss)
    ensures Squarings(SegmentProgram(ss)) == |FromSegments(ss)|
    ensures Multiplies(SegmentProgram(ss)) == |ss|
  {
    if ss != [] {
      SegmentsCost(ss[1..]);
      assert SegmentProgram(ss)[1..] == SegmentProgram(ss[1..]);
    }
  }

  // ---- The encoder ---------------------------------------------------------

  /** The encoder's invariant: `ss` and then `pending` zeros spell the first i
      bits, and i is not inside a run. */
  ghost predicate Encoded(low: seq<bool>, i: nat, pending: nat, prog: seq<Instr>, ss: seq<Segment>)
  {
    && pending <= i <= |low|
    && LadderSegments(ss) && prog == SegmentProgram(ss)
    && FromSegments(ss) + Repeat(false, pending) == low[..i]
    && (i == 0 ==> ss == [])
    && (low != [] && !low[0] ==> Separated(ss))
    && (pending == 0 && 0 < i ==> low[i - 1] && (i < |low| ==> !low[i]))
    && RunsBefore(low, i)
  }

  lemma EncodeZero(low: seq<bool>, i: nat, pending: nat, prog: seq<Instr>, ss: seq<Segment>)
    requires Encoded(low, i, pending, prog, ss) && i < |low| && !low[i]
    ensures Encoded(low, i + 1, pending + 1, prog, ss)
  {
    assert low[..i + 1] == low[..i] + [false];
    assert Repeat(false, pending + 1) == Repeat(false, pending) + [false];
  }

  lemma EncodeStart(low: seq<bool>, i: nat, pending: nat, prog: seq<Instr>, ss: seq<Segment>)
    requires Encoded(low, i, pending, prog, ss)
    ensures pending > 0 ==> !low[i - 1]
  {
    if pending > 0 {
      assert low[i - 1] == low[..i][i - 1] == (FromSegments(ss) + Repeat(false, pending))[i - 1];
    }
  }

  lemma EncodeRun(low: seq<bool>, i: nat, pending: nat, prog: seq<Instr>, ss: seq<Segment>, j: nat)
    requires Encoded(low, i, pending, prog, ss) && IsRun(low, i, j) && InLadder(j - i)
    ensures var s := Segment(pending, j - i);
      Encoded(low, j, 0, prog + [SegmentInstr(s)], ss + [s])
  {
    var s := Segment(pending, j - i);
    SegmentsSnoc(ss, s);
    assert low[..j] == low[..i] + Repeat(true, j - i);
    assert FromSegments(ss + [s]) + Repeat(false, 0) == FromSegments(ss) + SegmentBits(s);
    RunsAt(low, i, j);
  }

  lemma EncodeEnd(low: seq<bool>, pending: nat, prog: seq<Instr>, ss: seq<Segment>)
    requires Encoded(low, |low|, pending, prog, ss)
    ensures RunsInLadder(low)
    ensures low == [] ==> pending == 0
    ensures low != [] ==> (low[|low| - 1] <==> pending == 0)
    ensures pending == 0 ==> FromSegments(ss) == low && ShiftsIn(prog, low) && Squarings(prog) == |low|
  {
    EncodeStart(low, |low|, pending, prog, ss);
    assert low[..|low|] == low;
    assert FromSegments(ss) + Repeat(false, 0) == FromSegments(ss);
    SegmentsCorrect(ss);
  }

  /** The loop over the unstructured low bits. None is a failed source
      assertion: a run that is not in the ladder, or a trailing zero. */
  method EncodeRuns(low: seq<bool>) returns (r: Option<seq<Instr>>, ghost ss: seq<Segment>)
    ensures r.Some? <==> RunsInLadder(low) && (low != [] ==> low[|low| - 1])
    ensures r.Some? ==> LadderSegments(ss) && FromSegments(ss) == low && r.value == SegmentProgram(ss)
    ensures r.Some? && low != [] && !low[0] ==> Separated(ss)
    ensures r.Some? ==> ShiftsIn(r.value, low)
    ensures r.Some? ==> Squarings(r.value) == |low|
  {
    var prog := [];
    ss := [];
    var i, pending := 0, 0;
    while i < |low|
      invariant Encoded(low, i, pending, prog, ss)
    {
      EncodeStart(low, i, pending, prog, ss);
      if !low[i] {
        EncodeZero(low, i, pending, prog, ss);
        i, pending := i + 1, pending + 1;
        continue;
      }
      var j := RunEnd(low, i);
      var run := j - i;
      assert IsRun(low, i, j);
      if !InLadder(run) {
        return None, ss;
      }
      EncodeRun(low, i, pending, prog, ss, j);
      prog := prog + [Instr(ACC, ACC, pending + run, Slot(run))];
      ss := ss + [Segment(pending, run)];
      pending := 0;
      i := j;
    }
    EncodeEnd(low, pending, prog, ss);
    if pending != 0 {
      return None, ss;
    }
    return Some(prog), ss;
  }

  /** Every maximal run that starts before position i is in the ladder. */
  ghost predicate RunsBefore(bits: seq<bool>, i: int)
  {
    forall a, b | IsRun(bits, a, b) && a < i :: InLadder(b - a)
  }

  /** The inner scan: one past the ones that start at i. */
  method RunEnd(low: seq<bool>, i: nat) returns (j: nat)
    requires i < |low| && low[i]
    ensures i < j <= |low|
    ensures forall k | i <= k < j :: low[k]
    ensures j < |low| ==> !low[j]
  {
    j := i;
    while j < |low| && low[j]
      invariant i <= j <= |low|
      invariant forall k | i <= k < j :: low[k]
    {
      j := j + 1;
    }
  }

  /** Two maximal runs that overlap are the same run. */
  lemma RunsAt(bits: seq<bool>, i: int, j: int)
    requires IsRun(bits, i, j)
    ensures forall a, b | IsRun(bits, a, b) && i <= a < j :: a == i && b == j
  {
  }

  lemma SegmentsCorrect(ss: seq<Segment>)
    requires LadderSegments(ss)
    ensures ShiftsIn(SegmentProgram(ss), FromSegments(ss))
    ensures Squarings(SegmentProgram(ss)) == |FromSegments(ss)|
    ensures Multiplies(SegmentProgram(ss)) == |ss|
  {
    forall slots: Slots<int>, e: int | LadderReady(slots) && slots[ACC] == Some(e)
      ensures Run(slots, SegmentProgram(ss), Add) == Some(slots[ACC := Some(Fold(e, FromSegments(ss)))])
    {
      SegmentsShiftIn(ss, slots, e);
    }
    SegmentsCost(ss);
  }

  // ---- The program for n - 2 -----------------------------------------------

  const HEAD: seq<Segment> := [Segment(0, 32), Segment(0, 32), Segment(0, 1)]
  const LOW0: seq<Segment> := [Segment(1, 4), Segment(2, 3), Segment(2, 2), Segment(1, 5)]
  const LOW1: seq<Segment> := [Segment(1, 1), Segment(1, 1), Segment(1, 1), Segment(1, 2)]
  const LOW2: seq<Segment> := [Segment(1, 2), Segment(1, 1), Segment(2, 3), Segment(3, 1)]
  const LOW3: seq<Segment> := [Segment(1, 4), Segment(2, 4), Segment(1, 1), Segment(4, 1)]
  const LOW4: seq<Segment> := [Segment(2, 4), Segment(2, 3), Segment(1, 3), Segment(2, 3)]
  const LOW5: seq<Segment> := [Segment(2, 1), Segment(1, 1), Segment(1, 2), Segment(4, 1)]
  const LOW6: seq<Segment> := [Segment(1, 6), Segment(3, 2), Segment(3, 2), Segment(2, 1)]
  const LOW7: seq<Segment> := [Segment(2, 1), Segment(1, 1), Segment(1, 1), Segment(2, 4)]
  /** The runs of ones in the low 127 bits of n - 2. */
  const LOW: seq<Segment> := LOW0 + LOW1 + LOW2 + LOW3 + LOW4 + LOW5 + LOW6 + LOW7

  function FoldSegments(e: int, ss: seq<Segment>): int
    decreases |ss|
  {
    if ss == [] then e else FoldSegments(Push(e, ss[0]), ss[1..])
  }

  function Push(e: int, s: Segment): int
  {
    e * Pow(2, s.zeros + s.ones) + (Pow(2, s.ones) - 1)
  }

  lemma {:induction false} FoldSegmentsIsFold(e: int, ss: seq<Segment>)
    ensures FoldSegments(e, ss) == Fold(e, FromSegments(ss))
    decreases |ss|
  {
    if ss != [] {
      SegmentValue(ss[0], e);
      FoldAppend(e, SegmentBits(ss[0]), FromSegments(ss[1..]));
      FoldSegmentsIsFold(Fold(e, SegmentBits(ss[0])), ss[1..]);
    }
  }

  lemma {:induction false} FromSegmentsAppend(a: seq<Segment>, b: seq<Segment>)
    ensures FromSegments(a + b) == FromSegments(a) + FromSegments(b)
  {
    if a == [] {
      assert a + b == b;
    } else {
      assert (a + b)[1..] == a[1..] + b;
      FromSegmentsAppend(a[1..], b);
    }
  }

  lemma Pow2Thirtytwo()
    ensures Pow(2, 32) == 0x1_0000_0000
  {
    assert Pow(2, 8) == 0x100;
    PowAdd(2, 8, 8);
    PowAdd(2, 16, 16);
  }

  lemma EvaluateHead()
    ensures FoldSegments(0xffffffff00000000, HEAD) == 0x1fffffffe00000001ffffffffffffffff
  {
    Pow2Thirtytwo();
    assert HEAD[1..] == [Segment(0, 32), Segment(0, 1)] && HEAD[1..][1..] == [Segment(0, 1)];
    assert FoldSegments(0xffffffff00000000ffffffffffffffff, [Segment(0, 1)]) == 0x1fffffffe00000001ffffffffffffffff;
    assert FoldSegments(0xffffffff00000000ffffffff, HEAD[1..]) == FoldSegments(0xffffffff00000000ffffffffffffffff, HEAD[1..][1..]);
  }

  lemma FoldFour(e: int, ss: seq<Segment>)
    requires |ss| == 4
    ensures FoldSegments(e, ss) == Push(Push(Push(Push(e, ss[0]), ss[1]), ss[2]), ss[3])
  {
    var e1 := Push(e, ss[0]);
    var e2 := Push(e1, ss[1]);
    var e3 := Push(e2, ss[2]);
    assert FoldSegments(e, ss) == FoldSegments(e1, ss[1..]);
    assert FoldSegments(e1, ss[1..]) == FoldSegments(e2, ss[1..][1..]);
    assert FoldSegments(e2, ss[1..][1..]) == FoldSegments(e3, ss[1..][1..][1..]);
    assert FoldSegments(e3, ss[1..][1..][1..]) == Push(e3, ss[3]);
  }

  lemma EvaluateLow0()
    ensures FoldSegments(0x1fffffffe00000001ffffffffffffffff, LOW0) == 0x1fffffffe00000001ffffffffffffffff79cdf
  {
    FoldFour(0x1fffffffe00000001ffffffffffffffff, LOW0);
    assert Push(0x1fffffffe00000001ffffffffffffffff, Segment(1, 4)) == 0x3fffffffc00000003fffffffffffffffef;
    assert Push(0x3fffffffc00000003fffffffffffffffef, Segment(2, 3)) == 0x7fffffff800000007fffffffffffffffde7;
    assert Push(0x7fffffff800000007fffffffffffffffde7, Segment(2, 2)) == 0x7fffffff800000007fffffffffffffffde73;
  }

  lemma EvaluateLow1()
    ensures FoldSegments(0x1fffffffe00000001ffffffffffffffff79cdf, LOW1) == 0x3fffffffc00000003fffffffffffffffef39beab
  {
    FoldFour(0x1fffffffe00000001ffffffffffffffff79cdf, LOW1);
    assert Push(0x1fffffffe00000001ffffffffffffffff79cdf, Segment(1, 1)) == 0x7fffffff800000007fffffffffffffffde737d;
    assert Push(0x7fffffff800000007fffffffffffffffde737d, Segment(1, 1)) == 0x1fffffffe00000001ffffffffffffffff79cdf5;
    assert Push(0x1fffffffe00000001ffffffffffffffff79cdf5, Segment(1, 1)) == 0x7fffffff800000007fffffffffffffffde737d5;
  }

  lemma EvaluateLow2()
    ensures FoldSegments(0x3fffffffc00000003fffffffffffffffef39beab, LOW2) == 0xffffffff00000000ffffffffffffffffbce6faada71
  {
    FoldFour(0x3fffffffc00000003fffffffffffffffef39beab, LOW2);
    assert Push(0x3fffffffc00000003fffffffffffffffef39beab, Segment(1, 2)) == 0x1fffffffe00000001ffffffffffffffff79cdf55b;
    assert Push(0x1fffffffe00000001ffffffffffffffff79cdf55b, Segment(1, 1)) == 0x7fffffff800000007fffffffffffffffde737d56d;
    assert Push(0x7fffffff800000007fffffffffffffffde737d56d, Segment(2, 3)) == 0xffffffff00000000ffffffffffffffffbce6faada7;
  }

  lemma EvaluateLow3()
    ensures FoldSegments(0xffffffff00000000ffffffffffffffffbce6faada71, LOW3) == 0x3fffffffc00000003fffffffffffffffef39beab69c5e7a1
  {
    FoldFour(0xffffffff00000000ffffffffffffffffbce6faada71, LOW3);
    assert Push(0xffffffff00000000ffffffffffffffffbce6faada71, Segment(1, 4)) == 0x1fffffffe00000001ffffffffffffffff79cdf55b4e2f;
    assert Push(0x1fffffffe00000001ffffffffffffffff79cdf55b4e2f, Segment(2, 4)) == 0x7fffffff800000007fffffffffffffffde737d56d38bcf;
    assert Push(0x7fffffff800000007fffffffffffffffde737d56d38bcf, Segment(1, 1)) == 0x1fffffffe00000001ffffffffffffffff79cdf55b4e2f3d;
  }

  lemma EvaluateLow4()
    ensures FoldSegments(0x3fffffffc00000003fffffffffffffffef39beab69c5e7a1, LOW4) == 0x3fffffffc00000003fffffffffffffffef39beab69c5e7a13cee7
  {
    FoldFour(0x3fffffffc00000003fffffffffffffffef39beab69c5e7a1, LOW4);
    assert Push(0x3fffffffc00000003fffffffffffffffef39beab69c5e7a1, Segment(2, 4)) == 0xffffffff00000000ffffffffffffffffbce6faada7179e84f;
    assert Push(0xffffffff00000000ffffffffffffffffbce6faada7179e84f, Segment(2, 3)) == 0x1fffffffe00000001ffffffffffffffff79cdf55b4e2f3d09e7;
    assert Push(0x1fffffffe00000001ffffffffffffffff79cdf55b4e2f3d09e7, Segment(1, 3)) == 0x1fffffffe00000001ffffffffffffffff79cdf55b4e2f3d09e77;
  }

  lemma EvaluateLow5()
    ensures FoldSegments(0x3fffffffc00000003fffffffffffffffef39beab69c5e7a13cee7, LOW5) == 0x7fffffff800000007fffffffffffffffde737d56d38bcf4279dce561
  {
    FoldFour(0x3fffffffc00000003fffffffffffffffef39beab69c5e7a13cee7, LOW5);
    assert Push(0x3fffffffc00000003fffffffffffffffef39beab69c5e7a13cee7, Segment(2, 1)) == 0x1fffffffe00000001ffffffffffffffff79cdf55b4e2f3d09e7739;
    assert Push(0x1fffffffe00000001ffffffffffffffff79cdf55b4e2f3d09e7739, Segment(1, 1)) == 0x7fffffff800000007fffffffffffffffde737d56d38bcf4279dce5;
    assert Push(0x7fffffff800000007fffffffffffffffde737d56d38bcf4279dce5, Segment(1, 2)) == 0x3fffffffc00000003fffffffffffffffef39beab69c5e7a13cee72b;
  }

  lemma EvaluateLow6()
    ensures FoldSegments(0x7fffffff800000007fffffffffffffffde737d56d38bcf4279dce561, LOW6) == 0x7fffffff800000007fffffffffffffffde737d56d38bcf4279dce5617e319
  {
    FoldFour(0x7fffffff800000007fffffffffffffffde737d56d38bcf4279dce561, LOW6);
    assert Push(0x7fffffff800000007fffffffffffffffde737d56d38bcf4279dce561, Segment(1, 6)) == 0x3fffffffc00000003fffffffffffffffef39beab69c5e7a13cee72b0bf;
    assert Push(0x3fffffffc00000003fffffffffffffffef39beab69c5e7a13cee72b0bf, Segment(3, 2)) == 0x7fffffff800000007fffffffffffffffde737d56d38bcf4279dce5617e3;
    assert Push(0x7fffffff800000007fffffffffffffffde737d56d38bcf4279dce5617e3, Segment(3, 2)) == 0xffffffff00000000ffffffffffffffffbce6faada7179e84f3b9cac2fc63;
  }

  lemma EvaluateLow7()
    ensures FoldSegments(0x7fffffff800000007fffffffffffffffde737d56d38bcf4279dce5617e319, LOW7) == E
  {
    FoldFour(0x7fffffff800000007fffffffffffffffde737d56d38bcf4279dce5617e319, LOW7);
    assert Push(0x7fffffff800000007fffffffffffffffde737d56d38bcf4279dce5617e319, Segment(2, 1)) == 0x3fffffffc00000003fffffffffffffffef39beab69c5e7a13cee72b0bf18c9;
    assert Push(0x3fffffffc00000003fffffffffffffffef39beab69c5e7a13cee72b0bf18c9, Segment(1, 1)) == 0xffffffff00000000ffffffffffffffffbce6faada7179e84f3b9cac2fc6325;
    assert Push(0xffffffff00000000ffffffffffffffffbce6faada7179e84f3b9cac2fc6325, Segment(1, 1)) == 0x3fffffffc00000003fffffffffffffffef39beab69c5e7a13cee72b0bf18c95;
  }

  lemma FoldSegmentsAppend(e: int, a: seq<Segment>, b: seq<Segment>)
    ensures FoldSegments(e, a + b) == FoldSegments(FoldSegments(e, a), b)
  {
    FoldSegmentsIsFold(e, a + b);
    FoldSegmentsIsFold(e, a);
    FoldSegmentsIsFold(FoldSegments(e, a), b);
    FromSegmentsAppend(a, b);
    FoldAppend(e, FromSegments(a), FromSegments(b));
  }

  lemma EvaluateAll()
    ensures FoldSegments(0xffffffff00000000, HEAD + LOW) == E
  {
    EvaluateHead();
    EvaluateLow0(); EvaluateLow1(); EvaluateLow2(); EvaluateLow3();
    EvaluateLow4(); EvaluateLow5(); EvaluateLow6(); EvaluateLow7();
    var top := 0x1fffffffe00000001ffffffffffffffff;
    FoldSegmentsAppend(top, LOW0, LOW1);
    FoldSegmentsAppend(top, LOW0 + LOW1, LOW2);
    FoldSegmentsAppend(top, LOW0 + LOW1 + LOW2, LOW3);
    FoldSegmentsAppend(top, LOW0 + LOW1 + LOW2 + LOW3, LOW4);
    FoldSegmentsAppend(top, LOW0 + LOW1 + LOW2 + LOW3 + LOW4, LOW5);
    FoldSegmentsAppend(top, LOW0 + LOW1 + LOW2 + LOW3 + LOW4 + LOW5, LOW6);
    FoldSegmentsAppend(top, LOW0 + LOW1 + LOW2 + LOW3 + LOW4 + LOW5 + LOW6, LOW7);
    FoldSegmentsAppend(0xffffffff00000000, HEAD, LOW);
  }

  lemma {:induction false} BinLength(v: nat, k: nat)
    requires 1 <= k && Pow(2, k - 1) <= v < Pow(2, k)
    ensures |Bin(v)| == k
  {
    if k == 1 {
      assert v == 1;
      assert Bin(1) == Bin(0) + [true];
    } else {
      BinLength(v / 2, k - 1);
    }
  }

  /** n - 2 in binary: 32 ones, 32 zeros, 65 ones, then the runs in LOW. */
  lemma ExponentBits()
    ensures Bin(E) == Repeat(true, 32) + Repeat(false, 32) + Repeat(true, 65) + FromSegments(LOW)
    ensures |Bin(E)| == 256 && Bin(E)[129..] == FromSegments(LOW)
  {
    var ones, zeros, mid := Repeat(true, 32), Repeat(false, 32), Repeat(true, 65);
    var head := FromSegments(HEAD);
    assert HEAD[1..] == [Segment(0, 32), Segment(0, 1)] && HEAD[1..][1..] == [Segment(0, 1)];
    assert FromSegments([Segment(0, 1)]) == SegmentBits(Segment(0, 1)) + FromSegments([]);
    assert head == mid;
    FromSegmentsAppend(HEAD, LOW);
    var bits := ones + zeros + FromSegments(HEAD + LOW);
    FoldAppend(0, ones + zeros, FromSegments(HEAD + LOW));
    FoldAppend(0, ones, zeros);
    FoldRepeat(0, true, 32);
    FoldRepeat(Pow(2, 32) - 1, false, 32);
    Pow2Thirtytwo();
    FoldSegmentsIsFold(0xffffffff00000000, HEAD + LOW);
    EvaluateAll();
    assert bits[0];
    BinFold(bits);
    assert bits == ones + zeros + mid + FromSegments(LOW);
    ExponentLength();
  }

  lemma ExponentLength()
    ensures |Bin(E)| == 256
  {
    Pow2Thirtytwo();
    PowPow(2, 32, 8);
    PowEight(Pow(2, 32));
    BinLength(E, 256);
  }

  lemma PowEight(b: int)
    ensures Pow(b, 8) == (b * b) * (b * b) * ((b * b) * (b * b))
  {
    assert Pow(b, 1) == b;
    assert Pow(b, 2) == b * b;
    PowAdd(b, 2, 2);
    PowAdd(b, 4, 4);
  }

  // ---- build_chain ---------------------------------------------------------

  lemma RunSnoc(x: int, prog: seq<Instr>, slots: Slots<int>, ins: Instr, next: Slots<int>)
    requires Run(Start(x), prog, Add) == Some(slots) && Step(slots, ins, Add) == Some(next)
    ensures Run(Start(x), prog + [ins], Add) == Some(next)
  {
    RunAppend(Start(x), prog, [ins], Add);
    RunCons(slots, ins, next, []);
    assert [ins] + [] == [ins];
  }

  lemma OnesAdd(h: nat, k: nat)
    ensures (Pow(2, h) - 1) * Pow(2, k) + (Pow(2, k) - 1) == Pow(2, h + k) - 1
  {
    PowAdd(2, h, k);
    Expand2(Pow(2, h), 1, Pow(2, k));
  }

  lemma LadderExtend(slots: Slots<int>, top: nat)
    requires InLadder(top) && LadderTo(slots, top - 1)
    ensures LadderTo(slots[Slot(top) := Some(Pow(2, top) - 1)], top)
  {
  }

  /** One ladder instruction: ones(h) squared k times and multiplied by
      ones(k) is ones(h + k). */
  lemma LadderStep(prog: seq<Instr>, slots: Slots<int>, h: nat, k: nat) returns (next: Slots<int>)
    requires InLadder(h) && InLadder(k) && InLadder(h + k)
    requires Run(Start(1), prog, Add) == Some(slots) && LadderTo(slots, h + k - 1)
    ensures Run(Start(1), prog + [Instr(Slot(h + k), Slot(h), k, Slot(k))], Add) == Some(next)
    ensures LadderTo(next, h + k)
  {
    var ins := Instr(Slot(h + k), Slot(h), k, Slot(k));
    next := slots[Slot(h + k) := Some(Pow(2, h + k) - 1)];
    StepValue(slots, ins, Pow(2, h) - 1, k);
    OnesAdd(h, k);
    LadderExtend(slots, h + k);
    RunSnoc(1, prog, slots, ins, next);
  }

  /** The loops that fill the ladder: ones2..ones6 one bit at a time, then
      doubling up to ones32. */
  method BuildLadder() returns (prog: seq<Instr>, ghost slots: Slots<int>)
    ensures Run(Start(1), prog, Add) == Some(slots) && LadderReady(slots)
    ensures Squarings(prog) == 33 && Multiplies(prog) == 8
  {
    prog, slots := [], Start(1);
    assert LadderTo(slots, 1) by { assert Pow(2, 1) == 2; }
    for k := 2 to 7
      invariant Run(Start(1), prog, Add) == Some(slots) && LadderTo(slots, k - 1)
      invariant Squarings(prog) == Multiplies(prog) == k - 2
    {
      var ins := Instr(Slot(k), Slot(k - 1), 1, Slot(1));
      slots := LadderStep(prog, slots, k - 1, 1);
      CostAppend(prog, [ins]);
      prog := prog + [ins];
    }
    var k := 8;
    while k <= 32
      invariant k == 8 || k == 16 || k == 32 || k == 64
      invariant Run(Start(1), prog, Add) == Some(slots) && LadderTo(slots, k / 2)
      invariant LadderTo(slots, k - 1)
      invariant Squarings(prog) == k / 2 + 1
      invariant Multiplies(prog) == if k == 8 then 5 else if k == 16 then 6 else if k == 32 then 7 else 8
      decreases 64 - k
    {
      var ins := Instr(Slot(k), Slot(k / 2), k / 2, Slot(k / 2));
      slots := LadderStep(prog, slots, k / 2, k / 2);
      CostAppend(prog, [ins]);
      prog := prog + [ins];
      k := 2 * k;
    }
  }

  /** build_chain: the whole program. None of the source's assertions about the
      binary form of n - 2 or the ladder can fail. */
  method BuildChain() returns (prog: seq<Instr>)
    ensures Result(1, prog, Add) == Some(E)
    ensures Squarings(prog) == 257 && Multiplies(prog) == 43
  {
    ghost var slots;
    prog, slots := BuildLadder();
    var bits := Bin(E);
    ExponentBits();
    assert |bits| == 256;
    assert bits[..32] == Repeat(true, 32) && bits[32..64] == Repeat(false, 32);
    assert bits[64..129] == Repeat(true, 65);
    var main := [Instr(ACC, Slot(32), 32, NO_MUL), Instr(ACC, ACC, 32, Slot(32)),
                 Instr(ACC, ACC, 32, Slot(32)), Instr(ACC, ACC, 1, Slot(1))];
    var low, ss := EncodeRuns(bits[129..]);
    LowEncodes();
    assert low.Some?;
    ProgramValue(prog, slots, ss);
    ProgramCost(prog, ss);
    prog := prog + main + low.value;
  }

  lemma LowEncodes()
    ensures RunsInLadder(FromSegments(LOW))
    ensures var low := FromSegments(LOW); low != [] && low[|low| - 1]
  {
    SegmentsRuns(LOW);
  }

  const MAIN: seq<Instr> :=
    [Instr(ACC, Slot(32), 32, NO_MUL), Instr(ACC, ACC, 32, Slot(32)),
     Instr(ACC, ACC, 32, Slot(32)), Instr(ACC, ACC, 1, Slot(1))]

  lemma MainIsHead()
    ensures LadderSegments(HEAD) && |FromSegments(HEAD)| == 65
    ensures MAIN == [Instr(ACC, Slot(32), 32, NO_MUL)] + SegmentProgram(HEAD)
  {
    assert HEAD[1..] == [Segment(0, 32), Segment(0, 1)] && HEAD[1..][1..] == [Segment(0, 1)];
    assert SegmentProgram([Segment(0, 1)]) == [SegmentInstr(Segment(0, 1))] + [];
    assert FromSegments([Segment(0, 1)]) == SegmentBits(Segment(0, 1)) + [];
  }

  lemma ProgramValue(ladder: seq<Instr>, slots: Slots<int>, ss: seq<Segment>)
    requires Run(Start(1), ladder, Add) == Some(slots) && LadderReady(slots)
    requires LadderSegments(ss) && FromSegments(ss) == FromSegments(LOW)
    ensures Result(1, ladder + MAIN + SegmentProgram(ss), Add) == Some(E)
  {
    var first := Instr(ACC, Slot(32), 32, NO_MUL);
    var top := 0xffffffff00000000;
    var next := slots[ACC := Some(top)];
    Pow2Thirtytwo();
    SquaredDoubles(Pow(2, 32) - 1, 32);
    MainIsHead();
    RunSnoc(1, ladder, slots, first, next);
    SegmentsShiftIn(HEAD, next, top);
    var mid := next[ACC := Some(Fold(top, FromSegments(HEAD)))];
    SegmentsShiftIn(ss, mid, Fold(top, FromSegments(HEAD)));
    RunAppend(Start(1), ladder + [first], SegmentProgram(HEAD), Add);
    assert ladder + [first] + SegmentProgram(HEAD) == ladder + MAIN;
    RunAppend(Start(1), ladder + MAIN, SegmentProgram(ss), Add);
    FromSegmentsAppend(HEAD, LOW);
    FoldAppend(top, FromSegments(HEAD), FromSegments(LOW));
    FoldSegmentsIsFold(top, HEAD + LOW);
    EvaluateAll();
  }

  lemma ProgramCost(ladder: seq<Instr>, ss: seq<Segment>)
    requires Squarings(ladder) == 33 && Multiplies(ladder) == 8
    requires LadderSegments(ss) && Separated(ss) && FromSegments(ss) == FromSegments(LOW)
    ensures Squarings(ladder + MAIN + SegmentProgram(ss)) == 257
    ensures Multiplies(ladder + MAIN + SegmentProgram(ss)) == 43
  {
    CostAppend(ladder, MAIN);
    CostAppend(ladder + MAIN, SegmentProgram(ss));
    MainCost();
    LowCost(ss);
  }

  lemma LowCost(ss: seq<Segment>)
    requires LadderSegments(ss) && Separated(ss) && FromSegments(ss) == FromSegments(LOW)
    ensures Squarings(SegmentProgram(ss)) == 127 && Multiplies(SegmentProgram(ss)) == 32
  {
    SegmentsCost(ss);
    SegmentsUnique(ss, LOW);
    ExponentBits();
  }

  lemma MainCost()
    ensures Squarings(MAIN) == 97 && Multiplies(MAIN) == 3
  {
    MainIsHead();
    var first := Instr(ACC, Slot(32), 32, NO_MUL);
    CostAppend([first], SegmentProgram(HEAD));
    SegmentsCost(HEAD);
    assert Squarings([first]) == 32 + Squarings([]);
  }
}
