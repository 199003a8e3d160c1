/** Inversion modulo n: the chain program run on the word-level Montgomery
    multiply, from entering Montgomery form to leaving it. */
module ScalarInv {
  import opened Wrappers
  import opened Limbs
  import opened ModArith
  import opened Montgomery
  import opened Chain
  import opened ChainProgram

  /** run_chain with the word-level multiply for its `mul`. Chain.RunChain takes
      the multiply as a function; the word-level one is a method, so the loop
      is written out again with the calls in place, against the same Result. */
  method RunChainMont(f: Modulus, x: nat, prog: seq<Instr>) returns (r: Option<int>)
    requires f.Valid() && x < f.n
    ensures r == Result<int>(x, prog, f.MontMul)
    ensures r.Some? ==> 0 <= r.value < f.n
  {
    var slots: Slots<int> := Start(x);
    for k := 0 to |prog|
      invariant |slots| == NSLOTS
      invariant forall i | 0 <= i < NSLOTS && slots[i].Some? :: 0 <= slots[i].value < f.n
      invariant Run(Start(x), prog, f.MontMul) == Run(slots, prog[k..], f.MontMul)
    {
      var ins := prog[k];
      assert prog[k..][0] == ins && prog[k..][1..] == prog[k + 1..];
      if ins.src >= NSLOTS || ins.dst >= NSLOTS || slots[ins.src].None? {
        return None;
      }
      var t := SquareMont(f, slots[ins.src].value, ins.nsq);
      if ins.mul != NO_MUL {
        if ins.mul >= NSLOTS || slots[ins.mul].None? {
          return None;
        }
        t := f.MontMulReduced(t, slots[ins.mul].value);
      }
      slots := slots[ins.dst := Some(t)];
    }
    r := slots[ACC];
  }

  method SquareMont(f: Modulus, x: int, nsq: nat) returns (t: int)
    requires f.Valid() && 0 <= x < f.n
    ensures 0 <= t < f.n && t == Squared(x, nsq, f.MontMul)
  {
    t := x;
    for j := 0 to nsq
      invariant 0 <= t < f.n
      invariant Squared(x, nsq, f.MontMul) == Squared(t, nsq - j, f.MontMul)
    {
      t := f.MontMulReduced(t, t);
    }
  }

  // ---- Montgomery multiplication as an operation on residues ---------------

  lemma CancelR(f: Modulus, a: int, b: int)
    requires f.Valid() && Cong(f.n, a * R, b * R)
    ensures Cong(f.n, a, b)
  {
    RemainderUnique(1, f.n, 0, 1);
    CongCancel(f.n, a, b, R, f.rinv);
  }

  lemma MontMulAssociative(f: Modulus, a: int, b: int, c: int)
    requires f.Valid()
    ensures f.MontMul(f.MontMul(a, b), c) == f.MontMul(a, f.MontMul(b, c))
  {
    var ab, bc := f.MontMul(a, b), f.MontMul(b, c);
    var x, y := f.MontMul(ab, c), f.MontMul(a, bc);
    ScaledBack(f.n, ab * c, R, f.rinv);
    ScaledBack(f.n, a * b, R, f.rinv);
    ScaledBack(f.n, a * bc, R, f.rinv);
    ScaledBack(f.n, b * c, R, f.rinv);
    CongMul(f.n, x * R, ab * c, R, R);
    CongMul(f.n, ab * R, a * b, c, c);
    CongMul(f.n, y * R, a * bc, R, R);
    CongMul(f.n, a, a, bc * R, b * c);
    assert ab * c * R == ab * R * c by { Reassoc(ab, c, R); }
    MulAssoc(a, bc, R);
    MulAssoc(a, b, c);
    CancelR(f, x * R, y * R);
    CancelR(f, x, y);
    CongEqual(f.n, x, y);
  }

  lemma MontMulIsAssociative(f: Modulus)
    requires f.Valid()
    ensures Associative(f.MontMul)
  {
    forall a, b, c
      ensures f.MontMul(f.MontMul(a, b), c) == f.MontMul(a, f.MontMul(b, c))
    {
      MontMulAssociative(f, a, b, c);
    }
  }

  /** Powers in Montgomery form are the Montgomery forms of the powers. */
  lemma {:induction false} PowerMont(f: Modulus, x: int, xm: int, e: nat)
    requires f.Valid() && 1 <= e && Cong(f.n, xm, x * R)
    ensures Cong(f.n, Power(xm, e, f.MontMul), Pow(x, e) * R)
    decreases e
  {
    if e == 1 {
      assert Pow(x, 1) == x * Pow(x, 0);
    } else {
      PowerMont(f, x, xm, e - 1);
      var p, q := Power(xm, e - 1, f.MontMul), Pow(x, e - 1);
      CongMul(f.n, xm, x * R, p, q * R);
      assert (x * R) * (q * R) == ((x * q) * R) * R by {
        Interchange(x, R, q, R);
        MulAssoc(x * q, R, R);
      }
      ScaledBack(f.n, xm * p, R, f.rinv);
      CancelR(f, f.MontMul(xm, p), (x * q) * R);
    }
  }

  lemma EnterMont(f: Modulus, x: int)
    requires f.Valid()
    ensures Cong(f.n, f.MontMul(x, f.RR()), x * R)
  {
    ScaledBack(f.n, x * f.RR(), R, f.rinv);
    CongMod(f.n, R * R);
    CongMul(f.n, x, x, f.RR(), R * R);
    MulAssoc(x, R, R);
    CancelR(f, f.MontMul(x, f.RR()), x * R);
  }

  lemma LeaveMont(f: Modulus, y: int, v: int)
    requires f.Valid() && Cong(f.n, y, v * R)
    ensures f.MontMul(y, 1) == v % f.n
  {
    ScaledBack(f.n, y * 1, R, f.rinv);
    CancelR(f, f.MontMul(y, 1), v);
    CongMod(f.n, v);
    CongEqual(f.n, f.MontMul(y, 1), v % f.n);
  }

  /** The whole inversion for any modulus: enter Montgomery form, run the
      chain, leave. The chain's exponent is E. */
  method PowerHw(f: Modulus, a: nat) returns (r: nat)
    requires f.Valid()
    ensures r == Pow(a % f.n, E) % f.n
  {
    var x := a % f.n;
    var xm := f.MontMulReduced(x, f.RR());
    var prog := BuildChain();
    MontMulIsAssociative(f);
    ReplaySound<int>(xm, prog, f.MontMul);
    var accm := RunChainMont(f, xm, prog);
    assert accm == Some(Power(xm, E, f.MontMul));
    EnterMont(f, x);
    PowerMont(f, x, xm, E);
    LeaveMont(f, accm.value, Pow(x, E));
    r := f.MontMulReduced(accm.value, 1);
  }

  /** scalar_inv_hw: for every natural a, reduced or not, the result is exactly
      (a mod n)^(n-2) mod n. */
  method ScalarInvHw(a: nat) returns (r: nat)
    ensures r == Pow(a % N, N - 2) % N
  {
    ModNValid();
    r := PowerHw(MOD_N, a);
  }

  /** What signing needs: with n prime, the inversion inverts everything but
      the multiples of n, and sends those to 0. */
  lemma InverseModN(n: int, a: nat, r: nat)
    requires 2 < n && Fermat(n) && r == Pow(a % n, n - 2) % n
    ensures if a % n == 0 then r == 0 else r * a % n == 1
  {
    FermatInverse(n, a);
    RemainderUnique(0, n, 0, 0);
    RemainderUnique(1, n, 0, 1);
  }
}
