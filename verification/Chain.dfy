/** The slot machine that runs an addition chain over an opaque multiply, and
    why replaying it on exponents says what it computes. */
module Chain {
  import opened Wrappers

  const ACC: nat := 9
  const NSLOTS: nat := 10
  const NO_MUL: nat := 0xFF

  /** t = src; square t nsq times; multiply by slot mul unless NO_MUL; store to dst. */
  datatype Instr = Instr(dst: nat, src: nat, nsq: nat, mul: nat)

  type Slots<T> = seq<Option<T>>

  function Squared<T>(t: T, nsq: nat, mul: (T, T) -> T): T
  {
    if nsq == 0 then t else Squared(mul(t, t), nsq - 1, mul)
  }

  /** The slots after one instruction, or None when it reads a slot that was
      never written (or does not exist). */
  function Step<T>(slots: Slots<T>, ins: Instr, mul: (T, T) -> T): Option<Slots<T>>
  {
    if ins.src >= |slots| || ins.dst >= |slots| || slots[ins.src].None? then None
    else
      var t := Squared(slots[ins.src].value, ins.nsq, mul);
      if ins.mul == NO_MUL then Some(slots[ins.dst := Some(t)])
      else if ins.mul >= |slots| || slots[ins.mul].None? then None
      else Some(slots[ins.dst := Some(mul(t, slots[ins.mul].value))])
  }

  function Run<T>(slots: Slots<T>, prog: seq<Instr>, mul: (T, T) -> T): Option<Slots<T>>
    decreases |prog|
  {
    if prog == [] then Some(slots)
    else match Step(slots, prog[0], mul)
      case None => None
      case Some(next) => Run(next, prog[1..], mul)
  }

  function Start<T>(x: T): (slots: Slots<T>)
    ensures |slots| == NSLOTS
  {
    [Some(x), None, None, None, None, None, None, None, None, None]
  }

  /** What a whole run leaves in the accumulator. */
  function Result<T>(x: T, prog: seq<Instr>, mul: (T, T) -> T): Option<T>
  {
    match Run(Start(x), prog, mul)
    case None => None
    case Some(slots) => if |slots| == NSLOTS then slots[ACC] else None
  }

  /** run_chain, for any multiply that is a function: overwrite the slots
      instruction by instruction. */
  method RunChain<T>(x: T, prog: seq<Instr>, mul: (T, T) -> T) returns (r: Option<T>)
    ensures r == Result(x, prog, mul)
  {
    var slots := Start(x);
    for k := 0 to |prog|
      invariant |slots| == NSLOTS
      invariant Run(Start(x), prog, mul) == Run(slots, prog[k..], mul)
    {
      var ins := prog[k];
      assert prog[k..][0] == ins && prog[k..][1..] == prog[k + 1..];
      if ins.src >= NSLOTS || ins.dst >= NSLOTS || slots[ins.src].None? {
        return None;
      }
      var t := slots[ins.src].value;
      for j := 0 to ins.nsq
        invariant Squared(slots[ins.src].value, ins.nsq, mul) == Squared(t, ins.nsq - j, mul)
      {
        t := mul(t, t);
      }
      if ins.mul != NO_MUL {
        if ins.mul >= NSLOTS || slots[ins.mul].None? {
          return None;
        }
        t := mul(t, slots[ins.mul].value);
      }
      slots := slots[ins.dst := Some(t)];
    }
    r := slots[ACC];
  }

  lemma {:induction false} RunAppend<T>(slots: Slots<T>, p: seq<Instr>, q: seq<Instr>, mul: (T, T) -> T)
    ensures Run(slots, p + q, mul)
         == match Run(slots, p, mul) case None => None case Some(mid) => Run(mid, q, mul)
    decreases |p|
  {
    if p == [] {
      assert p + q == q;
    } else {
      assert (p + q)[0] == p[0] && (p + q)[1..] == p[1..] + q;
      match Step(slots, p[0], mul)
      case None =>
      case Some(next) => RunAppend(next, p[1..], q, mul);
    }
  }

  // ---- Exponent replay -----------------------------------------------------

  ghost predicate Associative<T(!new)>(mul: (T, T) -> T)
  {
    forall a, b, c :: mul(mul(a, b), c) == mul(a, mul(b, c))
  }

  /** x multiplied by itself e times. */
  function Power<T>(x: T, e: nat, mul: (T, T) -> T): T
    requires 1 <= e
  {
    if e == 1 then x else mul(x, Power(x, e - 1, mul))
  }

  /** Integer addition: the multiply under which a slot holds an exponent. */
  function Add(a: int, b: int): int
  {
    a + b
  }

  lemma {:induction false} PowerAdd<T(!new)>(x: T, d: nat, e: nat, mul: (T, T) -> T)
    requires Associative(mul) && 1 <= d && 1 <= e
    ensures Power(x, d + e, mul) == mul(Power(x, d, mul), Power(x, e, mul))
  {
    if d > 1 {
      PowerAdd(x, d - 1, e, mul);
      assert mul(mul(x, Power(x, d - 1, mul)), Power(x, e, mul))
          == mul(x, mul(Power(x, d - 1, mul), Power(x, e, mul)));
    }
  }

  /** Slots that hold powers of x match slots that hold the exponents. */
  ghost predicate Tracks<T>(slots: Slots<T>, exps: Slots<int>, x: T, mul: (T, T) -> T)
  {
    && |slots| == |exps|
    && (forall i | 0 <= i < |slots| :: slots[i].Some? <==> exps[i].Some?)
    && (forall i | 0 <= i < |exps| && exps[i].Some? ::
          1 <= exps[i].value && slots[i].value == Power(x, exps[i].value, mul))
  }

  lemma SquaredUnfold<T>(t: T, nsq: nat, mul: (T, T) -> T)
    requires nsq > 0
    ensures Squared(t, nsq, mul) == Squared(mul(t, t), nsq - 1, mul)
  {
  }

  lemma {:induction false} SquaredTracks<T(!new)>(x: T, e: int, nsq: nat, mul: (T, T) -> T)
    requires Associative(mul) && 1 <= e
    ensures 1 <= Squared(e, nsq, Add)
    ensures Squared(Power(x, e, mul), nsq, mul) == Power(x, Squared(e, nsq, Add), mul)
    decreases nsq
  {
    if nsq > 0 {
      var y, f := Power(x, e, mul), Add(e, e);
      assert mul(y, y) == Power(x, f, mul) by { PowerAdd(x, e, e, mul); }
      SquaredTracks(x, f, nsq - 1, mul);
      SquaredUnfold(e, nsq, Add);
      SquaredUnfold(y, nsq, mul);
    }
  }

  lemma StepTracks<T(!new)>(slots: Slots<T>, exps: Slots<int>, ins: Instr, x: T, mul: (T, T) -> T)
    requires Associative(mul) && Tracks(slots, exps, x, mul)
    ensures Step(slots, ins, mul).Some? <==> Step(exps, ins, Add).Some?
    ensures Step(exps, ins, Add).Some? ==>
      Tracks(Step(slots, ins, mul).value, Step(exps, ins, Add).value, x, mul)
  {
    if Step(exps, ins, Add).Some? {
      var e := exps[ins.src].value;
      SquaredTracks(x, e, ins.nsq, mul);
      if ins.mul != NO_MUL {
        PowerAdd(x, Squared(e, ins.nsq, Add), exps[ins.mul].value, mul);
      }
    }
  }

  lemma {:induction false} RunTracks<T(!new)>(slots: Slots<T>, exps: Slots<int>, prog: seq<Instr>,
                                              x: T, mul: (T, T) -> T)
    requires Associative(mul) && Tracks(slots, exps, x, mul)
    ensures Run(slots, prog, mul).Some? <==> Run(exps, prog, Add).Some?
    ensures Run(exps, prog, Add).Some? ==>
      Tracks(Run(slots, prog, mul).value, Run(exps, prog, Add).value, x, mul)
    decreases |prog|
  {
    if prog != [] {
      StepTracks(slots, exps, prog[0], x, mul);
      if Step(exps, prog[0], Add).Some? {
        RunTracks(Step(slots, prog[0], mul).value, Step(exps, prog[0], Add).value, prog[1..], x, mul);
      }
    }
  }

  /** Exponent replay is sound: for every program and every associative
      multiply, the run from x succeeds exactly when the replay from 1 under
      addition does, and then it yields x to the replayed exponent. */
  lemma ReplaySound<T(!new)>(x: T, prog: seq<Instr>, mul: (T, T) -> T)
    requires Associative(mul)
    ensures Result(x, prog, mul).Some? <==> Result(1, prog, Add).Some?
    ensures Result(1, prog, Add).Some? ==>
      && 1 <= Result(1, prog, Add).value
      && Result(x, prog, mul).value == Power(x, Result(1, prog, Add).value, mul)
  {
    RunTracks(Start(x), Start(1), prog, x, mul);
  }
}
