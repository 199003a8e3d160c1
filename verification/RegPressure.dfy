/** Register liveness inside a region, and the registers each function leaves
    clobbered for its caller, through any recursion. */
module RegPressure {
  import opened GenKill
  import SavedRegs

  type Reg = SavedRegs.Reg

  // ---- Backward liveness of registers --------------------------------------

  /** live_in as a gen/kill problem: a witness is a path from the instruction
      to a use of the register, with no definition of it before. */
  ghost function LiveProblem(succ: seq<seq<nat>>, defs: seq<set<Reg>>, uses: seq<set<Reg>>): (p: Problem<Reg>)
    requires InRange(succ) && |defs| == |uses| == |succ|
    ensures p.Valid() && p.Size() == |succ|
  {
    Problem(succ, uses, defs)
  }

  predicate InRange(succ: seq<seq<nat>>) {
    forall i, k | 0 <= i < |succ| && 0 <= k < |succ[i]| :: succ[i][k] < |succ|
  }

  /** A path from instruction i to a use of x, with no definition of x before. */
  ghost predicate UsePath(
    succ: seq<seq<nat>>, defs: seq<set<Reg>>, uses: seq<set<Reg>>, path: seq<nat>, i: nat, x: Reg)
    requires |defs| == |uses| == |succ|
  {
    && path != [] && path[0] == i && (forall j | 0 <= j < |path| :: path[j] < |succ|)
    && (forall j | 0 <= j < |path| - 1 :: path[j + 1] in succ[path[j]] && x !in defs[path[j]])
    && x in uses[path[|path| - 1]]
  }

  /** x is live into instruction i. */
  ghost predicate LiveInto(succ: seq<seq<nat>>, defs: seq<set<Reg>>, uses: seq<set<Reg>>, i: nat, x: Reg)
    requires |defs| == |uses| == |succ|
  {
    exists path :: UsePath(succ, defs, uses, path, i, x)
  }

  lemma LiveIntoIsReaches(succ: seq<seq<nat>>, defs: seq<set<Reg>>, uses: seq<set<Reg>>, i: nat, x: Reg)
    requires InRange(succ) && |defs| == |uses| == |succ|
    ensures LiveInto(succ, defs, uses, i, x) <==> Reaches(LiveProblem(succ, defs, uses), i, x)
  {
    forall path
      ensures UsePath(succ, defs, uses, path, i, x) <==> Witness(LiveProblem(succ, defs, uses), path, i, x)
    {
    }
  }

  /** live_out agrees with live_in from instruction i on. */
  ghost predicate OutsAgree(succ: seq<seq<nat>>, ins: seq<set<Reg>>, outs: seq<set<Reg>>, i: int)
    requires InRange(succ) && |ins| == |outs| == |succ|
  {
    forall k: nat | i <= k < |succ| :: outs[k] == Union(succ[k], ins)
  }

  lemma UnionIsIncoming<F(!new)>(p: Problem<F>, v: seq<set<F>>, i: nat)
    requires p.Valid() && |v| == p.Size() && i < p.Size()
    ensures Incoming(p, v, i) == Union(p.deps[i], v)
  {
  }

  /** A backward round has treated the instructions from i on and no others. */
  ghost predicate BackwardDone(
    succ: seq<seq<nat>>, in0: seq<set<Reg>>, out0: seq<set<Reg>>, ins: seq<set<Reg>>, outs: seq<set<Reg>>, i: int)
    requires InRange(succ) && |succ| == |in0| == |out0| == |ins| == |outs|
  {
    && (forall k: nat | k < i && k < |succ| :: ins[k] == in0[k] && outs[k] == out0[k])
    && (ins == in0 ==> OutsAgree(succ, ins, outs, i))
  }

  lemma BackwardStep(
    succ: seq<seq<nat>>, in0: seq<set<Reg>>, out0: seq<set<Reg>>, ins: seq<set<Reg>>, outs: seq<set<Reg>>, i: nat,
    newIn: set<Reg>)
    requires InRange(succ) && |succ| == |in0| == |out0| == |ins| == |outs| && i < |succ|
    requires BackwardDone(succ, in0, out0, ins, outs, i + 1)
    ensures var newOut := Union(succ[i], ins);
      && BackwardDone(succ, in0, out0, ins[i := newIn], outs[i := newOut], i)
      && (ins[i := newIn] != in0 || outs[i := newOut] != out0
          <==> ins != in0 || outs != out0 || newIn != ins[i] || newOut != outs[i])
      && (newIn == ins[i] ==> ins[i := newIn] == ins) && (newOut == outs[i] ==> outs[i := newOut] == outs)
  {
    var newOut := Union(succ[i], ins);
    var ins1, outs1 := ins[i := newIn], outs[i := newOut];
    assert ins1[i] == newIn && outs1[i] == newOut;
    assert forall k | 0 <= k < |ins| && k != i :: ins1[k] == ins[k] && outs1[k] == outs[k];
    if ins1 == in0 {
      assert ins == in0;
    }
    if outs1 == out0 {
      assert outs == out0;
    }
  }

  /** One round over all instructions, last to first. */
  method LiveRound(succ: seq<seq<nat>>, defs: seq<set<Reg>>, uses: seq<set<Reg>>,
                   in0: seq<set<Reg>>, out0: seq<set<Reg>>, ghost r: nat)
    returns (ins: seq<set<Reg>>, outs: seq<set<Reg>>, changed: bool)
    requires InRange(succ) && |defs| == |uses| == |in0| == |out0| == |succ|
    requires Ready(LiveProblem(succ, defs, uses), in0, r)
    ensures |ins| == |outs| == |succ| && Ready(LiveProblem(succ, defs, uses), ins, r + 1)
    ensures changed <==> ins != in0 || outs != out0
    ensures ins == in0 ==> Fixpoint(LiveProblem(succ, defs, uses), ins) && OutsAgree(succ, ins, outs, 0)
    ensures Fixpoint(LiveProblem(succ, defs, uses), in0) ==> ins == in0
    ensures OutsAgree(succ, in0, out0, 0) && ins == in0 ==> outs == out0
  {
    ghost var p := LiveProblem(succ, defs, uses);
    ins, outs, changed := in0, out0, false;
    PartialStart(p, in0, r, |succ|);
    var i := |succ|;
    while i > 0
      invariant 0 <= i <= |succ| && |ins| == |outs| == |succ|
      invariant Partial(p, in0, ins, i, |succ|)
      invariant BackwardDone(succ, in0, out0, ins, outs, i)
      invariant changed <==> ins != in0 || outs != out0
    {
      i := i - 1;
      var out := Union(succ[i], ins);
      var newIn := (out - defs[i]) + uses[i];
      UnionIsIncoming(p, ins, i);
      assert newIn == Transfer(p, ins, i);
      PartialStep(p, in0, ins, i + 1, |succ|, i);
      BackwardStep(succ, in0, out0, ins, outs, i, newIn);
      if out != outs[i] || newIn != ins[i] {
        outs, ins, changed := outs[i := out], ins[i := newIn], true;
      }
    }
    PartialEnd(p, in0, ins, r);
  }

  /** The liveness fixpoint of analyse: n + 2 rounds always suffice, and a
      register is live into an instruction exactly when some path reads it
      before writing it. */
  method Liveness(succ: seq<seq<nat>>, defs: seq<set<Reg>>, uses: seq<set<Reg>>)
    returns (ins: seq<set<Reg>>, outs: seq<set<Reg>>, settled: bool)
    requires InRange(succ) && |defs| == |uses| == |succ|
    ensures settled && |ins| == |outs| == |succ|
    ensures forall i: nat, x | i < |succ| :: x in ins[i] <==> LiveInto(succ, defs, uses, i, x)
    ensures forall i: nat, x | i < |succ| ::
      x in outs[i] <==> exists k :: k in succ[i] && LiveInto(succ, defs, uses, k, x)
  {
    var n := |succ|;
    ghost var p := LiveProblem(succ, defs, uses);
    ins, outs := seq(n, _ => {}), seq(n, _ => {});
    Bottom(p, ins);
    settled := false;
    var r := 0;
    while r < n + 2
      invariant 0 <= r < n + 2 && |ins| == |outs| == n && !settled
      invariant Ready(p, ins, r)
      invariant r > n ==> OutsAgree(succ, ins, outs, 0)
      decreases n + 2 - r
    {
      if r >= n {
        EnoughRounds(p, ins, r);
      }
      var changed;
      ins, outs, changed := LiveRound(succ, defs, uses, ins, outs, r);
      if !changed {
        settled := true;
        break;
      }
      r := r + 1;
    }
    SoundFixpointExact(p, ins);
    forall i: nat, x | i < |succ|
      ensures x in ins[i] <==> LiveInto(succ, defs, uses, i, x)
    {
      LiveIntoIsReaches(succ, defs, uses, i, x);
    }
    assert forall i: nat, x | i < |succ| :: x in outs[i] <==> x in Union(succ[i], ins);
  }

  // ---- Interprocedural clobbers --------------------------------------------

  /** Where a call or tail call goes: a known function, or one not indexed. */
  datatype Callee = Row(f: nat) | Outside

  /** What an unknown callee destroys: x0-x17, v0-v7, v16-v31 and x30. */
  const CALLER_SAVED: set<Reg> :=
    (set i | 0 <= i < 18 :: SavedRegs.X(i)) + (set i | 0 <= i < 8 :: SavedRegs.V(i))
    + (set i | 16 <= i < 32 :: SavedRegs.V(i)) + {SavedRegs.X30}

  /** A register of the machine, by its normalised name. */
  predicate IsRegister(r: Reg) {
    (r.X? && r.n <= 30) || (r.V? && r.n < 32)
  }

  /** Every register is either one a callee may destroy or one it must keep,
      save that x30 is both and x18, the platform register, neither. */
  lemma CallerSavedAre(r: Reg)
    ensures r in CALLER_SAVED || SavedRegs.CalleeSaved(r) ==> IsRegister(r)
    ensures r in CALLER_SAVED && SavedRegs.CalleeSaved(r) <==> r == SavedRegs.X30
    ensures IsRegister(r) && r !in CALLER_SAVED && !SavedRegs.CalleeSaved(r) <==> r == SavedRegs.X(18)
  {
  }

  class FunctionInfo {
    const direct: set<Reg>
    const preserved: set<Reg>
    var clobbers: set<Reg>

    constructor (direct: set<Reg>, preserved: set<Reg>)
      ensures this.direct == direct && this.preserved == preserved && clobbers == {}
    {
      this.direct, this.preserved, clobbers := direct, preserved, {};
    }
  }

  /** The call graph: every function has a row, and no row is shared. */
  ghost predicate CallGraph(rows: seq<FunctionInfo>, edges: seq<seq<Callee>>) {
    && |edges| == |rows|
    && (forall i, j | 0 <= i < j < |rows| :: rows[i] != rows[j])
    && forall i, f: nat | 0 <= i < |edges| && Row(f) in edges[i] :: f < |rows|
  }

  /** A chain of calls from f to a function that destroys r itself or calls
      outside, with no function on the way preserving r. */
  ghost predicate ClobberChain(rows: seq<FunctionInfo>, edges: seq<seq<Callee>>, chain: seq<nat>, f: nat, r: Reg)
    requires CallGraph(rows, edges)
  {
    && chain != [] && chain[0] == f
    && (forall j | 0 <= j < |chain| :: chain[j] < |rows|)
    && (forall j | 0 <= j < |chain| - 1 :: Row(chain[j + 1]) in edges[chain[j]])
    && (forall j | 0 <= j < |chain| :: r !in rows[chain[j]].preserved)
    && var last := chain[|chain| - 1];
       r in rows[last].direct || (Outside in edges[last] && r in CALLER_SAVED)
  }

  ghost predicate Clobbers(rows: seq<FunctionInfo>, edges: seq<seq<Callee>>, f: nat, r: Reg)
    requires CallGraph(rows, edges)
  {
    exists chain :: ClobberChain(rows, edges, chain, f, r)
  }

  function RowsOf(callees: seq<Callee>): (s: seq<nat>)
    ensures forall f :: f in s <==> Row(f) in callees
  {
    if callees == [] then []
    else
      assert callees == [callees[0]] + callees[1..];
      (match callees[0]
       case Row(f) => [f]
       case Outside => []) + RowsOf(callees[1..])
  }

  /** What function i destroys without calling another row. */
  function Own(rows: seq<FunctionInfo>, edges: seq<seq<Callee>>, i: nat): set<Reg>
    requires i < |rows| == |edges|
  {
    rows[i].direct + if Outside in edges[i] then CALLER_SAVED else {}
  }

  ghost function ClobberProblem(rows: seq<FunctionInfo>, edges: seq<seq<Callee>>): (p: Problem<Reg>)
    requires CallGraph(rows, edges)
    ensures p.Valid() && p.Size() == |rows|
  {
    var deps := seq(|rows|, i requires 0 <= i < |rows| => RowsOf(edges[i]));
    assert forall i, k | 0 <= i < |deps| && 0 <= k < |deps[i]| :: deps[i][k] < |rows| by {
      forall i, k | 0 <= i < |deps| && 0 <= k < |deps[i]|
        ensures deps[i][k] < |rows|
      {
        assert deps[i][k] in RowsOf(edges[i]);
      }
    }
    Problem(
      deps,
      seq(|rows|, i requires 0 <= i < |rows| => Own(rows, edges, i) - rows[i].preserved),
      seq(|rows|, i requires 0 <= i < |rows| => rows[i].preserved))
  }

  lemma ClobbersIsReaches(rows: seq<FunctionInfo>, edges: seq<seq<Callee>>, f: nat, r: Reg)
    requires CallGraph(rows, edges)
    ensures Clobbers(rows, edges, f, r) <==> Reaches(ClobberProblem(rows, edges), f, r)
  {
    var p := ClobberProblem(rows, edges);
    if Clobbers(rows, edges, f, r) {
      var chain :| ClobberChain(rows, edges, chain, f, r);
      assert Witness(p, chain, f, r);
    }
    if Reaches(p, f, r) {
      var chain :| Witness(p, chain, f, r);
      assert ClobberChain(rows, edges, chain, f, r);
    }
  }

  function Current(rows: seq<FunctionInfo>): (c: seq<set<Reg>>)
    reads rows
    ensures |c| == |rows| && forall i | 0 <= i < |rows| :: c[i] == rows[i].clobbers
  {
    if rows == [] then [] else Current(rows[..|rows| - 1]) + [rows[|rows| - 1].clobbers]
  }

  /** What each row passes on to its callers when the clobber sets are c. */
  ghost function Passed(rows: seq<FunctionInfo>, c: seq<set<Reg>>): (v: seq<set<Reg>>)
    requires |rows| == |c|
    ensures |v| == |rows|
  {
    seq(|rows|, i requires 0 <= i < |rows| => c[i] - rows[i].preserved)
  }

  /** No row lists a register it preserves. */
  ghost predicate Trimmed(rows: seq<FunctionInfo>, c: seq<set<Reg>>)
    requires |rows| == |c|
  {
    forall i | 0 <= i < |rows| :: c[i] !! rows[i].preserved
  }

  lemma TrimmedPassed(rows: seq<FunctionInfo>, c: seq<set<Reg>>)
    requires |rows| == |c| && Trimmed(rows, c)
    ensures Passed(rows, c) == c
  {
    forall i | 0 <= i < |rows|
      ensures Passed(rows, c)[i] == c[i]
    {
      assert c[i] !! rows[i].preserved;
    }
  }

  /** The clobber sets recomputed for one row. */
  ghost function Recomputed(rows: seq<FunctionInfo>, edges: seq<seq<Callee>>, c: seq<set<Reg>>, i: nat): set<Reg>
    requires CallGraph(rows, edges) && |c| == |rows| && i < |rows|
  {
    Transfer(ClobberProblem(rows, edges), Passed(rows, c), i)
  }

  /** A round has treated the rows below i and no others. */
  ghost predicate RowsDone(
    rows: seq<FunctionInfo>, edges: seq<seq<Callee>>, c0: seq<set<Reg>>, c: seq<set<Reg>>, i: int)
    requires CallGraph(rows, edges) && |c0| == |c| == |rows|
  {
    && Partial(ClobberProblem(rows, edges), Passed(rows, c0), Passed(rows, c), 0, i)
    && (forall k: nat | i <= k < |rows| :: c[k] == c0[k])
    && forall k: nat | k < i && k < |rows| :: c[k] !! rows[k].preserved
  }

  lemma RowStep(rows: seq<FunctionInfo>, edges: seq<seq<Callee>>, c0: seq<set<Reg>>, c: seq<set<Reg>>, i: nat)
    requires CallGraph(rows, edges) && |c0| == |c| == |rows| && i < |rows| && RowsDone(rows, edges, c0, c, i)
    ensures var w := c[i := Recomputed(rows, edges, c, i)];
      RowsDone(rows, edges, c0, w, i + 1) && (w != c0 <==> c != c0 || w[i] != c[i])
  {
    var p, lost := ClobberProblem(rows, edges), Recomputed(rows, edges, c, i);
    var w := c[i := lost];
    PartialStep(p, Passed(rows, c0), Passed(rows, c), 0, i, i);
    assert p.kill[i] == rows[i].preserved && p.gen[i] == Own(rows, edges, i) - rows[i].preserved;
    assert forall x | x in lost :: x !in rows[i].preserved;
    assert w[i] == lost && forall k | 0 <= k < |c| && k != i :: w[k] == c[k];
    assert lost - rows[i].preserved == lost;
    assert Passed(rows, w) == Passed(rows, c)[i := lost];
    if w == c0 {
      assert c == c0;
    }
  }

  /** The registers the callees of one row destroy, from the current sets. */
  method Callees(rows: seq<FunctionInfo>, edges: seq<seq<Callee>>, i: nat) returns (lost: set<Reg>)
    requires CallGraph(rows, edges) && i < |rows|
    ensures lost == rows[i].direct + Incoming(ClobberProblem(rows, edges), Passed(rows, Current(rows)), i)
                    + if Outside in edges[i] then CALLER_SAVED else {}
  {
    ghost var p, v := ClobberProblem(rows, edges), Passed(rows, Current(rows));
    lost := rows[i].direct;
    for k := 0 to |edges[i]|
      invariant forall x :: x in lost <==>
        x in rows[i].direct || (x in CALLER_SAVED && Outside in edges[i][..k]) || FromRow(v, edges[i][..k], x)
    {
      assert edges[i][..k + 1] == edges[i][..k] + [edges[i][k]];
      match edges[i][k]
      case Outside =>
        lost := lost + CALLER_SAVED;
      case Row(f) =>
        assert Row(f) in edges[i];
        assert v[f] == rows[f].clobbers - rows[f].preserved;
        lost := lost + (rows[f].clobbers - rows[f].preserved);
    }
    assert edges[i][..|edges[i]|] == edges[i];
    forall x
      ensures FromRow(v, edges[i], x) <==> x in Incoming(p, v, i)
    {
      FromRowIsIncoming(p, v, edges[i], i, x);
    }
  }

  ghost predicate FromRow(v: seq<set<Reg>>, callees: seq<Callee>, x: Reg) {
    exists f: nat :: Row(f) in callees && f < |v| && x in v[f]
  }

  lemma FromRowIsIncoming(p: Problem<Reg>, v: seq<set<Reg>>, callees: seq<Callee>, i: nat, x: Reg)
    requires p.Valid() && |v| == p.Size() && i < |v| && p.deps[i] == RowsOf(callees)
    ensures FromRow(v, callees, x) <==> x in Incoming(p, v, i)
  {
    UnionIsIncoming(p, v, i);
    if FromRow(v, callees, x) {
      var f: nat :| Row(f) in callees && f < |v| && x in v[f];
      assert f in RowsOf(callees);
    }
    if x in Incoming(p, v, i) {
      var f :| f in p.deps[i] && x in v[f];
      assert Row(f) in callees;
    }
  }

  /** One round over the rows, each updated in place. */
  method ClobberRound(rows: seq<FunctionInfo>, edges: seq<seq<Callee>>, ghost r: nat) returns (changed: bool)
    requires CallGraph(rows, edges) && Ready(ClobberProblem(rows, edges), Passed(rows, Current(rows)), r)
    modifies rows
    ensures Ready(ClobberProblem(rows, edges), Passed(rows, Current(rows)), r + 1)
    ensures Trimmed(rows, Current(rows)) && (changed <==> Current(rows) != old(Current(rows)))
    ensures !changed ==> Fixpoint(ClobberProblem(rows, edges), Current(rows))
    ensures Fixpoint(ClobberProblem(rows, edges), old(Current(rows))) && Trimmed(rows, old(Current(rows))) ==> !changed
  {
    ghost var p, c0 := ClobberProblem(rows, edges), Current(rows);
    changed := false;
    PartialStart(p, Passed(rows, c0), r, 0);
    for i := 0 to |rows|
      invariant RowsDone(rows, edges, c0, Current(rows), i)
      invariant changed <==> Current(rows) != c0
    {
      ghost var c := Current(rows);
      RowStep(rows, edges, c0, c, i);
      var lost := Callees(rows, edges, i);
      lost := lost - rows[i].preserved;
      assert lost == Recomputed(rows, edges, c, i);
      if lost != rows[i].clobbers {
        rows[i].clobbers, changed := lost, true;
      }
      assert Current(rows) == c[i := lost];
    }
    PartialEnd(p, Passed(rows, c0), Passed(rows, Current(rows)), r);
    TrimmedPassed(rows, Current(rows));
    if Trimmed(rows, c0) {
      TrimmedPassed(rows, c0);
    }
  }

  lemma DirectReady(rows: seq<FunctionInfo>, edges: seq<seq<Callee>>, c: seq<set<Reg>>)
    requires CallGraph(rows, edges) && |c| == |rows| && forall i | 0 <= i < |rows| :: c[i] == rows[i].direct
    ensures Ready(ClobberProblem(rows, edges), Passed(rows, c), 0)
  {
    var p, v := ClobberProblem(rows, edges), Passed(rows, c);
    forall i: nat, x | i < |v| && x in v[i]
      ensures Reaches(p, i, x)
    {
      ReachesGen(p, i, x);
    }
  }

  /** resolve_clobbers: len + 2 rounds always suffice, recursion included, and
      a row ends up with exactly the registers some call chain destroys. */
  method ResolveClobbers(rows: seq<FunctionInfo>, edges: seq<seq<Callee>>) returns (settled: bool)
    requires CallGraph(rows, edges)
    modifies rows
    ensures settled
    ensures forall f: nat, x :: f < |rows| ==> (x in rows[f].clobbers <==> Clobbers(rows, edges, f, x))
  {
    for i := 0 to |rows|
      invariant forall k | 0 <= k < i :: rows[k].clobbers == rows[k].direct
    {
      rows[i].clobbers := rows[i].direct;
    }
    ghost var p := ClobberProblem(rows, edges);
    DirectReady(rows, edges, Current(rows));
    settled := false;
    var r := 0;
    while r < |rows| + 2
      invariant 0 <= r < |rows| + 2 && !settled
      invariant Ready(p, Passed(rows, Current(rows)), r)
      invariant r > 0 ==> Trimmed(rows, Current(rows))
      decreases |rows| + 2 - r
    {
      if r >= |rows| {
        EnoughRounds(p, Passed(rows, Current(rows)), r);
        TrimmedPassed(rows, Current(rows));
      }
      var changed := ClobberRound(rows, edges, r);
      if !changed {
        settled := true;
        break;
      }
      r := r + 1;
    }
    TrimmedPassed(rows, Current(rows));
    SoundFixpointExact(p, Current(rows));
    forall f: nat, x | f < |rows|
      ensures x in rows[f].clobbers <==> Clobbers(rows, edges, f, x)
    {
      ClobbersIsReaches(rows, edges, f, x);
      assert x in Current(rows)[f] <==> Reaches(p, f, x);
    }
  }
}
