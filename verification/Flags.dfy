/** The condition-flag analysis: backward liveness and forward reaching
    definitions over an instruction-level control-flow graph. */
module Flags {
  import opened Wrappers
  import opened GenKill

  /** How an instruction transfers control; targets are already resolved. */
  datatype Control =
    | Return                          // ret
    | Indirect                        // br
    | ExceptionReturn                 // eret
    | Jump(target: Option<nat>)       // b; None leaves the region
    | Conditional(branch: Option<nat>) // b.cond, cbz, ...
    | Fall                            // everything else, calls included

  /** A parsed instruction, as far as the flags are concerned. */
  datatype Insn = Insn(control: Control, defines: bool, uses: bool)

  /** Where a branch goes when it is taken. */
  function Target(c: Control): Option<nat> {
    match c
    case Jump(t) => t
    case Conditional(t) => t
    case _ => None
  }

  /** The next instruction may follow: not a jump, nor a return of any kind. */
  predicate FallsThrough(c: Control) {
    !c.Jump? && !c.Return? && !c.Indirect? && !c.ExceptionReturn?
  }

  /** Control can pass from instruction i to instruction k. */
  ghost predicate FlowsTo(insns: seq<Insn>, i: nat, k: nat) {
    && i < |insns| && k < |insns|
    && (Target(insns[i].control) == Some(k) || (k == i + 1 && FallsThrough(insns[i].control)))
  }

  /** build_cfg: the successors of instruction i, each listed once. */
  function Successors(insns: seq<Insn>, i: nat): (s: seq<nat>)
    requires i < |insns|
    ensures forall k | 0 <= k < |s| :: s[k] < |insns|
    ensures forall k: nat :: k in s <==> FlowsTo(insns, i, k)
    ensures forall j, k | 0 <= j < k < |s| :: s[j] != s[k]
  {
    var n := |insns|;
    match insns[i].control
    case Return => []
    case Indirect => []
    case ExceptionReturn => []
    case Jump(t) => if t.Some? && t.value < n then [t.value] else []
    case Conditional(t) =>
      (if i + 1 < n then [i + 1] else [])
      + (if t.Some? && t.value < n && t.value != i + 1 then [t.value] else [])
    case Fall => if i + 1 < n then [i + 1] else []
  }

  function Cfg(insns: seq<Insn>): (succ: seq<seq<nat>>)
    ensures |succ| == |insns|
    ensures forall i, k | 0 <= i < |succ| && 0 <= k < |succ[i]| :: succ[i][k] < |succ|
    ensures forall i: nat, k: nat | i < |succ| :: k in succ[i] <==> FlowsTo(insns, i, k)
  {
    seq(|insns|, i requires 0 <= i < |insns| => Successors(insns, i))
  }

  /** A ret, or a b or br from which control passes nowhere in the region. */
  ghost predicate Leaves(insns: seq<Insn>, i: nat)
    requires i < |insns|
  {
    var c := insns[i].control;
    c.Return? || ((c.Jump? || c.Indirect?) && forall k: nat :: !FlowsTo(insns, i, k))
  }

  /** The exits as analyse_flags finds them. */
  predicate IsExit(insns: seq<Insn>, succ: seq<seq<nat>>, i: nat)
    requires i < |insns| && succ == Cfg(insns)
    ensures IsExit(insns, succ, i) <==> Leaves(insns, i)
  {
    assert succ[i] != [] ==> succ[i][0] in succ[i];
    insns[i].control.Return? || ((insns[i].control.Jump? || insns[i].control.Indirect?) && succ[i] == [])
  }

  /** The single fact of the liveness problem: the condition flags are live. */
  datatype Fact = NZCV

  // ---- Backward liveness ---------------------------------------------------

  /** Liveness as a gen/kill problem with a single fact. */
  ghost function LiveProblem(insns: seq<Insn>, carry: bool): (p: Problem<Fact>)
    ensures p.Valid() && p.Size() == |insns|
  {
    var succ := Cfg(insns);
    Problem(
      succ,
      seq(|insns|, i requires 0 <= i < |insns| =>
        if insns[i].uses || (IsExit(insns, succ, i) && carry && !insns[i].defines) then {NZCV} else {}),
      seq(|insns|, i requires 0 <= i < |insns| => if insns[i].defines then {NZCV} else {}))
  }

  /** The boolean array as a state of that problem. */
  ghost function AsFacts(live: seq<bool>): (v: seq<set<Fact>>)
    ensures |v| == |live|
  {
    seq(|live|, i requires 0 <= i < |live| => if live[i] then {NZCV} else {})
  }

  /** A control-flow path from instruction i. */
  ghost predicate IsPath(insns: seq<Insn>, path: seq<nat>, i: nat)
  {
    && path != [] && path[0] == i
    && (forall j | 0 <= j < |path| :: path[j] < |insns|)
    && (forall j | 0 <= j < |path| - 1 :: FlowsTo(insns, path[j], path[j + 1]))
  }

  /** The path ends at a flag read, or at an exit under the carry convention
      that does not write the flags itself, and writes no flags before. */
  ghost predicate LivePath(insns: seq<Insn>, carry: bool, path: seq<nat>, i: nat)
  {
    && IsPath(insns, path, i)
    && (forall j | 0 <= j < |path| - 1 :: !insns[path[j]].defines)
    && var e := path[|path| - 1];
       insns[e].uses || (carry && Leaves(insns, e) && !insns[e].defines)
  }

  /** The flags are live into i. */
  ghost predicate LiveAt(insns: seq<Insn>, carry: bool, i: nat)
  {
    exists path :: LivePath(insns, carry, path, i)
  }

  /** The flags are live out of i: the caller reads them, or a successor may. */
  ghost predicate LiveAfter(insns: seq<Insn>, carry: bool, i: nat)
    requires i < |insns|
  {
    if Leaves(insns, i) then carry else exists k: nat :: FlowsTo(insns, i, k) && LiveAt(insns, carry, k)
  }

  lemma LiveAtIsReaches(insns: seq<Insn>, carry: bool, i: nat)
    ensures LiveAt(insns, carry, i) <==> Reaches(LiveProblem(insns, carry), i, NZCV)
  {
    var p := LiveProblem(insns, carry);
    forall path
      ensures LivePath(insns, carry, path, i) <==> Witness(p, path, i, NZCV)
    {
    }
    if LiveAt(insns, carry, i) {
      var path :| LivePath(insns, carry, path, i);
      assert Witness(p, path, i, NZCV);
    }
    if Reaches(p, i, NZCV) {
      var path :| Witness(p, path, i, NZCV);
      assert LivePath(insns, carry, path, i);
    }
  }

  /** One recomputation of live_in[i] and live_out[i]. */
  function LiveOut(insns: seq<Insn>, succ: seq<seq<nat>>, carry: bool, live: seq<bool>, i: nat): bool
    requires |live| == |insns| && succ == Cfg(insns) && i < |insns|
  {
    if IsExit(insns, succ, i) then carry else exists k | 0 <= k < |succ[i]| :: live[succ[i][k]]
  }

  lemma LiveInIsTransfer(insns: seq<Insn>, carry: bool, live: seq<bool>, i: nat)
    requires |live| == |insns| && i < |insns|
    ensures var out := LiveOut(insns, Cfg(insns), carry, live, i);
      (NZCV in Transfer(LiveProblem(insns, carry), AsFacts(live), i))
        == (insns[i].uses || (out && !insns[i].defines))
  {
    var p, v, succ := LiveProblem(insns, carry), AsFacts(live), Cfg(insns);
    if IsExit(insns, succ, i) {
      assert succ[i] == [];
      assert Incoming(p, v, i) == {};
    } else {
      assert forall k | 0 <= k < |succ[i]| :: live[succ[i][k]] <==> NZCV in v[p.deps[i][k]];
      if NZCV in Incoming(p, v, i) {
        var k :| 0 <= k < |p.deps[i]| && NZCV in v[p.deps[i][k]];
        assert live[succ[i][k]];
      }
    }
  }

  lemma AsFactsUpdate(live: seq<bool>, i: nat, b: bool)
    requires i < |live|
    ensures AsFacts(live[i := b]) == AsFacts(live)[i := if b then {NZCV} else {}]
  {
  }

  function LiveIn(insns: seq<Insn>, succ: seq<seq<nat>>, carry: bool, live: seq<bool>, i: nat): bool
    requires |live| == |insns| && succ == Cfg(insns) && i < |insns|
  {
    insns[i].uses || (LiveOut(insns, succ, carry, live, i) && !insns[i].defines)
  }

  /** live_out agrees with live_in from instruction i on. */
  ghost predicate OutsAgree(insns: seq<Insn>, carry: bool, liveIn: seq<bool>, liveOut: seq<bool>, i: int)
    requires |liveIn| == |liveOut| == |insns|
  {
    forall k: nat | i <= k < |insns| :: liveOut[k] == LiveOut(insns, Cfg(insns), carry, liveIn, k)
  }

  lemma LiveStep(insns: seq<Insn>, carry: bool, live0: seq<bool>, live: seq<bool>, i: nat)
    requires |live0| == |live| == |insns| && i < |insns|
    requires Partial(LiveProblem(insns, carry), AsFacts(live0), AsFacts(live), i + 1, |insns|)
    ensures var newLive := live[i := LiveIn(insns, Cfg(insns), carry, live, i)];
      Partial(LiveProblem(insns, carry), AsFacts(live0), AsFacts(newLive), i, |insns|)
  {
    var p, b := LiveProblem(insns, carry), LiveIn(insns, Cfg(insns), carry, live, i);
    LiveInIsTransfer(insns, carry, live, i);
    AsFactsUpdate(live, i, b);
    OneFact(Transfer(p, AsFacts(live), i), b);
    PartialStep(p, AsFacts(live0), AsFacts(live), i + 1, |insns|, i);
  }

  ghost predicate LiveSettled(insns: seq<Insn>, carry: bool, live: seq<bool>)
    requires |live| == |insns|
  {
    Fixpoint(LiveProblem(insns, carry), AsFacts(live))
  }

  /** One round over all instructions, last to first. */
  method LiveRound(insns: seq<Insn>, succ: seq<seq<nat>>, carry: bool, liveIn0: seq<bool>, liveOut0: seq<bool>,
                   ghost r: nat)
    returns (liveIn: seq<bool>, liveOut: seq<bool>, changed: bool)
    requires succ == Cfg(insns) && |liveIn0| == |liveOut0| == |insns|
    requires Ready(LiveProblem(insns, carry), AsFacts(liveIn0), r)
    ensures |liveIn| == |liveOut| == |insns| && Ready(LiveProblem(insns, carry), AsFacts(liveIn), r + 1)
    ensures changed <==> liveIn != liveIn0 || liveOut != liveOut0
    ensures liveIn == liveIn0 ==> LiveSettled(insns, carry, liveIn) && OutsAgree(insns, carry, liveIn, liveOut, 0)
    ensures LiveSettled(insns, carry, liveIn0) ==> liveIn == liveIn0
    ensures OutsAgree(insns, carry, liveIn0, liveOut0, 0) && liveIn == liveIn0 ==> liveOut == liveOut0
  {
    liveIn, liveOut, changed := liveIn0, liveOut0, false;
    ghost var p := LiveProblem(insns, carry);
    PartialStart(p, AsFacts(liveIn0), r, |insns|);
    var i := |insns|;
    while i > 0
      invariant 0 <= i <= |insns| && |liveIn| == |liveOut| == |insns|
      invariant Partial(p, AsFacts(liveIn0), AsFacts(liveIn), i, |insns|)
      invariant forall k | 0 <= k < i :: liveIn[k] == liveIn0[k] && liveOut[k] == liveOut0[k]
      invariant changed <==> liveIn != liveIn0 || liveOut != liveOut0
      invariant liveIn == liveIn0 ==> OutsAgree(insns, carry, liveIn, liveOut, i)
    {
      i := i - 1;
      LiveStep(insns, carry, liveIn0, liveIn, i);
      var out, newIn := LiveOut(insns, succ, carry, liveIn, i), LiveIn(insns, succ, carry, liveIn, i);
      if out != liveOut[i] || newIn != liveIn[i] {
        liveOut, liveIn, changed := liveOut[i := out], liveIn[i := newIn], true;
      } else {
        assert liveIn[i := newIn] == liveIn;
      }
    }
    PartialEnd(p, AsFacts(liveIn0), AsFacts(liveIn), r);
    SameLive(liveIn, liveIn0);
  }

  lemma OneFact(s: set<Fact>, b: bool)
    requires (NZCV in s) == b
    ensures s == if b then {NZCV} else {}
  {
    assert forall x | x in s :: x == NZCV;
  }

  lemma SameLive(a: seq<bool>, b: seq<bool>)
    requires |a| == |b|
    ensures AsFacts(a) == AsFacts(b) <==> a == b
  {
    if AsFacts(a) == AsFacts(b) {
      forall i | 0 <= i < |a|
        ensures a[i] == b[i]
      {
        assert a[i] <==> NZCV in AsFacts(a)[i];
        assert b[i] <==> NZCV in AsFacts(b)[i];
      }
    }
  }

  /** The liveness half of analyse_flags. Its n + 2 rounds always suffice: the
      last one changes nothing, and live_in is exactly path liveness. */
  method FlagLiveness(insns: seq<Insn>, carry: bool) returns (liveIn: seq<bool>, liveOut: seq<bool>, settled: bool)
    ensures settled
    ensures |liveIn| == |liveOut| == |insns|
    ensures forall i | 0 <= i < |insns| :: liveIn[i] <==> LiveAt(insns, carry, i)
    ensures forall i | 0 <= i < |insns| :: liveOut[i] <==> LiveAfter(insns, carry, i)
  {
    var n, succ := |insns|, Cfg(insns);
    liveIn, liveOut := seq(n, _ => false), seq(n, _ => false);
    Bottom(LiveProblem(insns, carry), AsFacts(liveIn));
    settled := false;
    var r := 0;
    while r < n + 2
      invariant 0 <= r < n + 2 && |liveIn| == |liveOut| == n && !settled
      invariant Ready(LiveProblem(insns, carry), AsFacts(liveIn), r)
      invariant r > n ==> OutsAgree(insns, carry, liveIn, liveOut, 0)
      decreases n + 2 - r
    {
      if r >= n {
        EnoughRounds(LiveProblem(insns, carry), AsFacts(liveIn), r);
      }
      var changed;
      liveIn, liveOut, changed := LiveRound(insns, succ, carry, liveIn, liveOut, r);
      if !changed {
        settled := true;
        break;
      }
      r := r + 1;
    }
    LiveExact(insns, carry, liveIn);
    LiveOutExact(insns, carry, liveIn, liveOut);
  }

  lemma LiveOutExact(insns: seq<Insn>, carry: bool, liveIn: seq<bool>, liveOut: seq<bool>)
    requires |liveIn| == |liveOut| == |insns| && OutsAgree(insns, carry, liveIn, liveOut, 0)
    requires forall i | 0 <= i < |insns| :: liveIn[i] <==> LiveAt(insns, carry, i)
    ensures forall i | 0 <= i < |insns| :: liveOut[i] <==> LiveAfter(insns, carry, i)
  {
    forall i | 0 <= i < |insns|
      ensures liveOut[i] <==> LiveAfter(insns, carry, i)
    {
      var s := Cfg(insns)[i];
      assert liveOut[i] == LiveOut(insns, Cfg(insns), carry, liveIn, i);
      if !Leaves(insns, i) && LiveAfter(insns, carry, i) {
        var k: nat :| FlowsTo(insns, i, k) && LiveAt(insns, carry, k);
        assert k in s;
      }
      if !Leaves(insns, i) && liveOut[i] {
        var j :| 0 <= j < |s| && liveIn[s[j]];
        assert s[j] in s;
      }
    }
  }

  lemma LiveExact(insns: seq<Insn>, carry: bool, live: seq<bool>)
    requires |live| == |insns| && LiveSettled(insns, carry, live)
    requires Sound(LiveProblem(insns, carry), AsFacts(live))
    ensures forall i | 0 <= i < |insns| :: live[i] <==> LiveAt(insns, carry, i)
  {
    SoundFixpointExact(LiveProblem(insns, carry), AsFacts(live));
    forall i | 0 <= i < |insns|
      ensures live[i] <==> LiveAt(insns, carry, i)
    {
      LiveAtIsReaches(insns, carry, i);
      assert live[i] <==> NZCV in AsFacts(live)[i];
    }
  }

  // ---- Forward reaching definitions ----------------------------------------

  /** preds is the transpose of succ. */
  ghost predicate IsPredecessors(succ: seq<seq<nat>>, preds: seq<seq<nat>>)
  {
    && |preds| == |succ|
    && (forall i, k | 0 <= i < |preds| && 0 <= k < |preds[i]| :: preds[i][k] < |succ|)
    && (forall i: nat, j: nat | i < |succ| && j < |succ| :: j in preds[i] <==> i in succ[j])
  }

  /** predecessors */
  method Predecessors(succ: seq<seq<nat>>) returns (preds: seq<seq<nat>>)
    requires forall i, k | 0 <= i < |succ| && 0 <= k < |succ[i]| :: succ[i][k] < |succ|
    ensures IsPredecessors(succ, preds)
  {
    preds := seq(|succ|, _ => []);
    for i := 0 to |succ|
      invariant |preds| == |succ|
      invariant forall t, k | 0 <= t < |preds| && 0 <= k < |preds[t]| :: preds[t][k] < |succ|
      invariant Transposed(succ, preds, i)
    {
      preds := AddEdges(succ, preds, i);
    }
  }

  /** preds holds the edges that leave instructions below i. */
  ghost predicate Transposed(succ: seq<seq<nat>>, preds: seq<seq<nat>>, i: nat)
    requires |preds| == |succ| && i <= |succ|
  {
    forall t: nat, j: nat | t < |succ| && j < |succ| :: j in preds[t] <==> (j < i && t in succ[j])
  }

  method AddEdges(succ: seq<seq<nat>>, preds0: seq<seq<nat>>, i: nat) returns (preds: seq<seq<nat>>)
    requires forall i, k | 0 <= i < |succ| && 0 <= k < |succ[i]| :: succ[i][k] < |succ|
    requires |preds0| == |succ| && i < |succ|
    requires forall t, k | 0 <= t < |preds0| && 0 <= k < |preds0[t]| :: preds0[t][k] < |succ|
    requires Transposed(succ, preds0, i)
    ensures |preds| == |succ| && Transposed(succ, preds, i + 1)
    ensures forall t, k | 0 <= t < |preds| && 0 <= k < |preds[t]| :: preds[t][k] < |succ|
  {
    preds := preds0;
    for k := 0 to |succ[i]|
      invariant |preds| == |succ|
      invariant forall t, k | 0 <= t < |preds| && 0 <= k < |preds[t]| :: preds[t][k] < |succ|
      invariant forall t: nat, j: nat | t < |succ| && j < |succ| ::
        j in preds[t] <==> (j in preds0[t] || (j == i && t in succ[i][..k]))
    {
      var t := succ[i][k];
      preds := preds[t := preds[t] + [i]];
    }
    assert succ[i][..|succ[i]|] == succ[i];
  }

  /** Reaching definitions, for reach_out: a flag write generates itself and
      kills every other definition. */
  ghost function ReachProblem(insns: seq<Insn>, preds: seq<seq<nat>>): (p: Problem<nat>)
    requires IsPredecessors(Cfg(insns), preds)
    ensures p.Valid() && p.Size() == |insns|
  {
    Problem(
      preds,
      seq(|insns|, i requires 0 <= i < |insns| => if insns[i].defines then {i} else {}),
      seq(|insns|, i requires 0 <= i < |insns| => if insns[i].defines then Nodes(|insns|) else {}))
  }

  /** A path from the flag write d to i with no flag write in between. */
  ghost predicate DefPath(insns: seq<Insn>, path: seq<nat>, d: nat, i: nat)
  {
    && |path| >= 2 && IsPath(insns, path, d) && path[|path| - 1] == i
    && insns[d].defines
    && forall j | 0 < j < |path| - 1 :: !insns[path[j]].defines
  }

  /** The definition at d reaches instruction i. */
  ghost predicate ReachesInsn(insns: seq<Insn>, d: nat, i: nat)
  {
    exists path :: DefPath(insns, path, d, i)
  }

  function Reverse(s: seq<nat>): (r: seq<nat>)
    ensures |r| == |s| && forall j | 0 <= j < |s| :: r[j] == s[|s| - 1 - j]
  {
    seq(|s|, j requires 0 <= j < |s| => s[|s| - 1 - j])
  }

  /** Everything that can reach a node is an instruction. */
  lemma ReachableIsNode(insns: seq<Insn>, preds: seq<seq<nat>>, i: nat, d: nat)
    requires IsPredecessors(Cfg(insns), preds) && Reaches(ReachProblem(insns, preds), i, d)
    ensures d < |insns|
  {
    var path :| Witness(ReachProblem(insns, preds), path, i, d);
  }

  lemma EdgeBothWays(insns: seq<Insn>, preds: seq<seq<nat>>, a: nat, b: nat)
    requires IsPredecessors(Cfg(insns), preds) && a < |insns| && b < |insns|
    ensures FlowsTo(insns, a, b) <==> a in preds[b]
  {
  }

  /** Read backwards, the steps of a definition path follow predecessors and
      meet no flag write but the last. */
  lemma ReversedStep(insns: seq<Insn>, preds: seq<seq<nat>>, path: seq<nat>, d: nat, i: nat, j: nat)
    requires IsPredecessors(Cfg(insns), preds) && DefPath(insns, path, d, i) && j + 2 < |path|
    ensures var back := Reverse(path[..|path| - 1]); back[j + 1] in preds[back[j]] && !insns[back[j]].defines
  {
    var back, k := Reverse(path[..|path| - 1]), |path| - 3 - j;
    assert back[j + 1] == path[k] && back[j] == path[k + 1];
    EdgeBothWays(insns, preds, path[k], path[k + 1]);
  }

  lemma DefPathToWitness(insns: seq<Insn>, preds: seq<seq<nat>>, path: seq<nat>, d: nat, i: nat)
    requires IsPredecessors(Cfg(insns), preds) && DefPath(insns, path, d, i)
    ensures var q := path[|path| - 2]; q in preds[i] && Reaches(ReachProblem(insns, preds), q, d)
  {
    var back := Reverse(path[..|path| - 1]);
    EdgeBothWays(insns, preds, path[|path| - 2], i);
    forall j | 0 <= j < |back| - 1
      ensures back[j + 1] in preds[back[j]] && !insns[back[j]].defines
    {
      ReversedStep(insns, preds, path, d, i, j);
    }
    assert Witness(ReachProblem(insns, preds), back, path[|path| - 2], d);
  }

  /** A witness read backwards and led on to i takes steps of the graph, and
      writes no flags after its first. */
  lemma LedOnStep(insns: seq<Insn>, preds: seq<seq<nat>>, back: seq<nat>, q: nat, d: nat, i: nat, j: nat)
    requires IsPredecessors(Cfg(insns), preds) && i < |insns| && q in preds[i]
    requires Witness(ReachProblem(insns, preds), back, q, d) && j < |back|
    ensures var path := Reverse(back) + [i];
      path[j] < |insns| && FlowsTo(insns, path[j], path[j + 1]) && (j > 0 ==> !insns[path[j]].defines)
  {
    var m, path := |back|, Reverse(back) + [i];
    assert path[j] == back[m - 1 - j] && path[j] < |insns|;
    if j < m - 1 {
      assert path[j + 1] == back[m - 2 - j];
      EdgeBothWays(insns, preds, path[j], path[j + 1]);
    } else {
      EdgeBothWays(insns, preds, q, i);
    }
    ReachableIsNode(insns, preds, q, d);
    assert insns[path[j]].defines ==> d in ReachProblem(insns, preds).kill[path[j]];
  }

  lemma WitnessToDefPath(insns: seq<Insn>, preds: seq<seq<nat>>, q: nat, d: nat, i: nat)
    requires IsPredecessors(Cfg(insns), preds) && i < |insns| && q in preds[i]
    requires Reaches(ReachProblem(insns, preds), q, d)
    ensures ReachesInsn(insns, d, i)
  {
    ReachableIsNode(insns, preds, q, d);
    var back :| Witness(ReachProblem(insns, preds), back, q, d);
    var path := Reverse(back) + [i];
    assert path[0] == back[|back| - 1] == d;
    forall j | 0 <= j < |path| - 1
      ensures FlowsTo(insns, path[j], path[j + 1]) && (j > 0 ==> !insns[path[j]].defines)
    {
      LedOnStep(insns, preds, back, q, d, i, j);
    }
    assert DefPath(insns, path, d, i);
  }

  lemma ReachIsTransfer(insns: seq<Insn>, preds: seq<seq<nat>>, out: seq<set<nat>>, i: nat)
    requires IsPredecessors(Cfg(insns), preds) && |out| == |insns| && i < |insns|
    requires Sound(ReachProblem(insns, preds), out)
    ensures Transfer(ReachProblem(insns, preds), out, i)
         == if insns[i].defines then {i} else Union(preds[i], out)
  {
    var p := ReachProblem(insns, preds);
    assert Incoming(p, out, i) == Union(preds[i], out);
    forall d | d in Incoming(p, out, i)
      ensures d in Nodes(|insns|)
    {
      var k :| 0 <= k < |preds[i]| && d in out[preds[i][k]];
      ReachableIsNode(insns, preds, preds[i][k], d);
    }
  }

  /** One assignment of a forward round. */
  lemma ReachStep(insns: seq<Insn>, preds: seq<seq<nat>>, out0: seq<set<nat>>, out: seq<set<nat>>, i: nat)
    requires IsPredecessors(Cfg(insns), preds) && |out0| == |out| == |insns| && i < |insns|
    requires Partial(ReachProblem(insns, preds), out0, out, 0, i)
    ensures var newOut := out[i := if insns[i].defines then {i} else Union(preds[i], out)];
      Partial(ReachProblem(insns, preds), out0, newOut, 0, i + 1)
  {
    var p := ReachProblem(insns, preds);
    PartialSound(p, out0, out, 0, i);
    ReachIsTransfer(insns, preds, out, i);
    PartialStep(p, out0, out, 0, i, i);
  }

  /** reach_in agrees with reach_out below instruction i. */
  ghost predicate InsAgree(preds: seq<seq<nat>>, ins: seq<set<nat>>, out: seq<set<nat>>, i: int)
    requires |preds| == |ins| == |out|
    requires forall t, k | 0 <= t < |preds| && 0 <= k < |preds[t]| :: preds[t][k] < |out|
  {
    forall k: nat | k < |preds| && k < i :: ins[k] == Union(preds[k], out)
  }

  /** One forward round. */
  method ReachRound(insns: seq<Insn>, preds: seq<seq<nat>>, in0: seq<set<nat>>, out0: seq<set<nat>>, ghost r: nat)
    returns (ins: seq<set<nat>>, out: seq<set<nat>>, changed: bool)
    requires IsPredecessors(Cfg(insns), preds) && |in0| == |out0| == |insns|
    requires Ready(ReachProblem(insns, preds), out0, r)
    ensures |ins| == |out| == |insns| && Ready(ReachProblem(insns, preds), out, r + 1)
    ensures changed <==> ins != in0 || out != out0
    ensures out == out0 ==> Fixpoint(ReachProblem(insns, preds), out) && InsAgree(preds, ins, out, |insns|)
    ensures Fixpoint(ReachProblem(insns, preds), out0) ==> out == out0
    ensures InsAgree(preds, in0, out0, |insns|) && out == out0 ==> ins == in0
  {
    ins, out, changed := in0, out0, false;
    PartialStart(ReachProblem(insns, preds), out0, r, 0);
    for i := 0 to |insns|
      invariant |ins| == |out| == |insns| && MidForward(insns, preds, in0, out0, ins, out, i)
      invariant changed <==> ins != in0 || out != out0
    {
      MidForwardStep(insns, preds, in0, out0, ins, out, i);
      var newIn := Union(preds[i], out);
      var newOut := if insns[i].defines then {i} else newIn;
      if newIn != ins[i] || newOut != out[i] {
        ins, out, changed := ins[i := newIn], out[i := newOut], true;
      }
    }
    PartialEnd(ReachProblem(insns, preds), out0, out, r);
  }

  /** Part way through a forward round. */
  ghost predicate MidForward(
    insns: seq<Insn>, preds: seq<seq<nat>>,
    in0: seq<set<nat>>, out0: seq<set<nat>>, ins: seq<set<nat>>, out: seq<set<nat>>, i: int)
    requires IsPredecessors(Cfg(insns), preds) && |in0| == |out0| == |ins| == |out| == |insns|
  {
    Partial(ReachProblem(insns, preds), out0, out, 0, i) && ForwardDone(preds, in0, out0, ins, out, i)
  }

  lemma MidForwardStep(
    insns: seq<Insn>, preds: seq<seq<nat>>,
    in0: seq<set<nat>>, out0: seq<set<nat>>, ins: seq<set<nat>>, out: seq<set<nat>>, i: nat)
    requires IsPredecessors(Cfg(insns), preds) && |in0| == |out0| == |ins| == |out| == |insns| && i < |insns|
    requires MidForward(insns, preds, in0, out0, ins, out, i)
    ensures var newIn := Union(preds[i], out);
      var newOut := if insns[i].defines then {i} else newIn;
      && MidForward(insns, preds, in0, out0, ins[i := newIn], out[i := newOut], i + 1)
      && (ins[i := newIn] != in0 || out[i := newOut] != out0
          <==> ins != in0 || out != out0 || newIn != ins[i] || newOut != out[i])
      && (newIn == ins[i] ==> ins[i := newIn] == ins) && (newOut == out[i] ==> out[i := newOut] == out)
  {
    var newIn := Union(preds[i], out);
    ReachStep(insns, preds, out0, out, i);
    ForwardStep(preds, in0, out0, ins, out, i, newIn, if insns[i].defines then {i} else newIn);
  }

  /** A forward round has treated the instructions below i and no others. */
  ghost predicate ForwardDone(
    preds: seq<seq<nat>>, in0: seq<set<nat>>, out0: seq<set<nat>>, ins: seq<set<nat>>, out: seq<set<nat>>, i: int)
    requires |preds| == |in0| == |out0| == |ins| == |out|
    requires forall t, k | 0 <= t < |preds| && 0 <= k < |preds[t]| :: preds[t][k] < |out|
  {
    && (forall k: nat | i <= k < |preds| :: ins[k] == in0[k] && out[k] == out0[k])
    && (out == out0 ==> InsAgree(preds, ins, out, i))
  }

  lemma ForwardStep(
    preds: seq<seq<nat>>, in0: seq<set<nat>>, out0: seq<set<nat>>, ins: seq<set<nat>>, out: seq<set<nat>>, i: nat,
    newIn: set<nat>, newOut: set<nat>)
    requires |preds| == |in0| == |out0| == |ins| == |out| && i < |preds|
    requires forall t, k | 0 <= t < |preds| && 0 <= k < |preds[t]| :: preds[t][k] < |out|
    requires ForwardDone(preds, in0, out0, ins, out, i) && newIn == Union(preds[i], out)
    ensures ForwardDone(preds, in0, out0, ins[i := newIn], out[i := newOut], i + 1)
    ensures ins[i := newIn] != in0 || out[i := newOut] != out0
       <==> ins != in0 || out != out0 || newIn != ins[i] || newOut != out[i]
    ensures newIn == ins[i] ==> ins[i := newIn] == ins
    ensures newOut == out[i] ==> out[i := newOut] == out
  {
    var ins1, out1 := ins[i := newIn], out[i := newOut];
    assert ins1[i] == newIn && out1[i] == newOut;
    assert forall k | 0 <= k < |ins| && k != i :: ins1[k] == ins[k] && out1[k] == out[k];
    if out1 == out0 {
      assert out == out0;
    }
    if ins1 == in0 {
      assert ins == in0;
    }
  }

  /** The reaching-definitions half of analyse_flags: n + 2 rounds always
      suffice, and reach_in holds exactly the definitions that reach. */
  method FlagReaching(insns: seq<Insn>) returns (reachIn: seq<set<nat>>, settled: bool)
    ensures settled && |reachIn| == |insns|
    ensures forall i: nat, d: nat | i < |insns| :: d in reachIn[i] <==> ReachesInsn(insns, d, i)
  {
    var n := |insns|;
    var preds := Predecessors(Cfg(insns));
    ghost var p := ReachProblem(insns, preds);
    reachIn := seq(n, _ => {});
    var out: seq<set<nat>> := seq(n, _ => {});
    Bottom(p, out);
    settled := false;
    var r := 0;
    while r < n + 2
      invariant 0 <= r < n + 2 && |reachIn| == |out| == n && !settled
      invariant Ready(p, out, r)
      invariant r > n ==> InsAgree(preds, reachIn, out, n)
      decreases n + 2 - r
    {
      if r >= n {
        EnoughRounds(p, out, r);
      }
      var changed;
      reachIn, out, changed := ReachRound(insns, preds, reachIn, out, r);
      if !changed {
        settled := true;
        break;
      }
      r := r + 1;
    }
    ReachExact(insns, preds, reachIn, out);
  }

  lemma ReachExact(insns: seq<Insn>, preds: seq<seq<nat>>, ins: seq<set<nat>>, out: seq<set<nat>>)
    requires IsPredecessors(Cfg(insns), preds) && |ins| == |out| == |insns|
    requires Fixpoint(ReachProblem(insns, preds), out) && Sound(ReachProblem(insns, preds), out)
    requires InsAgree(preds, ins, out, |insns|)
    ensures forall i: nat, d: nat | i < |insns| :: d in ins[i] <==> ReachesInsn(insns, d, i)
  {
    SoundFixpointExact(ReachProblem(insns, preds), out);
    forall i: nat, d: nat | i < |insns|
      ensures d in ins[i] <==> ReachesInsn(insns, d, i)
    {
      assert ins[i] == Union(preds[i], out);
      ReachesThroughPredecessor(insns, preds, d, i);
      assert forall q | q in preds[i] :: d in out[q] <==> Reaches(ReachProblem(insns, preds), q, d);
    }
  }

  /** A definition reaches an instruction through one of its predecessors. */
  lemma ReachesThroughPredecessor(insns: seq<Insn>, preds: seq<seq<nat>>, d: nat, i: nat)
    requires IsPredecessors(Cfg(insns), preds) && i < |insns|
    ensures ReachesInsn(insns, d, i) <==> exists q :: q in preds[i] && Reaches(ReachProblem(insns, preds), q, d)
  {
    if ReachesInsn(insns, d, i) {
      var path :| DefPath(insns, path, d, i);
      DefPathToWitness(insns, preds, path, d, i);
    }
    if exists q :: q in preds[i] && Reaches(ReachProblem(insns, preds), q, d) {
      var q :| q in preds[i] && Reaches(ReachProblem(insns, preds), q, d);
      WitnessToDefPath(insns, preds, q, d, i);
    }
  }

  // ---- analyse_flags -------------------------------------------------------

  /** The result: for each flag reader the writes it may see, and for the
      caller of a carry-convention function the writes that reach an exit. */
  datatype Analysis = Analysis(
    liveIn: seq<bool>, liveOut: seq<bool>, reaching: map<nat, set<nat>>, atExit: Option<set<nat>>, exits: seq<nat>)

  /** analyse_flags as a whole. */
  method AnalyseFlags(insns: seq<Insn>, carry: bool) returns (a: Analysis)
    ensures |a.liveIn| == |insns| && forall i | 0 <= i < |insns| :: a.liveIn[i] <==> LiveAt(insns, carry, i)
    ensures |a.liveOut| == |insns| && forall i | 0 <= i < |insns| :: a.liveOut[i] <==> LiveAfter(insns, carry, i)
    ensures forall i: nat :: i in a.reaching <==> i < |insns| && insns[i].uses
    ensures forall i: nat, d: nat | i in a.reaching :: d in a.reaching[i] <==> ReachesInsn(insns, d, i)
    ensures forall e: nat :: e in a.exits <==> e < |insns| && Leaves(insns, e)
    ensures forall j, k | 0 <= j < k < |a.exits| :: a.exits[j] < a.exits[k]
    ensures a.atExit.Some? <==> carry
    ensures carry ==> forall d: nat :: d in a.atExit.value <==> exists e :: e in a.exits && ReachesInsn(insns, d, e)
  {
    var liveIn, liveOut, _ := FlagLiveness(insns, carry);
    var reachIn, _ := FlagReaching(insns);
    var reaching := map i: nat | i < |insns| && insns[i].uses :: reachIn[i];
    var succ := Cfg(insns);
    var exits: seq<nat> := [];
    var atExit: set<nat> := {};
    for i := 0 to |insns|
      invariant forall e: nat :: e in exits <==> e < i && Leaves(insns, e)
      invariant forall j | 0 <= j < |exits| :: exits[j] < i
      invariant forall j, k | 0 <= j < k < |exits| :: exits[j] < exits[k]
      invariant forall d: nat :: d in atExit <==> exists e :: e in exits && d in reachIn[e]
    {
      if IsExit(insns, succ, i) {
        exits, atExit := exits + [i], atExit + reachIn[i];
      }
    }
    a := Analysis(liveIn, liveOut, reaching, if carry then Some(atExit) else None, exits);
  }
}
