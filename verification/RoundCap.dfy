/** The cap on the passes of the saved-register checker: a family of regions
    for which the loop stops before the fixpoint and a bad return goes
    unreported. */
module RoundCap {
  import opened Wrappers
  import opened Flags
  import opened SavedRegs
  import opened PassBound

  /** 0: b to the end; 1: cbz to 4; 2: write x19; 3: b to the end; 4: ret;
      then a chain of branches, each to the one before and the first to 1. */
  function SlowControl(n: nat, i: nat): Control
    requires 12 <= n && i < n
  {
    if i == 0 || i == 3 then Jump(Some(n - 1))
    else if i == 1 then Conditional(Some(4))
    else if i == 2 then Fall
    else if i == 4 then Return
    else if i == 5 then Jump(Some(1))
    else Jump(Some(i - 1))
  }

  function SlowInsns(n: nat): (s: seq<Insn>)
    requires 12 <= n
    ensures |s| == n && forall i: nat | i < n :: s[i].control == SlowControl(n, i)
  {
    seq(n, i requires 0 <= i < n => Insn(SlowControl(n, i), false, false))
  }

  function SlowEffect(i: nat): Effect {
    if i == 2 then PLAIN.(dirtied := [X(19)])
    else if i == 4 then PLAIN.(exit := Some(X30))
    else PLAIN
  }

  function SlowEffects(n: nat): (s: seq<Effect>)
    ensures |s| == n && forall i: nat | i < n :: s[i] == SlowEffect(i)
  {
    seq(n, i requires 0 <= i < n => SlowEffect(i))
  }

  function Slow(n: nat): (g: Region)
    requires 12 <= n
    ensures g.Valid() && g.Size() == n
  {
    Region(Cfg(SlowInsns(n)), SlowEffects(n))
  }

  /** The successors of p in the slow region. */
  function Next(n: nat, p: nat): set<nat>
    requires 12 <= n && p < n
  {
    if p == 0 || p == 3 then {n - 1}
    else if p == 1 then {2, 4}
    else if p == 2 then {3}
    else if p == 4 then {}
    else if p == 5 then {1}
    else {p - 1}
  }

  /** All that matters about the slow region. */
  ghost predicate IsSlow(g: Region, n: nat) {
    && 12 <= n && g.Valid() && g.Size() == n
    && (forall p: nat, i: nat | p < n && i < n :: Edge(g, p, i) <==> i in Next(n, p))
    && forall p: nat | p < n :: g.effects[p] == SlowEffect(p)
  }

  lemma SlowIsSlow(n: nat)
    requires 12 <= n
    ensures IsSlow(Slow(n), n)
  {
    forall p: nat, i: nat | p < n && i < n
      ensures Edge(Slow(n), p, i) <==> i in Next(n, p)
    {
      assert i in Slow(n).succ[p] <==> FlowsTo(SlowInsns(n), p, i);
    }
  }

  lemma PlainAfter(i: nat, d: set<Reg>)
    requires i != 2
    ensures DirtyAfter(d, SlowEffect(i)) == d
  {
    assert TrackedSet([]) == {};
  }

  lemma WriteAfter(d: set<Reg>)
    ensures DirtyAfter(d, SlowEffect(2)) == d + {X(19)}
  {
    assert [X(19)][0] == X(19);
    assert TrackedSet([X(19)]) == {X(19)};
    assert TrackedSet([]) == {};
  }

  // ---- A bad run exists ----------------------------------------------------

  lemma Reach(g: Region, n: nat, p: nat, i: nat)
    requires IsSlow(g, n) && p < n && i < n && i in Next(n, p) && Reachable(g, p)
    ensures Reachable(g, i)
  {
    ReachableStep(g, p, i);
  }

  lemma Carry(g: Region, n: nat, p: nat, i: nat)
    requires IsSlow(g, n) && p < n && i < n && i in Next(n, p) && p != 2 && DirtyOn(g, p, X(19))
    ensures DirtyOn(g, i, X(19))
  {
    forall d: set<Reg> | X(19) in d
      ensures X(19) in DirtyAfter(d, SlowEffect(p))
    {
      PlainAfter(p, d);
    }
    DirtyStays(g, p, i, X(19));
  }

  lemma {:induction false} ReachDown(g: Region, n: nat, i: nat)
    requires IsSlow(g, n) && 5 <= i < n
    ensures Reachable(g, i)
    decreases n - i
  {
    if i == n - 1 {
      assert EntryPath(g, [0], 0);
      Reach(g, n, 0, i);
    } else {
      ReachDown(g, n, i + 1);
      Reach(g, n, i + 1, i);
    }
  }

  lemma {:induction false} CarryDown(g: Region, n: nat, i: nat)
    requires IsSlow(g, n) && 5 <= i < n && DirtyOn(g, n - 1, X(19))
    ensures DirtyOn(g, i, X(19))
    decreases n - i
  {
    if i < n - 1 {
      CarryDown(g, n, i + 1);
      Carry(g, n, i + 1, i);
    }
  }

  lemma Loop(g: Region, n: nat)
    requires IsSlow(g, n)
    ensures DirtyOn(g, n - 1, X(19))
  {
    ReachDown(g, n, 5);
    Reach(g, n, 5, 1);
    Reach(g, n, 1, 2);
    forall d: set<Reg>
      ensures X(19) in DirtyAfter(d, SlowEffect(2))
    {
      WriteAfter(d);
    }
    DirtyWritten(g, 2, 3, X(19));
    Carry(g, n, 3, n - 1);
  }

  /** Twice round the loop, x19 is dirty at the return. */
  lemma BadRun(g: Region, n: nat)
    requires IsSlow(g, n)
    ensures DirtyOn(g, 4, X(19)) && !AllRestored(g, 4, X30)
  {
    Loop(g, n);
    CarryDown(g, n, 5);
    Carry(g, n, 5, 1);
    Carry(g, n, 1, 4);
    DirtyIsNotRestored(g, 4, X(19), X30);
  }

  // ---- The passes are too few ----------------------------------------------

  /** The pass in which instruction i first becomes known. */
  function Live(n: nat, i: nat): int {
    if i == 0 then 1 else if i < 5 then n - 4 else n - i
  }

  /** The pass in which x19 first shows as dirty at i. */
  function Due(n: nat, i: nat): int {
    if i == 0 then 3 * n else if i == 3 then n - 4 else if i < 5 then 2 * n - 9 else 2 * n - 5 - i
  }

  /** The state at k in pass r is no further than the two tables allow. */
  ghost predicate OnTimeAt(n: nat, f: Option<Facts>, k: nat, r: int) {
    f.Some? ==> Live(n, k) <= r && f.value.sp == 0 && f.value.dirty <= {X(19)} && (f.value.dirty != {} ==> Due(n, k) <= r)
  }

  /** Pass r has reached instruction i. */
  ghost predicate OnTime(n: nat, v: Assignment, r: nat, i: nat) {
    |v| == n && r > 0 && forall k: nat | k < n :: OnTimeAt(n, v[k], k, if k < i then r else r - 1)
  }

  lemma StepOnTime(n: nat, f: Facts, p: nat, i: nat, r: nat)
    requires 12 <= n && p < n && i < n && i in Next(n, p) && r > 0
    requires OnTimeAt(n, Some(f), p, if p < i then r else r - 1)
    ensures OnTimeAt(n, Some(Applied(f, SlowEffect(p))), i, r)
  {
    if p != 2 {
      PlainAfter(p, f.dirty);
    } else {
      WriteAfter(f.dirty);
    }
  }

  lemma {:induction false} JoinOnTime(n: nat, s: seq<Facts>, i: nat, r: nat)
    requires s != [] && forall k | 0 <= k < |s| :: OnTimeAt(n, Some(s[k]), i, r)
    ensures OnTimeAt(n, Some(JoinAll(s)), i, r)
    decreases |s|
  {
    if |s| > 1 {
      JoinOnTime(n, s[..|s| - 1], i, r);
    }
  }

  lemma AssignedOnTime(g: Region, n: nat, preds: seq<seq<nat>>, v: Assignment, r: nat, i: nat)
    requires IsSlow(g, n) && IsPredecessors(g.succ, preds) && 0 < i < n && r > 0 && OnTime(n, v, r, i)
    ensures OnTime(n, Assigned(g, preds, v, i), r, i + 1)
  {
    var s := Incoming(g, preds[i], v);
    if s != [] {
      forall k | 0 <= k < |s|
        ensures OnTimeAt(n, Some(s[k]), i, r)
      {
        assert s[k] in s;
        var p :| p in preds[i] && v[p].Some? && s[k] == Applied(v[p].value, g.effects[p]);
        StepOnTime(n, v[p].value, p, i, r);
      }
      JoinOnTime(n, s, i, r);
    }
  }

  lemma {:induction false} PassOnTime(g: Region, n: nat, preds: seq<seq<nat>>, v: Assignment, r: nat, i: nat)
    requires IsSlow(g, n) && IsPredecessors(g.succ, preds) && 0 < i <= n && r > 0 && OnTime(n, v, r, i)
    ensures OnTime(n, PassFrom(g, preds, v, i), r, n)
    decreases n - i
  {
    if i < n {
      AssignedOnTime(g, n, preds, v, r, i);
      PassOnTime(g, n, preds, Assigned(g, preds, v, i), r, i + 1);
    }
  }

  lemma {:induction false} PassesOnTime(g: Region, n: nat, preds: seq<seq<nat>>, r: nat)
    requires IsSlow(g, n) && IsPredecessors(g.succ, preds)
    ensures OnTime(n, Passes(g, preds, r), r + 1, 1)
  {
    if r > 0 {
      PassesOnTime(g, n, preds, r - 1);
      PassOnTime(g, n, preds, Passes(g, preds, r - 1), r, 1);
    }
  }

  lemma StillSilent(g: Region, n: nat, preds: seq<seq<nat>>, found: seq<seq<Warning>>)
    requires IsSlow(g, n) && IsPredecessors(g.succ, preds) && FromCappedPasses(g, preds, found)
    ensures found[4] == []
  {
    var f := Passes(g, preds, n + 2)[4];
    PassesOnTime(g, n, preds, n + 2);
    assert OnTimeAt(n, f, 4, n + 2);
    assert f.Some? ==> f.value.dirty == {} && f.value.sp == 0;
    ShownSilent(g, 4, found[4], f);
  }

  /** On the slow region the capped loop does not report the bad return. */
  lemma CapTooSmall(g: Region, n: nat, preds: seq<seq<nat>>, found: seq<seq<Warning>>)
    requires IsSlow(g, n) && IsPredecessors(g.succ, preds) && FromCappedPasses(g, preds, found)
    ensures Aligned(g) && NoEdgeIntoEntry(g) && g.effects[4].exit == Some(X30)
    ensures found[4] == [] && !AllRestored(g, 4, X30)
  {
    assert forall p: nat :: Edge(g, p, 0) ==> p < n && 0 in Next(n, p);
    BadRun(g, n);
    StillSilent(g, n, preds, found);
  }

  /** For every length from twelve on there is a function whose bad return
      goes unreported. */
  method MissedByCap(n: nat) returns (found: seq<seq<Warning>>)
    requires 12 <= n
    ensures |found| == n && found[4] == [] && !AllRestored(Slow(n), 4, X30)
    ensures Aligned(Slow(n)) && NoEdgeIntoEntry(Slow(n))
  {
    var converged;
    found, converged := CheckReturns(Slow(n));
    SlowIsSlow(n);
    ghost var preds :| IsPredecessors(Slow(n).succ, preds) && Reported(Slow(n), preds, found, converged);
    CapTooSmall(Slow(n), n, preds, found);
  }

  // ---- The bound on the passes is attained ---------------------------------

  lemma {:induction false} SlowLoops(g: Region, n: nat, k: nat)
    requires IsSlow(g, n) && k <= n
    ensures Loops(g, k) == if k <= 5 then 0 else k - 5
  {
    if k > 0 {
      SlowLoops(g, n, k - 1);
      SlowLoopsBack(g, n, k - 1);
    }
  }

  lemma SlowLoopsBack(g: Region, n: nat, p: nat)
    requires IsSlow(g, n) && p < n
    ensures LoopsBack(g, p) <==> p >= 5
  {
    if p >= 5 {
      var i := if p == 5 then 1 else p - 1;
      assert Edge(g, p, i) && 0 < i <= p;
    }
  }

  lemma NotYetExact(g: Region, n: nat, preds: seq<seq<nat>>, r: nat)
    requires IsSlow(g, n) && IsPredecessors(g.succ, preds) && r < Due(n, 4)
    ensures !AllExact(g, Passes(g, preds, r))
  {
    var f := Passes(g, preds, r)[4];
    PassesOnTime(g, n, preds, r);
    assert OnTimeAt(n, f, 4, r);
    BadRun(g, n);
    assert Reachable(g, 4);
  }

  /** The passes are exact on the slow region from the first for which the
      general bound promises it, and not before. */
  lemma BoundAttained(g: Region, n: nat, preds: seq<seq<nat>>, r: nat)
    requires IsSlow(g, n) && IsPredecessors(g.succ, preds)
    ensures CopyDepth(g, 1) && Loops(g, g.Size()) == n - 5
    ensures AllExact(g, Passes(g, preds, r)) <==> r > 2 * Loops(g, g.Size())
  {
    SlowLoops(g, n, n);
    assert NoCopies(g);
    NoCopiesDepth(g);
    if r > 2 * (n - 5) {
      PassesComeToRest(g, preds, 1, r);
    } else {
      NotYetExact(g, n, preds, r);
    }
  }
}
