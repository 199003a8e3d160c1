/** What makes a register dirty: the tracked state of a run, told from the
    effects of its instructions alone. */
module DirtyRuns {
  import opened Wrappers
  import opened SavedRegs

  // ---- Registers and their spellings ---------------------------------------

  /** The spelling s is one of register r: d and q name the vector register. */
  predicate Names(s: Reg, r: Reg) {
    s == r || (r.V? && r.n < 32 && (s == D(r.n) || s == Q(r.n)))
  }

  ghost predicate Mentions(regs: seq<Reg>, r: Reg) {
    exists k :: 0 <= k < |regs| && Names(regs[k], r)
  }

  /** x19 to x30 and v8 to v15. */
  lemma CalleeSavedAre(r: Reg)
    ensures CalleeSaved(r) <==>
      r in {X(19), X(20), X(21), X(22), X(23), X(24), X(25), X(26), X(27), X(28), X(29), X(30)}
      || r in {V(8), V(9), V(10), V(11), V(12), V(13), V(14), V(15)}
  {
  }

  lemma NamesTracked(s: Reg, r: Reg)
    requires CalleeSaved(r)
    ensures Names(s, r) <==> IsTracked(s) && Normalise(s) == r
  {
  }

  lemma MentionsTracked(regs: seq<Reg>, r: Reg)
    requires CalleeSaved(r)
    ensures Mentions(regs, r) <==> r in TrackedSet(regs)
  {
    forall k | 0 <= k < |regs|
      ensures Names(regs[k], r) <==> IsTracked(regs[k]) && Normalise(regs[k]) == r
    {
      NamesTracked(regs[k], r);
    }
  }

  // ---- One instruction -----------------------------------------------------

  /** e copies from the callee-saved register q. */
  ghost predicate CopiesFrom(e: Effect, q: Reg) {
    CalleeSaved(q) && e.copyFrom.Some? && Names(e.copyFrom.value, q)
  }

  ghost predicate CopiesTracked(e: Effect) {
    exists q :: CopiesFrom(e, q)
  }

  /** e makes r dirty whatever was before: a write that is no copy of a tracked
      register, or a call if r is x30. */
  ghost predicate Soils(e: Effect, r: Reg) {
    (Mentions(e.dirtied, r) && !CopiesTracked(e)) || (e.calls && r == X30)
  }

  /** r is dirty after e if q was before: e does not load q, and r is a copy of
      q, or is q and not written. */
  ghost predicate Carries(e: Effect, q: Reg, r: Reg) {
    !Mentions(e.loads, q) && if Mentions(e.dirtied, r) then CopiesFrom(e, q) else q == r
  }

  ghost predicate CarriedFrom(d: set<Reg>, e: Effect, r: Reg) {
    exists q :: q in d && Carries(e, q, r)
  }

  /** The whole of what an instruction does to the dirty registers. */
  lemma DirtyLaw(d: set<Reg>, e: Effect, r: Reg)
    requires CalleeSaved(r) && forall q | q in d :: CalleeSaved(q)
    ensures r in DirtyAfter(d, e) <==> Soils(e, r) || CarriedFrom(d, e, r)
  {
    MentionsTracked(e.dirtied, r);
    forall q | CalleeSaved(q)
      ensures Mentions(e.loads, q) <==> q in TrackedSet(e.loads)
      ensures CopiesFrom(e, q) <==>
        e.copyFrom.Some? && IsTracked(e.copyFrom.value) && Normalise(e.copyFrom.value) == q
    {
      MentionsTracked(e.loads, q);
      if e.copyFrom.Some? {
        NamesTracked(e.copyFrom.value, q);
      }
    }
    if e.copyFrom.Some? && IsTracked(e.copyFrom.value) {
      assert CopiesFrom(e, Normalise(e.copyFrom.value));
    }
    if r in DirtyAfter(d, e) && !Soils(e, r) {
      var q := if r in TrackedSet(e.dirtied) then Normalise(e.copyFrom.value) else r;
      assert q in d && Carries(e, q, r);
    }
  }

  // ---- Whole runs ----------------------------------------------------------

  /** The effect of the k-th instruction of a run. */
  function EffectAt(g: Region, path: seq<nat>, k: nat): Effect
    requires g.Valid() && k < |path|
  {
    if path[k] < g.Size() then g.effects[path[k]] else PLAIN
  }

  /** Instruction j of the run soils regs[0], and the instructions after it hand
      the dirt on from register to register. */
  ghost predicate Trace(g: Region, path: seq<nat>, j: nat, regs: seq<Reg>)
    requires g.Valid()
  {
    && j < |path| - 1 && |regs| == |path| - 1 - j && (forall k | 0 <= k < |regs| :: CalleeSaved(regs[k]))
    && Soils(EffectAt(g, path, j), regs[0])
    && forall k | 0 < k < |regs| :: Carries(EffectAt(g, path, j + k), regs[k - 1], regs[k])
  }

  ghost predicate Traced(g: Region, path: seq<nat>, r: Reg)
    requires g.Valid()
  {
    exists j: nat, regs :: Trace(g, path, j, regs) && regs[|regs| - 1] == r
  }

  lemma TraceLonger(g: Region, path: seq<nat>, q: Reg, r: Reg)
    requires g.Valid() && |path| > 1 && CalleeSaved(r) && Traced(g, path[..|path| - 1], q)
    requires Carries(EffectAt(g, path, |path| - 2), q, r)
    ensures Traced(g, path, r)
  {
    var m, shorter := |path| - 2, path[..|path| - 1];
    var j: nat, regs :| Trace(g, shorter, j, regs) && regs[|regs| - 1] == q;
    assert forall k | 0 <= k < m :: EffectAt(g, shorter, k) == EffectAt(g, path, k);
    assert Trace(g, path, j, regs + [r]);
  }

  lemma TraceShorter(g: Region, path: seq<nat>, j: nat, regs: seq<Reg>)
    requires g.Valid() && Trace(g, path, j, regs) && |regs| > 1
    ensures Trace(g, path[..|path| - 1], j, regs[..|regs| - 1])
    ensures Carries(EffectAt(g, path, |path| - 2), regs[|regs| - 2], regs[|regs| - 1])
  {
    assert forall k | 0 <= k < |path| - 2 :: EffectAt(g, path[..|path| - 1], k) == EffectAt(g, path, k);
    assert |path| - 2 == j + (|regs| - 1);
  }

  /** The dirt of r comes from q in the run up to the last instruction e. */
  ghost predicate HandedOn(g: Region, shorter: seq<nat>, e: Effect, r: Reg)
    requires g.Valid()
  {
    exists q :: Traced(g, shorter, q) && Carries(e, q, r)
  }

  lemma TraceEnds(g: Region, path: seq<nat>, j: nat, regs: seq<Reg>)
    requires g.Valid() && Trace(g, path, j, regs)
    ensures var e, r := EffectAt(g, path, |path| - 2), regs[|regs| - 1];
      Soils(e, r) || HandedOn(g, path[..|path| - 1], e, r)
  {
    if |regs| > 1 {
      TraceShorter(g, path, j, regs);
      assert Traced(g, path[..|path| - 1], regs[|regs| - 2]);
    }
  }

  lemma TracedShorter(g: Region, path: seq<nat>, r: Reg)
    requires g.Valid() && |path| > 1 && CalleeSaved(r)
    ensures var e := EffectAt(g, path, |path| - 2);
      Traced(g, path, r) <==> Soils(e, r) || HandedOn(g, path[..|path| - 1], e, r)
  {
    var m, shorter := |path| - 2, path[..|path| - 1];
    var e := EffectAt(g, path, m);
    if Soils(e, r) {
      assert Trace(g, path, m, [r]);
    }
    if HandedOn(g, shorter, e, r) {
      var q :| Traced(g, shorter, q) && Carries(e, q, r);
      TraceLonger(g, path, q, r);
    }
    if Traced(g, path, r) {
      var j: nat, regs :| Trace(g, path, j, regs) && regs[|regs| - 1] == r;
      TraceEnds(g, path, j, regs);
    }
  }

  /** A callee-saved register is dirty at the end of a run exactly when the dirt
      can be traced back to the instruction that made it. */
  lemma {:induction false} DirtyIsTraced(g: Region, path: seq<nat>, i: nat, r: Reg)
    requires g.Valid() && Path(g, path, i)
    ensures r in Arrive(g, path, i).dirty <==> CalleeSaved(r) && Traced(g, path, r)
    decreases |path|
  {
    DirtyIsCalleeSaved(g, path, i);
    if |path| > 1 && CalleeSaved(r) {
      var p, shorter := path[|path| - 2], path[..|path| - 1];
      var d := Arrive(g, shorter, p).dirty;
      DirtyIsCalleeSaved(g, shorter, p);
      DirtyLaw(d, g.effects[p], r);
      forall q
        ensures q in d <==> CalleeSaved(q) && Traced(g, shorter, q)
      {
        DirtyIsTraced(g, shorter, p, q);
      }
      TracedShorter(g, path, r);
    }
  }

  // ---- Runs without copies -------------------------------------------------

  /** Instruction j of the run makes r dirty and none after it loads r. */
  ghost predicate LeftDirty(g: Region, path: seq<nat>, j: nat, r: Reg)
    requires g.Valid()
  {
    && j < |path| - 1 && Soils(EffectAt(g, path, j), r)
    && forall k: nat | j < k < |path| - 1 :: !Mentions(EffectAt(g, path, k).loads, r)
  }

  ghost predicate NoCopiesOn(g: Region, path: seq<nat>)
    requires g.Valid()
  {
    forall k: nat | k < |path| - 1 :: !CopiesTracked(EffectAt(g, path, k))
  }

  /** Where nothing is copied from a callee-saved register: a register is dirty
      exactly when it was written, or x30 by a call, and not loaded since. */
  lemma {:induction false} DirtyWithoutCopies(g: Region, path: seq<nat>, i: nat, r: Reg)
    requires g.Valid() && Path(g, path, i) && NoCopiesOn(g, path)
    ensures r in Arrive(g, path, i).dirty <==> CalleeSaved(r) && exists j: nat :: LeftDirty(g, path, j, r)
    decreases |path|
  {
    DirtyIsCalleeSaved(g, path, i);
    if |path| > 1 && CalleeSaved(r) {
      var p, m, shorter := path[|path| - 2], |path| - 2, path[..|path| - 1];
      var e := EffectAt(g, path, m);
      assert forall k: nat | k < m :: EffectAt(g, shorter, k) == EffectAt(g, path, k);
      DirtyIsCalleeSaved(g, shorter, p);
      DirtyLaw(Arrive(g, shorter, p).dirty, e, r);
      assert NoCopiesOn(g, shorter) by {
        assert forall k: nat | k < m :: !CopiesTracked(EffectAt(g, path, k));
      }
      DirtyWithoutCopies(g, shorter, p, r);
      LeftDirtyShorter(g, path, r);
      assert !CopiesTracked(e);
    }
  }

  lemma LeftDirtyShorter(g: Region, path: seq<nat>, r: Reg)
    requires g.Valid() && |path| > 1
    ensures var e, shorter := EffectAt(g, path, |path| - 2), path[..|path| - 1];
      (exists j: nat :: LeftDirty(g, path, j, r))
        <==> Soils(e, r) || (!Mentions(e.loads, r) && exists j: nat :: LeftDirty(g, shorter, j, r))
  {
    var m, shorter := |path| - 2, path[..|path| - 1];
    var e := EffectAt(g, path, m);
    assert forall k: nat | k < m :: EffectAt(g, shorter, k) == EffectAt(g, path, k);
    if Soils(e, r) {
      assert LeftDirty(g, path, m, r);
    }
    if !Mentions(e.loads, r) && exists j: nat :: LeftDirty(g, shorter, j, r) {
      var j: nat :| LeftDirty(g, shorter, j, r);
      assert LeftDirty(g, path, j, r);
    }
    if exists j: nat :: LeftDirty(g, path, j, r) {
      var j: nat :| LeftDirty(g, path, j, r);
      if j < m {
        assert LeftDirty(g, shorter, j, r);
      }
    }
  }

  /** x30 counts as saved, and a call as made, once an instruction did so. */
  lemma {:induction false} SavedAndCalled(g: Region, path: seq<nat>, i: nat)
    requires g.Valid() && Path(g, path, i)
    ensures Arrive(g, path, i).savedX30
       <==> exists k :: 0 <= k < |path| - 1 && Mentions(EffectAt(g, path, k).stores, X30)
    ensures Arrive(g, path, i).called <==> exists k :: 0 <= k < |path| - 1 && EffectAt(g, path, k).calls
    decreases |path|
  {
    if |path| > 1 {
      var m, shorter := |path| - 2, path[..|path| - 1];
      SavedAndCalled(g, shorter, path[m]);
      assert forall k | 0 <= k < m :: EffectAt(g, shorter, k) == EffectAt(g, path, k);
      var e := EffectAt(g, path, m);
      assert Mentions(e.stores, X30) <==> SavesX30(e.stores) by {
        forall k | 0 <= k < |e.stores|
          ensures Names(e.stores[k], X30) <==> Normalise(e.stores[k]) == X30
        {
          NamesTracked(e.stores[k], X30);
        }
      }
    }
  }

  // ---- What the checker reports --------------------------------------------

  /** The registers that a return does not restore are those to which dirt can
      be traced on some entry path. */
  lemma ReportsTraced(g: Region, i: nat, reports: seq<Warning>, r: Reg)
    requires g.Valid() && i < g.Size() && TellsOfRuns(g, i, reports) && g.effects[i].exit.Some? && CalleeSaved(r)
    ensures (NotRestored(r) in reports || (r == X30 && DirtyReturnAddress in reports))
       <==> (r != X30 || g.effects[i].exit == Some(X30)) && exists path :: EntryPath(g, path, i) && Traced(g, path, r)
  {
    if DirtyOn(g, i, r) {
      var path :| EntryPath(g, path, i) && r in Arrive(g, path, i).dirty;
      DirtyIsTraced(g, path, i, r);
    }
    if exists path :: EntryPath(g, path, i) && Traced(g, path, r) {
      var path :| EntryPath(g, path, i) && Traced(g, path, r);
      DirtyIsTraced(g, path, i, r);
      assert DirtyOn(g, i, r);
    }
  }

  /** A ret reached from a call, with x30 neither loaded nor written on the way,
      is reported. */
  lemma CallReported(g: Region, path: seq<nat>, i: nat, j: nat, reports: seq<Warning>)
    requires g.Valid() && i < g.Size() && TellsOfRuns(g, i, reports) && g.effects[i].exit == Some(X30)
    requires EntryPath(g, path, i) && j < |path| - 1 && EffectAt(g, path, j).calls
    requires forall k: nat | j < k < |path| - 1 ::
      !Mentions(EffectAt(g, path, k).loads, X30) && !Mentions(EffectAt(g, path, k).dirtied, X30)
    ensures DirtyReturnAddress in reports
  {
    assert Trace(g, path, j, seq(|path| - 1 - j, _ => X30));
    ReportsTraced(g, i, reports, X30);
  }

  // ---- SP ------------------------------------------------------------------

  /** The SP adjustments of the run from its j-th instruction on. */
  ghost function Moved(g: Region, path: seq<nat>, j: nat): int
    requires g.Valid() && j < |path|
    decreases |path| - j
  {
    if j == |path| - 1 then 0
    else
      var delta := EffectAt(g, path, j).spDelta;
      (if delta.Some? then delta.value else 0) + Moved(g, path, j + 1)
  }

  lemma {:induction false} MovedShorter(g: Region, path: seq<nat>, j: nat)
    requires g.Valid() && j < |path| - 1
    ensures var delta := EffectAt(g, path, |path| - 2).spDelta;
      Moved(g, path, j) == Moved(g, path[..|path| - 1], j) + if delta.Some? then delta.value else 0
    decreases |path| - j
  {
    assert EffectAt(g, path[..|path| - 1], j) == EffectAt(g, path, j);
    if j < |path| - 2 {
      MovedShorter(g, path, j + 1);
    }
  }

  /** SP is displaced by the adjustments since it was last restored, or since
      the run began. */
  lemma {:induction false} DisplacedSince(g: Region, path: seq<nat>, i: nat, j: nat)
    requires g.Valid() && Path(g, path, i) && j < |path|
    requires j == 0 || (j < |path| - 1 && EffectAt(g, path, j).spRestore)
    requires forall k: nat | j < k < |path| - 1 :: !EffectAt(g, path, k).spRestore
    ensures Displacement(g, path, i) == Moved(g, path, j)
    decreases |path|
  {
    if |path| > 1 {
      var p, m, shorter := path[|path| - 2], |path| - 2, path[..|path| - 1];
      assert forall k: nat | k < m :: EffectAt(g, shorter, k) == EffectAt(g, path, k);
      MovedShorter(g, path, j);
      if j < m {
        DisplacedSince(g, shorter, p, j);
      } else if j == 0 {
        assert Displacement(g, shorter, p) == 0;
      }
    }
  }
}
