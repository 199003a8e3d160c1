/** The saved-register checker on a function behind a nop. There no edge enters
    instruction 0, so nothing is lost where that is pinned to the clean state,
    and the verdict on the guarded function is about every run of the original. */
module EntryGuard {
  import opened Wrappers
  import opened Flags
  import opened SavedRegs
  import opened PassBound

  /** Every instruction one place later. */
  function Shifted(path: seq<nat>): (s: seq<nat>)
    ensures |s| == |path| && forall k | 0 <= k < |s| :: s[k] == path[k] + 1
  {
    seq(|path|, k requires 0 <= k < |path| => path[k] + 1)
  }

  /** The region with a nop in front that falls through to it. */
  function Guarded(g: Region): (h: Region)
    requires g.Valid()
    ensures h.Valid() && h.Size() == g.Size() + 1
    ensures h.effects[0] == PLAIN && forall i: nat | i < g.Size() :: h.effects[i + 1] == g.effects[i]
  {
    Region([[1]] + seq(g.Size(), i requires 0 <= i < g.Size() => Shifted(g.succ[i])), [PLAIN] + g.effects)
  }

  /** All that matters about the guarded region. */
  ghost predicate Guards(g: Region, h: Region) {
    && g.Valid() && h.Valid() && h.Size() == g.Size() + 1
    && h.effects[0] == PLAIN && (forall i: nat :: EffectBehind(g, h, i))
    && NoEdgeIntoEntry(h) && (forall i: nat :: Edge(h, 0, i) <==> i == 1)
    && forall p: nat, i: nat :: EdgeBehind(g, h, p, i)
  }

  ghost predicate EffectBehind(g: Region, h: Region, i: nat)
    requires g.Valid() && h.Valid() && h.Size() == g.Size() + 1
  {
    i < g.Size() ==> h.effects[i + 1] == g.effects[i]
  }

  ghost predicate EdgeBehind(g: Region, h: Region, p: nat, i: nat) {
    Edge(h, p + 1, i + 1) <==> Edge(g, p, i)
  }

  lemma GuardedGuards(g: Region)
    requires g.Valid()
    ensures Guards(g, Guarded(g))
  {
    var h := Guarded(g);
    forall p: nat, i: nat
      ensures EdgeBehind(g, h, p, i)
    {
      if Edge(g, p, i) {
        var k :| 0 <= k < |g.succ[p]| && g.succ[p][k] == i;
        assert Shifted(g.succ[p])[k] == i + 1;
      }
    }
  }

  /** The run that passes the nop and then goes path. */
  function Behind(path: seq<nat>): (s: seq<nat>)
    ensures |s| == |path| + 1
  {
    [0] + Shifted(path)
  }

  lemma BehindSnoc(path: seq<nat>, i: nat)
    ensures Behind(path + [i]) == Behind(path) + [i + 1]
  {
    assert Shifted(path + [i]) == Shifted(path) + [i + 1];
  }

  /** The run stays away from instruction 0 of h, and is at the end in the
      state in which path is. */
  ghost predicate Follows(g: Region, h: Region, path: seq<nat>, run: seq<nat>, i: nat)
    requires g.Valid() && h.Valid() && Path(g, path, i)
  {
    && EntryPath(h, run, i + 1) && Arrive(h, run, i + 1) == Arrive(g, path, i)
    && Displacement(h, run, i + 1) == Displacement(g, path, i)
  }

  lemma FollowsFirst(g: Region, h: Region)
    requires Guards(g, h)
    ensures Path(g, [0], 0) && Follows(g, h, [0], Behind([0]), 0)
  {
    var run := Behind([0]);
    assert run == [0, 1] && run[..1] == [0];
    assert TrackedSet([]) == {};
  }

  lemma FollowsStep(g: Region, h: Region, path: seq<nat>, run: seq<nat>, p: nat, i: nat)
    requires Guards(g, h) && Path(g, path, p) && Follows(g, h, path, run, p) && Edge(g, p, i)
    ensures Path(g, path + [i], i) && Follows(g, h, path + [i], run + [i + 1], i)
  {
    OneMore(g, path, p, i);
    OneMoreDisplaced(g, path, p, i);
    assert EdgeBehind(g, h, p, i) && EffectBehind(g, h, p);
    ExtendPath(h, run, p + 1, i + 1);
    OneMoreDisplaced(h, run, p + 1, i + 1);
  }

  lemma OneMoreDisplaced(g: Region, path: seq<nat>, p: nat, i: nat)
    requires g.Valid() && Path(g, path, p) && Edge(g, p, i)
    ensures Path(g, path + [i], i)
    ensures Displacement(g, path + [i], i)
         == (if g.effects[p].spRestore then 0 else Displacement(g, path, p))
            + if g.effects[p].spDelta.Some? then g.effects[p].spDelta.value else 0
  {
    var longer := path + [i];
    assert longer[..|longer| - 1] == path && longer[|longer| - 2] == p;
  }

  lemma LastStep(g: Region, path: seq<nat>, i: nat) returns (p: nat, shorter: seq<nat>)
    requires g.Valid() && Path(g, path, i) && |path| > 1
    ensures path == shorter + [i] && Path(g, shorter, p) && Edge(g, p, i)
  {
    p, shorter := path[|path| - 2], path[..|path| - 1];
  }

  /** Every run of the region is one of the guarded region behind the nop. */
  lemma {:induction false} RunFollows(g: Region, h: Region, path: seq<nat>, i: nat)
    requires Guards(g, h) && Path(g, path, i)
    ensures Follows(g, h, path, Behind(path), i)
    decreases |path|
  {
    if |path| == 1 {
      assert path == [0];
      FollowsFirst(g, h);
    } else {
      var p, shorter := LastStep(g, path, i);
      RunFollows(g, h, shorter, p);
      BehindSnoc(shorter, i);
      FollowsStep(g, h, shorter, Behind(shorter), p, i);
    }
  }

  /** And every run of the guarded region past the nop is such a run. */
  lemma {:induction false} RunBehind(g: Region, h: Region, run: seq<nat>, i: nat) returns (path: seq<nat>)
    requires Guards(g, h) && Path(h, run, i + 1)
    ensures Path(g, path, i) && run == Behind(path)
    decreases |run|
  {
    var p, shorter := LastStep(h, run, i + 1);
    if p == 0 {
      assert shorter == [0];
      path := [0];
    } else {
      path := RunBehind(g, h, shorter, p - 1);
      assert EdgeBehind(g, h, p - 1, i);
      OneMore(g, path, p - 1, i);
      BehindSnoc(path, i);
      path := path + [i];
    }
  }

  /** What the checker looks at in the guarded region is every run. */
  lemma GuardedIsEveryRun(g: Region, i: nat, ret: Reg)
    requires g.Valid()
    ensures AllRestored(Guarded(g), i + 1, ret) <==> EveryRunRestored(g, i, ret)
  {
    GuardedGuards(g);
    GuardsEveryRun(g, Guarded(g), i, i + 1, ret);
  }

  lemma GuardsEveryRun(g: Region, h: Region, i: nat, j: nat, ret: Reg)
    requires Guards(g, h) && j == i + 1
    ensures AllRestored(h, j, ret) <==> EveryRunRestored(g, i, ret)
  {
    if AllRestored(h, j, ret) {
      forall path | Path(g, path, i)
        ensures RestoredOn(g, path, i, ret)
      {
        RunFollows(g, h, path, i);
        assert RestoredOn(h, Behind(path), j, ret);
      }
    }
    if EveryRunRestored(g, i, ret) {
      forall run | EntryPath(h, run, j)
        ensures RestoredOn(h, run, j, ret)
      {
        var path := RunBehind(g, h, run, i);
        RunFollows(g, h, path, i);
        assert RestoredOn(g, path, i, ret);
      }
    }
  }

  lemma GuardedAligned(g: Region, h: Region)
    requires Guards(g, h)
    ensures Aligned(h) <==> Aligned(g)
  {
    if Aligned(h) {
      forall i | 0 <= i < |g.effects| && g.effects[i].spDelta.Some?
        ensures g.effects[i].spDelta.value % 16 == 0
      {
        assert EffectBehind(g, h, i);
      }
    }
    if Aligned(g) {
      forall i | 0 <= i < |h.effects| && h.effects[i].spDelta.Some?
        ensures h.effects[i].spDelta.value % 16 == 0
      {
        assert i > 0 ==> EffectBehind(g, h, i - 1);
      }
    }
  }

  // ---- The returns a function has ------------------------------------------

  /** The runs that stay away from instruction 0 speak for every run at the
      return i. */
  ghost predicate Decided(g: Region, i: nat)
    requires g.Valid() && i < g.Size() && g.effects[i].exit.Some?
  {
    AllRestored(g, i, g.effects[i].exit.value) ==> EveryRunRestored(g, i, g.effects[i].exit.value)
  }

  /** A nop in front does not take the restoration at the return i away. */
  ghost predicate GuardChangesNothing(g: Region, i: nat)
    requires g.Valid() && i < g.Size() && g.effects[i].exit.Some?
  {
    AllRestored(g, i, g.effects[i].exit.value) ==> AllRestored(Guarded(g), i + 1, g.effects[i].exit.value)
  }

  /** At the returns a function has, its entry paths speak for every run exactly
      when a nop in front changes no verdict; it can only find more. */
  lemma ReturnsDecidedExactWhen(g: Region)
    requires g.Valid()
    ensures (forall i: nat | i < g.Size() && g.effects[i].exit.Some? :: Decided(g, i))
       <==> (forall i: nat | i < g.Size() && g.effects[i].exit.Some? :: GuardChangesNothing(g, i))
    ensures forall i: nat, ret | AllRestored(Guarded(g), i + 1, ret) :: AllRestored(g, i, ret)
  {
    forall i: nat, ret
      ensures AllRestored(Guarded(g), i + 1, ret) <==> EveryRunRestored(g, i, ret)
      ensures EveryRunRestored(g, i, ret) ==> AllRestored(g, i, ret)
    {
      GuardedIsEveryRun(g, i, ret);
    }
  }

  lemma SilentBehindNop(g: Region, found: seq<seq<Warning>>)
    requires g.Valid() && |found| == g.Size() + 1
    requires forall j: nat | j < |found| && Guarded(g).effects[j].exit.Some? ::
      found[j] == [] <==> AllRestored(Guarded(g), j, Guarded(g).effects[j].exit.value)
    ensures forall i: nat | i < g.Size() && g.effects[i].exit.Some? ::
      found[i + 1] == [] <==> EveryRunRestored(g, i, g.effects[i].exit.value)
  {
    forall i: nat | i < g.Size() && g.effects[i].exit.Some?
      ensures found[i + 1] == [] <==> EveryRunRestored(g, i, g.effects[i].exit.value)
    {
      GuardedIsEveryRun(g, i, g.effects[i].exit.value);
      assert Guarded(g).effects[i + 1] == g.effects[i];
    }
  }

  /** The check of the function behind a nop: after the exit for no change, a
      return is silent exactly when every run restores all it must. */
  method CheckGuarded(g: Region) returns (found: seq<seq<Warning>>, converged: bool)
    requires g.Valid()
    ensures |found| == g.Size() + 1
    ensures converged && Aligned(g) ==> forall i: nat | i < g.Size() && g.effects[i].exit.Some? ::
      found[i + 1] == [] <==> EveryRunRestored(g, i, g.effects[i].exit.value)
  {
    found, converged := CheckReturns(Guarded(g));
    if converged && Aligned(g) {
      GuardedGuards(g);
      GuardedAligned(g, Guarded(g));
      SilentBehindNop(g, found);
    }
  }

  /** With few enough loops, those through the old entry included, the exit for
      no change is certain. */
  method CheckGuardedFewLoops(g: Region, ghost h: nat) returns (found: seq<seq<Warning>>)
    requires g.Valid() && Aligned(g) && FewLoops(Guarded(g), h)
    ensures |found| == g.Size() + 1
    ensures forall i: nat | i < g.Size() && g.effects[i].exit.Some? ::
      found[i + 1] == [] <==> EveryRunRestored(g, i, g.effects[i].exit.value)
  {
    GuardedGuards(g);
    GuardedAligned(g, Guarded(g));
    found := CheckFewLoops(Guarded(g), h);
    SilentBehindNop(g, found);
  }

  /** Both checks: the verdict at a return of the function as it stands is right
      about every run exactly when the two agree there. */
  method CompareChecks(g: Region) returns (plain: seq<seq<Warning>>, guarded: seq<seq<Warning>>, converged: bool)
    requires g.Valid()
    ensures |plain| == g.Size() && |guarded| == g.Size() + 1
    ensures converged && Aligned(g) ==> forall i: nat | i < g.Size() && g.effects[i].exit.Some? ::
      (plain[i] == [] <==> EveryRunRestored(g, i, g.effects[i].exit.value))
        <==> (plain[i] == [] <==> guarded[i + 1] == [])
    ensures converged && Aligned(g) ==> forall i: nat | i < g.Size() && g.effects[i].exit.Some? ::
      Decided(g, i) <==> (plain[i] == [] ==> guarded[i + 1] == [])
  {
    var first, second;
    plain, first := CheckReturns(g);
    guarded, second := CheckGuarded(g);
    converged := first && second;
  }

  // ---- What comes back need not be restored --------------------------------

  /** A loop back to instruction 0 around a write of x19, which is loaded again
      before the return: 0: cbz to 3;  1: mov x19, ...;  2: b to 0;
      3: ldr x19, ...;  4: ret. */
  function LoadedLate(): (g: Region)
    ensures g.Valid()
  {
    Region([[1, 3], [2], [0], [4], []],
           [PLAIN, PLAIN.(dirtied := [X(19)]), PLAIN, PLAIN.(loads := [X(19)]), PLAIN.(exit := Some(X30))])
  }

  lemma OnlyX19()
    ensures TrackedSet([X(19)]) == {X(19)} && TrackedSet([]) == {}
  {
    assert [X(19)][0] == X(19);
  }

  lemma {:induction false} LoadedLateRuns(g: Region, path: seq<nat>, i: nat)
    requires g == LoadedLate() && Path(g, path, i)
    ensures var f := Arrive(g, path, i); f.dirty <= {X(19)} && (i == 4 ==> f.dirty == {})
    ensures Displacement(g, path, i) == 0
    decreases |path|
  {
    if |path| > 1 {
      var p, shorter := path[|path| - 2], path[..|path| - 1];
      LoadedLateRuns(g, shorter, p);
      OnlyX19();
      assert i == 4 ==> p == 3;
    }
  }

  /** Every run to the one return restores everything, though a run comes back
      to instruction 0 with x19 dirty. */
  lemma ReturnsRestoredNotNeeded()
    ensures var g := LoadedLate(); Aligned(g) && EveryRunRestored(g, 4, X30) && Decided(g, 4) && !ReturnsRestored(g)
  {
    var g := LoadedLate();
    forall path | Path(g, path, 4)
      ensures RestoredOn(g, path, 4, X30)
    {
      LoadedLateRuns(g, path, 4);
    }
    assert EntryPath(g, [0], 0);
    ExtendPath(g, [0], 0, 1);
    ExtendPath(g, [0, 1], 1, 2);
    OnlyX19();
    assert [0, 1] + [2] == [0, 1, 2] && [0] + [1] == [0, 1];
    assert X(19) in Arrive(g, [0, 1, 2], 2).dirty;
    assert !ComesBackRestored(g, [0, 1, 2], 2);
  }
}
