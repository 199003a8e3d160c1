/** The callee-saved and stack-pointer checker: a forward fixpoint over the
    control-flow graph, compared with a definition over entry paths. */
module SavedRegs {
  import opened Wrappers
  import opened Flags

  /** A register as the parser spells it. */
  datatype Reg = X(n: nat) | V(n: nat) | D(n: nat) | Q(n: nat) | Other(spelling: string)

  const X30 := X(30)

  /** normalise_reg: the d and q spellings name the v register. */
  function Normalise(r: Reg): Reg {
    match r
    case D(n) => if n < 32 then V(n) else r
    case Q(n) => if n < 32 then V(n) else r
    case _ => r
  }

  /** A callee-saved register under its normalised spelling. */
  predicate CalleeSaved(r: Reg) {
    (r.X? && 19 <= r.n <= 30) || (r.V? && 8 <= r.n < 16)
  }

  predicate IsTracked(r: Reg) {
    CalleeSaved(Normalise(r))
  }

  function TrackedSet(regs: seq<Reg>): set<Reg> {
    set k | 0 <= k < |regs| && IsTracked(regs[k]) :: Normalise(regs[k])
  }

  /** What one parsed instruction does to the tracked state. */
  datatype Effect = Effect(
    loads: seq<Reg>, stores: seq<Reg>, dirtied: seq<Reg>, copyFrom: Option<Reg>,
    calls: bool, spRestore: bool, spDelta: Option<int>, exit: Option<Reg>)

  /** The value of a State; sp == -1 stands for unknown. */
  datatype Facts = Facts(dirty: set<Reg>, sp: int, savedX30: bool, called: bool)

  const CLEAN := Facts({}, 0, false, false)

  // ---- One instruction -----------------------------------------------------

  function SpAfter(sp: int, e: Effect): int {
    var start := if e.spRestore then 0 else sp;
    if e.spDelta.Some? && start != -1 then start + e.spDelta.value else start
  }

  /** The registers dirty after the loads, the copy or write, and the call. */
  function DirtyAfter(dirty: set<Reg>, e: Effect): set<Reg> {
    var loaded := dirty - TrackedSet(e.loads);
    var written :=
      if e.copyFrom.Some? && IsTracked(e.copyFrom.value) && Normalise(e.copyFrom.value) !in loaded
      then loaded - TrackedSet(e.dirtied)
      else loaded + TrackedSet(e.dirtied);
    if e.calls then written + {X30} else written
  }

  predicate SavesX30(stores: seq<Reg>) {
    exists k | 0 <= k < |stores| :: Normalise(stores[k]) == X30
  }

  /** The meaning of apply_effect. */
  function Applied(f: Facts, e: Effect): Facts {
    Facts(DirtyAfter(f.dirty, e), SpAfter(f.sp, e), f.savedX30 || SavesX30(e.stores), f.called || e.calls)
  }

  /** The meaning of join on two states. */
  function Join2(a: Facts, b: Facts): Facts {
    Facts(a.dirty + b.dirty, if a.sp != b.sp then -1 else a.sp, a.savedX30 || b.savedX30, a.called || b.called)
  }

  function JoinAll(s: seq<Facts>): Facts {
    if s == [] then CLEAN
    else if |s| == 1 then s[0]
    else Join2(JoinAll(s[..|s| - 1]), s[|s| - 1])
  }

  /** The data-flow state the checker carries and updates in place. */
  class State {
    var dirty: set<Reg>
    var spNet: int
    var savedX30: bool
    var called: bool

    constructor ()
      ensures Value() == CLEAN
    {
      dirty, spNet, savedX30, called := {}, 0, false, false;
    }

    function Value(): Facts
      reads this
    {
      Facts(dirty, spNet, savedX30, called)
    }

    method Copy() returns (c: State)
      ensures fresh(c) && c.Value() == Value()
    {
      c := new State();
      c.dirty, c.spNet, c.savedX30, c.called := dirty, spNet, savedX30, called;
    }

    /** One step of join: merge another state into this one. */
    method Absorb(other: State)
      requires other != this
      modifies this
      ensures Value() == Join2(old(Value()), other.Value())
    {
      dirty := dirty + other.dirty;
      if spNet != other.spNet {
        spNet := -1;
      }
      savedX30 := savedX30 || other.savedX30;
      called := called || other.called;
    }

    method Restore(loads: seq<Reg>)
      modifies this`dirty
      ensures dirty == old(dirty) - TrackedSet(loads)
    {
      for k := 0 to |loads|
        invariant dirty == old(dirty) - TrackedSet(loads[..k])
      {
        TrackedSnoc(loads, k);
        if IsTracked(loads[k]) {
          dirty := dirty - {Normalise(loads[k])};
        }
      }
      assert loads[..|loads|] == loads;
    }

    method NoteStores(stores: seq<Reg>)
      modifies this`savedX30
      ensures savedX30 == (old(savedX30) || SavesX30(stores))
    {
      for k := 0 to |stores|
        invariant savedX30 == (old(savedX30) || exists j | 0 <= j < k :: Normalise(stores[j]) == X30)
      {
        if Normalise(stores[k]) == X30 {
          savedX30 := true;
        }
      }
    }

    /** Write the destinations; a copy from a clean tracked register cleans them. */
    method Write(dirtied: seq<Reg>, clean: bool)
      modifies this`dirty
      ensures dirty == if clean then old(dirty) - TrackedSet(dirtied) else old(dirty) + TrackedSet(dirtied)
    {
      for k := 0 to |dirtied|
        invariant dirty
               == if clean then old(dirty) - TrackedSet(dirtied[..k]) else old(dirty) + TrackedSet(dirtied[..k])
      {
        TrackedSnoc(dirtied, k);
        if IsTracked(dirtied[k]) {
          if clean {
            dirty := dirty - {Normalise(dirtied[k])};
          } else {
            dirty := dirty + {Normalise(dirtied[k])};
          }
        }
      }
      assert dirtied[..|dirtied|] == dirtied;
    }

    /** apply_effect */
    method ApplyEffect(e: Effect)
      modifies this
      ensures Value() == Applied(old(Value()), e)
    {
      Restore(e.loads);
      NoteStores(e.stores);
      var clean := false;
      if e.copyFrom.Some? && IsTracked(e.copyFrom.value) {
        clean := Normalise(e.copyFrom.value) !in dirty;
      }
      Write(e.dirtied, clean);
      if e.calls {
        called, dirty := true, dirty + {X30};
      }
      if e.spRestore {
        spNet := 0;
      }
      if e.spDelta.Some? && spNet != -1 {
        spNet := spNet + e.spDelta.value;
      }
    }
  }

  lemma TrackedSnoc(regs: seq<Reg>, k: nat)
    requires k < |regs|
    ensures TrackedSet(regs[..k + 1])
         == if IsTracked(regs[k]) then TrackedSet(regs[..k]) + {Normalise(regs[k])} else TrackedSet(regs[..k])
  {
    var more, less := regs[..k + 1], regs[..k];
    assert more == less + [regs[k]];
    forall r
      ensures r in TrackedSet(more) <==> r in TrackedSet(less) || (IsTracked(regs[k]) && r == Normalise(regs[k]))
    {
      if r in TrackedSet(less) {
        var j :| 0 <= j < |less| && IsTracked(less[j]) && Normalise(less[j]) == r;
        assert more[j] == less[j];
      }
      if IsTracked(regs[k]) && r == Normalise(regs[k]) {
        assert more[k] == regs[k];
      }
      if r in TrackedSet(more) {
        var j :| 0 <= j < |more| && IsTracked(more[j]) && Normalise(more[j]) == r;
        assert j < k ==> less[j] == more[j];
      }
    }
  }

  // ---- Regions and their entry paths ---------------------------------------

  /** The instructions of a region with the edges between them. */
  datatype Region = Region(succ: seq<seq<nat>>, effects: seq<Effect>)
  {
    ghost predicate Valid() {
      && |succ| == |effects| > 0
      && forall i, k | 0 <= i < |succ| && 0 <= k < |succ[i]| :: succ[i][k] < |succ|
    }

    function Size(): nat {
      |succ|
    }
  }

  ghost predicate Edge(g: Region, p: nat, i: nat) {
    p < g.Size() && i < g.Size() && i in g.succ[p]
  }

  /** A run of the region that starts at instruction 0 and arrives at i. */
  ghost predicate Path(g: Region, path: seq<nat>, i: nat)
    decreases |path|
  {
    && path != [] && path[|path| - 1] == i
    && if |path| == 1 then i == 0
       else Edge(g, path[|path| - 2], i) && Path(g, path[..|path| - 1], path[|path| - 2])
  }

  /** Such a run that does not come back to instruction 0. */
  ghost predicate EntryPath(g: Region, path: seq<nat>, i: nat) {
    Path(g, path, i) && forall j | 0 < j < |path| :: path[j] != 0
  }

  /** The state with which a run arrives at its last instruction. */
  ghost function Arrive(g: Region, path: seq<nat>, i: nat): Facts
    requires g.Valid() && Path(g, path, i)
    decreases |path|
  {
    if |path| == 1 then CLEAN
    else Applied(Arrive(g, path[..|path| - 1], path[|path| - 2]), g.effects[path[|path| - 2]])
  }

  /** The true displacement of SP on that run. */
  ghost function Displacement(g: Region, path: seq<nat>, i: nat): int
    requires g.Valid() && Path(g, path, i)
    decreases |path|
  {
    if |path| == 1 then 0
    else
      var e := g.effects[path[|path| - 2]];
      var start := if e.spRestore then 0 else Displacement(g, path[..|path| - 1], path[|path| - 2]);
      start + if e.spDelta.Some? then e.spDelta.value else 0
  }

  ghost predicate NoEdgeIntoEntry(g: Region) {
    forall p: nat :: !Edge(g, p, 0)
  }

  ghost predicate Reachable(g: Region, i: nat) {
    exists path :: EntryPath(g, path, i)
  }

  lemma ExtendPath(g: Region, path: seq<nat>, p: nat, i: nat)
    requires g.Valid() && EntryPath(g, path, p) && Edge(g, p, i) && i != 0
    ensures EntryPath(g, path + [i], i)
    ensures Arrive(g, path + [i], i) == Applied(Arrive(g, path, p), g.effects[p])
  {
    var longer := path + [i];
    assert longer[..|longer| - 1] == path && longer[|longer| - 2] == p;
  }

  // ---- From below: every state is attained ---------------------------------

  ghost predicate DirtyOn(g: Region, i: nat, r: Reg)
    requires g.Valid()
  {
    exists path :: EntryPath(g, path, i) && r in Arrive(g, path, i).dirty
  }

  ghost predicate SavedOn(g: Region, i: nat)
    requires g.Valid()
  {
    exists path :: EntryPath(g, path, i) && Arrive(g, path, i).savedX30
  }

  ghost predicate CalledOn(g: Region, i: nat)
    requires g.Valid()
  {
    exists path :: EntryPath(g, path, i) && Arrive(g, path, i).called
  }

  ghost predicate SpOn(g: Region, i: nat, sp: int)
    requires g.Valid()
  {
    exists path :: EntryPath(g, path, i) && Arrive(g, path, i).sp == sp
  }

  /** Some run has this displacement, or is unknown, or two runs disagree. */
  ghost predicate SpAttained(g: Region, i: nat, sp: int)
    requires g.Valid()
  {
    SpOn(g, i, sp) || (sp == -1 && exists a, b :: SpOn(g, i, a) && SpOn(g, i, b) && a != b)
  }

  /** Everything the state says happens on some entry path. */
  ghost predicate Attained(g: Region, i: nat, f: Facts)
    requires g.Valid()
  {
    && (forall r | r in f.dirty :: DirtyOn(g, i, r))
    && (f.savedX30 ==> SavedOn(g, i)) && (f.called ==> CalledOn(g, i))
    && SpAttained(g, i, f.sp)
  }

  lemma StartAttained(g: Region)
    requires g.Valid()
    ensures Attained(g, 0, CLEAN)
  {
    assert EntryPath(g, [0], 0) && Arrive(g, [0], 0) == CLEAN;
    assert SpOn(g, 0, 0);
  }

  lemma ReachableStep(g: Region, p: nat, i: nat)
    requires g.Valid() && Reachable(g, p) && Edge(g, p, i) && i != 0
    ensures Reachable(g, i)
  {
    var path :| EntryPath(g, path, p);
    ExtendPath(g, path, p, i);
  }

  /** A register dirty before is dirty after, if the instruction leaves it. */
  lemma DirtyStays(g: Region, p: nat, i: nat, r: Reg)
    requires g.Valid() && DirtyOn(g, p, r) && Edge(g, p, i) && i != 0
    requires forall d | r in d :: r in DirtyAfter(d, g.effects[p])
    ensures DirtyOn(g, i, r)
  {
    var path :| EntryPath(g, path, p) && r in Arrive(g, path, p).dirty;
    ExtendPath(g, path, p, i);
    assert r in Arrive(g, path + [i], i).dirty;
  }

  lemma DirtyWritten(g: Region, p: nat, i: nat, r: Reg)
    requires g.Valid() && Reachable(g, p) && Edge(g, p, i) && i != 0
    requires forall d :: r in DirtyAfter(d, g.effects[p])
    ensures DirtyOn(g, i, r)
  {
    var path :| EntryPath(g, path, p);
    ExtendPath(g, path, p, i);
    assert r in Arrive(g, path + [i], i).dirty;
  }

  lemma SpOnStep(g: Region, p: nat, i: nat, sp: int)
    requires g.Valid() && Edge(g, p, i) && i != 0 && SpOn(g, p, sp)
    ensures SpOn(g, i, SpAfter(sp, g.effects[p]))
  {
    var path :| EntryPath(g, path, p) && Arrive(g, path, p).sp == sp;
    ExtendPath(g, path, p, i);
  }

  lemma SpAttainedStep(g: Region, p: nat, i: nat, sp: int)
    requires g.Valid() && Edge(g, p, i) && i != 0 && SpAttained(g, p, sp)
    ensures SpAttained(g, i, SpAfter(sp, g.effects[p]))
  {
    if SpOn(g, p, sp) {
      SpOnStep(g, p, i, sp);
    } else {
      var a, b :| SpOn(g, p, a) && SpOn(g, p, b) && a != b;
      SpOnStep(g, p, i, a);
      SpOnStep(g, p, i, b);
    }
  }

  /** A register dirty after an instruction is so for a reason visible on one
      path: it was written here, or was dirty, or was copied from a dirty one. */
  lemma DirtyReason(dirty: set<Reg>, e: Effect, r: Reg)
    requires r in DirtyAfter(dirty, e)
    ensures (forall d :: r in DirtyAfter(d, e)) || exists q :: q in dirty && forall d | q in d :: r in DirtyAfter(d, e)
  {
    if !(forall d :: r in DirtyAfter(d, e)) {
      var src := if e.copyFrom.Some? then Normalise(e.copyFrom.value) else r;
      if r in dirty && forall d | r in d :: r in DirtyAfter(d, e) {
      } else {
        assert src in dirty && forall d | src in d :: r in DirtyAfter(d, e);
      }
    }
  }

  lemma DirtyStep(g: Region, p: nat, i: nat, f: Facts, r: Reg)
    requires g.Valid() && Edge(g, p, i) && i != 0 && Attained(g, p, f) && r in DirtyAfter(f.dirty, g.effects[p])
    ensures DirtyOn(g, i, r)
  {
    var e := g.effects[p];
    DirtyReason(f.dirty, e, r);
    if forall d :: r in DirtyAfter(d, e) {
      var sp := SomeSp(g, p, f.sp);
      DirtyWritten(g, p, i, r);
    } else {
      var q :| q in f.dirty && forall d | q in d :: r in DirtyAfter(d, e);
      assert DirtyOn(g, p, q);
      var path :| EntryPath(g, path, p) && q in Arrive(g, path, p).dirty;
      ExtendPath(g, path, p, i);
      assert r in Arrive(g, path + [i], i).dirty;
    }
  }

  ghost function SomeSp(g: Region, i: nat, sp: int): (a: int)
    requires g.Valid() && SpAttained(g, i, sp)
    ensures SpOn(g, i, a)
  {
    var a :| SpOn(g, i, a); a
  }

  lemma SavedStep(g: Region, p: nat, i: nat, f: Facts)
    requires g.Valid() && Edge(g, p, i) && i != 0 && Attained(g, p, f)
    ensures f.savedX30 || SavesX30(g.effects[p].stores) ==> SavedOn(g, i)
  {
    var sp := SomeSp(g, p, f.sp);
    if f.savedX30 {
      var path :| EntryPath(g, path, p) && Arrive(g, path, p).savedX30;
      ExtendPath(g, path, p, i);
      assert Arrive(g, path + [i], i).savedX30;
    } else if SavesX30(g.effects[p].stores) {
      var any :| EntryPath(g, any, p) && Arrive(g, any, p).sp == sp;
      ExtendPath(g, any, p, i);
      assert Arrive(g, any + [i], i).savedX30;
    }
  }

  lemma CalledStep(g: Region, p: nat, i: nat, f: Facts)
    requires g.Valid() && Edge(g, p, i) && i != 0 && Attained(g, p, f)
    ensures f.called || g.effects[p].calls ==> CalledOn(g, i)
  {
    var sp := SomeSp(g, p, f.sp);
    if f.called {
      var path :| EntryPath(g, path, p) && Arrive(g, path, p).called;
      ExtendPath(g, path, p, i);
      assert Arrive(g, path + [i], i).called;
    } else if g.effects[p].calls {
      var any :| EntryPath(g, any, p) && Arrive(g, any, p).sp == sp;
      ExtendPath(g, any, p, i);
      assert Arrive(g, any + [i], i).called;
    }
  }

  lemma AttainedStep(g: Region, p: nat, i: nat, f: Facts)
    requires g.Valid() && Edge(g, p, i) && i != 0 && Attained(g, p, f)
    ensures Attained(g, i, Applied(f, g.effects[p]))
  {
    var e, h := g.effects[p], Applied(f, g.effects[p]);
    forall r | r in h.dirty
      ensures DirtyOn(g, i, r)
    {
      DirtyStep(g, p, i, f, r);
    }
    SpAttainedStep(g, p, i, f.sp);
    SavedStep(g, p, i, f);
    CalledStep(g, p, i, f);
  }

  lemma AttainedJoin(g: Region, i: nat, a: Facts, b: Facts)
    requires g.Valid() && Attained(g, i, a) && Attained(g, i, b)
    ensures Attained(g, i, Join2(a, b))
  {
    if a.sp != b.sp && a.sp != -1 && b.sp != -1 {
      assert SpOn(g, i, a.sp) && SpOn(g, i, b.sp);
    }
  }

  lemma {:induction false} AttainedJoinAll(g: Region, i: nat, s: seq<Facts>)
    requires g.Valid() && s != [] && forall k | 0 <= k < |s| :: Attained(g, i, s[k])
    ensures Attained(g, i, JoinAll(s))
    decreases |s|
  {
    if |s| > 1 {
      AttainedJoinAll(g, i, s[..|s| - 1]);
      AttainedJoin(g, i, JoinAll(s[..|s| - 1]), s[|s| - 1]);
    }
  }

  // ---- From above: a stable assignment covers every path --------------------

  /** b promises no more than a. */
  predicate Leq(a: Facts, b: Facts) {
    && a.dirty <= b.dirty && (a.sp == b.sp || b.sp == -1)
    && (a.savedX30 ==> b.savedX30) && (a.called ==> b.called)
  }

  lemma AppliedMonotone(a: Facts, b: Facts, e: Effect)
    requires Leq(a, b)
    ensures Leq(Applied(a, e), Applied(b, e))
  {
  }

  lemma {:induction false} JoinAllAbove(s: seq<Facts>, k: nat)
    requires k < |s|
    ensures Leq(s[k], JoinAll(s))
    decreases |s|
  {
    if |s| > 1 && k < |s| - 1 {
      JoinAllAbove(s[..|s| - 1], k);
    }
  }

  type Assignment = seq<Option<Facts>>

  /** The states after the predecessors of i that are known reachable. */
  function Incoming(g: Region, preds: seq<nat>, v: Assignment): (s: seq<Facts>)
    requires |v| == |g.effects| && forall k | 0 <= k < |preds| :: preds[k] < |v|
    ensures forall k | 0 <= k < |preds| && v[preds[k]].Some? ::
      Applied(v[preds[k]].value, g.effects[preds[k]]) in s
    ensures forall f | f in s :: exists p :: p in preds && v[p].Some? && f == Applied(v[p].value, g.effects[p])
  {
    if preds == [] then []
    else
      var last := preds[|preds| - 1];
      var rest := Incoming(g, preds[..|preds| - 1], v);
      if v[last].Some? then rest + [Applied(v[last].value, g.effects[last])] else rest
  }

  /** The data-flow equation at i: nothing arrives, or the state is the join. */
  ghost predicate Balanced(g: Region, preds: seq<nat>, v: Assignment, i: nat)
    requires |v| == |g.effects| && i < |v| && forall k | 0 <= k < |preds| :: preds[k] < |v|
  {
    var s := Incoming(g, preds, v);
    s != [] ==> v[i] == Some(JoinAll(s))
  }

  ghost predicate Stable(g: Region, preds: seq<seq<nat>>, v: Assignment)
    requires g.Valid() && IsPredecessors(g.succ, preds) && |v| == g.Size()
  {
    v[0] == Some(CLEAN) && forall i | 0 < i < |v| :: Balanced(g, preds[i], v, i)
  }

  lemma {:induction false} Covered(g: Region, preds: seq<seq<nat>>, v: Assignment, path: seq<nat>, i: nat)
    requires g.Valid() && IsPredecessors(g.succ, preds) && |v| == g.Size() && Stable(g, preds, v)
    requires EntryPath(g, path, i)
    ensures i < |v| && v[i].Some? && Leq(Arrive(g, path, i), v[i].value)
    decreases |path|
  {
    if |path| > 1 {
      var p, shorter := path[|path| - 2], path[..|path| - 1];
      assert forall j | 0 < j < |shorter| :: shorter[j] == path[j];
      Covered(g, preds, v, shorter, p);
      assert path[|path| - 1] != 0;
      assert p in preds[i];
      var s, f := Incoming(g, preds[i], v), Applied(v[p].value, g.effects[p]);
      AppliedMonotone(Arrive(g, shorter, p), v[p].value, g.effects[p]);
      var k :| 0 <= k < |preds[i]| && preds[i][k] == p;
      assert f in s;
      var j :| 0 <= j < |s| && s[j] == f;
      JoinAllAbove(s, j);
      assert Balanced(g, preds[i], v, i);
    }
  }

  // ---- The meet over all paths ---------------------------------------------

  /** The state is exactly what the entry paths to i have in common. */
  ghost predicate Exact(g: Region, i: nat, f: Facts)
    requires g.Valid()
  {
    && (forall r :: r in f.dirty <==> DirtyOn(g, i, r))
    && (f.savedX30 <==> SavedOn(g, i)) && (f.called <==> CalledOn(g, i))
    && (forall v | v != -1 :: f.sp == v <==> (Reachable(g, i) && OnlySp(g, i, v)))
  }

  ghost predicate OnlySp(g: Region, i: nat, v: int)
    requires g.Valid()
  {
    forall path | EntryPath(g, path, i) :: Arrive(g, path, i).sp == v
  }

  ghost predicate AllAttained(g: Region, v: Assignment)
    requires g.Valid() && |v| == g.Size()
  {
    forall i: nat | i < |v| && v[i].Some? :: Attained(g, i, v[i].value)
  }

  ghost predicate Above(g: Region, i: nat, f: Facts)
    requires g.Valid()
  {
    forall path | EntryPath(g, path, i) :: Leq(Arrive(g, path, i), f)
  }

  /** A state attained on the entry paths and above them all is exact. */
  lemma AttainedAboveExact(g: Region, i: nat, f: Facts)
    requires g.Valid() && Attained(g, i, f) && Above(g, i, f)
    ensures Reachable(g, i) && Exact(g, i, f)
  {
    var sp := SomeSp(g, i, f.sp);
    forall w | w != -1
      ensures f.sp == w <==> OnlySp(g, i, w)
    {
      if OnlySp(g, i, w) {
        assert forall a | SpOn(g, i, a) :: a == w;
      }
    }
  }

  /** A stable assignment reached from below is the join over all entry paths. */
  lemma StableIsExact(g: Region, preds: seq<seq<nat>>, v: Assignment, i: nat)
    requires g.Valid() && IsPredecessors(g.succ, preds) && |v| == g.Size()
    requires Stable(g, preds, v) && AllAttained(g, v) && i < |v|
    ensures v[i].Some? <==> Reachable(g, i)
    ensures v[i].Some? ==> Exact(g, i, v[i].value)
  {
    forall path | EntryPath(g, path, i)
      ensures v[i].Some? && Leq(Arrive(g, path, i), v[i].value)
    {
      Covered(g, preds, v, path, i);
    }
    if v[i].Some? {
      AttainedAboveExact(g, i, v[i].value);
    }
  }

  lemma ExactAttainedAbove(g: Region, i: nat, f: Facts)
    requires g.Valid() && Reachable(g, i) && Exact(g, i, f)
    ensures Attained(g, i, f) && Above(g, i, f)
  {
    var some :| EntryPath(g, some, i);
    var sp := Arrive(g, some, i).sp;
    assert SpOn(g, i, sp);
    if f.sp != -1 {
      assert OnlySp(g, i, f.sp);
    } else if sp != -1 {
      assert !OnlySp(g, i, sp);
      var other :| EntryPath(g, other, i) && Arrive(g, other, i).sp != sp;
      assert SpOn(g, i, Arrive(g, other, i).sp);
    }
    forall path | EntryPath(g, path, i)
      ensures Leq(Arrive(g, path, i), f)
    {
      assert f.sp != -1 ==> OnlySp(g, i, f.sp);
      assert forall r | r in Arrive(g, path, i).dirty :: DirtyOn(g, i, r);
    }
  }

  lemma ExactUnique(g: Region, i: nat, a: Facts, b: Facts)
    requires g.Valid() && Exact(g, i, a) && Exact(g, i, b)
    ensures a == b
  {
    assert a.sp != -1 ==> OnlySp(g, i, a.sp);
    assert b.sp != -1 ==> OnlySp(g, i, b.sp);
    assert forall r :: r in a.dirty <==> r in b.dirty;
  }

  ghost predicate AllExact(g: Region, v: Assignment)
    requires g.Valid() && |v| == g.Size()
  {
    forall i: nat | i < |v| :: (v[i].Some? <==> Reachable(g, i)) && (v[i].Some? ==> Exact(g, i, v[i].value))
  }

  lemma IncomingAttained(g: Region, preds: seq<seq<nat>>, v: Assignment, i: nat)
    requires g.Valid() && IsPredecessors(g.succ, preds) && |v| == g.Size() && AllAttained(g, v) && 0 < i < |v|
    requires Incoming(g, preds[i], v) != []
    ensures Attained(g, i, JoinAll(Incoming(g, preds[i], v)))
  {
    var s := Incoming(g, preds[i], v);
    forall k | 0 <= k < |s|
      ensures Attained(g, i, s[k])
    {
      assert s[k] in s;
      var p :| p in preds[i] && v[p].Some? && s[k] == Applied(v[p].value, g.effects[p]);
      assert Edge(g, p, i);
      AttainedStep(g, p, i, v[p].value);
    }
    AttainedJoinAll(g, i, s);
  }

  /** What the predecessors pass on covers every path that arrives. */
  lemma IncomingAbove(g: Region, preds: seq<seq<nat>>, v: Assignment, i: nat)
    requires g.Valid() && IsPredecessors(g.succ, preds) && |v| == g.Size() && AllExact(g, v) && 0 < i < |v|
    ensures Above(g, i, JoinAll(Incoming(g, preds[i], v)))
    ensures Reachable(g, i) ==> Incoming(g, preds[i], v) != []
  {
    var s := Incoming(g, preds[i], v);
    forall path | EntryPath(g, path, i)
      ensures s != [] && Leq(Arrive(g, path, i), JoinAll(s))
    {
      var p, shorter := path[|path| - 2], path[..|path| - 1];
      assert EntryPath(g, shorter, p) by {
        assert forall j | 0 < j < |shorter| :: shorter[j] == path[j];
      }
      assert Reachable(g, p);
      ExactAttainedAbove(g, p, v[p].value);
      AppliedMonotone(Arrive(g, shorter, p), v[p].value, g.effects[p]);
      var k :| 0 <= k < |preds[i]| && preds[i][k] == p;
      var f := Applied(v[p].value, g.effects[p]);
      assert f in s;
      var j :| 0 <= j < |s| && s[j] == f;
      JoinAllAbove(s, j);
    }
  }

  /** The states are the joins over the entry paths exactly when another pass
      would leave them alone. */
  lemma ExactWhenStable(g: Region, preds: seq<seq<nat>>, v: Assignment)
    requires g.Valid() && IsPredecessors(g.succ, preds) && |v| == g.Size()
    requires AllAttained(g, v) && v[0] == Some(CLEAN)
    ensures AllExact(g, v) <==> Stable(g, preds, v)
  {
    if Stable(g, preds, v) {
      forall i: nat | i < |v|
        ensures (v[i].Some? <==> Reachable(g, i)) && (v[i].Some? ==> Exact(g, i, v[i].value))
      {
        StableIsExact(g, preds, v, i);
      }
    }
    if AllExact(g, v) {
      forall i | 0 < i < |v|
        ensures Balanced(g, preds[i], v, i)
      {
        if Incoming(g, preds[i], v) != [] {
          IncomingAttained(g, preds, v, i);
          IncomingAbove(g, preds, v, i);
          AttainedAboveExact(g, i, JoinAll(Incoming(g, preds[i], v)));
          ExactUnique(g, i, JoinAll(Incoming(g, preds[i], v)), v[i].value);
        }
      }
    }
  }

  // ---- The fixpoint loop ---------------------------------------------------

  /** join; nothing to join gives the clean state. */
  method Join(states: seq<State>) returns (result: State)
    ensures fresh(result) && result.Value() == JoinAll(Values(states))
  {
    if states == [] {
      result := new State();
      return;
    }
    result := states[0].Copy();
    assert Values(states)[..1] == [states[0].Value()];
    for k := 1 to |states|
      invariant fresh(result) && result.Value() == JoinAll(Values(states)[..k])
    {
      assert Values(states)[..k + 1][..k] == Values(states)[..k];
      result.Absorb(states[k]);
    }
    assert Values(states)[..|states|] == Values(states);
  }

  function Values(states: seq<State>): (s: seq<Facts>)
    reads states
    ensures |s| == |states| && forall k | 0 <= k < |states| :: s[k] == states[k].Value()
  {
    if states == [] then [] else Values(states[..|states| - 1]) + [states[|states| - 1].Value()]
  }

  /** _after */
  method After(s: State, e: Effect) returns (out: State)
    ensures fresh(out) && out.Value() == Applied(s.Value(), e)
  {
    out := s.Copy();
    out.ApplyEffect(e);
  }

  /** The entry states hold the values v; null means not known reachable. */
  ghost predicate Holds(entry: seq<State?>, v: Assignment)
    reads entry
  {
    && |entry| == |v|
    && forall i | 0 <= i < |v| :: if entry[i] == null then v[i].None? else v[i] == Some(entry[i].Value())
  }

  method Gather(g: Region, preds: seq<nat>, entry: seq<State?>, ghost v: Assignment) returns (states: seq<State>)
    requires g.Valid() && |v| == g.Size() && Holds(entry, v) && forall k | 0 <= k < |preds| :: preds[k] < |v|
    ensures fresh(states) && Values(states) == Incoming(g, preds, v)
  {
    states := [];
    for k := 0 to |preds|
      invariant fresh(states) && Values(states) == Incoming(g, preds[..k], v)
    {
      assert preds[..k + 1][..k] == preds[..k];
      var p := entry[preds[k]];
      if p != null {
        var out := After(p, g.effects[preds[k]]);
        assert (states + [out])[..|states|] == states;
        states := states + [out];
      }
    }
    assert preds[..|preds|] == preds;
  }

  /** Replacing one state by the join of what arrives keeps all attained. */
  lemma AssignAttained(g: Region, preds: seq<seq<nat>>, v: Assignment, i: nat)
    requires g.Valid() && IsPredecessors(g.succ, preds) && |v| == g.Size() && AllAttained(g, v) && 0 < i < |v|
    requires Incoming(g, preds[i], v) != []
    ensures AllAttained(g, v[i := Some(JoinAll(Incoming(g, preds[i], v)))])
  {
    IncomingAttained(g, preds, v, i);
  }

  /** The equations hold at the instructions after the first and below i. */
  ghost predicate BalancedBelow(g: Region, preds: seq<seq<nat>>, v: Assignment, i: int)
    requires g.Valid() && IsPredecessors(g.succ, preds) && |v| == g.Size() >= i
  {
    forall k | 0 < k < i :: Balanced(g, preds[k], v, k)
  }

  /** What the pass makes of v from instruction i on, each join using the
      states already replaced. */
  ghost function PassFrom(g: Region, preds: seq<seq<nat>>, v: Assignment, i: nat): (w: Assignment)
    requires g.Valid() && IsPredecessors(g.succ, preds) && |v| == g.Size() && 0 < i <= |v|
    ensures |w| == |v|
    decreases |v| - i
  {
    if i == |v| then v
    else PassFrom(g, preds, Assigned(g, preds, v, i), i + 1)
  }

  ghost function Assigned(g: Region, preds: seq<seq<nat>>, v: Assignment, i: nat): (w: Assignment)
    requires g.Valid() && IsPredecessors(g.succ, preds) && |v| == g.Size() && 0 < i < |v|
    ensures |w| == |v|
  {
    var s := Incoming(g, preds[i], v);
    if s == [] then v else v[i := Some(JoinAll(s))]
  }

  /** The assignment after r passes. */
  ghost function Passes(g: Region, preds: seq<seq<nat>>, r: nat): (v: Assignment)
    requires g.Valid() && IsPredecessors(g.succ, preds)
    ensures |v| == g.Size()
  {
    if r == 0 then seq(g.Size(), i => if i == 0 then Some(CLEAN) else None)
    else PassFrom(g, preds, Passes(g, preds, r - 1), 1)
  }

  lemma {:induction false} PassesSettle(g: Region, preds: seq<seq<nat>>, r: nat, more: nat)
    requires g.Valid() && IsPredecessors(g.succ, preds) && Passes(g, preds, r + 1) == Passes(g, preds, r)
    ensures Passes(g, preds, r + more) == Passes(g, preds, r)
  {
    if more > 0 {
      PassesSettle(g, preds, r, more - 1);
    }
  }

  /** A state of the computation after r passes. */
  ghost predicate AfterPasses(g: Region, preds: seq<seq<nat>>, v: Assignment, r: nat)
    requires g.Valid() && IsPredecessors(g.succ, preds)
  {
    |v| == g.Size() && v == Passes(g, preds, r) && v[0] == Some(CLEAN) && AllAttained(g, v)
  }

  lemma NoPasses(g: Region, preds: seq<seq<nat>>)
    requires g.Valid() && IsPredecessors(g.succ, preds)
    ensures AfterPasses(g, preds, Passes(g, preds, 0), 0)
  {
    StartAttained(g);
  }

  /** The pass after the first r changes nothing. */
  ghost predicate SettlesAt(g: Region, preds: seq<seq<nat>>, r: nat)
    requires g.Valid() && IsPredecessors(g.succ, preds)
  {
    Passes(g, preds, r + 1) == Passes(g, preds, r)
  }

  /** A pass that changes nothing ends the computation. */
  lemma Settled(g: Region, preds: seq<seq<nat>>, v: Assignment, r: nat, limit: nat)
    requires g.Valid() && IsPredecessors(g.succ, preds) && r < limit
    requires AfterPasses(g, preds, v, r) && AfterPasses(g, preds, v, r + 1) && Stable(g, preds, v)
    ensures AfterPasses(g, preds, v, limit) && SettlesAt(g, preds, limit - 1) && AllExact(g, v)
  {
    SettlesLater(g, preds, r, limit);
    SettlesLater(g, preds, r, limit - 1);
    ExactWhenStable(g, preds, v);
  }

  lemma SettlesLater(g: Region, preds: seq<seq<nat>>, r: nat, k: nat)
    requires g.Valid() && IsPredecessors(g.succ, preds) && r <= k && SettlesAt(g, preds, r)
    ensures SettlesAt(g, preds, k) && Passes(g, preds, k) == Passes(g, preds, r)
  {
    PassesSettle(g, preds, r, k - r);
    PassesSettle(g, preds, r, k + 1 - r);
  }

  lemma NotSettled(g: Region, preds: seq<seq<nat>>, v0: Assignment, v: Assignment, r: nat)
    requires g.Valid() && IsPredecessors(g.succ, preds)
    requires AfterPasses(g, preds, v0, r) && AfterPasses(g, preds, v, r + 1) && v != v0
    ensures !SettlesAt(g, preds, r)
  {
  }

  /** Part way through a pass that began in v0. */
  ghost predicate Midway(g: Region, preds: seq<seq<nat>>, v0: Assignment, v: Assignment, i: nat)
    requires g.Valid() && IsPredecessors(g.succ, preds)
  {
    && |v0| == |v| == g.Size() && 0 < i <= |v| && v[0] == Some(CLEAN) && AllAttained(g, v)
    && PassFrom(g, preds, v, i) == PassFrom(g, preds, v0, 1)
    && forall k | i <= k < |v| :: v[k] == v0[k]
  }

  lemma MidwayStep(g: Region, preds: seq<seq<nat>>, v0: Assignment, v: Assignment, i: nat)
    requires g.Valid() && IsPredecessors(g.succ, preds) && Midway(g, preds, v0, v, i) && i < g.Size()
    ensures Midway(g, preds, v0, Assigned(g, preds, v, i), i + 1)
    ensures Assigned(g, preds, v, i) == v && BalancedBelow(g, preds, v, i) ==> BalancedBelow(g, preds, v, i + 1)
    ensures Assigned(g, preds, v, i) == v0 ==> v == v0
  {
    assert Assigned(g, preds, v, i) == v0 ==> v == v0 by {
      assert v[i] == v0[i] && forall k | 0 <= k < |v| && k != i :: Assigned(g, preds, v, i)[k] == v[k];
    }
    if Incoming(g, preds[i], v) != [] {
      AssignAttained(g, preds, v, i);
    }
  }

  /** Recompute the state of one instruction. */
  method Update(g: Region, preds: seq<seq<nat>>, entry0: seq<State?>, ghost v0: Assignment, i: nat)
    returns (entry: seq<State?>, ghost v: Assignment, changed: bool)
    requires g.Valid() && IsPredecessors(g.succ, preds) && |v0| == g.Size() && Holds(entry0, v0) && 0 < i < g.Size()
    ensures Holds(entry, v) && v == Assigned(g, preds, v0, i)
    ensures changed <==> v != v0
  {
    entry, v, changed := entry0, v0, false;
    var states := Gather(g, preds[i], entry, v);
    if states == [] {
      return;
    }
    var joined := Join(states);
    if entry[i] == null || joined.Value() != entry[i].Value() {
      entry, v, changed := entry[i := joined], v[i := Some(joined.Value())], true;
      assert v[i] != v0[i];
    } else {
      assert Assigned(g, preds, v, i) == v;
    }
  }

  /** One pass over the instructions after the first. */
  method Pass(g: Region, preds: seq<seq<nat>>, entry0: seq<State?>, ghost v0: Assignment, ghost r: nat)
    returns (entry: seq<State?>, ghost v: Assignment, changed: bool)
    requires g.Valid() && IsPredecessors(g.succ, preds) && Holds(entry0, v0) && AfterPasses(g, preds, v0, r)
    ensures Holds(entry, v) && AfterPasses(g, preds, v, r + 1)
    ensures if changed then v != v0 else v == v0 && Stable(g, preds, v)
  {
    entry, v, changed := entry0, v0, false;
    for i := 1 to |entry|
      invariant |entry| == g.Size() && Holds(entry, v) && Midway(g, preds, v0, v, i)
      invariant !changed ==> v == v0 && BalancedBelow(g, preds, v, i)
      invariant changed ==> v != v0
    {
      MidwayStep(g, preds, v0, v, i);
      var differs;
      entry, v, differs := Update(g, preds, entry, v, i);
      changed := changed || differs;
    }
  }

  /** Only instruction 0 is known to be reachable, in the clean state. */
  method Begin(g: Region, preds: seq<seq<nat>>) returns (entry: seq<State?>, ghost v: Assignment)
    requires g.Valid() && IsPredecessors(g.succ, preds)
    ensures Holds(entry, v) && AfterPasses(g, preds, v, 0)
  {
    var start := new State();
    entry := seq(g.Size(), i => if i == 0 then start else null);
    v := Passes(g, preds, 0);
    NoPasses(g, preds);
  }

  /** The fixpoint of check_function, with its cap of n + 2 passes. Whatever
      the exit, each state is attained; on the exit for no change, the states
      are exactly the joins over the entry paths. */
  method Solve(g: Region, preds: seq<seq<nat>>) returns (entry: seq<State?>, ghost v: Assignment, converged: bool)
    requires g.Valid() && IsPredecessors(g.succ, preds)
    ensures Holds(entry, v) && AfterPasses(g, preds, v, g.Size() + 2)
    ensures converged <==> SettlesAt(g, preds, g.Size() + 1)
    ensures converged ==> AllExact(g, v)
  {
    entry, v := Begin(g, preds);
    entry, v, converged := Iterate(g, preds, entry, v, g.Size() + 2);
  }

  /** At most limit passes. */
  method Iterate(g: Region, preds: seq<seq<nat>>, entry0: seq<State?>, ghost v0: Assignment, limit: nat)
    returns (entry: seq<State?>, ghost v: Assignment, converged: bool)
    requires g.Valid() && IsPredecessors(g.succ, preds) && limit > 0
    requires Holds(entry0, v0) && AfterPasses(g, preds, v0, 0)
    ensures Holds(entry, v) && AfterPasses(g, preds, v, limit)
    ensures converged <==> SettlesAt(g, preds, limit - 1)
    ensures converged ==> AllExact(g, v)
  {
    entry, v := entry0, v0;
    var r := 0;
    converged := false;
    while r < limit
      invariant 0 <= r <= limit && Holds(entry, v) && AfterPasses(g, preds, v, r) && !converged
      invariant r == limit ==> !SettlesAt(g, preds, limit - 1)
    {
      ghost var before := v;
      var changed;
      entry, v, changed := Pass(g, preds, entry, v, r);
      if !changed {
        Settled(g, preds, v, r, limit);
        converged := true;
        break;
      }
      NotSettled(g, preds, before, v, r);
      r := r + 1;
    }
  }

  // ---- Diagnostics ---------------------------------------------------------

  datatype Warning =
    | DirtyReturnRegister(reg: Reg)
    | NotRestored(reg: Reg)
    | DirtyReturnAddress
    | SpUnknown
    | SpNotRestored(net: int)
    | Misaligned(delta: int)

  /** The callee-saved registers other than x30, in the order reported. */
  const REPORTED: seq<Reg> := seq(6, (i: nat) => V(10 + i)) + [V(8), V(9)] + seq(11, (i: nat) => X(19 + i))

  lemma ReportedIsCalleeSaved(r: Reg)
    ensures r in REPORTED <==> CalleeSaved(r) && r != X30
  {
    if CalleeSaved(r) && r != X30 {
      var k := if r.X? then r.n - 11 else if r.n >= 10 then r.n - 10 else r.n - 2;
      assert REPORTED[k] == r;
    }
  }

  /** What a return through ret needs: everything restored, and SP back. */
  predicate Restored(dirty: set<Reg>, sp: int, ret: Reg) {
    && (forall r | r in dirty :: r == X30)
    && (ret == X30 ==> X30 !in dirty)
    && sp == 0
  }

  /** The reports for the registers of regs that are still dirty. */
  method ReportDirty(dirty: set<Reg>, regs: seq<Reg>) returns (warnings: seq<Warning>)
    ensures forall w | w in warnings :: w.NotRestored?
    ensures forall r :: NotRestored(r) in warnings <==> r in dirty && r in regs
  {
    warnings := [];
    for k := 0 to |regs|
      invariant forall w | w in warnings :: w.NotRestored?
      invariant forall r :: NotRestored(r) in warnings <==> r in dirty && r in regs[..k]
    {
      if regs[k] in dirty {
        warnings := warnings + [NotRestored(regs[k])];
      }
      assert regs[..k + 1] == regs[..k] + [regs[k]];
    }
    assert regs[..|regs|] == regs;
  }

  /** _check_ret is silent exactly when the state is restored. */
  method CheckRet(f: Facts, ret: Reg) returns (warnings: seq<Warning>)
    requires forall r | r in f.dirty :: CalleeSaved(r)
    ensures warnings == [] <==> Restored(f.dirty, f.sp, ret)
    ensures forall r :: NotRestored(r) in warnings <==> r in f.dirty && r != X30
    ensures forall r :: DirtyReturnRegister(r) in warnings <==> r == ret && ret in f.dirty && ret != X30
    ensures forall n :: SpNotRestored(n) in warnings <==> n == f.sp && n != 0 && n != -1
    ensures DirtyReturnAddress in warnings <==> X30 in f.dirty && ret == X30
    ensures SpUnknown in warnings <==> f.sp == -1
    ensures forall w | w in warnings :: !w.Misaligned?
  {
    var through := if ret in f.dirty && ret != X30 then [DirtyReturnRegister(ret)] else [];
    var registers := ReportDirty(f.dirty, REPORTED);
    var address := if X30 in f.dirty && ret == X30 then [DirtyReturnAddress] else [];
    var sp := if f.sp == -1 then [SpUnknown] else if f.sp != 0 then [SpNotRestored(f.sp)] else [];
    warnings := through + registers + address + sp;
    assert forall w :: w in warnings <==> w in through || w in registers || w in address || w in sp;
    forall r
      ensures NotRestored(r) in registers <==> r in f.dirty && r != X30
    {
      ReportedIsCalleeSaved(r);
    }
    if registers != [] {
      assert registers[0] in registers;
    }
  }

  lemma {:induction false} DirtyIsCalleeSaved(g: Region, path: seq<nat>, i: nat)
    requires g.Valid() && Path(g, path, i)
    ensures forall r | r in Arrive(g, path, i).dirty :: CalleeSaved(r)
    decreases |path|
  {
    if |path| > 1 {
      DirtyIsCalleeSaved(g, path[..|path| - 1], path[|path| - 2]);
    }
  }

  ghost predicate Aligned(g: Region) {
    forall i | 0 <= i < |g.effects| && g.effects[i].spDelta.Some? :: g.effects[i].spDelta.value % 16 == 0
  }

  /** With 16-byte steps the sentinel is never met by accident. */
  lemma {:induction false} AlignedDisplacement(g: Region, path: seq<nat>, i: nat)
    requires g.Valid() && Aligned(g) && Path(g, path, i)
    ensures Arrive(g, path, i).sp == Displacement(g, path, i) && Displacement(g, path, i) % 16 == 0
    decreases |path|
  {
    if |path| > 1 {
      AlignedDisplacement(g, path[..|path| - 1], path[|path| - 2]);
    }
  }

  /** The run restores everything a return through ret needs. */
  ghost predicate RestoredOn(g: Region, path: seq<nat>, i: nat, ret: Reg)
    requires g.Valid() && Path(g, path, i)
  {
    Restored(Arrive(g, path, i).dirty, Displacement(g, path, i), ret)
  }

  ghost predicate AllRestored(g: Region, i: nat, ret: Reg)
    requires g.Valid()
  {
    forall path | EntryPath(g, path, i) :: RestoredOn(g, path, i, ret)
  }

  lemma DirtyIsNotRestored(g: Region, i: nat, r: Reg, ret: Reg)
    requires g.Valid() && DirtyOn(g, i, r) && r != X30
    ensures !AllRestored(g, i, ret)
  {
    var path :| EntryPath(g, path, i) && r in Arrive(g, path, i).dirty;
    assert !RestoredOn(g, path, i, ret);
  }

  /** The exact state is restored just when every entry path is. */
  lemma ExactRestored(g: Region, i: nat, f: Facts, ret: Reg)
    requires g.Valid() && Aligned(g) && Reachable(g, i) && Exact(g, i, f)
    ensures Restored(f.dirty, f.sp, ret) <==> AllRestored(g, i, ret)
  {
    forall path | EntryPath(g, path, i)
      ensures Arrive(g, path, i).sp == Displacement(g, path, i)
    {
      AlignedDisplacement(g, path, i);
    }
    if Restored(f.dirty, f.sp, ret) {
      assert OnlySp(g, i, 0);
      forall path | EntryPath(g, path, i)
        ensures RestoredOn(g, path, i, ret)
      {
        assert forall r | r in Arrive(g, path, i).dirty :: DirtyOn(g, i, r);
      }
    }
    if AllRestored(g, i, ret) {
      assert OnlySp(g, i, 0);
    }
  }

  // ---- Runs that come back to instruction 0 --------------------------------

  /** Whatever comes back to instruction 0 has restored SP and every register. */
  ghost predicate ReturnsRestored(g: Region)
    requires g.Valid()
  {
    forall path, p | EntryPath(g, path, p) && Edge(g, p, 0) :: ComesBackRestored(g, path, p)
  }

  ghost predicate ComesBackRestored(g: Region, path: seq<nat>, p: nat)
    requires g.Valid() && EntryPath(g, path, p) && Edge(g, p, 0)
  {
    var f := Applied(Arrive(g, path, p), g.effects[p]);
    f.dirty == {} && f.sp == 0
  }

  /** Every run to i restores what a return through ret needs. */
  ghost predicate EveryRunRestored(g: Region, i: nat, ret: Reg)
    requires g.Valid()
  {
    forall path | Path(g, path, i) :: RestoredOn(g, path, i, ret)
  }

  /** What the entry paths say of a return, at any instruction and through any
      register, holds of every run. */
  ghost predicate EntryPathsDecide(g: Region)
    requires g.Valid()
  {
    forall i: nat, ret | AllRestored(g, i, ret) :: EveryRunRestored(g, i, ret)
  }

  /** A run that stays away from instruction 0 and restores as much. */
  ghost predicate HasTwin(g: Region, path: seq<nat>, i: nat)
    requires g.Valid() && Path(g, path, i)
  {
    exists twin :: EntryPath(g, twin, i) && SameReturn(Arrive(g, twin, i), Arrive(g, path, i))
  }

  /** The two states get the same reports at a return. */
  ghost predicate SameReturn(a: Facts, b: Facts) {
    a.dirty == b.dirty && a.sp == b.sp
  }

  lemma OneMore(g: Region, path: seq<nat>, p: nat, i: nat)
    requires g.Valid() && Path(g, path, p) && Edge(g, p, i)
    ensures Path(g, path + [i], i)
    ensures Arrive(g, path + [i], i) == Applied(Arrive(g, path, p), g.effects[p])
  {
    var longer := path + [i];
    assert longer[..|longer| - 1] == path && longer[|longer| - 2] == p;
  }

  lemma {:induction false} FindTwin(g: Region, path: seq<nat>, i: nat)
    requires g.Valid() && ReturnsRestored(g) && Path(g, path, i)
    ensures HasTwin(g, path, i)
    decreases |path|
  {
    if |path| == 1 {
      assert EntryPath(g, path, i);
    } else {
      var p, shorter := path[|path| - 2], path[..|path| - 1];
      FindTwin(g, shorter, p);
      var twin :| EntryPath(g, twin, p) && SameReturn(Arrive(g, twin, p), Arrive(g, shorter, p));
      if i == 0 {
        assert ComesBackRestored(g, twin, p);
        assert EntryPath(g, [0], 0) && Arrive(g, [0], 0) == CLEAN;
      } else {
        ExtendPath(g, twin, p, i);
      }
    }
  }

  lemma TwinDecides(g: Region, path: seq<nat>, i: nat, ret: Reg)
    requires g.Valid() && Aligned(g) && Path(g, path, i) && HasTwin(g, path, i) && AllRestored(g, i, ret)
    ensures RestoredOn(g, path, i, ret)
  {
    var twin :| EntryPath(g, twin, i) && SameReturn(Arrive(g, twin, i), Arrive(g, path, i));
    assert RestoredOn(g, twin, i, ret);
    AlignedDisplacement(g, twin, i);
    AlignedDisplacement(g, path, i);
  }

  /** Coming back to instruction 0 is itself a run to instruction 0, where the
      only entry path is clean. */
  lemma DecidedComesBackRestored(g: Region, path: seq<nat>, p: nat)
    requires g.Valid() && Aligned(g) && EntryPathsDecide(g) && EntryPath(g, path, p) && Edge(g, p, 0)
    ensures ComesBackRestored(g, path, p)
  {
    forall entry | EntryPath(g, entry, 0)
      ensures RestoredOn(g, entry, 0, X30)
    {
      assert |entry| == 1;
    }
    assert AllRestored(g, 0, X30) && EveryRunRestored(g, 0, X30);
    OneMore(g, path, p, 0);
    AlignedDisplacement(g, path + [0], 0);
    assert RestoredOn(g, path + [0], 0, X30);
  }

  /** Pinning instruction 0 to the clean state is right about every run at every
      instruction, whether it returns or not, exactly when every run that comes
      back to it has restored SP and every register; in particular when no edge
      enters it. EntryGuard has the condition for the returns alone. */
  lemma PinnedEntryExactWhen(g: Region)
    requires g.Valid() && Aligned(g)
    ensures EntryPathsDecide(g) <==> ReturnsRestored(g)
    ensures NoEdgeIntoEntry(g) ==> ReturnsRestored(g)
  {
    if ReturnsRestored(g) {
      forall i: nat, ret, path | AllRestored(g, i, ret) && Path(g, path, i)
        ensures RestoredOn(g, path, i, ret)
      {
        FindTwin(g, path, i);
        TwinDecides(g, path, i, ret);
      }
    }
    if EntryPathsDecide(g) {
      forall path, p | EntryPath(g, path, p) && Edge(g, p, 0)
        ensures ComesBackRestored(g, path, p)
      {
        DecidedComesBackRestored(g, path, p);
      }
    }
  }

  /** Then the entry paths and all runs agree about each return. */
  lemma SilentMeansEveryRun(g: Region, i: nat, ret: Reg)
    requires g.Valid() && Aligned(g) && ReturnsRestored(g)
    ensures AllRestored(g, i, ret) <==> EveryRunRestored(g, i, ret)
  {
    PinnedEntryExactWhen(g);
  }

  // ---- The whole check -----------------------------------------------------

  /** A state that is attained is restored if every entry path is. */
  lemma AttainedRestored(g: Region, i: nat, f: Facts, ret: Reg)
    requires g.Valid() && Aligned(g) && Attained(g, i, f) && AllRestored(g, i, ret)
    ensures Restored(f.dirty, f.sp, ret)
  {
    forall path | EntryPath(g, path, i)
      ensures Arrive(g, path, i).sp == 0 && Restored(Arrive(g, path, i).dirty, 0, ret)
    {
      AlignedDisplacement(g, path, i);
      assert RestoredOn(g, path, i, ret);
    }
    assert forall sp | SpOn(g, i, sp) :: sp == 0;
    assert forall r | r in f.dirty :: DirtyOn(g, i, r);
  }

  /** check_function as far as saved registers and SP go: the reports at each
      instruction. For a function that passes the alignment check there is no
      false alarm on either exit; after the exit for no change, a return is
      silent exactly when every run that does not come back to instruction 0
      restores all it must, and that is every run when what comes back there
      is restored. */
  method CheckReturns(g: Region) returns (found: seq<seq<Warning>>, converged: bool)
    requires g.Valid()
    ensures |found| == g.Size()
    ensures Aligned(g) <==> forall i, w | 0 <= i < |found| && w in found[i] :: !w.Misaligned?
    ensures Aligned(g) ==> NoFalseAlarm(g, found)
    ensures converged && Aligned(g) ==> forall i: nat | i < |found| :: TellsOfRuns(g, i, found[i])
    ensures converged && Aligned(g) ==> forall i: nat | i < |found| && g.effects[i].exit.Some? ::
      found[i] == [] <==> AllRestored(g, i, g.effects[i].exit.value)
    ensures converged && Aligned(g) && ReturnsRestored(g) ==> forall i: nat | i < |found| && g.effects[i].exit.Some? ::
      found[i] == [] <==> EveryRunRestored(g, i, g.effects[i].exit.value)
    ensures exists preds | IsPredecessors(g.succ, preds) :: Reported(g, preds, found, converged)
  {
    var preds := Predecessors(g.succ);
    var entry, v, done := Solve(g, preds);
    converged := done;
    found := AllReports(g, entry, v);
    Conclude(g, preds, found, v, converged);
  }

  /** The loop over the returns. */
  method AllReports(g: Region, entry: seq<State?>, ghost v: Assignment) returns (found: seq<seq<Warning>>)
    requires g.Valid() && |v| == g.Size() && Holds(entry, v) && AllAttained(g, v)
    ensures |found| == g.Size() && forall i: nat | i < |v| :: Shown(g, i, found[i], v[i])
  {
    found := [];
    for i := 0 to g.Size()
      invariant |found| == i && Holds(entry, v)
      invariant forall k: nat | k < i :: Shown(g, k, found[k], v[k])
    {
      assert v[i].Some? ==> Attained(g, i, v[i].value);
      var reports := ReportsAt(g, i, entry[i], v[i]);
      found := found + [reports];
    }
  }

  /** On either exit the reports are about the states after n + 2 passes, and
      the exit is the one for no change just when the last pass changes none. */
  ghost predicate Reported(g: Region, preds: seq<seq<nat>>, found: seq<seq<Warning>>, converged: bool)
    requires g.Valid() && IsPredecessors(g.succ, preds)
  {
    FromCappedPasses(g, preds, found) && (converged <==> SettlesAt(g, preds, g.Size() + 1))
  }

  /** What the reports are worth. */
  lemma Conclude(g: Region, preds: seq<seq<nat>>, found: seq<seq<Warning>>, v: Assignment, converged: bool)
    requires g.Valid() && IsPredecessors(g.succ, preds) && |found| == g.Size()
    requires AfterPasses(g, preds, v, g.Size() + 2) && (converged <==> SettlesAt(g, preds, g.Size() + 1))
    requires converged ==> AllExact(g, v)
    requires forall i: nat | i < |v| :: Shown(g, i, found[i], v[i])
    ensures converged && Aligned(g) ==> forall i: nat | i < |found| :: TellsOfRuns(g, i, found[i])
    ensures Reported(g, preds, found, converged)
    ensures Aligned(g) <==> forall i, w | 0 <= i < |found| && w in found[i] :: !w.Misaligned?
    ensures Aligned(g) ==> NoFalseAlarm(g, found)
    ensures converged && Aligned(g) ==> forall i: nat | i < |found| && g.effects[i].exit.Some? ::
      found[i] == [] <==> AllRestored(g, i, g.effects[i].exit.value)
    ensures converged && Aligned(g) && ReturnsRestored(g) ==> forall i: nat | i < |found| && g.effects[i].exit.Some? ::
      found[i] == [] <==> EveryRunRestored(g, i, g.effects[i].exit.value)
  {
    AlignmentReported(g, found, v);
    if Aligned(g) {
      AlarmsAreReal(g, found, v);
      if converged {
        SilenceIsExact(g, found, v);
        forall i: nat | i < |found|
          ensures TellsOfRuns(g, i, found[i])
        {
          ReportsTell(g, i, found[i], v[i]);
        }
      }
    }
  }

  /** A return that every entry path restores is silent. */
  ghost predicate NoFalseAlarm(g: Region, found: seq<seq<Warning>>)
    requires g.Valid() && |found| == g.Size()
  {
    forall i: nat | i < |found| && g.effects[i].exit.Some? && AllRestored(g, i, g.effects[i].exit.value) ::
      found[i] == []
  }

  lemma AlarmsAreReal(g: Region, found: seq<seq<Warning>>, v: Assignment)
    requires g.Valid() && |found| == |v| == g.Size() && Aligned(g) && AllAttained(g, v)
    requires forall i: nat | i < |v| :: Shown(g, i, found[i], v[i])
    ensures NoFalseAlarm(g, found)
  {
    forall i: nat | i < |found| && g.effects[i].exit.Some? && AllRestored(g, i, g.effects[i].exit.value)
      ensures found[i] == []
    {
      ShownSilent(g, i, found[i], v[i]);
      if v[i].Some? {
        AttainedRestored(g, i, v[i].value, g.effects[i].exit.value);
      }
    }
  }

  /** Every entry path to i has SP displaced by n. */
  ghost predicate AlwaysDisplaced(g: Region, i: nat, n: int)
    requires g.Valid()
  {
    forall path | EntryPath(g, path, i) :: Displacement(g, path, i) == n
  }

  /** The reports at i tell of the entry paths that arrive there: each register
      other than x30 that some path leaves dirty, x30 if it is returned through,
      and an SP that is displaced, or differs between paths. */
  ghost predicate TellsOfRuns(g: Region, i: nat, reports: seq<Warning>)
    requires g.Valid() && i < g.Size()
  {
    var exit := g.effects[i].exit;
    && (forall r :: NotRestored(r) in reports <==> exit.Some? && r != X30 && DirtyOn(g, i, r))
    && (forall r :: DirtyReturnRegister(r) in reports <==> exit == Some(r) && r != X30 && DirtyOn(g, i, r))
    && (DirtyReturnAddress in reports <==> exit == Some(X30) && DirtyOn(g, i, X30))
    && (SpUnknown in reports <==> exit.Some? && Reachable(g, i) && forall n :: !AlwaysDisplaced(g, i, n))
    && (forall n ::
          SpNotRestored(n) in reports <==> exit.Some? && Reachable(g, i) && n != 0 && AlwaysDisplaced(g, i, n))
    && (forall d :: Misaligned(d) in reports <==> g.effects[i].spDelta == Some(d) && d % 16 != 0)
  }

  lemma DisplacedIsSp(g: Region, i: nat, n: int)
    requires g.Valid() && Aligned(g) && Reachable(g, i)
    ensures AlwaysDisplaced(g, i, n) <==> OnlySp(g, i, n)
    ensures AlwaysDisplaced(g, i, n) ==> n != -1
  {
    forall path | EntryPath(g, path, i)
      ensures Arrive(g, path, i).sp == Displacement(g, path, i) != -1
    {
      AlignedDisplacement(g, path, i);
    }
  }

  lemma ReportsTell(g: Region, i: nat, reports: seq<Warning>, f: Option<Facts>)
    requires g.Valid() && Aligned(g) && i < g.Size() && Shown(g, i, reports, f)
    requires (f.Some? <==> Reachable(g, i)) && (f.Some? ==> Exact(g, i, f.value))
    ensures TellsOfRuns(g, i, reports)
  {
    assert forall r | DirtyOn(g, i, r) :: Reachable(g, i);
    if f.Some? {
      forall n
        ensures AlwaysDisplaced(g, i, n) <==> n != -1 && f.value.sp == n
      {
        DisplacedIsSp(g, i, n);
      }
      assert f.value.sp != -1 ==> AlwaysDisplaced(g, i, f.value.sp);
    }
  }

  lemma SilenceIsExact(g: Region, found: seq<seq<Warning>>, v: Assignment)
    requires g.Valid() && |found| == |v| == g.Size() && Aligned(g) && AllExact(g, v)
    requires forall i: nat | i < |v| :: Shown(g, i, found[i], v[i])
    ensures forall i: nat | i < |found| && g.effects[i].exit.Some? ::
      found[i] == [] <==> AllRestored(g, i, g.effects[i].exit.value)
    ensures ReturnsRestored(g) ==> forall i: nat | i < |found| && g.effects[i].exit.Some? ::
      found[i] == [] <==> EveryRunRestored(g, i, g.effects[i].exit.value)
  {
    forall i: nat | i < |found| && g.effects[i].exit.Some?
      ensures found[i] == [] <==> AllRestored(g, i, g.effects[i].exit.value)
      ensures ReturnsRestored(g) ==> (found[i] == [] <==> EveryRunRestored(g, i, g.effects[i].exit.value))
    {
      ShownSilent(g, i, found[i], v[i]);
      if v[i].Some? {
        ExactRestored(g, i, v[i].value, g.effects[i].exit.value);
      }
      if ReturnsRestored(g) {
        SilentMeansEveryRun(g, i, g.effects[i].exit.value);
      }
    }
  }

  ghost predicate FromCappedPasses(g: Region, preds: seq<seq<nat>>, found: seq<seq<Warning>>)
    requires g.Valid() && IsPredecessors(g.succ, preds)
  {
    && |found| == g.Size()
    && forall i: nat | i < |found| :: Shown(g, i, found[i], Passes(g, preds, g.Size() + 2)[i])
  }

  /** The reports at one instruction. */
  method ReportsAt(g: Region, i: nat, state: State?, ghost f: Option<Facts>) returns (reports: seq<Warning>)
    requires g.Valid() && i < g.Size()
    requires if state == null then f.None? else f == Some(state.Value()) && Attained(g, i, f.value)
    ensures Shown(g, i, reports, f)
  {
    reports := [];
    var e := g.effects[i];
    if state != null && e.exit.Some? {
      AttainedIsCalleeSaved(g, i, f.value);
      reports := CheckRet(state.Value(), e.exit.value);
    }
    assert ReturnShown(e, reports, f);
    if e.spDelta.Some? && e.spDelta.value % 16 != 0 {
      reports := reports + [Misaligned(e.spDelta.value)];
    }
  }

  ghost predicate Shown(g: Region, i: nat, reports: seq<Warning>, f: Option<Facts>)
    requires g.Valid() && i < g.Size()
  {
    ReturnShown(g.effects[i], reports, f) && AlignmentShown(g.effects[i], reports)
  }

  /** The reports of a return are those of the state it is reached in. */
  ghost predicate ReturnShown(e: Effect, reports: seq<Warning>, f: Option<Facts>) {
    var checked := f.Some? && e.exit.Some?;
    && (forall r :: NotRestored(r) in reports <==> checked && r in f.value.dirty && r != X30)
    && (forall r ::
          DirtyReturnRegister(r) in reports <==> checked && r in f.value.dirty && r == e.exit.value && r != X30)
    && (DirtyReturnAddress in reports <==> checked && X30 in f.value.dirty && e.exit.value == X30)
    && (SpUnknown in reports <==> checked && f.value.sp == -1)
    && (forall n :: SpNotRestored(n) in reports <==> checked && n == f.value.sp && n != 0 && n != -1)
  }

  lemma ReportReason(e: Effect, reports: seq<Warning>, f: Option<Facts>, w: Warning)
    requires ReturnShown(e, reports, f) && AlignmentShown(e, reports) && w in reports
    ensures (e.spDelta.Some? && e.spDelta.value % 16 != 0)
         || (f.Some? && e.exit.Some? && !Restored(f.value.dirty, f.value.sp, e.exit.value))
  {
    match w
    case DirtyReturnRegister(r) => assert DirtyReturnRegister(r) in reports;
    case NotRestored(r) => assert NotRestored(r) in reports;
    case DirtyReturnAddress =>
    case SpUnknown =>
    case SpNotRestored(n) => assert SpNotRestored(n) in reports;
    case Misaligned(d) => assert Misaligned(d) in reports;
  }

  lemma ShownSilent(g: Region, i: nat, reports: seq<Warning>, f: Option<Facts>)
    requires g.Valid() && i < g.Size() && Shown(g, i, reports, f)
    ensures Silent(g, i, reports, f)
  {
    var e := g.effects[i];
    if f.Some? && e.exit.Some? {
      assert SpNotRestored(f.value.sp) in reports <==> f.value.sp != 0 && f.value.sp != -1;
      assert forall r | r in f.value.dirty && r != X30 :: NotRestored(r) in reports;
    }
    if reports != [] {
      ReportReason(e, reports, f, reports[0]);
    }
  }

  lemma AlignmentReported(g: Region, found: seq<seq<Warning>>, v: Assignment)
    requires g.Valid() && |found| == |v| == g.Size() && forall i: nat | i < |v| :: Shown(g, i, found[i], v[i])
    ensures Aligned(g) <==> forall i, w | 0 <= i < |found| && w in found[i] :: !w.Misaligned?
  {
    forall i: nat | i < |found|
      ensures (forall w | w in found[i] :: !w.Misaligned?)
         <==> (g.effects[i].spDelta.Some? ==> g.effects[i].spDelta.value % 16 == 0)
    {
      assert Shown(g, i, found[i], v[i]);
    }
  }

  ghost predicate AlignmentShown(e: Effect, reports: seq<Warning>) {
    forall d :: Misaligned(d) in reports <==> e.spDelta == Some(d) && d % 16 != 0
  }

  /** No report at an aligned instruction means the state there is restored. */
  ghost predicate Silent(g: Region, i: nat, reports: seq<Warning>, f: Option<Facts>)
    requires g.Valid() && i < g.Size()
  {
    var e := g.effects[i];
    (e.spDelta.Some? ==> e.spDelta.value % 16 == 0) ==>
      (reports == [] <==> (f.Some? && e.exit.Some? ==> Restored(f.value.dirty, f.value.sp, e.exit.value)))
  }

  lemma AttainedIsCalleeSaved(g: Region, i: nat, f: Facts)
    requires g.Valid() && Attained(g, i, f)
    ensures forall r | r in f.dirty :: CalleeSaved(r)
  {
    forall r | r in f.dirty
      ensures CalleeSaved(r)
    {
      assert DirtyOn(g, i, r);
      var path :| EntryPath(g, path, i) && r in Arrive(g, path, i).dirty;
      DirtyIsCalleeSaved(g, path, i);
    }
  }

  const PLAIN := Effect([], [], [], None, false, false, None, None)

  /** A loop back to instruction 0 around a write of x19:
      0: cbz to 3;  1: mov x19, ...;  2: b to 0;  3: ret. */
  function LoopToEntry(): (g: Region)
    ensures g.Valid()
  {
    Region([[1, 3], [2], [0], []], [PLAIN, PLAIN.(dirtied := [X(19)]), PLAIN, PLAIN.(exit := Some(X30))])
  }

  /** Without that condition the entry paths do not speak for every run. */
  lemma LoopToEntryBadRun()
    ensures var g := LoopToEntry();
      Aligned(g) && AllRestored(g, 3, X30) && !EveryRunRestored(g, 3, X30)
  {
    var g := LoopToEntry();
    forall path | EntryPath(g, path, 3)
      ensures RestoredOn(g, path, 3, X30)
    {
      LoopToEntryPaths(g, path);
    }
    assert Path(g, [0], 0);
    OneMore(g, [0], 0, 1);
    OneMore(g, [0, 1], 1, 2);
    assert TrackedSet([X(19)]) == {X(19)} by {
      assert [X(19)][0] == X(19);
    }
    assert X(19) in Arrive(g, [0, 1] + [2], 2).dirty;
    OneMore(g, [0, 1] + [2], 2, 0);
    OneMore(g, [0, 1] + [2] + [0], 0, 3);
    assert !RestoredOn(g, [0, 1] + [2] + [0] + [3], 3, X30);
  }

  /** And then the checker's reports at the return are empty although a run
      returns with x19 dirty. */
  method LoopToEntryMissed() returns (found: seq<seq<Warning>>)
    ensures |found| == 4 && found[3] == [] && LoopToEntry().effects[3].exit == Some(X30)
    ensures Aligned(LoopToEntry()) && !EveryRunRestored(LoopToEntry(), 3, X30)
  {
    LoopToEntryBadRun();
    var converged;
    found, converged := CheckReturns(LoopToEntry());
  }

  lemma LoopToEntryPaths(g: Region, path: seq<nat>)
    requires g == LoopToEntry() && EntryPath(g, path, 3)
    ensures Restored(Arrive(g, path, 3).dirty, Displacement(g, path, 3), X30)
  {
    var p := path[|path| - 2];
    assert p == 0;
    assert |path[..|path| - 1]| == 1;
  }
}
