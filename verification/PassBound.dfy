/** How many passes the saved-register checker needs: a bound for every region,
    and a condition on the region under which the cap of n + 2 is enough. The
    parts of a state are followed one at a time, since each settles by itself. */
module PassBound {
  import GenKill
  import Limbs
  import opened Wrappers
  import opened Flags
  import opened SavedRegs

  // ---- States only ascend --------------------------------------------------

  /** Every state of v is still there in w, or has given way to a higher one. */
  ghost predicate Ascends(v: Assignment, w: Assignment) {
    |v| == |w| && forall k: nat | k < |v| && v[k].Some? :: w[k].Some? && Leq(v[k].value, w[k].value)
  }

  /** The join is the least state above what is joined. */
  lemma {:induction false} JoinAllLeast(s: seq<Facts>, f: Facts)
    requires s != [] && forall k | 0 <= k < |s| :: Leq(s[k], f)
    ensures Leq(JoinAll(s), f)
    decreases |s|
  {
    if |s| > 1 {
      JoinAllLeast(s[..|s| - 1], f);
      assert Leq(s[|s| - 1], f);
    }
  }

  lemma IncomingMonotone(g: Region, preds: seq<nat>, v: Assignment, w: Assignment)
    requires |v| == |w| == |g.effects| && Ascends(v, w) && forall k | 0 <= k < |preds| :: preds[k] < |v|
    requires Incoming(g, preds, v) != []
    ensures Incoming(g, preds, w) != [] && Leq(JoinAll(Incoming(g, preds, v)), JoinAll(Incoming(g, preds, w)))
  {
    var s, t := Incoming(g, preds, v), Incoming(g, preds, w);
    forall k | 0 <= k < |s|
      ensures t != [] && Leq(s[k], JoinAll(t))
    {
      assert s[k] in s;
      var p :| p in preds && v[p].Some? && s[k] == Applied(v[p].value, g.effects[p]);
      var f := Applied(w[p].value, g.effects[p]);
      AppliedMonotone(v[p].value, w[p].value, g.effects[p]);
      assert f in t;
      var j :| 0 <= j < |t| && t[j] == f;
      JoinAllAbove(t, j);
    }
    assert Leq(s[0], JoinAll(t));
    JoinAllLeast(s, JoinAll(t));
  }

  /** No state is above the join of what arrives. */
  ghost predicate Rising(g: Region, preds: seq<seq<nat>>, v: Assignment)
    requires g.Valid() && IsPredecessors(g.succ, preds) && |v| == g.Size()
  {
    v[0] == Some(CLEAN) && forall i: nat | 0 < i < |v| && v[i].Some? :: RisingAt(g, preds[i], v, i)
  }

  ghost predicate RisingAt(g: Region, preds: seq<nat>, v: Assignment, i: nat)
    requires |v| == |g.effects| && i < |v| && v[i].Some? && forall k | 0 <= k < |preds| :: preds[k] < |v|
  {
    Incoming(g, preds, v) != [] && Leq(v[i].value, JoinAll(Incoming(g, preds, v)))
  }

  lemma AssignedAscends(g: Region, preds: seq<seq<nat>>, v: Assignment, i: nat)
    requires g.Valid() && IsPredecessors(g.succ, preds) && |v| == g.Size() && Rising(g, preds, v) && 0 < i < |v|
    ensures Ascends(v, Assigned(g, preds, v, i))
  {
    if v[i].Some? {
      assert RisingAt(g, preds[i], v, i);
    }
  }

  lemma AssignedRising(g: Region, preds: seq<seq<nat>>, v: Assignment, i: nat)
    requires g.Valid() && IsPredecessors(g.succ, preds) && |v| == g.Size() && Rising(g, preds, v) && 0 < i < |v|
    ensures Rising(g, preds, Assigned(g, preds, v, i))
  {
    var w := Assigned(g, preds, v, i);
    AssignedAscends(g, preds, v, i);
    forall k: nat | 0 < k < |w| && w[k].Some?
      ensures RisingAt(g, preds[k], w, k)
    {
      if k == i && Incoming(g, preds[i], v) != [] {
        IncomingMonotone(g, preds[k], v, w);
      } else {
        assert w[k] == v[k] && RisingAt(g, preds[k], v, k);
        IncomingMonotone(g, preds[k], v, w);
      }
    }
  }

  lemma AscendsTrans(u: Assignment, v: Assignment, w: Assignment)
    requires Ascends(u, v) && Ascends(v, w)
    ensures Ascends(u, w)
  {
  }

  lemma {:induction false} PassAscends(g: Region, preds: seq<seq<nat>>, v: Assignment, i: nat)
    requires g.Valid() && IsPredecessors(g.succ, preds) && |v| == g.Size() && Rising(g, preds, v) && 0 < i <= |v|
    requires AllAttained(g, v)
    ensures var w := PassFrom(g, preds, v, i); Rising(g, preds, w) && Ascends(v, w) && AllAttained(g, w)
    decreases |v| - i
  {
    if i < |v| {
      var u := Assigned(g, preds, v, i);
      AssignedAscends(g, preds, v, i);
      AssignedRising(g, preds, v, i);
      if Incoming(g, preds[i], v) != [] {
        AssignAttained(g, preds, v, i);
      }
      PassAscends(g, preds, u, i + 1);
      AscendsTrans(v, u, PassFrom(g, preds, v, i));
    }
  }

  lemma {:induction false} PassesRise(g: Region, preds: seq<seq<nat>>, r: nat)
    requires g.Valid() && IsPredecessors(g.succ, preds)
    ensures var v := Passes(g, preds, r); Rising(g, preds, v) && AllAttained(g, v)
    ensures Ascends(Passes(g, preds, r), Passes(g, preds, r + 1))
  {
    if r == 0 {
      StartAttained(g);
    } else {
      PassesRise(g, preds, r - 1);
      PassAscends(g, preds, Passes(g, preds, r - 1), 1);
    }
    PassAscends(g, preds, Passes(g, preds, r), 1);
  }

  // ---- The parts of a state ------------------------------------------------

  /** What a state tells: that the instruction is reached, which registers of a
      set are dirty, SP, whether x30 was saved, whether a call was made. */
  datatype Part = Known | Dirty(of: set<Reg>) | Sp | Saved | Called
  {
    /** How often the part can rise once the instruction is known. */
    function Height(): nat {
      if Dirty? then |of| else 1
    }
  }

  ghost predicate Same(part: Part, a: Facts, b: Facts) {
    match part
    case Known => true
    case Dirty(c) => a.dirty * c == b.dirty * c
    case Sp => a.sp == b.sp
    case Saved => a.savedX30 == b.savedX30
    case Called => a.called == b.called
  }

  ghost predicate Alike(part: Part, a: Option<Facts>, b: Option<Facts>) {
    if a.Some? then b.Some? && Same(part, a.value, b.value) else b.None?
  }

  ghost predicate AllAlike(part: Part, v: Assignment, w: Assignment) {
    |v| == |w| && forall k: nat | k < |v| :: Alike(part, v[k], w[k])
  }

  /** Nothing from outside the set is copied into it. */
  predicate ClosedUnder(part: Part, e: Effect) {
    (part.Dirty? && e.copyFrom.Some? && IsTracked(e.copyFrom.value) && Normalise(e.copyFrom.value) !in part.of) ==>
      TrackedSet(e.dirtied) !! part.of
  }

  ghost predicate Closed(g: Region, part: Part) {
    forall i: nat | i < |g.effects| :: ClosedUnder(part, g.effects[i])
  }

  lemma SameApplied(part: Part, a: Facts, b: Facts, e: Effect)
    requires Same(part, a, b) && ClosedUnder(part, e)
    ensures Same(part, Applied(a, e), Applied(b, e))
  {
    if part.Dirty? {
      var c := part.of;
      forall r | r in c
        ensures r in DirtyAfter(a.dirty, e) <==> r in DirtyAfter(b.dirty, e)
      {
        assert r in a.dirty * c <==> r in b.dirty * c;
        if e.copyFrom.Some? {
          var q := Normalise(e.copyFrom.value);
          assert q in a.dirty * c <==> q in b.dirty * c;
        }
      }
    }
  }

  lemma SameJoin2(part: Part, a: Facts, b: Facts, x: Facts, y: Facts)
    requires Same(part, a, b) && Same(part, x, y)
    ensures Same(part, Join2(a, x), Join2(b, y))
  {
    if part.Dirty? {
      var c := part.of;
      assert (a.dirty + x.dirty) * c == a.dirty * c + x.dirty * c;
      assert (b.dirty + y.dirty) * c == b.dirty * c + y.dirty * c;
    }
  }

  lemma {:induction false} SameJoinAll(part: Part, s: seq<Facts>, t: seq<Facts>)
    requires |s| == |t| && forall k | 0 <= k < |s| :: Same(part, s[k], t[k])
    ensures Same(part, JoinAll(s), JoinAll(t))
    decreases |s|
  {
    if |s| > 1 {
      SameJoinAll(part, s[..|s| - 1], t[..|t| - 1]);
      SameJoin2(part, JoinAll(s[..|s| - 1]), JoinAll(t[..|t| - 1]), s[|s| - 1], t[|t| - 1]);
    }
  }

  /** The pass treats each part by itself. */
  lemma {:induction false} AlikeIncoming(g: Region, part: Part, preds: seq<nat>, v: Assignment, w: Assignment)
    requires |v| == |w| == |g.effects| && Closed(g, part)
    requires forall k | 0 <= k < |preds| :: preds[k] < |v| && Alike(part, v[preds[k]], w[preds[k]])
    ensures var s, t := Incoming(g, preds, v), Incoming(g, preds, w);
      |s| == |t| && forall k | 0 <= k < |s| :: Same(part, s[k], t[k])
    decreases |preds|
  {
    if preds != [] {
      var last := preds[|preds| - 1];
      AlikeIncoming(g, part, preds[..|preds| - 1], v, w);
      if v[last].Some? {
        SameApplied(part, v[last].value, w[last].value, g.effects[last]);
      }
    }
  }

  lemma AlikeAssigned(g: Region, part: Part, preds: seq<seq<nat>>, v: Assignment, w: Assignment, i: nat)
    requires g.Valid() && IsPredecessors(g.succ, preds) && |v| == |w| == g.Size() && Closed(g, part) && 0 < i < |v|
    requires forall k | 0 <= k < |preds[i]| :: Alike(part, v[preds[i][k]], w[preds[i][k]])
    ensures Incoming(g, preds[i], v) == [] <==> Incoming(g, preds[i], w) == []
    ensures Incoming(g, preds[i], v) != [] || Alike(part, v[i], w[i]) ==>
      Alike(part, Assigned(g, preds, v, i)[i], Assigned(g, preds, w, i)[i])
  {
    AlikeIncoming(g, part, preds[i], v, w);
    SameJoinAll(part, Incoming(g, preds[i], v), Incoming(g, preds[i], w));
  }

  lemma {:induction false} PassKeepsAlike(
    g: Region, part: Part, preds: seq<seq<nat>>, v: Assignment, w: Assignment, i: nat)
    requires g.Valid() && IsPredecessors(g.succ, preds) && |v| == g.Size() && Closed(g, part) && 0 < i <= |v|
    requires AllAlike(part, v, w)
    ensures AllAlike(part, PassFrom(g, preds, v, i), PassFrom(g, preds, w, i))
    decreases |v| - i
  {
    if i < |v| {
      AlikeAssigned(g, part, preds, v, w, i);
      PassKeepsAlike(g, part, preds, Assigned(g, preds, v, i), Assigned(g, preds, w, i), i + 1);
    }
  }

  // ---- Ranks ---------------------------------------------------------------

  function Bit(b: bool): nat {
    if b then 1 else 0
  }

  /** How far the part has risen. */
  function Rank(part: Part, f: Option<Facts>): nat {
    if f.None? then 0
    else
      match part
      case Known => 1
      case Dirty(c) => |f.value.dirty * c|
      case Sp => Bit(f.value.sp == -1)
      case Saved => Bit(f.value.savedX30)
      case Called => Bit(f.value.called)
  }

  lemma RankBound(part: Part, f: Option<Facts>)
    ensures Rank(part, f) <= part.Height()
  {
    if part.Dirty? && f.Some? {
      GenKill.CardinalityMonotone(f.value.dirty * part.of, part.of);
    }
  }

  lemma RankGrows(part: Part, a: Option<Facts>, b: Option<Facts>)
    requires a.Some? ==> b.Some? && Leq(a.value, b.value)
    requires part.Known? || Alike(Known, a, b)
    ensures Rank(part, a) <= Rank(part, b) && (Rank(part, a) == Rank(part, b) ==> Alike(part, a, b))
  {
    if part.Dirty? && a.Some? {
      var x, y := a.value.dirty * part.of, b.value.dirty * part.of;
      GenKill.CardinalityMonotone(x, y);
      if x != y {
        GenKill.SubsetSize(x, y);
      }
    }
  }

  // ---- Loops ---------------------------------------------------------------

  /** An edge leads from p back to p or before, other than to instruction 0. */
  ghost predicate LoopsBack(g: Region, p: nat) {
    exists i: nat :: Edge(g, p, i) && 0 < i <= p
  }

  /** How many instructions below k do. */
  ghost function Loops(g: Region, k: nat): (c: nat)
    ensures c <= k
  {
    if k == 0 then 0 else Loops(g, k - 1) + Bit(LoopsBack(g, k - 1))
  }

  /** The ranks at those instructions. */
  ghost function LoopRank(g: Region, part: Part, v: Assignment, k: nat): nat
    requires k <= |v|
  {
    if k == 0 then 0 else LoopRank(g, part, v, k - 1) + if LoopsBack(g, k - 1) then Rank(part, v[k - 1]) else 0
  }

  lemma OneMoreTime(h: nat, b: nat)
    ensures h * (b + 1) == h * b + h
  {
  }

  lemma {:induction false} LoopRankBound(g: Region, part: Part, v: Assignment, k: nat)
    requires k <= |v|
    ensures LoopRank(g, part, v, k) <= part.Height() * Loops(g, k)
  {
    if k > 0 {
      LoopRankBound(g, part, v, k - 1);
      RankBound(part, v[k - 1]);
      OneMoreTime(part.Height(), Loops(g, k - 1));
    }
  }

  /** The two agree on the part wherever an edge leads back. */
  ghost predicate LoopsAlike(g: Region, part: Part, v: Assignment, w: Assignment, k: nat)
    requires k <= |v| == |w|
  {
    forall p: nat | p < k && LoopsBack(g, p) :: Alike(part, v[p], w[p])
  }

  lemma {:induction false} LoopRankGrows(g: Region, part: Part, v: Assignment, w: Assignment, k: nat)
    requires |v| == |w| && Ascends(v, w) && k <= |v| && (part.Known? || LoopsAlike(g, Known, v, w, k))
    ensures LoopRank(g, part, v, k) <= LoopRank(g, part, w, k)
    ensures LoopRank(g, part, v, k) == LoopRank(g, part, w, k) ==> LoopsAlike(g, part, v, w, k)
  {
    if k > 0 {
      LoopRankGrows(g, part, v, w, k - 1);
      if LoopsBack(g, k - 1) {
        RankGrows(part, v[k - 1], w[k - 1]);
      }
    }
  }

  // ---- A part that a pass leaves alone at the loops has settled ------------

  /** What the pass sees at instruction i: w below, v from there on. */
  ghost function Mixed(v: Assignment, w: Assignment, i: nat): (m: Assignment)
    requires i <= |v| == |w|
    ensures |m| == |v| && forall k: nat | k < |v| :: m[k] == if k < i then w[k] else v[k]
  {
    w[..i] + v[i..]
  }

  lemma {:induction false} PassAt(g: Region, preds: seq<seq<nat>>, v: Assignment, start: nat, i: nat)
    requires g.Valid() && IsPredecessors(g.succ, preds) && |v| == g.Size() && 0 < start <= |v| && i < |v|
    ensures var w := PassFrom(g, preds, v, start);
      if i < start then w[i] == v[i] else w[i] == Assigned(g, preds, Mixed(v, w, i), i)[i]
    decreases |v| - start
  {
    if start < |v| {
      var u, w := Assigned(g, preds, v, start), PassFrom(g, preds, v, start);
      PassAt(g, preds, u, start + 1, i);
      if i == start {
        forall k: nat | k < start
          ensures w[k] == v[k]
        {
          PassAt(g, preds, u, start + 1, k);
        }
        assert Mixed(v, w, i) == v;
      } else if i > start {
        assert Mixed(u, w, i) == Mixed(v, w, i);
      }
    }
  }

  /** Then this pass and the next see the same at each predecessor. */
  lemma MixedAlike(g: Region, part: Part, preds: seq<nat>, v: Assignment, w: Assignment, x: Assignment, i: nat)
    requires |v| == |w| == |x| == g.Size() && i < |v| && LoopsAlike(g, part, v, w, |v|)
    requires forall k: nat | k < i :: Alike(part, w[k], x[k])
    requires i > 0 && forall k | 0 <= k < |preds| :: preds[k] < |v| && Edge(g, preds[k], i)
    ensures forall k | 0 <= k < |preds| :: Alike(part, Mixed(v, w, i)[preds[k]], Mixed(w, x, i)[preds[k]])
  {
    forall k | 0 <= k < |preds|
      ensures Alike(part, Mixed(v, w, i)[preds[k]], Mixed(w, x, i)[preds[k]])
    {
      var p := preds[k];
      assert p >= i ==> LoopsBack(g, p);
    }
  }

  lemma LoopsDecideAt(
    g: Region, part: Part, preds: seq<seq<nat>>, v: Assignment, w: Assignment, x: Assignment, i: nat)
    requires g.Valid() && IsPredecessors(g.succ, preds) && |v| == |w| == g.Size() && Closed(g, part) && i < |v|
    requires w == PassFrom(g, preds, v, 1) && x == PassFrom(g, preds, w, 1) && LoopsAlike(g, part, v, w, |v|)
    requires forall k: nat | k < i :: Alike(part, w[k], x[k])
    ensures Alike(part, w[i], x[i])
  {
    PassAt(g, preds, v, 1, i);
    PassAt(g, preds, w, 1, i);
    if i > 0 {
      assert forall k | 0 <= k < |preds[i]| :: preds[i][k] in preds[i];
      MixedAlike(g, part, preds[i], v, w, x, i);
      AlikeAssigned(g, part, preds, Mixed(v, w, i), Mixed(w, x, i), i);
    }
  }

  /** If a pass leaves the part alone at the loops, the next does so everywhere. */
  lemma {:induction false} LoopsDecide(
    g: Region, part: Part, preds: seq<seq<nat>>, v: Assignment, w: Assignment, i: nat)
    requires g.Valid() && IsPredecessors(g.succ, preds) && |v| == g.Size() && Closed(g, part) && i <= |v|
    requires w == PassFrom(g, preds, v, 1) && LoopsAlike(g, part, v, w, |v|)
    ensures forall k: nat | k < i :: Alike(part, w[k], PassFrom(g, preds, w, 1)[k])
  {
    if i > 0 {
      LoopsDecide(g, part, preds, v, w, i - 1);
      LoopsDecideAt(g, part, preds, v, w, PassFrom(g, preds, w, 1), i - 1);
    }
  }

  lemma SettledIsStable(g: Region, preds: seq<seq<nat>>, v: Assignment)
    requires g.Valid() && IsPredecessors(g.succ, preds) && |v| == g.Size() && v[0] == Some(CLEAN)
    requires PassFrom(g, preds, v, 1) == v
    ensures Stable(g, preds, v)
  {
    forall i: nat | 0 < i < |v|
      ensures Balanced(g, preds[i], v, i)
    {
      PassAt(g, preds, v, 1, i);
      assert Mixed(v, v, i) == v;
    }
  }

  // ---- The bound for one part ----------------------------------------------

  /** The pass after the first r leaves the part alone at the loops. */
  ghost predicate LoopsRest(g: Region, part: Part, preds: seq<seq<nat>>, r: nat)
    requires g.Valid() && IsPredecessors(g.succ, preds)
  {
    LoopsAlike(g, part, Passes(g, preds, r), Passes(g, preds, r + 1), g.Size())
  }

  /** The pass after the first r leaves the part alone. */
  ghost predicate PartRests(g: Region, part: Part, preds: seq<seq<nat>>, r: nat)
    requires g.Valid() && IsPredecessors(g.succ, preds)
  {
    AllAlike(part, Passes(g, preds, r), Passes(g, preds, r + 1))
  }

  lemma {:induction false} PartRestsLater(g: Region, part: Part, preds: seq<seq<nat>>, r: nat, k: nat)
    requires g.Valid() && IsPredecessors(g.succ, preds) && Closed(g, part) && LoopsRest(g, part, preds, r) && r < k
    ensures PartRests(g, part, preds, k)
    decreases k
  {
    if k == r + 1 {
      assert Passes(g, preds, k) == PassFrom(g, preds, Passes(g, preds, r), 1);
      assert Passes(g, preds, k + 1) == PassFrom(g, preds, Passes(g, preds, k), 1);
      LoopsDecide(g, part, preds, Passes(g, preds, r), Passes(g, preds, k), g.Size());
    } else {
      PartRestsLater(g, part, preds, r, k - 1);
      PassKeepsAlike(g, part, preds, Passes(g, preds, k - 1), Passes(g, preds, k), 1);
    }
  }

  /** A pass raises the part's ranks at the loops, or leaves it alone there. */
  lemma RaisesOrRests(g: Region, part: Part, preds: seq<seq<nat>>, r: nat)
    requires g.Valid() && IsPredecessors(g.succ, preds) && (part.Known? || LoopsRest(g, Known, preds, r))
    ensures LoopRank(g, part, Passes(g, preds, r), g.Size()) < LoopRank(g, part, Passes(g, preds, r + 1), g.Size())
         || LoopsRest(g, part, preds, r)
  {
    PassesRise(g, preds, r);
    LoopRankGrows(g, part, Passes(g, preds, r), Passes(g, preds, r + 1), g.Size());
  }

  /** From pass start on nothing new becomes known at the loops. */
  ghost predicate KnownFrom(g: Region, preds: seq<seq<nat>>, start: nat)
    requires g.Valid() && IsPredecessors(g.succ, preds)
  {
    forall j: nat | j >= start :: LoopsRest(g, Known, preds, j)
  }

  /** Then the part comes to rest there before its ranks run out. */
  lemma {:induction false} RestFrom(g: Region, part: Part, preds: seq<seq<nat>>, start: nat, r: nat) returns (k: nat)
    requires g.Valid() && IsPredecessors(g.succ, preds) && start <= r
    requires part.Known? || KnownFrom(g, preds, start)
    requires LoopRank(g, part, Passes(g, preds, r), g.Size()) >= r - start
    ensures k <= start + part.Height() * Loops(g, g.Size()) && LoopsRest(g, part, preds, k)
    decreases start + part.Height() * Loops(g, g.Size()) - r
  {
    RaisesOrRests(g, part, preds, r);
    LoopRankBound(g, part, Passes(g, preds, r), g.Size());
    LoopRankBound(g, part, Passes(g, preds, r + 1), g.Size());
    k := r;
    if !LoopsRest(g, part, preds, r) {
      k := RestFrom(g, part, preds, start, r + 1);
    }
  }

  /** Which instructions are reached is known after b passes at the loops. */
  lemma KnownRests(g: Region, preds: seq<seq<nat>>) returns (start: nat)
    requires g.Valid() && IsPredecessors(g.succ, preds)
    ensures start <= Loops(g, g.Size()) && KnownFrom(g, preds, start)
  {
    start := RestFrom(g, Known, preds, 0, 0);
    forall j: nat | j >= start
      ensures LoopsRest(g, Known, preds, j)
    {
      if j > start {
        PartRestsLater(g, Known, preds, start, j);
      }
    }
  }

  lemma InTime(height: nat, h: nat, b: nat)
    requires height <= h
    ensures b + height * b <= (h + 1) * b
  {
    OneMoreTime(b, h);
    Limbs.MulMonotone(height, h, b);
  }

  lemma PartComesToRest(g: Region, part: Part, preds: seq<seq<nat>>, h: nat, r: nat)
    requires g.Valid() && IsPredecessors(g.succ, preds) && Closed(g, part) && part.Height() <= h
    requires r > (h + 1) * Loops(g, g.Size())
    ensures PartRests(g, part, preds, r)
  {
    var b := Loops(g, g.Size());
    var start := KnownRests(g, preds);
    var k := RestFrom(g, part, preds, start, start);
    InTime(part.Height(), h, b);
    PartRestsLater(g, part, preds, k, r);
  }

  // ---- All parts together --------------------------------------------------

  /** Whether r is dirty depends on no more than h registers, r among them, from
      which copies come. */
  ghost predicate CopiedAmong(g: Region, r: Reg, h: nat) {
    exists c: set<Reg> :: r in c && |c| <= h && Closed(g, Dirty(c))
  }

  ghost predicate CopyDepth(g: Region, h: nat) {
    h >= 1 && forall r | CalleeSaved(r) :: CopiedAmong(g, r, h)
  }

  /** No instruction copies from a tracked register. */
  predicate NoCopies(g: Region) {
    forall i: nat | i < |g.effects| && g.effects[i].copyFrom.Some? :: !IsTracked(g.effects[i].copyFrom.value)
  }

  lemma NoCopiesDepth(g: Region)
    requires NoCopies(g)
    ensures CopyDepth(g, 1)
  {
    forall r | CalleeSaved(r)
      ensures CopiedAmong(g, r, 1)
    {
      assert Closed(g, Dirty({r}));
    }
  }

  /** The 20 tracked registers. */
  const TRACKED: nat := 20

  lemma {:induction false} ElementsSize<T>(s: seq<T>)
    ensures |set x | x in s| <= |s|
    decreases |s|
  {
    if s == [] {
      assert (set x | x in s) == {};
    } else {
      ElementsSize(s[1..]);
      assert s == [s[0]] + s[1..];
      assert (set x | x in s) == {s[0]} + (set x | x in s[1..]);
    }
  }

  lemma EveryDepth(g: Region)
    ensures CopyDepth(g, TRACKED)
  {
    var tracked := REPORTED + [X30];
    var c := set x | x in tracked;
    ElementsSize(tracked);
    forall r | CalleeSaved(r)
      ensures r in c
    {
      ReportedIsCalleeSaved(r);
    }
    assert Closed(g, Dirty(c));
  }

  lemma DirtyRests(g: Region, preds: seq<seq<nat>>, h: nat, r: nat, i: nat, q: Reg)
    requires g.Valid() && IsPredecessors(g.succ, preds) && CopyDepth(g, h) && i < g.Size()
    requires r > (h + 1) * Loops(g, g.Size()) && Passes(g, preds, r)[i].Some? && Passes(g, preds, r + 1)[i].Some?
    ensures q in Passes(g, preds, r)[i].value.dirty <==> q in Passes(g, preds, r + 1)[i].value.dirty
  {
    var a, b := Passes(g, preds, r)[i], Passes(g, preds, r + 1)[i];
    if CalleeSaved(q) {
      assert CopiedAmong(g, q, h);
      var c: set<Reg> :| q in c && |c| <= h && Closed(g, Dirty(c));
      PartComesToRest(g, Dirty(c), preds, h, r);
      assert Alike(Dirty(c), a, b);
      assert q in a.value.dirty * c <==> q in b.value.dirty * c;
    } else {
      PassesRise(g, preds, r);
      PassesRise(g, preds, r + 1);
      AttainedIsCalleeSaved(g, i, a.value);
      AttainedIsCalleeSaved(g, i, b.value);
    }
  }

  /** For every region: with b instructions from which an edge leads back, and
      copies among at most h registers, the passes after the first (h + 1) b + 1
      change nothing, and the states are exact. */
  lemma PassesComeToRest(g: Region, preds: seq<seq<nat>>, h: nat, r: nat)
    requires g.Valid() && IsPredecessors(g.succ, preds) && CopyDepth(g, h) && r > (h + 1) * Loops(g, g.Size())
    ensures SettlesAt(g, preds, r) && AllExact(g, Passes(g, preds, r))
  {
    var v, w := Passes(g, preds, r), Passes(g, preds, r + 1);
    PartComesToRest(g, Known, preds, h, r);
    PartComesToRest(g, Sp, preds, h, r);
    PartComesToRest(g, Saved, preds, h, r);
    PartComesToRest(g, Called, preds, h, r);
    forall i: nat | i < g.Size()
      ensures v[i] == w[i]
    {
      assert Alike(Known, v[i], w[i]) && Alike(Sp, v[i], w[i]) && Alike(Saved, v[i], w[i]) && Alike(Called, v[i], w[i]);
      if v[i].Some? {
        forall q
          ensures q in v[i].value.dirty <==> q in w[i].value.dirty
        {
          DirtyRests(g, preds, h, r, i, q);
        }
        assert v[i].value.dirty == w[i].value.dirty;
      }
    }
    PassesRise(g, preds, r);
    SettledIsStable(g, preds, v);
    ExactWhenStable(g, preds, v);
  }

  /** So 21 passes an instruction are always enough: the loop without its cap
      ends, and this is a cap that is never too small. */
  lemma SoundCap(g: Region, preds: seq<seq<nat>>)
    requires g.Valid() && IsPredecessors(g.succ, preds)
    ensures SettlesAt(g, preds, (TRACKED + 1) * g.Size()) && AllExact(g, Passes(g, preds, (TRACKED + 1) * g.Size()))
  {
    FewerLoops(g, g.Size());
    EveryDepth(g);
    PassesComeToRest(g, preds, TRACKED, (TRACKED + 1) * g.Size());
  }

  lemma {:induction false} FewerLoops(g: Region, k: nat)
    requires k > 0
    ensures Loops(g, k) < k
  {
    if k > 1 {
      FewerLoops(g, k - 1);
    } else {
      assert !LoopsBack(g, 0);
    }
  }

  /** No edge leads back, except to instruction 0. */
  ghost predicate StraightLine(g: Region) {
    forall p: nat :: !LoopsBack(g, p)
  }

  lemma {:induction false} StraightLineLoops(g: Region, k: nat)
    requires StraightLine(g)
    ensures Loops(g, k) == 0
  {
    if k > 0 {
      StraightLineLoops(g, k - 1);
    }
  }

  /** Few enough loops for the length: at most n / (h + 1). */
  ghost predicate FewLoops(g: Region, h: nat) {
    CopyDepth(g, h) && (h + 1) * Loops(g, g.Size()) <= g.Size()
  }

  lemma FewLoopsConverge(g: Region, h: nat, preds: seq<seq<nat>>, found: seq<seq<Warning>>, converged: bool)
    requires g.Valid() && IsPredecessors(g.succ, preds) && FewLoops(g, h)
    requires Reported(g, preds, found, converged)
    ensures converged
  {
    PassesComeToRest(g, preds, h, g.Size() + 1);
  }

  /** The cap of n + 2 passes is enough for a region with few enough loops: two
      instructions for each that loops back if nothing is copied from a tracked
      register, and any region without loops. Then the verdict at each return is
      that of the entry paths. */
  method CheckFewLoops(g: Region, ghost h: nat) returns (found: seq<seq<Warning>>)
    requires g.Valid() && Aligned(g) && FewLoops(g, h)
    ensures |found| == g.Size() && forall i: nat | i < |found| :: TellsOfRuns(g, i, found[i])
    ensures forall i: nat | i < |found| && g.effects[i].exit.Some? ::
      found[i] == [] <==> AllRestored(g, i, g.effects[i].exit.value)
    ensures ReturnsRestored(g) ==> forall i: nat | i < |found| && g.effects[i].exit.Some? ::
      found[i] == [] <==> EveryRunRestored(g, i, g.effects[i].exit.value)
  {
    var converged;
    found, converged := CheckReturns(g);
    ghost var preds :| IsPredecessors(g.succ, preds) && Reported(g, preds, found, converged);
    FewLoopsConverge(g, h, preds, found, converged);
  }
}
