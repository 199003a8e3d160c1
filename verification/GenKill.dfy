/** Gen/kill data flow over an arbitrary directed graph: what the fixpoint is,
    as a statement about paths, and how many rounds reach it. */
module GenKill {

  /** At each node: the neighbours whose facts flow in, the facts generated
      and the facts that do not pass through. */
  datatype Problem<!F> = Problem(deps: seq<seq<nat>>, gen: seq<set<F>>, kill: seq<set<F>>)
  {
    ghost predicate Valid()
    {
      && |gen| == |kill| == |deps|
      && forall i, k | 0 <= i < |deps| && 0 <= k < |deps[i]| :: deps[i][k] < |deps|
    }

    function Size(): nat
    {
      |deps|
    }
  }

  /** What flows into a node from its neighbours. */
  ghost function Incoming<F>(p: Problem<F>, v: seq<set<F>>, i: nat): set<F>
    requires p.Valid() && |v| == p.Size() && i < p.Size()
  {
    set k, f | 0 <= k < |p.deps[i]| && f in v[p.deps[i][k]] :: f
  }

  /** The same as an executable union over a list of neighbours. */
  function Union<F(!new)>(sources: seq<nat>, v: seq<set<F>>): (u: set<F>)
    requires forall k | 0 <= k < |sources| :: sources[k] < |v|
    ensures forall f :: f in u <==> exists s :: s in sources && f in v[s]
  {
    if sources == [] then {}
    else
      assert sources == [sources[0]] + sources[1..];
      v[sources[0]] + Union(sources[1..], v)
  }

  ghost function Transfer<F>(p: Problem<F>, v: seq<set<F>>, i: nat): set<F>
    requires p.Valid() && |v| == p.Size() && i < p.Size()
  {
    p.gen[i] + (Incoming(p, v, i) - p.kill[i])
  }

  ghost predicate Fixpoint<F>(p: Problem<F>, v: seq<set<F>>)
    requires p.Valid()
  {
    |v| == p.Size() && forall i | 0 <= i < |v| :: v[i] == Transfer(p, v, i)
  }

  // ---- The meaning: paths --------------------------------------------------

  /** A path from i that ends where f is generated, with no node before the
      last killing it. */
  ghost predicate Witness<F>(p: Problem<F>, path: seq<nat>, i: nat, f: F)
    requires p.Valid()
  {
    && path != [] && path[0] == i
    && (forall j | 0 <= j < |path| :: path[j] < p.Size())
    && (forall j | 0 <= j < |path| - 1 :: path[j + 1] in p.deps[path[j]])
    && (forall j | 0 <= j < |path| - 1 :: f !in p.kill[path[j]])
    && f in p.gen[path[|path| - 1]]
  }

  ghost predicate Reaches<F>(p: Problem<F>, i: nat, f: F)
    requires p.Valid()
  {
    exists path :: Witness(p, path, i, f)
  }

  /** The state says of each node exactly which facts it reaches. */
  ghost predicate Exact<F(!new)>(p: Problem<F>, v: seq<set<F>>)
    requires p.Valid()
  {
    |v| == p.Size() && forall i, f :: 0 <= i < |v| ==> (f in v[i] <==> Reaches(p, i, f))
  }

  ghost predicate Sound<F(!new)>(p: Problem<F>, v: seq<set<F>>)
    requires p.Valid()
  {
    |v| == p.Size() && forall i, f :: 0 <= i < |v| && f in v[i] ==> Reaches(p, i, f)
  }

  lemma ReachesGen<F>(p: Problem<F>, i: nat, f: F)
    requires p.Valid() && i < p.Size() && f in p.gen[i]
    ensures Reaches(p, i, f)
  {
    assert Witness(p, [i], i, f);
  }

  lemma ReachesStep<F>(p: Problem<F>, i: nat, s: nat, f: F)
    requires p.Valid() && i < p.Size() && s in p.deps[i] && f !in p.kill[i] && Reaches(p, s, f)
    ensures Reaches(p, i, f)
  {
    var path :| Witness(p, path, s, f);
    var longer := [i] + path;
    assert longer[1..] == path;
    assert Witness(p, longer, i, f);
  }

  lemma TransferSound<F(!new)>(p: Problem<F>, v: seq<set<F>>, i: nat)
    requires p.Valid() && Sound(p, v) && i < p.Size()
    ensures forall f :: f in Transfer(p, v, i) ==> Reaches(p, i, f)
  {
    forall f | f in Transfer(p, v, i)
      ensures Reaches(p, i, f)
    {
      if f in p.gen[i] {
        ReachesGen(p, i, f);
      } else {
        var k :| 0 <= k < |p.deps[i]| && f in v[p.deps[i][k]];
        ReachesStep(p, i, p.deps[i][k], f);
      }
    }
  }

  lemma {:induction false} FixpointComplete<F>(p: Problem<F>, v: seq<set<F>>, path: seq<nat>, i: nat, f: F)
    requires p.Valid() && Fixpoint(p, v) && Witness(p, path, i, f)
    ensures f in v[i]
    decreases |path|
  {
    if |path| > 1 {
      FixpointComplete(p, v, path[1..], path[1], f);
      var k :| 0 <= k < |p.deps[i]| && p.deps[i][k] == path[1];
      assert f in Incoming(p, v, i);
    }
  }

  /** A fixpoint reached from below is the path-based solution. */
  lemma SoundFixpointExact<F(!new)>(p: Problem<F>, v: seq<set<F>>)
    requires p.Valid() && Fixpoint(p, v) && Sound(p, v)
    ensures Exact(p, v)
  {
    forall i: nat, f: F | i < |v| && Reaches(p, i, f)
      ensures f in v[i]
    {
      var path :| Witness(p, path, i, f);
      FixpointComplete(p, v, path, i, f);
    }
  }

  // ---- Rounds --------------------------------------------------------------

  /** The nodes that have fact f. */
  ghost function At<F>(v: seq<set<F>>, f: F): set<nat>
  {
    set i: nat | i < |v| && f in v[i]
  }

  /** The equations hold for fact f. */
  ghost predicate StableFor<F>(p: Problem<F>, v: seq<set<F>>, f: F)
    requires p.Valid() && |v| == p.Size()
  {
    forall i: nat | i < |v| :: f in v[i] <==> f in Transfer(p, v, i)
  }

  /** After r rounds every fact is settled or held by at least r nodes. */
  ghost predicate Progress<F(!new)>(p: Problem<F>, v: seq<set<F>>, r: nat)
    requires p.Valid() && |v| == p.Size()
  {
    forall f: F {:trigger At(v, f)} :: StableFor(p, v, f) || |At(v, f)| >= r
  }

  /** Every fact present is justified by the current state. */
  ghost predicate Justified<F>(p: Problem<F>, v: seq<set<F>>)
    requires p.Valid() && |v| == p.Size()
  {
    forall i: nat | i < |v| :: v[i] <= Transfer(p, v, i)
  }

  ghost predicate Grows<F>(u: seq<set<F>>, v: seq<set<F>>)
  {
    |u| == |v| && forall i | 0 <= i < |u| :: u[i] <= v[i]
  }

  /** Part way through a round that began in v0: facts only appear, and a fact
      that has not spread agrees with the equations at the nodes done. */
  ghost predicate MidRound<F(!new)>(p: Problem<F>, v0: seq<set<F>>, v: seq<set<F>>, done: set<nat>)
    requires p.Valid() && |v0| == p.Size()
  {
    && |v| == p.Size() && Sound(p, v) && Justified(p, v) && Grows(v0, v)
    && (forall i: nat, f: F | i in done && i < |v| && At(v, f) == At(v0, f) ::
          f in v[i] <==> f in Transfer(p, v, i))
    && (forall f: F {:trigger At(v, f)} :: StableFor(p, v0, f) ==> At(v, f) == At(v0, f))
  }

  lemma TransferMonotone<F>(p: Problem<F>, u: seq<set<F>>, v: seq<set<F>>, i: nat)
    requires p.Valid() && |u| == p.Size() && Grows(u, v) && i < p.Size()
    ensures Transfer(p, u, i) <= Transfer(p, v, i)
  {
  }

  lemma TransferOfFact<F>(p: Problem<F>, u: seq<set<F>>, v: seq<set<F>>, i: nat, f: F)
    requires p.Valid() && |u| == |v| == p.Size() && i < p.Size() && At(u, f) == At(v, f)
    ensures f in Transfer(p, u, i) <==> f in Transfer(p, v, i)
  {
    assert forall k: nat | k < |u| :: (f in u[k] <==> k in At(u, f)) && (f in v[k] <==> k in At(v, f));
  }

  lemma AtMonotone<F>(u: seq<set<F>>, v: seq<set<F>>, f: F)
    requires Grows(u, v)
    ensures At(u, f) <= At(v, f)
  {
  }

  lemma StepJustified<F(!new)>(p: Problem<F>, v: seq<set<F>>, i: nat)
    requires p.Valid() && |v| == p.Size() && Sound(p, v) && Justified(p, v) && i < p.Size()
    ensures var w := v[i := Transfer(p, v, i)]; Grows(v, w) && Sound(p, w) && Justified(p, w)
  {
    var w := v[i := Transfer(p, v, i)];
    TransferSound(p, v, i);
    forall j: nat | j < |w|
      ensures w[j] <= Transfer(p, w, j)
    {
      TransferMonotone(p, v, w, j);
    }
  }

  lemma InAt<F>(v: seq<set<F>>, f: F, i: nat)
    requires i < |v|
    ensures f in v[i] <==> i in At(v, f)
  {
  }

  lemma StepAgrees<F(!new)>(p: Problem<F>, v0: seq<set<F>>, v: seq<set<F>>, done: set<nat>, i: nat, j: nat, f: F)
    requires p.Valid() && |v0| == p.Size() && MidRound(p, v0, v, done) && i < p.Size()
    requires j in done + {i} && j < p.Size()
    requires At(v[i := Transfer(p, v, i)], f) == At(v0, f)
    ensures var w := v[i := Transfer(p, v, i)]; f in w[j] <==> f in Transfer(p, w, j)
  {
    var w := v[i := Transfer(p, v, i)];
    StepJustified(p, v, i);
    AtMonotone(v0, v, f);
    AtMonotone(v, w, f);
    TransferOfFact(p, v, w, j, f);
    InAt(v, f, j);
    InAt(w, f, j);
  }

  lemma StepSettled<F(!new)>(p: Problem<F>, v0: seq<set<F>>, v: seq<set<F>>, done: set<nat>, i: nat, f: F)
    requires p.Valid() && |v0| == p.Size() && MidRound(p, v0, v, done) && i < p.Size() && StableFor(p, v0, f)
    ensures At(v[i := Transfer(p, v, i)], f) == At(v0, f)
  {
    var w := v[i := Transfer(p, v, i)];
    assert At(v, f) == At(v0, f);
    TransferOfFact(p, v0, v, i, f);
    InAt(v, f, i);
    InAt(v0, f, i);
    assert f in w[i] <==> f in v[i];
    assert At(w, f) == At(v, f);
  }

  /** Recomputing one node keeps the round's invariant. */
  lemma MidRoundStep<F(!new)>(p: Problem<F>, v0: seq<set<F>>, v: seq<set<F>>, done: set<nat>, i: nat)
    requires p.Valid() && |v0| == p.Size() && MidRound(p, v0, v, done) && i < p.Size()
    ensures MidRound(p, v0, v[i := Transfer(p, v, i)], done + {i})
  {
    var w := v[i := Transfer(p, v, i)];
    StepJustified(p, v, i);
    forall j: nat, f: F | j in done + {i} && j < |w| && At(w, f) == At(v0, f)
      ensures f in w[j] <==> f in Transfer(p, w, j)
    {
      StepAgrees(p, v0, v, done, i, j, f);
    }
    forall f: F | StableFor(p, v0, f)
      ensures At(w, f) == At(v0, f)
    {
      StepSettled(p, v0, v, done, i, f);
    }
  }

  lemma MidRoundStart<F(!new)>(p: Problem<F>, v: seq<set<F>>)
    requires p.Valid() && |v| == p.Size() && Sound(p, v) && Justified(p, v)
    ensures MidRound(p, v, v, {})
  {
  }

  /** A full round settles each fact or spreads it to another node. */
  lemma RoundEnd<F(!new)>(p: Problem<F>, v0: seq<set<F>>, v: seq<set<F>>, done: set<nat>, r: nat)
    requires p.Valid() && |v0| == p.Size() && MidRound(p, v0, v, done) && Progress(p, v0, r)
    requires forall i: nat | i < p.Size() :: i in done
    ensures Progress(p, v, r + 1)
    ensures v == v0 ==> Fixpoint(p, v)
    ensures Fixpoint(p, v0) ==> v == v0
  {
    forall f: F
      ensures StableFor(p, v, f) || |At(v, f)| >= r + 1
    {
      AtMonotone(v0, v, f);
      if At(v, f) != At(v0, f) {
        SubsetSize(At(v0, f), At(v, f));
      }
    }
    if v == v0 {
      forall i: nat | i < |v|
        ensures v[i] == Transfer(p, v, i)
      {
        assert i in done;
        forall f: F
          ensures f in v[i] <==> f in Transfer(p, v, i)
        {
          assert At(v, f) == At(v0, f);
        }
      }
    }
    if Fixpoint(p, v0) {
      SameFacts(v0, v);
    }
  }

  lemma SameFacts<F(!new)>(u: seq<set<F>>, v: seq<set<F>>)
    requires |u| == |v| && forall f: F :: At(u, f) == At(v, f)
    ensures u == v
  {
    forall i: nat | i < |u|
      ensures u[i] == v[i]
    {
      forall f: F
        ensures f in u[i] <==> f in v[i]
      {
        assert f in u[i] <==> i in At(u, f);
        assert f in v[i] <==> i in At(v, f);
      }
    }
  }

  lemma SubsetSize<T>(a: set<T>, b: set<T>)
    requires a < b
    ensures |a| < |b|
  {
    var x :| x in b && x !in a;
    CardinalityMonotone(a, b - {x});
  }

  lemma {:induction false} CardinalityMonotone<T>(a: set<T>, b: set<T>)
    requires a <= b
    ensures |a| <= |b|
  {
    if a != {} {
      var x :| x in a;
      CardinalityMonotone(a - {x}, b - {x});
    }
  }

  /** From nothing, n rounds are enough. */
  lemma Bottom<F(!new)>(p: Problem<F>, v: seq<set<F>>)
    requires p.Valid() && |v| == p.Size() && forall i | 0 <= i < |v| :: v[i] == {}
    ensures Sound(p, v) && Justified(p, v) && Progress(p, v, 0)
  {
  }

  lemma EnoughRounds<F(!new)>(p: Problem<F>, v: seq<set<F>>, r: nat)
    requires p.Valid() && |v| == p.Size() && Justified(p, v) && Progress(p, v, r) && r >= p.Size()
    ensures Fixpoint(p, v)
  {
    forall i: nat, f: F | i < |v|
      ensures f in v[i] <==> f in Transfer(p, v, i)
    {
      if !StableFor(p, v, f) {
        assert |At(v, f)| >= r;
        FullSubset(At(v, f), Nodes(|v|));
        InAt(v, f, i);
      }
    }
    forall i: nat | i < |v|
      ensures v[i] == Transfer(p, v, i)
    {
      assert forall f: F :: f in v[i] <==> f in Transfer(p, v, i);
    }
  }

  ghost function Nodes(n: nat): (s: set<nat>)
    ensures |s| == n && forall j: nat :: j in s <==> j < n
  {
    if n == 0 then {} else Nodes(n - 1) + {n - 1}
  }

  lemma FullSubset<T>(a: set<T>, b: set<T>)
    requires a <= b && |a| >= |b|
    ensures a == b
  {
    if a != b {
      SubsetSize(a, b);
    }
  }

  // ---- Rounds as loops run them --------------------------------------------

  /** A state on the way up from nothing, after r rounds. */
  ghost predicate Ready<F(!new)>(p: Problem<F>, v: seq<set<F>>, r: nat)
    requires p.Valid() && |v| == p.Size()
  {
    Sound(p, v) && Justified(p, v) && Progress(p, v, r)
  }

  ghost predicate Covers(done: set<nat>, lo: int, hi: int)
  {
    forall k: nat | lo <= k < hi :: k in done
  }

  /** Part way through a round, with the nodes lo..hi recomputed. */
  ghost predicate Partial<F(!new)>(p: Problem<F>, v0: seq<set<F>>, v: seq<set<F>>, lo: int, hi: int)
    requires p.Valid() && |v0| == p.Size()
  {
    exists done :: MidRound(p, v0, v, done) && Covers(done, lo, hi)
  }

  lemma PartialStart<F(!new)>(p: Problem<F>, v: seq<set<F>>, r: nat, k: int)
    requires p.Valid() && |v| == p.Size() && Ready(p, v, r)
    ensures Partial(p, v, v, k, k)
  {
    MidRoundStart(p, v);
    assert MidRound(p, v, v, {}) && Covers({}, k, k);
  }

  lemma PartialSound<F(!new)>(p: Problem<F>, v0: seq<set<F>>, v: seq<set<F>>, lo: int, hi: int)
    requires p.Valid() && |v0| == p.Size() && Partial(p, v0, v, lo, hi)
    ensures |v| == p.Size() && Sound(p, v)
  {
  }

  /** Recomputing node i extends the done range at either end. */
  lemma PartialStep<F(!new)>(p: Problem<F>, v0: seq<set<F>>, v: seq<set<F>>, lo: int, hi: int, i: nat)
    requires p.Valid() && |v0| == |v| == p.Size() && i < p.Size() && Partial(p, v0, v, lo, hi)
    ensures i == lo - 1 ==> Partial(p, v0, v[i := Transfer(p, v, i)], i, hi)
    ensures i == hi ==> Partial(p, v0, v[i := Transfer(p, v, i)], lo, i + 1)
  {
    var done :| MidRound(p, v0, v, done) && Covers(done, lo, hi);
    CoversMore(done, lo, hi, i);
    MidRoundStep(p, v0, v, done, i);
  }

  lemma CoversMore(done: set<nat>, lo: int, hi: int, i: nat)
    requires Covers(done, lo, hi)
    ensures i == lo - 1 ==> Covers(done + {i}, i, hi)
    ensures i == hi ==> Covers(done + {i}, lo, i + 1)
  {
  }

  lemma PartialEnd<F(!new)>(p: Problem<F>, v0: seq<set<F>>, v: seq<set<F>>, r: nat)
    requires p.Valid() && |v0| == |v| == p.Size() && Ready(p, v0, r) && Partial(p, v0, v, 0, p.Size())
    ensures Ready(p, v, r + 1)
    ensures v == v0 ==> Fixpoint(p, v)
    ensures Fixpoint(p, v0) ==> v == v0
  {
    var done :| MidRound(p, v0, v, done) && Covers(done, 0, p.Size());
    RoundEnd(p, v0, v, done, r);
  }
}
