/** Self and inclusive accounting of a sampled call tree, listed in preorder. */
module SampleTree {

  datatype Node<!K> = Node(depth: nat, count: nat, key: K)

  // ---- Regions of the preorder listing -------------------------------------

  /** The first index from i on whose node is shallower than d. */
  function End<K>(nodes: seq<Node<K>>, i: nat, d: nat): (e: nat)
    requires i <= |nodes|
    ensures i <= e <= |nodes| && (e < |nodes| ==> nodes[e].depth < d)
    ensures forall j | i <= j < e :: nodes[j].depth >= d
    decreases |nodes| - i
  {
    if i == |nodes| || nodes[i].depth < d then i else End(nodes, i + 1, d)
  }

  /** The sum of the weights w from i up to the first node shallower than d. */
  ghost function Span<K>(nodes: seq<Node<K>>, w: seq<int>, i: nat, d: nat): int
    requires |w| == |nodes| && i <= |nodes|
    decreases |nodes| - i
  {
    if i == |nodes| || nodes[i].depth < d then 0 else w[i] + Span(nodes, w, i + 1, d)
  }

  lemma {:induction false} SpanSplit<K>(nodes: seq<Node<K>>, w: seq<int>, i: nat, d: nat)
    requires |w| == |nodes| && i <= |nodes|
    ensures Span(nodes, w, i, d) == Span(nodes, w, i, d + 1) + Span(nodes, w, End(nodes, i, d + 1), d)
    decreases |nodes| - i
  {
    if i < |nodes| && nodes[i].depth >= d + 1 {
      SpanSplit(nodes, w, i + 1, d);
    }
  }

  /** A node's region is the node, what is below it, and its later siblings. */
  lemma SpanNode<K>(nodes: seq<Node<K>>, w: seq<int>, i: nat, d: nat)
    requires |w| == |nodes| && i < |nodes| && nodes[i].depth == d
    ensures Span(nodes, w, i, d)
         == w[i] + Span(nodes, w, i + 1, d + 1) + Span(nodes, w, End(nodes, i + 1, d + 1), d)
  {
    SpanSplit(nodes, w, i + 1, d);
  }

  lemma {:induction false} SpanZero<K>(nodes: seq<Node<K>>, w: seq<int>, i: nat, d: nat)
    requires |w| == |nodes| && i <= |nodes| && forall j | i <= j < End(nodes, i, d) :: w[j] == 0
    ensures Span(nodes, w, i, d) == 0
    decreases |nodes| - i
  {
    if i < |nodes| && nodes[i].depth >= d {
      SpanZero(nodes, w, i + 1, d);
    }
  }

  lemma {:induction false} SpanMonotone<K>(nodes: seq<Node<K>>, u: seq<int>, w: seq<int>, i: nat, d: nat)
    requires |u| == |w| == |nodes| && i <= |nodes| && forall j | i <= j < |w| :: u[j] <= w[j]
    ensures Span(nodes, u, i, d) <= Span(nodes, w, i, d)
    decreases |nodes| - i
  {
    if i < |nodes| && nodes[i].depth >= d {
      SpanMonotone(nodes, u, w, i + 1, d);
    }
  }

  // ---- The weights ---------------------------------------------------------

  /** Counts at one level of the tree. */
  ghost function Level<K>(nodes: seq<Node<K>>, d: nat): (w: seq<int>)
    ensures |w| == |nodes|
  {
    seq(|nodes|, j requires 0 <= j < |nodes| => if nodes[j].depth == d then nodes[j].count else 0)
  }

  /** The counts of the nodes at level d of the forest that starts at i. */
  ghost function Forest<K>(nodes: seq<Node<K>>, i: nat, d: nat): int
    requires i <= |nodes|
  {
    Span(nodes, Level(nodes, d), i, d)
  }

  /** The time in the children of i. */
  ghost function Children<K>(nodes: seq<Node<K>>, i: nat): int
    requires i < |nodes|
  {
    Forest(nodes, i + 1, nodes[i].depth + 1)
  }

  /** What is left for node i itself. */
  ghost function Own<K>(nodes: seq<Node<K>>, i: nat): int
    requires i < |nodes|
  {
    nodes[i].count - Children(nodes, i)
  }

  ghost function Owns<K>(nodes: seq<Node<K>>): (w: seq<int>)
    ensures |w| == |nodes| && forall j: nat | j < |nodes| :: w[j] == Own(nodes, j)
  {
    seq(|nodes|, j requires 0 <= j < |nodes| => Own(nodes, j))
  }

  function Positive(x: int): int {
    if x > 0 then x else 0
  }

  ghost function SelfAll<K>(nodes: seq<Node<K>>): (w: seq<int>)
    ensures |w| == |nodes| && forall j: nat | j < |nodes| :: w[j] == Positive(Own(nodes, j))
  {
    seq(|nodes|, j requires 0 <= j < |nodes| => Positive(Own(nodes, j)))
  }

  ghost function SelfOf<K>(nodes: seq<Node<K>>, key: K): (w: seq<int>)
    ensures |w| == |nodes|
    ensures forall j: nat | j < |nodes| :: w[j] == if nodes[j].key == key then Positive(Own(nodes, j)) else 0
  {
    seq(|nodes|, j requires 0 <= j < |nodes| => if nodes[j].key == key then Positive(Own(nodes, j)) else 0)
  }

  /** a is a proper ancestor of i: everything between is deeper than a. */
  ghost predicate Ancestor<K>(nodes: seq<Node<K>>, a: int, i: int)
    requires i < |nodes|
  {
    0 <= a < i && forall m | a < m <= i :: nodes[m].depth > nodes[a].depth
  }

  ghost predicate Seen<K>(nodes: seq<Node<K>>, i: nat, key: K)
    requires i < |nodes|
  {
    exists a :: Ancestor(nodes, a, i) && nodes[a].key == key
  }

  /** Inclusive time of a key: the topmost nodes that carry it. */
  ghost function InclusiveOf<K>(nodes: seq<Node<K>>, key: K): (w: seq<int>)
    ensures |w| == |nodes|
    ensures forall j: nat | j < |nodes| ::
      w[j] == if nodes[j].key == key && !Seen(nodes, j, key) then nodes[j].count else 0
  {
    seq(|nodes|, j requires 0 <= j < |nodes| =>
      if nodes[j].key == key && !Seen(nodes, j, key) then nodes[j].count else 0)
  }

  // ---- Well-formed trees ---------------------------------------------------

  /** A preorder listing rooted at depth 2. */
  ghost predicate Preorder<K>(nodes: seq<Node<K>>) {
    && (nodes != [] ==> nodes[0].depth == 2)
    && (forall i | 0 <= i < |nodes| :: nodes[i].depth >= 2)
    && forall i | 0 <= i < |nodes| - 1 :: nodes[i + 1].depth <= nodes[i].depth + 1
  }

  /** No node counts less than its children together. */
  ghost predicate Covering<K>(nodes: seq<Node<K>>) {
    forall i: nat | i < |nodes| :: Own(nodes, i) >= 0
  }

  /** Level d starts at i, or has ended. */
  ghost predicate StartsAt<K>(nodes: seq<Node<K>>, i: nat, d: nat) {
    i <= |nodes| && (i < |nodes| ==> nodes[i].depth <= d)
  }

  /** Below i the children start, and after its subtree the siblings go on. */
  lemma SubtreeStarts<K>(nodes: seq<Node<K>>, i: nat, d: nat)
    requires Preorder(nodes) && i < |nodes| && nodes[i].depth == d
    ensures StartsAt(nodes, i + 1, d + 1)
    ensures StartsAt(nodes, End(nodes, i + 1, d + 1), d)
  {
  }

  lemma ForestNode<K>(nodes: seq<Node<K>>, i: nat, d: nat)
    requires i < |nodes| && nodes[i].depth == d
    ensures Forest(nodes, i, d) == nodes[i].count + Forest(nodes, End(nodes, i + 1, d + 1), d)
  {
    SpanNode(nodes, Level(nodes, d), i, d);
    SpanZero(nodes, Level(nodes, d), i + 1, d + 1);
  }

  /** Own times add up to the counts of the level above them. */
  lemma {:induction false} OwnTelescopes<K>(nodes: seq<Node<K>>, i: nat, d: nat)
    requires Preorder(nodes) && StartsAt(nodes, i, d)
    ensures Span(nodes, Owns(nodes), i, d) == Forest(nodes, i, d)
    decreases |nodes| - i
  {
    if i < |nodes| && nodes[i].depth == d {
      SubtreeStarts(nodes, i, d);
      SpanNode(nodes, Owns(nodes), i, d);
      ForestNode(nodes, i, d);
      OwnTelescopes(nodes, i + 1, d + 1);
      OwnTelescopes(nodes, End(nodes, i + 1, d + 1), d);
    }
  }

  /** Below a node with the key, no node is topmost. */
  lemma NothingBelow<K>(nodes: seq<Node<K>>, key: K, i: nat, d: nat)
    requires i < |nodes| && nodes[i].depth == d && nodes[i].key == key
    ensures Span(nodes, InclusiveOf(nodes, key), i + 1, d + 1) == 0
  {
    forall j: nat | i + 1 <= j < End(nodes, i + 1, d + 1)
      ensures InclusiveOf(nodes, key)[j] == 0
    {
      assert Ancestor(nodes, i, j);
    }
    SpanZero(nodes, InclusiveOf(nodes, key), i + 1, d + 1);
  }

  /** What a node's region holds, in the children and the later siblings. */
  lemma InclusiveAtNode<K>(nodes: seq<Node<K>>, key: K, i: nat, d: nat, below: int, after: int)
    requires Preorder(nodes) && Covering(nodes) && i < |nodes| && nodes[i].depth == d
    requires below == Span(nodes, InclusiveOf(nodes, key), i + 1, d + 1) <= Forest(nodes, i + 1, d + 1)
    requires after == Span(nodes, InclusiveOf(nodes, key), End(nodes, i + 1, d + 1), d)
          <= Forest(nodes, End(nodes, i + 1, d + 1), d)
    ensures Span(nodes, InclusiveOf(nodes, key), i, d) <= Forest(nodes, i, d)
  {
    SpanNode(nodes, InclusiveOf(nodes, key), i, d);
    ForestNode(nodes, i, d);
    if nodes[i].key == key {
      NothingBelow(nodes, key, i, d);
    } else {
      assert Own(nodes, i) >= 0;
    }
  }

  /** Topmost nodes never count the same time twice. */
  lemma {:induction false} InclusiveFits<K>(nodes: seq<Node<K>>, key: K, i: nat, d: nat)
    requires Preorder(nodes) && Covering(nodes) && StartsAt(nodes, i, d)
    ensures Span(nodes, InclusiveOf(nodes, key), i, d) <= Forest(nodes, i, d)
    decreases |nodes| - i
  {
    if i < |nodes| && nodes[i].depth == d {
      var e := End(nodes, i + 1, d + 1);
      SubtreeStarts(nodes, i, d);
      InclusiveFits(nodes, key, i + 1, d + 1);
      InclusiveFits(nodes, key, e, d);
      InclusiveAtNode(nodes, key, i, d, Span(nodes, InclusiveOf(nodes, key), i + 1, d + 1),
                      Span(nodes, InclusiveOf(nodes, key), e, d));
    }
  }

  /** No node before i that is an ancestor of a later one carries the key. */
  ghost predicate Fresh<K>(nodes: seq<Node<K>>, key: K, i: nat) {
    forall a, j | 0 <= a < i <= j < |nodes| && Ancestor(nodes, a, j) :: nodes[a].key != key
  }

  lemma FreshAfter<K>(nodes: seq<Node<K>>, key: K, i: nat, d: nat)
    requires Preorder(nodes) && i < |nodes| && nodes[i].depth == d && Fresh(nodes, key, i)
    ensures Fresh(nodes, key, End(nodes, i + 1, d + 1)) && StartsAt(nodes, End(nodes, i + 1, d + 1), d)
    ensures (nodes[i].key != key ==> Fresh(nodes, key, i + 1)) && StartsAt(nodes, i + 1, d + 1)
  {
    SubtreeStarts(nodes, i, d);
  }

  /** The self time of a key below a node is within the node's children. */
  lemma SelfBelow<K>(nodes: seq<Node<K>>, key: K, i: nat, d: nat)
    requires Preorder(nodes) && Covering(nodes) && i < |nodes| && nodes[i].depth == d
    ensures Span(nodes, SelfOf(nodes, key), i + 1, d + 1) <= Children(nodes, i)
  {
    SubtreeStarts(nodes, i, d);
    SpanMonotone(nodes, SelfOf(nodes, key), Owns(nodes), i + 1, d + 1);
    OwnTelescopes(nodes, i + 1, d + 1);
  }

  lemma SelfAtNode<K>(nodes: seq<Node<K>>, key: K, i: nat, d: nat, e: nat)
    requires Preorder(nodes) && Covering(nodes) && i < |nodes| && nodes[i].depth == d && Fresh(nodes, key, i)
    requires e == End(nodes, i + 1, d + 1)
    requires Span(nodes, SelfOf(nodes, key), e, d) <= Span(nodes, InclusiveOf(nodes, key), e, d)
    requires nodes[i].key != key ==>
      Span(nodes, SelfOf(nodes, key), i + 1, d + 1) <= Span(nodes, InclusiveOf(nodes, key), i + 1, d + 1)
    ensures Span(nodes, SelfOf(nodes, key), i, d) <= Span(nodes, InclusiveOf(nodes, key), i, d)
  {
    SpanNode(nodes, InclusiveOf(nodes, key), i, d);
    SpanNode(nodes, SelfOf(nodes, key), i, d);
    if nodes[i].key == key {
      assert !Seen(nodes, i, key);
      SelfBelow(nodes, key, i, d);
      InclusiveNonNegative(nodes, key, i + 1, d + 1);
    }
  }

  /** A key's own time is covered by its topmost nodes. */
  lemma {:induction false} SelfWithinInclusive<K>(nodes: seq<Node<K>>, key: K, i: nat, d: nat)
    requires Preorder(nodes) && Covering(nodes) && StartsAt(nodes, i, d) && Fresh(nodes, key, i)
    ensures Span(nodes, SelfOf(nodes, key), i, d) <= Span(nodes, InclusiveOf(nodes, key), i, d)
    decreases |nodes| - i
  {
    if i < |nodes| && nodes[i].depth == d {
      FreshAfter(nodes, key, i, d);
      SelfWithinInclusive(nodes, key, End(nodes, i + 1, d + 1), d);
      if nodes[i].key != key {
        SelfWithinInclusive(nodes, key, i + 1, d + 1);
      }
      SelfAtNode(nodes, key, i, d, End(nodes, i + 1, d + 1));
    }
  }

  lemma {:induction false} InclusiveNonNegative<K>(nodes: seq<Node<K>>, key: K, i: nat, d: nat)
    requires i <= |nodes|
    ensures Span(nodes, InclusiveOf(nodes, key), i, d) >= 0
    decreases |nodes| - i
  {
    if i < |nodes| && nodes[i].depth >= d {
      InclusiveNonNegative(nodes, key, i + 1, d);
    }
  }

  // ---- Sums over all nodes -------------------------------------------------

  ghost function Sum(w: seq<int>, i: nat): int
    requires i <= |w|
  {
    if i == 0 then 0 else Sum(w, i - 1) + w[i - 1]
  }

  lemma {:induction false} SumIsSpan<K>(nodes: seq<Node<K>>, w: seq<int>, i: nat)
    requires |w| == |nodes| && Preorder(nodes) && i <= |nodes|
    ensures Sum(w, |w|) == Sum(w, i) + Span(nodes, w, i, 2)
    decreases |nodes| - i
  {
    if i < |nodes| {
      SumIsSpan(nodes, w, i + 1);
    }
  }

  lemma {:induction false} SumGap(u: seq<int>, w: seq<int>, i: nat)
    requires |u| == |w| >= i && forall j | 0 <= j < i :: u[j] <= w[j]
    ensures Sum(u, i) <= Sum(w, i)
    ensures Sum(u, i) == Sum(w, i) <==> forall j | 0 <= j < i :: u[j] == w[j]
  {
    if i > 0 {
      SumGap(u, w, i - 1);
    }
  }

  /** Self times add up to the total exactly when every node covers its
      children. */
  lemma SelfConserved<K>(nodes: seq<Node<K>>)
    requires Preorder(nodes)
    ensures Sum(SelfAll(nodes), |nodes|) == Sum(Level(nodes, 2), |nodes|) <==> Covering(nodes)
  {
    var own, all := Owns(nodes), SelfAll(nodes);
    SumIsSpan(nodes, own, 0);
    SumIsSpan(nodes, Level(nodes, 2), 0);
    OwnTelescopes(nodes, 0, 2);
    SumGap(own, all, |nodes|);
    if Covering(nodes) {
      assert forall j: nat | j < |nodes| :: own[j] == all[j];
    }
    if forall j | 0 <= j < |nodes| :: own[j] == all[j] {
      forall j: nat | j < |nodes|
        ensures Own(nodes, j) >= 0
      {
        assert own[j] == all[j];
      }
    }
  }

  /** For every key, self is at most inclusive and inclusive at most total,
      however often the key repeats along a path. */
  lemma InclusiveBetween<K>(nodes: seq<Node<K>>, key: K)
    requires Preorder(nodes) && Covering(nodes)
    ensures Sum(SelfOf(nodes, key), |nodes|) <= Sum(InclusiveOf(nodes, key), |nodes|)
         <= Sum(Level(nodes, 2), |nodes|)
  {
    SumIsSpan(nodes, SelfOf(nodes, key), 0);
    SumIsSpan(nodes, InclusiveOf(nodes, key), 0);
    SumIsSpan(nodes, Level(nodes, 2), 0);
    SelfWithinInclusive(nodes, key, 0, 2);
    InclusiveFits(nodes, key, 0, 2);
  }

  // ---- Sums over a table ---------------------------------------------------

  ghost function TableSum<K>(m: map<K, int>): int
    decreases |m|
  {
    if m == map[] then 0
    else
      var k :| k in m;
      m[k] + TableSum(m - {k})
  }

  lemma {:induction false} TableSumPick<K>(m: map<K, int>, k: K)
    requires k in m
    ensures TableSum(m) == m[k] + TableSum(m - {k})
    decreases |m|
  {
    var first :| first in m && TableSum(m) == m[first] + TableSum(m - {first});
    if first != k {
      TableSumPick(m - {first}, k);
      TableSumPick(m - {k}, first);
      assert m - {first} - {k} == m - {k} - {first};
    }
  }

  function Lookup<K>(m: map<K, int>, k: K): int {
    if k in m then m[k] else 0
  }

  function Added<K(!new)>(m: map<K, int>, k: K, v: int): (w: map<K, int>)
    ensures forall j :: Lookup(w, j) == Lookup(m, j) + if j == k then v else 0
  {
    m[k := Lookup(m, k) + v]
  }

  lemma TableSumAdd<K(!new)>(m: map<K, int>, k: K, v: int)
    ensures TableSum(Added(m, k, v)) == TableSum(m) + v
  {
    var w := Added(m, k, v);
    TableSumPick(w, k);
    assert w - {k} == m - {k};
    if k in m {
      TableSumPick(m, k);
    } else {
      assert m - {k} == m;
    }
  }

  // ---- parse_sample --------------------------------------------------------

  /** The inner loop over what follows node i. */
  method ChildrenOf<K>(nodes: seq<Node<K>>, i: nat) returns (children: int)
    requires i < |nodes|
    ensures children == Children(nodes, i)
  {
    var d := nodes[i].depth;
    ghost var level := Level(nodes, d + 1);
    children := 0;
    var j := i + 1;
    while j < |nodes|
      invariant i < j <= |nodes| && children + Span(nodes, level, j, d + 1) == Children(nodes, i)
    {
      if nodes[j].depth <= d {
        break;
      }
      if nodes[j].depth == d + 1 {
        children := children + nodes[j].count;
      }
      j := j + 1;
    }
  }

  /** The inner loop over what comes before node i. */
  method SeenAbove<K(==)>(nodes: seq<Node<K>>, i: nat) returns (seen: bool)
    requires i < |nodes|
    ensures seen <==> Seen(nodes, i, nodes[i].key)
  {
    var ancestorDepth := nodes[i].depth;
    seen := false;
    var j := i;
    while j > 0
      invariant 0 <= j <= i && !seen
      invariant forall m | j <= m <= i :: nodes[m].depth >= ancestorDepth
      invariant exists m | j <= m <= i :: nodes[m].depth == ancestorDepth
      invariant forall a | j <= a < i && Ancestor(nodes, a, i) :: nodes[a].key != nodes[i].key
    {
      j := j - 1;
      if nodes[j].depth >= ancestorDepth {
        continue;
      }
      ancestorDepth := nodes[j].depth;
      if nodes[j].key == nodes[i].key {
        assert Ancestor(nodes, j, i);
        seen := true;
        break;
      }
      if ancestorDepth == 0 {
        break;
      }
    }
  }

  /** The self table accounts for the nodes below i. */
  ghost predicate SelfTally<K(!new)>(nodes: seq<Node<K>>, self: map<K, int>, i: nat)
    requires i <= |nodes|
  {
    && TableSum(self) == Sum(SelfAll(nodes), i)
    && forall k :: Lookup(self, k) == Sum(SelfOf(nodes, k), i)
  }

  ghost predicate InclusiveTally<K(!new)>(nodes: seq<Node<K>>, inclusive: map<K, int>, i: nat)
    requires i <= |nodes|
  {
    forall k :: Lookup(inclusive, k) == Sum(InclusiveOf(nodes, k), i)
  }

  lemma SelfStep<K(!new)>(nodes: seq<Node<K>>, self: map<K, int>, i: nat)
    requires i < |nodes| && SelfTally(nodes, self, i)
    ensures SelfTally(nodes, if Own(nodes, i) > 0 then Added(self, nodes[i].key, Own(nodes, i)) else self, i + 1)
  {
    TableSumAdd(self, nodes[i].key, Own(nodes, i));
  }

  lemma InclusiveStep<K(!new)>(nodes: seq<Node<K>>, inclusive: map<K, int>, i: nat)
    requires i < |nodes| && InclusiveTally(nodes, inclusive, i)
    ensures var seen := Seen(nodes, i, nodes[i].key);
      InclusiveTally(nodes, if seen then inclusive else Added(inclusive, nodes[i].key, nodes[i].count), i + 1)
  {
  }

  method Total<K>(nodes: seq<Node<K>>) returns (total: int)
    ensures total == Sum(Level(nodes, 2), |nodes|)
  {
    total := 0;
    for i := 0 to |nodes|
      invariant total == Sum(Level(nodes, 2), i)
    {
      if nodes[i].depth == 2 {
        total := total + nodes[i].count;
      }
    }
  }

  /** Node i's share of the self table. */
  method AccountSelf<K(==, !new)>(nodes: seq<Node<K>>, self: map<K, int>, i: nat) returns (r: map<K, int>)
    requires i < |nodes| && SelfTally(nodes, self, i)
    ensures SelfTally(nodes, r, i + 1)
  {
    var children := ChildrenOf(nodes, i);
    var own := nodes[i].count - children;
    SelfStep(nodes, self, i);
    r := if own > 0 then Added(self, nodes[i].key, own) else self;
  }

  /** Node i's share of the inclusive table. */
  method AccountInclusive<K(==, !new)>(nodes: seq<Node<K>>, inclusive: map<K, int>, i: nat) returns (r: map<K, int>)
    requires i < |nodes| && InclusiveTally(nodes, inclusive, i)
    ensures InclusiveTally(nodes, r, i + 1)
  {
    var seen := SeenAbove(nodes, i);
    InclusiveStep(nodes, inclusive, i);
    r := if !seen then Added(inclusive, nodes[i].key, nodes[i].count) else inclusive;
  }

  /** The total, and the self and inclusive tables by key. */
  method ParseSample<K(==, !new)>(nodes: seq<Node<K>>) returns (total: int, self: map<K, int>, inclusive: map<K, int>)
    ensures total == Sum(Level(nodes, 2), |nodes|)
    ensures SelfTally(nodes, self, |nodes|) && InclusiveTally(nodes, inclusive, |nodes|)
  {
    total := Total(nodes);
    self, inclusive := map[], map[];
    for i := 0 to |nodes|
      invariant SelfTally(nodes, self, i) && InclusiveTally(nodes, inclusive, i)
    {
      self := AccountSelf(nodes, self, i);
      inclusive := AccountInclusive(nodes, inclusive, i);
    }
  }

  /** The accounting of a well-formed profile. */
  method Account<K(==, !new)>(nodes: seq<Node<K>>) returns (total: int, self: map<K, int>, inclusive: map<K, int>)
    requires Preorder(nodes)
    ensures TableSum(self) == total <==> Covering(nodes)
    ensures Covering(nodes) ==> forall k :: Lookup(self, k) <= Lookup(inclusive, k) <= total
  {
    total, self, inclusive := ParseSample(nodes);
    SelfConserved(nodes);
    if Covering(nodes) {
      forall k: K
        ensures Lookup(self, k) <= Lookup(inclusive, k) <= total
      {
        InclusiveBetween(nodes, k);
      }
    }
  }
}
