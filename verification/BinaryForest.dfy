/** The union-find certificate that a constraint network is a binary forest. */
module BinaryForest {
  import opened Order
  import opened HdemModel

  // ---- The graph of a problem ----------------------------------------------------------------

  type Edge = set<Name>

  predicate Binary(c: Constraint) {
    |c.scope| == 2
  }

  function EdgeOf(c: Constraint): Edge
    requires Binary(c)
  {
    {c.scope[0], c.scope[1]}
  }

  /** The variable pairs related by the first `k` constraints. */
  function Edges(p: Problem, k: nat): set<Edge>
    requires k <= |p.constraints|
  {
    set j | 0 <= j < k && Binary(p.constraints[j]) :: EdgeOf(p.constraints[j])
  }

  predicate Path(es: set<Edge>, path: seq<Name>) {
    path != [] && forall i | 0 <= i < |path| - 1 :: {path[i], path[i + 1]} in es
  }

  /** A simple cycle: at least three distinct variables, each joined to the next, the last to the
      first. */
  predicate Cycle(es: set<Edge>, c: seq<Name>) {
    |c| >= 3 && NoDuplicates(c) && Path(es, c) && {c[|c| - 1], c[0]} in es
  }

  ghost predicate Acyclic(es: set<Edge>) {
    forall c :: !Cycle(es, c)
  }

  ghost predicate AtMostBinary(p: Problem) {
    forall k | 0 <= k < |p.constraints| :: |p.constraints[k].scope| <= 2
  }

  /** No constraint of arity above two, and no cycle in the graph of related pairs. */
  ghost predicate Forest(p: Problem) {
    AtMostBinary(p) && Acyclic(Edges(p, |p.constraints|))
  }

  /** Binary constraints relate two different known variables. */
  ghost predicate PairsKnown(p: Problem) {
    forall k | 0 <= k < |p.constraints| && Binary(p.constraints[k]) ::
      var c := p.constraints[k];
      c.scope[0] != c.scope[1] && c.scope[0] < |p.variables| && c.scope[1] < |p.variables|
  }

  lemma WellFormedPairs(p: Problem)
    requires WellFormed(p)
    ensures PairsKnown(p)
  {
    forall k | 0 <= k < |p.constraints| && Binary(p.constraints[k])
      ensures var c := p.constraints[k];
              c.scope[0] != c.scope[1] && c.scope[0] < |p.variables| && c.scope[1] < |p.variables|
    {
      assert p.constraints[k] in p.constraints;
    }
  }

  // ---- Components ----------------------------------------------------------------------------

  /** One label for every variable; equal labels mean the same component. */
  type Labels = seq<Name>

  function Merge(labels: Labels, u: Name, w: Name): (r: Labels)
    requires u < |labels| && w < |labels|
    ensures |r| == |labels|
    ensures forall v | 0 <= v < |labels| :: r[v] == if labels[v] == labels[u] then labels[w] else labels[v]
  {
    seq(|labels|, v requires 0 <= v < |labels| => if labels[v] == labels[u] then labels[w] else labels[v])
  }

  /** The components after the first `k` constraints, joined one pair at a time. */
  ghost function Components(p: Problem, k: nat): (r: Labels)
    requires PairsKnown(p) && k <= |p.constraints|
    ensures |r| == |p.variables|
  {
    if k == 0 then seq(|p.variables|, v => v)
    else if !Binary(p.constraints[k - 1]) then Components(p, k - 1)
    else
      var c := p.constraints[k - 1];
      Merge(Components(p, k - 1), c.scope[0], c.scope[1])
  }

  /** Constraint `k`, when it relates a new pair, joins two different components. */
  ghost predicate Crosses(p: Problem, k: nat)
    requires PairsKnown(p) && k < |p.constraints|
  {
    var c := p.constraints[k];
    Binary(c) && EdgeOf(c) !in Edges(p, k) ==>
      Components(p, k)[c.scope[0]] != Components(p, k)[c.scope[1]]
  }

  lemma EdgesStep(p: Problem, k: nat)
    requires k < |p.constraints|
    ensures Edges(p, k + 1) == Edges(p, k) + if Binary(p.constraints[k]) then {EdgeOf(p.constraints[k])} else {}
  {}

  /** Related variables share their component. */
  lemma {:induction false} RelatedShareLabel(p: Problem, k: nat, u: Name, w: Name)
    requires PairsKnown(p) && k <= |p.constraints| && {u, w} in Edges(p, k)
    ensures u < |p.variables| && w < |p.variables|
    ensures Components(p, k)[u] == Components(p, k)[w]
  {
    EdgesStep(p, k - 1);
    var c := p.constraints[k - 1];
    if {u, w} in Edges(p, k - 1) {
      RelatedShareLabel(p, k - 1, u, w);
    }
  }

  /** Variables of one component are joined by a simple path inside it. */
  lemma {:induction false} Connect(p: Problem, k: nat, u: Name, v: Name) returns (path: seq<Name>)
    requires PairsKnown(p) && k <= |p.constraints| && u < |p.variables| && v < |p.variables|
    requires Components(p, k)[u] == Components(p, k)[v]
    ensures Path(Edges(p, k), path) && NoDuplicates(path)
    ensures path[0] == u && path[|path| - 1] == v
    ensures forall i | 0 <= i < |path| :: path[i] < |p.variables| && Components(p, k)[path[i]] == Components(p, k)[u]
  {
    if k == 0 {
      path := [u];
      return;
    }
    EdgesStep(p, k - 1);
    var c := p.constraints[k - 1];
    var labels := Components(p, k - 1);
    if !Binary(c) || labels[u] == labels[v] {
      path := Connect(p, k - 1, u, v);
    } else if labels[u] == labels[c.scope[0]] {
      var first := Connect(p, k - 1, u, c.scope[0]);
      var second := Connect(p, k - 1, c.scope[1], v);
      path := first + second;
    } else {
      var first := Connect(p, k - 1, u, c.scope[1]);
      var second := Connect(p, k - 1, c.scope[0], v);
      assert {c.scope[1], c.scope[0]} == EdgeOf(c);
      path := first + second;
    }
  }

  lemma LongerThanPair(es: set<Edge>, path: seq<Name>)
    requires Path(es, path) && path[0] != path[|path| - 1] && {path[0], path[|path| - 1]} !in es
    ensures |path| >= 3
  {}

  /** A new pair inside one component closes a cycle. */
  lemma InsideMeansCycle(p: Problem, k: nat)
    requires PairsKnown(p) && k < |p.constraints| && !Crosses(p, k)
    ensures !Acyclic(Edges(p, k + 1))
  {
    var c := p.constraints[k];
    EdgesStep(p, k);
    var path := Connect(p, k, c.scope[0], c.scope[1]);
    LongerThanPair(Edges(p, k), path);
    assert {path[|path| - 1], path[0]} == EdgeOf(c);
    assert Cycle(Edges(p, k + 1), path);
  }

  lemma CycleGrows(small: set<Edge>, large: set<Edge>, cycle: seq<Name>)
    requires small <= large && Cycle(small, cycle)
    ensures Cycle(large, cycle)
  {}

  /** Walking a path whose related pairs share labels stays on one label. */
  lemma {:induction false} SegmentShares(labels: Labels, c: seq<Name>, i: nat, j: nat)
    requires i <= j < |c| && forall m | i <= m <= j :: c[m] < |labels|
    requires forall m | i <= m < j :: labels[c[m]] == labels[c[m + 1]]
    ensures labels[c[i]] == labels[c[j]]
    decreases j - i
  {
    if i < j {
      SegmentShares(labels, c, i + 1, j);
    }
  }

  /** Apart from the pair `e`, neighbours on the cycle share their labels. */
  ghost predicate SharesBesides(labels: Labels, c: seq<Name>, e: Edge) {
    && c != []
    && (forall i | 0 <= i < |c| :: c[i] < |labels|)
    && (forall i | 0 <= i < |c| - 1 && {c[i], c[i + 1]} != e :: labels[c[i]] == labels[c[i + 1]])
    && ({c[|c| - 1], c[0]} != e ==> labels[c[|c| - 1]] == labels[c[0]])
  }

  lemma CycleShares(p: Problem, k: nat, c: seq<Name>)
    requires PairsKnown(p) && k < |p.constraints| && Binary(p.constraints[k]) && Cycle(Edges(p, k + 1), c)
    ensures SharesBesides(Components(p, k), c, EdgeOf(p.constraints[k]))
  {
    var e, last := EdgeOf(p.constraints[k]), |c| - 1;
    EdgesStep(p, k);
    forall i | 0 <= i <= last ensures c[i] < |p.variables| {
      KnownOnCycle(p, k + 1, c, i);
    }
    forall i | 0 <= i < last && {c[i], c[i + 1]} != e
      ensures Components(p, k)[c[i]] == Components(p, k)[c[i + 1]]
    {
      RelatedShareLabel(p, k, c[i], c[i + 1]);
    }
    if {c[last], c[0]} != e {
      RelatedShareLabel(p, k, c[last], c[0]);
    }
  }

  /** If the pair is the step behind position `i`, the rest of the cycle leads around it. */
  lemma AroundInnerPair(labels: Labels, c: seq<Name>, e: Edge, i: nat)
    requires SharesBesides(labels, c, e) && NoDuplicates(c) && |c| >= 3 && {c[|c| - 1], c[0]} != e
    requires i < |c| - 1 && {c[i], c[i + 1]} == e
    ensures labels[c[i]] == labels[c[i + 1]]
  {
    OtherPairsDiffer(c, i);
    SegmentShares(labels, c, 0, i);
    SegmentShares(labels, c, i + 1, |c| - 1);
  }

  lemma AroundClosingPair(labels: Labels, c: seq<Name>, e: Edge)
    requires SharesBesides(labels, c, e) && NoDuplicates(c) && |c| >= 3 && {c[|c| - 1], c[0]} == e
    ensures labels[c[0]] == labels[c[|c| - 1]]
  {
    forall i | 0 <= i < |c| - 1 ensures {c[i], c[i + 1]} != e {
      assert c[i] in {c[i], c[i + 1]} && c[i + 1] in {c[i], c[i + 1]};
    }
    SegmentShares(labels, c, 0, |c| - 1);
  }

  /** A cycle that uses a pair joining two components is impossible: its other pairs lead around. */
  lemma CrossingPairInNoCycle(p: Problem, k: nat, c: seq<Name>)
    requires PairsKnown(p) && k < |p.constraints| && Binary(p.constraints[k]) && Crosses(p, k)
    requires EdgeOf(p.constraints[k]) !in Edges(p, k) && Acyclic(Edges(p, k))
    ensures !Cycle(Edges(p, k + 1), c)
  {
    if Cycle(Edges(p, k + 1), c) {
      var e, last := EdgeOf(p.constraints[k]), |c| - 1;
      EdgesStep(p, k);
      CycleShares(p, k, c);
      if {c[last], c[0]} == e {
        AroundClosingPair(Components(p, k), c, e);
      } else if i :| 0 <= i < last && {c[i], c[i + 1]} == e {
        AroundInnerPair(Components(p, k), c, e, i);
      } else {
        CycleWithoutPair(Edges(p, k), e, c);
      }
    }
  }

  lemma CycleWithoutPair(es: set<Edge>, e: Edge, c: seq<Name>)
    requires Cycle(es + {e}, c) && {c[|c| - 1], c[0]} != e
    requires forall i | 0 <= i < |c| - 1 :: {c[i], c[i + 1]} != e
    ensures Cycle(es, c)
  {}

  lemma KnownOnCycle(p: Problem, k: nat, c: seq<Name>, i: nat)
    requires PairsKnown(p) && k <= |p.constraints| && Cycle(Edges(p, k), c) && i < |c|
    ensures c[i] < |p.variables|
  {
    if i + 1 < |c| {
      RelatedShareLabel(p, k, c[i], c[i + 1]);
    } else {
      RelatedShareLabel(p, k, c[i], c[0]);
    }
  }

  lemma OtherPairsDiffer(c: seq<Name>, i: nat)
    requires NoDuplicates(c) && i + 1 < |c|
    ensures forall j | 0 <= j < |c| - 1 && j != i :: {c[j], c[j + 1]} != {c[i], c[i + 1]}
  {
    forall j | 0 <= j < |c| - 1 && j != i ensures {c[j], c[j + 1]} != {c[i], c[i + 1]} {
      if {c[j], c[j + 1]} == {c[i], c[i + 1]} {
        assert false;
      }
    }
  }

  /** The pairs are acyclic iff every new pair joined two components. */
  lemma {:induction false} AcyclicIffCrossing(p: Problem, k: nat)
    requires PairsKnown(p) && k <= |p.constraints|
    ensures Acyclic(Edges(p, k)) <==> forall j | 0 <= j < k :: Crosses(p, j)
  {
    if k == 0 {
      assert Edges(p, 0) == {};
    } else {
      AcyclicIffCrossing(p, k - 1);
      EdgesStep(p, k - 1);
      if !Crosses(p, k - 1) {
        InsideMeansCycle(p, k - 1);
      } else if Acyclic(Edges(p, k - 1)) {
        var c := p.constraints[k - 1];
        if Binary(c) && EdgeOf(c) !in Edges(p, k - 1) {
          forall cycle ensures !Cycle(Edges(p, k), cycle) {
            CrossingPairInNoCycle(p, k - 1, cycle);
          }
        } else {
          assert Edges(p, k) == Edges(p, k - 1);
        }
      } else {
        var cycle :| Cycle(Edges(p, k - 1), cycle);
        CycleGrows(Edges(p, k - 1), Edges(p, k), cycle);
      }
    }
  }

  // ---- Union-find ----------------------------------------------------------------------------

  /** Parents lead, ever less deep, to the root whose name labels the component. */
  ghost predicate WellRooted(parent: seq<Name>, labels: Labels, depth: seq<nat>) {
    && |labels| == |depth| == |parent|
    && forall v {:trigger parent[v]} | 0 <= v < |parent| ::
         && parent[v] < |parent|
         && labels[parent[v]] == labels[v]
         && (if parent[v] == v then labels[v] == v else depth[parent[v]] < depth[v])
  }

  /** Skipping over the parent of `v` changes no component. */
  lemma HalvingKeepsRoots(parent: seq<Name>, labels: Labels, depth: seq<nat>, v: Name)
    requires WellRooted(parent, labels, depth) && v < |parent| && parent[v] != v
    ensures var skip := parent[parent[v]];
            && WellRooted(parent[v := skip], labels, depth)
            && labels[skip] == labels[v] && skip < |parent| && depth[skip] < depth[v]
  {
    assert depth[parent[parent[v]]] <= depth[parent[v]] < depth[v];
  }

  lemma LinkingMerges(parent: seq<Name>, labels: Labels, depth: seq<nat>, lower: seq<nat>, a: Name, b: Name)
    requires WellRooted(parent, labels, depth) && a < |parent| && b < |parent| && a != b
    requires parent[a] == a && parent[b] == b && |lower| == |depth|
    requires forall v | 0 <= v < |depth| ::
               lower[v] == if labels[v] == a then depth[v] + depth[b] + 1 else depth[v]
    ensures WellRooted(parent[a := b], Merge(labels, a, b), lower)
  {}

  class UnionFind {
    var parent: seq<Name>
    ghost var labels: Labels
    ghost var depth: seq<nat>

    ghost predicate Valid()
      reads this
    {
      WellRooted(parent, labels, depth)
    }

    constructor (n: nat)
      ensures Valid() && |parent| == n && labels == seq(n, v => v)
    {
      parent := seq(n, v => v);
      labels := seq(n, v => v);
      depth := seq(n, v => 0);
    }

    /** Follows parents to the root, halving the path on the way. No component changes. */
    method Root(start: Name) returns (value: Name)
      requires Valid() && start < |parent|
      modifies this`parent
      ensures Valid() && |parent| == old(|parent|)
      ensures value < |parent| && parent[value] == value
      ensures value == labels[start] == labels[value]
      ensures forall v | 0 <= v < |parent| && old(parent[v]) == v :: parent[v] == v
    {
      value := start;
      while parent[value] != value
        invariant Valid() && |parent| == old(|parent|)
        invariant value < |parent| && labels[value] == labels[start]
        invariant forall v | 0 <= v < |parent| && old(parent[v]) == v :: parent[v] == v
        decreases depth[value]
      {
        HalvingKeepsRoots(parent, labels, depth, value);
        parent := parent[value := parent[parent[value]]];
        value := parent[value];
      }
    }

    /** Hangs root `a` under root `b`. */
    method Link(a: Name, b: Name)
      requires Valid() && a < |parent| && b < |parent| && a != b
      requires parent[a] == a && parent[b] == b
      modifies this
      ensures Valid() && |parent| == old(|parent|)
      ensures labels == Merge(old(labels), a, b)
    {
      ghost var was, under, shift := depth, labels, depth[b] + 1;
      depth := seq(|was|, v requires 0 <= v < |was| && v < |under| => if under[v] == a then was[v] + shift else was[v]);
      LinkingMerges(parent, labels, was, depth, a, b);
      parent := parent[a := b];
      labels := Merge(labels, a, b);
    }
  }

  lemma MergeOfSame(labels: Labels, u: Name, w: Name)
    requires u < |labels| && w < |labels| && labels[u] == labels[w]
    ensures Merge(labels, u, w) == labels
  {}

  /** A pair seen before lies inside its component and changes nothing. */
  lemma RepeatedPair(p: Problem, k: nat)
    requires PairsKnown(p) && k < |p.constraints| && Binary(p.constraints[k])
    requires EdgeOf(p.constraints[k]) in Edges(p, k)
    ensures Crosses(p, k) && Components(p, k + 1) == Components(p, k)
  {
    var scope := p.constraints[k].scope;
    RelatedShareLabel(p, k, scope[0], scope[1]);
    MergeOfSame(Components(p, k), scope[0], scope[1]);
  }

  /** Links the components of a new pair, unless it lies inside one. */
  method JoinPair(uf: UnionFind, p: Problem, k: nat) returns (crossing: bool)
    requires PairsKnown(p) && k < |p.constraints| && Binary(p.constraints[k])
    requires EdgeOf(p.constraints[k]) !in Edges(p, k)
    requires uf.Valid() && |uf.parent| == |p.variables| && uf.labels == Components(p, k)
    modifies uf
    ensures uf.Valid() && |uf.parent| == |p.variables|
    ensures crossing <==> Crosses(p, k)
    ensures crossing ==> uf.labels == Components(p, k + 1)
  {
    var scope := p.constraints[k].scope;
    var a := uf.Root(scope[0]);
    var b := uf.Root(scope[1]);
    crossing := a != b;
    if crossing {
      uf.Link(a, b);
    }
  }

  /** Takes in one constraint; fails on arity above two and on a new pair inside one component. */
  method TakeIn(uf: UnionFind, p: Problem, k: nat, seen: set<Edge>) returns (ok: bool, more: set<Edge>)
    requires PairsKnown(p) && k < |p.constraints| && seen == Edges(p, k)
    requires uf.Valid() && |uf.parent| == |p.variables| && uf.labels == Components(p, k)
    modifies uf
    ensures uf.Valid() && |uf.parent| == |p.variables|
    ensures ok <==> |p.constraints[k].scope| <= 2 && Crosses(p, k)
    ensures ok ==> uf.labels == Components(p, k + 1) && more == Edges(p, k + 1)
  {
    var c := p.constraints[k];
    EdgesStep(p, k);
    ok, more := true, seen;
    if |c.scope| > 2 {
      ok := false;
    } else if |c.scope| == 2 {
      var edge := {c.scope[0], c.scope[1]};
      if edge in seen {
        RepeatedPair(p, k);
      } else {
        more := seen + {edge};
        ok := JoinPair(uf, p, k);
      }
    }
  }

  /** Accepts exactly the binary forests. A pair seen before is skipped, whatever it allows. */
  method IsBinaryForest(p: Problem) returns (accept: bool)
    requires WellFormed(p)
    ensures accept <==> Forest(p)
  {
    hide Acyclic, Crosses, WellFormed;
    WellFormedPairs(p);
    AcyclicIffCrossing(p, |p.constraints|);
    var uf := new UnionFind(|p.variables|);
    var seen: set<Edge> := {};
    for k := 0 to |p.constraints|
      invariant fresh(uf) && uf.Valid() && |uf.parent| == |p.variables|
      invariant uf.labels == Components(p, k) && seen == Edges(p, k)
      invariant forall j | 0 <= j < k :: |p.constraints[j].scope| <= 2 && Crosses(p, j)
    {
      var ok;
      ok, seen := TakeIn(uf, p, k, seen);
      if !ok {
        return false;
      }
    }
    return true;
  }
}
