/** The authorized semantic hypergraph: memoized reference computation and orphan rejection. */
module Hypergraph {
  import opened Options
  import opened TermModel
  import opened TermTrees

  datatype Node = Node(operator: Operator, edges: seq<(Role, Id)>, operatorSymbol: Option<Id>, declaredKey: Option<Ref>)
  datatype Event = Event(id: Id, predicateId: Id, roles: seq<(Role, Id)>, positive: bool, modalities: seq<Id>,
                         temporal: seq<(Id, Id)>, properties: seq<(nat, nat)>)
  datatype Graph = Graph(leaves: map<Id, Leaf>, symbols: map<Id, Symbol>, nodes: map<Id, Node>, events: seq<Event>)

  datatype Error =
    | EmptyGraph | Oversized | Dangling | Cyclic | TooDeep | BadOperator | BadRole | BadShape | MissingSymbol
    | ForgedKey | BadEvent | Orphan

  datatype Outcome<+T> = Ok(value: T) | Fail(error: Error)

  const MAX_DEPTH := 64

  // Role names, ranked alphabetically.
  const ENTITY: Role := 0
  const HEAD: Role := 1
  const MEMBER: Role := 2
  const MODIFIER: Role := 3
  const NAME: Role := 4
  const QUANTIFIER: Role := 5
  const TYPE: Role := 6
  const VALUE: Role := 7

  function AllowedRoles(op: Operator): set<Role> {
    match op
    case EntityBundle => {NAME, TYPE, VALUE, QUANTIFIER, MODIFIER}
    case CoordAnd => {MEMBER}
    case CoordOr => {MEMBER}
    case Compound => {HEAD, MODIFIER}
    case Quantified => {ENTITY, QUANTIFIER}
    case Unknown => {}
  }

  predicate OnePair(edges: seq<(Role, Id)>, first: Role, second: Role) {
    |edges| == 2 && ((edges[0].0 == first && edges[1].0 == second) || (edges[0].0 == second && edges[1].0 == first))
  }

  predicate WellShaped(node: Node) {
    match node.operator
    case CoordAnd => |node.edges| >= 2
    case CoordOr => |node.edges| >= 2
    case Compound => OnePair(node.edges, HEAD, MODIFIER)
    case Quantified => OnePair(node.edges, ENTITY, QUANTIFIER)
    case EntityBundle => forall i, j | 0 <= i < j < |node.edges| :: node.edges[i] != node.edges[j]
    case Unknown => true
  }

  predicate RolesAllowed(node: Node) {
    forall i | 0 <= i < |node.edges| :: node.edges[i].0 in AllowedRoles(node.operator)
  }

  /** The operator laws of an accepted node. */
  predicate Typed(node: Node) {
    node.operator != Unknown && node.edges != [] && RolesAllowed(node) && WellShaped(node)
  }

  /** The first operator law a node breaks. */
  function Defect(node: Node): (e: Option<Error>)
    ensures e.None? <==> Typed(node)
    ensures e.Some? ==> e.value in {BadOperator, BadRole, BadShape}
  {
    if node.operator == Unknown || node.edges == [] then Some(BadOperator)
    else if !RolesAllowed(node) then Some(BadRole)
    else if !WellShaped(node) then Some(BadShape)
    else None
  }

  /** The roles of the edges, as often as they occur. */
  function RolesOf(edges: seq<(Role, Id)>): (r: seq<Role>)
    ensures |r| == |edges| && forall i | 0 <= i < |r| :: r[i] == edges[i].0
  {
    seq(|edges|, i requires 0 <= i < |edges| => edges[i].0)
  }

  lemma PairOfRoles(edges: seq<(Role, Id)>, first: Role, second: Role)
    ensures OnePair(edges, first, second) <==> multiset(RolesOf(edges)) == multiset{first, second}
  {
    var roles := RolesOf(edges);
    if |edges| == 2 {
      assert roles == [edges[0].0, edges[1].0];
      assert multiset(roles) == multiset{edges[0].0, edges[1].0};
      if multiset(roles) == multiset{first, second} {
        assert edges[0].0 in multiset{first, second};
        assert multiset(roles) - multiset{edges[0].0} == multiset{edges[1].0};
        assert multiset{first, second} - multiset{first} == multiset{second};
        assert multiset{first, second} - multiset{second} == multiset{first};
        assert edges[1].0 in multiset{edges[1].0};
      }
    } else {
      assert |multiset(roles)| == |edges| && |multiset{first, second}| == 2;
    }
  }

  /** The operator laws by the roles alone: a compound has one head and one modifier, a quantification one entity
      and one quantifier, a coordination at least two members and nothing else, a bundle any of its own roles but
      no edge twice. */
  predicate LawfulRoles(node: Node) {
    var roles := RolesOf(node.edges);
    match node.operator
    case Compound => multiset(roles) == multiset{HEAD, MODIFIER}
    case Quantified => multiset(roles) == multiset{ENTITY, QUANTIFIER}
    case CoordAnd => |roles| >= 2 && forall r | r in roles :: r == MEMBER
    case CoordOr => |roles| >= 2 && forall r | r in roles :: r == MEMBER
    case EntityBundle =>
      && |roles| >= 1
      && (forall r | r in roles :: r == NAME || r == TYPE || r == VALUE || r == QUANTIFIER || r == MODIFIER)
      && forall i, j | 0 <= i < j < |node.edges| :: node.edges[i] != node.edges[j]
    case Unknown => false
  }

  lemma EveryRole(edges: seq<(Role, Id)>, allowed: set<Role>)
    ensures (forall i | 0 <= i < |edges| :: edges[i].0 in allowed) <==> forall r | r in RolesOf(edges) :: r in allowed
  {
    var roles := RolesOf(edges);
    if forall r | r in roles :: r in allowed {
      forall i | 0 <= i < |edges| ensures edges[i].0 in allowed {
        assert roles[i] in roles;
      }
    }
  }

  lemma TypedByRoles(node: Node)
    ensures Typed(node) <==> LawfulRoles(node)
  {
    EveryRole(node.edges, AllowedRoles(node.operator));
    match node.operator
    case Compound => PairOfRoles(node.edges, HEAD, MODIFIER);
    case Quantified => PairOfRoles(node.edges, ENTITY, QUANTIFIER);
    case _ =>
  }

  // ---- Unfolding -------------------------------------------------------------------------------------

  predicate Terminal(g: Graph, id: Id) {
    id in g.leaves || id in g.symbols
  }

  predicate Declared(g: Graph, id: Id) {
    Terminal(g, id) || id in g.nodes
  }

  /** Local identities are unique across the kinds of object. */
  ghost predicate DistinctIds(g: Graph) {
    && (forall id | id in g.leaves :: id !in g.symbols && id !in g.nodes)
    && (forall id | id in g.symbols :: id !in g.nodes)
    && (forall i | 0 <= i < |g.events| :: !Declared(g, g.events[i].id))
    && (forall i, j | 0 <= i < j < |g.events| :: g.events[i].id != g.events[j].id)
  }

  ghost predicate SymbolNamed(g: Graph, id: Option<Id>, s: Option<Symbol>) {
    if id.None? then s.None? else id.value in g.symbols && s == Some(g.symbols[id.value])
  }

  /** `t` is the finite term that `id` denotes. */
  ghost predicate Unfolds(g: Graph, id: Id, t: Tree)
    decreases t
  {
    match t
    case LeafTree(leaf) => id in g.leaves && g.leaves[id] == leaf
    case SymbolTree(symbol) => id in g.symbols && g.symbols[id] == symbol
    case NodeTree(operator, symbol, children) =>
      && id in g.nodes && g.nodes[id].operator == operator && SymbolNamed(g, g.nodes[id].operatorSymbol, symbol)
      && |children| == |g.nodes[id].edges|
      && forall i | 0 <= i < |children| ::
           children[i].role == g.nodes[id].edges[i].0 && Unfolds(g, g.nodes[id].edges[i].1, children[i].tree)
  }

  lemma {:induction false} UnfoldingUnique(g: Graph, id: Id, s: Tree, t: Tree)
    requires DistinctIds(g) && Unfolds(g, id, s) && Unfolds(g, id, t)
    ensures s == t
    decreases s
  {
    if s.NodeTree? && t.NodeTree? {
      forall i | 0 <= i < |s.children| ensures s.children[i] == t.children[i] {
        UnfoldingUnique(g, g.nodes[id].edges[i].1, s.children[i].tree, t.children[i].tree);
      }
      assert s.children == t.children;
    }
  }

  ghost predicate ChildOf(g: Graph, parent: Id, child: Id) {
    parent in g.nodes && exists i :: 0 <= i < |g.nodes[parent].edges| && g.nodes[parent].edges[i].1 == child
  }

  /** A chain of node-to-child steps. */
  ghost predicate Descends(g: Graph, path: seq<Id>) {
    forall i | 0 <= i < |path| - 1 :: ChildOf(g, path[i], path[i + 1])
  }

  ghost predicate HasCycle(g: Graph) {
    exists path :: |path| >= 2 && Descends(g, path) && path[0] == path[|path| - 1]
  }

  function Max(a: nat, b: nat): nat {
    if a > b then a else b
  }

  function Height(t: Tree): nat
    decreases t, 0
  {
    if t.NodeTree? then 1 + HeightUpTo(t, |t.children|) else 0
  }

  function HeightUpTo(t: Tree, k: nat): nat
    requires t.NodeTree? && k <= |t.children|
    decreases t, 0, k
  {
    if k == 0 then 0 else Max(HeightUpTo(t, k - 1), Height(t.children[k - 1].tree))
  }

  lemma {:induction false} ChildLower(t: Tree, i: nat, k: nat)
    requires t.NodeTree? && i < k <= |t.children|
    ensures Height(t.children[i].tree) <= HeightUpTo(t, k)
  {
    if i < k - 1 {
      ChildLower(t, i, k - 1);
    }
  }

  /** Every declared identity denotes the given finite term. */
  ghost predicate AllUnfold(g: Graph, trees: map<Id, Tree>) {
    forall id | Declared(g, id) :: id in trees && Unfolds(g, id, trees[id])
  }

  lemma ChildIsDeclaredAndLower(g: Graph, trees: map<Id, Tree>, parent: Id, child: Id)
    requires AllUnfold(g, trees) && DistinctIds(g) && ChildOf(g, parent, child)
    ensures Declared(g, child) && Declared(g, parent) && Height(trees[child]) < Height(trees[parent])
  {
    var i :| 0 <= i < |g.nodes[parent].edges| && g.nodes[parent].edges[i].1 == child;
    var t := trees[parent];
    assert Unfolds(g, parent, t);
    var c := t.children[i].tree;
    assert Unfolds(g, child, c);
    assert Declared(g, child) by { match c { case LeafTree(_) => case SymbolTree(_) => case NodeTree(_, _, _) => } }
    UnfoldingUnique(g, child, c, trees[child]);
    ChildLower(t, i, |t.children|);
  }

  lemma {:induction false} DescentLowers(g: Graph, trees: map<Id, Tree>, path: seq<Id>, k: nat)
    requires AllUnfold(g, trees) && DistinctIds(g) && Descends(g, path) && 0 < k < |path|
    ensures Declared(g, path[0]) && Declared(g, path[k]) && Height(trees[path[k]]) < Height(trees[path[0]])
  {
    ChildIsDeclaredAndLower(g, trees, path[k - 1], path[k]);
    if k > 1 {
      DescentLowers(g, trees, path, k - 1);
    }
  }

  /** A graph whose identities all denote finite terms has no cycle and nothing dangling below a node. */
  lemma UnfoldingMeansAcyclic(g: Graph, trees: map<Id, Tree>)
    requires AllUnfold(g, trees) && DistinctIds(g)
    ensures !HasCycle(g)
    ensures forall parent, child | ChildOf(g, parent, child) :: Declared(g, child)
  {
    forall parent, child | ChildOf(g, parent, child) ensures Declared(g, child) {
      ChildIsDeclaredAndLower(g, trees, parent, child);
    }
    if HasCycle(g) {
      var path :| |path| >= 2 && Descends(g, path) && path[0] == path[|path| - 1];
      DescentLowers(g, trees, path, |path| - 1);
    }
  }

  ghost predicate SymbolPresent(g: Graph, id: Id) {
    id in g.nodes && (g.nodes[id].operatorSymbol.Some? ==> g.nodes[id].operatorSymbol.value in g.symbols)
  }

  // ---- Depth -----------------------------------------------------------------------------------------

  ghost predicate Leads(g: Graph, path: seq<Id>, from: Id, to: Id) {
    path != [] && path[0] == from && path[|path| - 1] == to && Descends(g, path)
  }

  ghost predicate IsBelow(g: Graph, from: Id, x: Id) {
    exists path :: Leads(g, path, from, x)
  }

  /** The nodes below an identity, itself included. */
  ghost function NodesBelow(g: Graph, id: Id): set<Id> {
    set x | x in g.nodes && IsBelow(g, id, x)
  }

  /** The nodes below the first `k` children. */
  ghost function ChildrenBelow(g: Graph, id: Id, k: nat): set<Id>
    requires id in g.nodes && k <= |g.nodes[id].edges|
  {
    if k == 0 then {} else ChildrenBelow(g, id, k - 1) + NodesBelow(g, g.nodes[id].edges[k - 1].1)
  }

  /** Computing `id` with some nodes done goes more than `d` levels down: some child does, with everything
      below its elder siblings done too. */
  ghost predicate Exceeds(g: Graph, done: set<Id>, id: Id, d: nat)
    decreases d
  {
    && id in g.nodes && id !in done
    && (d == 0 || exists e :: 0 <= e < |g.nodes[id].edges| && ExceedsBy(g, done, id, d, e))
  }

  ghost predicate ExceedsBy(g: Graph, done: set<Id>, id: Id, d: nat, e: nat)
    requires id in g.nodes && e < |g.nodes[id].edges| && d > 0
    decreases d, 0
  {
    Exceeds(g, done + ChildrenBelow(g, id, e), g.nodes[id].edges[e].1, d - 1)
  }

  /** Everything below the smaller identities. */
  ghost function BelowSmaller(g: Graph, id: Id): set<Id> {
    set x | x in g.nodes && exists y :: y in g.nodes && y < id && IsBelow(g, y, x)
  }

  /** The depth limit is exceeded from an identity once everything below the smaller ones is computed. */
  ghost predicate TooDeepFrom(g: Graph, id: Id) {
    Exceeds(g, BelowSmaller(g, id), id, MAX_DEPTH)
  }

  lemma BelowItself(g: Graph, id: Id)
    ensures IsBelow(g, id, id)
  {
    assert Leads(g, [id], id, id);
  }

  lemma BelowChild(g: Graph, id: Id, child: Id, x: Id)
    requires ChildOf(g, id, child) && IsBelow(g, child, x)
    ensures IsBelow(g, id, x)
  {
    var path :| Leads(g, path, child, x);
    var longer := [id] + path;
    forall i | 0 <= i < |longer| - 1 ensures ChildOf(g, longer[i], longer[i + 1]) {
      if i > 0 {
        assert ChildOf(g, path[i - 1], path[i - 1 + 1]);
      }
    }
    assert Leads(g, longer, id, x);
  }

  /** What is below an identity is that identity or below one of its children. */
  lemma BelowCases(g: Graph, id: Id, x: Id) returns (child: Id)
    requires IsBelow(g, id, x) && x != id
    ensures ChildOf(g, id, child) && IsBelow(g, child, x)
  {
    var path :| Leads(g, path, id, x);
    child := path[1];
    assert ChildOf(g, path[0], path[0 + 1]);
    var rest := path[1..];
    forall i | 0 <= i < |rest| - 1 ensures ChildOf(g, rest[i], rest[i + 1]) {
      assert ChildOf(g, path[i + 1], path[i + 1 + 1]);
    }
    assert Leads(g, rest, child, x);
  }

  lemma {:induction false} ChildrenBelowMembers(g: Graph, id: Id, k: nat, x: Id)
    requires id in g.nodes && k <= |g.nodes[id].edges|
    ensures x in ChildrenBelow(g, id, k) <==> exists i :: 0 <= i < k && x in NodesBelow(g, g.nodes[id].edges[i].1)
  {
    if k > 0 {
      ChildrenBelowMembers(g, id, k - 1, x);
    }
  }

  lemma NodesBelowSplit(g: Graph, id: Id)
    requires id in g.nodes
    ensures NodesBelow(g, id) == {id} + ChildrenBelow(g, id, |g.nodes[id].edges|)
  {
    var edges := g.nodes[id].edges;
    forall x ensures x in NodesBelow(g, id) <==> x == id || x in ChildrenBelow(g, id, |edges|) {
      ChildrenBelowMembers(g, id, |edges|, x);
      BelowItself(g, id);
      if x in NodesBelow(g, id) && x != id {
        var child := BelowCases(g, id, x);
        var i :| 0 <= i < |edges| && edges[i].1 == child;
      }
      if i :| 0 <= i < |edges| && x in NodesBelow(g, edges[i].1) {
        BelowChild(g, id, edges[i].1, x);
      }
    }
  }

  lemma NothingBelow(g: Graph, id: Id)
    requires id !in g.nodes
    ensures NodesBelow(g, id) == {}
  {
    forall x | x in NodesBelow(g, id) ensures false {
      var child := BelowCases(g, id, x);
    }
  }

  /** Computed nodes have computed children. */
  ghost predicate ClosedDown(g: Graph, done: set<Id>) {
    forall p, c | p in done && ChildOf(g, p, c) && c in g.nodes :: c in done
  }

  lemma {:induction false} ClosedHoldsPath(g: Graph, done: set<Id>, path: seq<Id>, from: Id, x: Id)
    requires ClosedDown(g, done) && from in done && Leads(g, path, from, x) && x in g.nodes
    ensures x in done
    decreases |path|
  {
    if |path| > 1 {
      assert ChildOf(g, path[0], path[0 + 1]);
      var rest := path[1..];
      forall i | 0 <= i < |rest| - 1 ensures ChildOf(g, rest[i], rest[i + 1]) {
        assert ChildOf(g, path[i + 1], path[i + 1 + 1]);
      }
      if |path| > 2 {
        assert ChildOf(g, path[1], path[1 + 1]);
      }
      ClosedHoldsPath(g, done, rest, path[1], x);
    }
  }

  lemma ClosedHoldsBelow(g: Graph, done: set<Id>, id: Id)
    requires ClosedDown(g, done) && id in done
    ensures NodesBelow(g, id) <= done
  {
    forall x | x in NodesBelow(g, id) ensures x in done {
      var path :| Leads(g, path, id, x);
      ClosedHoldsPath(g, done, path, id, x);
    }
  }

  /** Adding an identity whose children are done keeps the computed nodes closed. */
  lemma ClosedWith(g: Graph, done: set<Id>, id: Id)
    requires id in g.nodes && ClosedDown(g, done) && ChildrenBelow(g, id, |g.nodes[id].edges|) <= done
    ensures ClosedDown(g, done + {id})
  {
    forall c | ChildOf(g, id, c) && c in g.nodes ensures c in done {
      var i :| 0 <= i < |g.nodes[id].edges| && g.nodes[id].edges[i].1 == c;
      BelowItself(g, c);
      ChildrenBelowMembers(g, id, |g.nodes[id].edges|, c);
    }
  }

  /** Going too deep shows a chain over the limit of nodes that are not done. */
  lemma {:induction false} ExceedsChain(g: Graph, done: set<Id>, id: Id, d: nat) returns (path: seq<Id>)
    requires Exceeds(g, done, id, d)
    ensures |path| == d + 1 && path[0] == id && Descends(g, path)
    ensures forall i | 0 <= i < |path| :: path[i] in g.nodes && path[i] !in done
    decreases d
  {
    if d == 0 {
      path := [id];
    } else {
      var e :| 0 <= e < |g.nodes[id].edges| && ExceedsBy(g, done, id, d, e);
      var child := g.nodes[id].edges[e].1;
      var rest := ExceedsChain(g, done + ChildrenBelow(g, id, e), child, d - 1);
      path := [id] + rest;
      forall i | 0 <= i < |path| - 1 ensures ChildOf(g, path[i], path[i + 1]) {
        if i > 0 {
          assert ChildOf(g, rest[i - 1], rest[i - 1 + 1]);
        }
      }
    }
  }

  /** A depth error means a chain over the limit that starts from its least identity. */
  lemma TooDeepChain(g: Graph, id: Id) returns (path: seq<Id>)
    requires TooDeepFrom(g, id)
    ensures |path| > MAX_DEPTH && Descends(g, path) && path[0] == id
    ensures forall i | 0 <= i < |path| :: path[i] in g.nodes && id <= path[i]
  {
    path := ExceedsChain(g, BelowSmaller(g, id), id, MAX_DEPTH);
    forall i | 0 <= i < |path| ensures id <= path[i] {
      BelowItself(g, path[i]);
    }
  }

  // ---- Computing references --------------------------------------------------------------------------

  type Refs = map<Id, Ref>
  type Trees = map<Id, Tree>

  /** A declared key is the node's own reference. */
  predicate KeyHolds(node: Node, r: Ref) {
    node.declaredKey.Some? ==> node.declaredKey.value == r
  }

  /** The identity denotes the term, and the reference is the term's. */
  ghost predicate Denotes(g: Graph, digest: Digest, id: Id, t: Tree, r: Ref) {
    Unfolds(g, id, t) && r == TreeRef(digest, t)
  }

  /** Known references are those of the finite terms the identities denote; accepted nodes are typed. */
  ghost predicate Faithful(g: Graph, digest: Digest, refs: Refs, trees: Trees) {
    && (forall id | id in trees :: id in refs && Denotes(g, digest, id, trees[id], refs[id]))
    && (forall id | Terminal(g, id) :: id in trees)
    && (forall id | id in trees && id in g.nodes :: Typed(g.nodes[id]) && KeyHolds(g.nodes[id], refs[id]))
    && (forall id | id in refs && Declared(g, id) :: id in trees)
  }

  ghost predicate Grows(before: Refs, beforeTrees: Trees, after: Refs, afterTrees: Trees) {
    && (forall id | id in before :: id in after && after[id] == before[id])
    && (forall id | id in beforeTrees :: id in afterTrees && afterTrees[id] == beforeTrees[id])
  }

  /** The ancestors on the recursion trail, down to the identity being computed. */
  ghost predicate TrailTo(g: Graph, trail: seq<Id>, id: Id) {
    Descends(g, trail + [id])
  }

  lemma TrailExtends(g: Graph, trail: seq<Id>, id: Id, child: Id)
    requires TrailTo(g, trail, id) && ChildOf(g, id, child)
    ensures TrailTo(g, trail + [id], child)
  {
    var path := trail + [id] + [child];
    forall i | 0 <= i < |path| - 1 ensures ChildOf(g, path[i], path[i + 1]) {
      if i < |trail| {
        assert ChildOf(g, (trail + [id])[i], (trail + [id])[i + 1]);
      }
    }
  }

  lemma TrailRepeats(g: Graph, trail: seq<Id>, id: Id)
    requires TrailTo(g, trail, id) && id in trail
    ensures HasCycle(g)
  {
    var i :| 0 <= i < |trail| && trail[i] == id;
    var path := (trail + [id])[i..];
    forall k | 0 <= k < |path| - 1 ensures ChildOf(g, path[k], path[k + 1]) {
      assert ChildOf(g, (trail + [id])[i + k], (trail + [id])[i + k + 1]);
    }
    assert Descends(g, path) && path[0] == path[|path| - 1];
  }

  /** The first `k` children are computed. */
  ghost predicate ChildrenKnown(g: Graph, digest: Digest, trees: Trees, node: Node, k: nat, edges: seq<(Role, Ref)>)
    requires k <= |node.edges|
  {
    && |edges| == k
    && forall i | 0 <= i < k :: node.edges[i].1 in trees
         && edges[i] == (node.edges[i].0, TreeRef(digest, trees[node.edges[i].1]))
  }

  ghost function Assembled(g: Graph, trees: Trees, node: Node): Tree
    requires forall i | 0 <= i < |node.edges| :: node.edges[i].1 in trees
  {
    NodeTree(node.operator,
             if node.operatorSymbol.Some? && node.operatorSymbol.value in g.symbols
             then Some(g.symbols[node.operatorSymbol.value]) else None,
             seq(|node.edges|, i requires 0 <= i < |node.edges| && node.edges[i].1 in trees =>
               Child(node.edges[i].0, trees[node.edges[i].1])))
  }

  lemma AssembledIsUnfolding(g: Graph, digest: Digest, refs: Refs, trees: Trees, id: Id, edges: seq<(Role, Ref)>)
    requires Faithful(g, digest, refs, trees) && id in g.nodes
    requires ChildrenKnown(g, digest, trees, g.nodes[id], |g.nodes[id].edges|, edges)
    requires g.nodes[id].operatorSymbol.Some? ==> g.nodes[id].operatorSymbol.value in g.symbols
    ensures Unfolds(g, id, Assembled(g, trees, g.nodes[id]))
  {}

  lemma AssembledEdges(g: Graph, digest: Digest, trees: Trees, node: Node, edges: seq<(Role, Ref)>)
    requires ChildrenKnown(g, digest, trees, node, |node.edges|, edges)
    ensures EdgeRefs(digest, Assembled(g, trees, node), |node.edges|) == edges
  {
    EdgeRefsAt(digest, Assembled(g, trees, node), |node.edges|);
  }

  lemma KnownTree(g: Graph, digest: Digest, refs: Refs, trees: Trees, id: Id, r: Ref, t: Tree)
    requires Faithful(g, digest, refs, trees) && Unfolds(g, id, t) && r == TreeRef(digest, t)
    requires id in g.nodes ==> Typed(g.nodes[id]) && KeyHolds(g.nodes[id], r)
    ensures Faithful(g, digest, refs[id := r], trees[id := t])
  {
    var moreRefs, moreTrees := refs[id := r], trees[id := t];
    assert Denotes(g, digest, id, t, r);
    hide Denotes, Typed, KeyHolds, Unfolds;
    forall x | x in moreTrees ensures x in moreRefs && Denotes(g, digest, x, moreTrees[x], moreRefs[x]) {
      if x != id {
        assert x in trees;
      }
    }
  }

  /** An identity without a reference is no terminal and has no term yet. */
  lemma UnknownId(g: Graph, digest: Digest, refs: Refs, trees: Trees, id: Id)
    requires Faithful(g, digest, refs, trees) && id !in refs
    ensures !Terminal(g, id) && id !in trees
  {}

  /** `r` is the digest over a node's operator, its symbol's reference and its children's. */
  ghost predicate DigestOf(g: Graph, digest: Digest, refs: Refs, node: Node, edges: seq<(Role, Ref)>, r: Ref) {
    var s := node.operatorSymbol;
    && (s.Some? ==> s.value in g.symbols && s.value in refs)
    && r == digest(TermPayload(node.operator, if s.Some? then Some(refs[s.value]) else None, SortPairs(edges)))
  }

  /** The digest over the children's references is the reference of the assembled term. */
  lemma AssembledRef(g: Graph, digest: Digest, refs: Refs, trees: Trees, id: Id, edges: seq<(Role, Ref)>, r: Ref)
    requires DistinctIds(g) && Faithful(g, digest, refs, trees) && id in g.nodes
    requires ChildrenKnown(g, digest, trees, g.nodes[id], |g.nodes[id].edges|, edges)
    requires DigestOf(g, digest, refs, g.nodes[id], edges, r)
    ensures Unfolds(g, id, Assembled(g, trees, g.nodes[id]))
    ensures r == TreeRef(digest, Assembled(g, trees, g.nodes[id]))
  {
    AssembledIsUnfolding(g, digest, refs, trees, id, edges);
    AssembledEdges(g, digest, trees, g.nodes[id], edges);
    var s := g.nodes[id].operatorSymbol;
    if s.Some? {
      assert Terminal(g, s.value) && s.value in trees;
      assert Unfolds(g, s.value, trees[s.value]);
      assert trees[s.value] == SymbolTree(g.symbols[s.value]);
    }
  }

  lemma StoreFaithful(g: Graph, digest: Digest, refs: Refs, trees: Trees, id: Id, edges: seq<(Role, Ref)>, r: Ref)
    requires DistinctIds(g) && Faithful(g, digest, refs, trees)
    requires id in g.nodes && Typed(g.nodes[id]) && KeyHolds(g.nodes[id], r)
    requires ChildrenKnown(g, digest, trees, g.nodes[id], |g.nodes[id].edges|, edges)
    requires DigestOf(g, digest, refs, g.nodes[id], edges, r)
    ensures Faithful(g, digest, refs[id := r], trees[id := Assembled(g, trees, g.nodes[id])])
  {
    AssembledRef(g, digest, refs, trees, id, edges, r);
    KnownTree(g, digest, refs, trees, id, r, Assembled(g, trees, g.nodes[id]));
  }

  lemma GrowsTransitive(a: Refs, at: Trees, b: Refs, bt: Trees, c: Refs, ct: Trees)
    requires Grows(a, at, b, bt) && Grows(b, bt, c, ct)
    ensures Grows(a, at, c, ct)
  {}

  lemma NothingGrown(g: Graph, digest: Digest, refs: Refs, trees: Trees, node: Node)
    ensures Grows(refs, trees, refs, trees) && ChildrenKnown(g, digest, trees, node, 0, [])
  {}

  lemma StoreGrows(before: Refs, beforeTrees: Trees, refs: Refs, trees: Trees, id: Id, r: Ref, t: Tree)
    requires Grows(before, beforeTrees, refs, trees) && id !in before && id !in beforeTrees
    ensures Grows(before, beforeTrees, refs[id := r], trees[id := t])
  {}

  /** None of the first `k` children goes too deep. */
  ghost predicate NoneExceeds(g: Graph, done: set<Id>, id: Id, d: nat, k: nat)
    requires id in g.nodes && k <= |g.nodes[id].edges| && d > 0
  {
    forall e | 0 <= e < k :: !ExceedsBy(g, done, id, d, e)
  }

  lemma ChildExceeds(g: Graph, done: set<Id>, id: Id, d: nat, e: nat)
    requires id in g.nodes && id !in done && e < |g.nodes[id].edges| && d > 0 && ExceedsBy(g, done, id, d, e)
    ensures Exceeds(g, done, id, d)
  {}

  lemma NoChildExceeds(g: Graph, done: set<Id>, id: Id, d: nat)
    requires id in g.nodes && d > 0 && NoneExceeds(g, done, id, d, |g.nodes[id].edges|)
    ensures !Exceeds(g, done, id, d)
  {}

  lemma KnownBelow(g: Graph, done: set<Id>, id: Id)
    requires ClosedDown(g, done) && (id in g.nodes ==> id in done)
    ensures done == done + NodesBelow(g, id)
  {
    if id in g.nodes {
      ClosedHoldsBelow(g, done, id);
    } else {
      NothingBelow(g, id);
    }
  }

  lemma StoreDone(g: Graph, refs: Refs, id: Id, r: Ref)
    requires id in g.nodes
    ensures (set x | x in refs[id := r] && x in g.nodes) == (set x | x in refs && x in g.nodes) + {id}
  {}

  lemma ChildrenStayKnown(g: Graph, digest: Digest, beforeRefs: Refs, before: Trees, after: Trees, refs: Refs,
                          node: Node, k: nat, edges: seq<(Role, Ref)>, r: Ref)
    requires k < |node.edges| && ChildrenKnown(g, digest, before, node, k, edges)
    requires Grows(beforeRefs, before, refs, after)
    requires Faithful(g, digest, refs, after) && node.edges[k].1 in refs && refs[node.edges[k].1] == r
    requires Declared(g, node.edges[k].1)
    ensures ChildrenKnown(g, digest, after, node, k + 1, edges + [(node.edges[k].0, r)])
  {}

  function TerminalRefs(g: Graph, digest: Digest): Refs {
    (map id | id in g.leaves :: digest(LeafPayload(g.leaves[id])))
    + (map id | id in g.symbols :: digest(SymbolPayload(g.symbols[id])))
  }

  ghost function TerminalTrees(g: Graph): Trees {
    (map id | id in g.leaves :: LeafTree(g.leaves[id])) + (map id | id in g.symbols :: SymbolTree(g.symbols[id]))
  }

  /** The error names a defect of the graph; a dangling error also when the identity itself is undeclared.
      Depth errors are described apart. */
  ghost predicate NodeFault(g: Graph, digest: Digest, id: Id, e: Error) {
    (e == Dangling && !Declared(g, id)) || e == TooDeep || TermFault(g, digest, e)
  }

  /** The defects of terms, one by one. */
  ghost predicate TermFault(g: Graph, digest: Digest, e: Error) {
    match e
    case Dangling => exists parent, child :: ChildOf(g, parent, child) && !Declared(g, child)
    case Cyclic => HasCycle(g)
    case TooDeep => exists id :: id in g.nodes && TooDeepFrom(g, id)
    case BadOperator => exists id :: id in g.nodes && Defect(g.nodes[id]) == Some(BadOperator)
    case BadRole => exists id :: id in g.nodes && Defect(g.nodes[id]) == Some(BadRole)
    case BadShape => exists id :: id in g.nodes && Defect(g.nodes[id]) == Some(BadShape)
    case MissingSymbol => exists id :: LacksSymbol(g, id)
    case ForgedKey => exists id, t :: Forged(g, digest, id, t)
    case EmptyGraph => false
    case Oversized => false
    case BadEvent => false
    case Orphan => false
  }

  predicate LacksSymbol(g: Graph, id: Id) {
    id in g.nodes && g.nodes[id].operatorSymbol.Some? && g.nodes[id].operatorSymbol.value !in g.symbols
  }

  /** The node denotes a term whose reference is not the declared key. */
  ghost predicate Forged(g: Graph, digest: Digest, id: Id, t: Tree) {
    id in g.nodes && Unfolds(g, id, t) && !KeyHolds(g.nodes[id], TreeRef(digest, t))
  }

  lemma DefectFound(g: Graph, digest: Digest, id: Id)
    requires id in g.nodes && Defect(g.nodes[id]).Some?
    ensures NodeFault(g, digest, id, Defect(g.nodes[id]).value)
  {}

  lemma FaultBelow(g: Graph, digest: Digest, id: Id, child: Id, e: Error)
    requires ChildOf(g, id, child) && NodeFault(g, digest, child, e)
    ensures NodeFault(g, digest, id, e)
  {}

  lemma ForgedNamed(g: Graph, digest: Digest, id: Id, t: Tree, r: Ref)
    requires id in g.nodes && Unfolds(g, id, t) && r == TreeRef(digest, t) && !KeyHolds(g.nodes[id], r)
    ensures NodeFault(g, digest, id, ForgedKey)
  {
    assert Forged(g, digest, id, t);
  }

  lemma ForgedKeyFound(g: Graph, digest: Digest, refs: Refs, trees: Trees, id: Id, edges: seq<(Role, Ref)>, r: Ref)
    requires DistinctIds(g) && Faithful(g, digest, refs, trees) && id in g.nodes
    requires ChildrenKnown(g, digest, trees, g.nodes[id], |g.nodes[id].edges|, edges)
    requires DigestOf(g, digest, refs, g.nodes[id], edges, r)
    requires !KeyHolds(g.nodes[id], r)
    ensures NodeFault(g, digest, id, ForgedKey)
  {
    AssembledRef(g, digest, refs, trees, id, edges, r);
    ForgedNamed(g, digest, id, Assembled(g, trees, g.nodes[id]), r);
  }

  class Builder {
    const graph: Graph
    const digest: Digest
    var refs: Refs
    ghost var trees: Trees

    ghost predicate Valid()
      reads this
    {
      DistinctIds(graph) && Faithful(graph, digest, refs, trees)
    }

    /** Starts from the references of leaves and symbols. */
    constructor (graph: Graph, digest: Digest)
      requires DistinctIds(graph)
      ensures Valid() && this.graph == graph && this.digest == digest
      ensures forall id :: id in refs <==> Terminal(graph, id)
    {
      this.graph, this.digest := graph, digest;
      refs := TerminalRefs(graph, digest);
      trees := TerminalTrees(graph);
      new;
    }

    /** The computed nodes. */
    ghost function Done(): set<Id>
      reads this
    {
      set id | id in refs && id in graph.nodes
    }

    /** The reference of an identity, computed once. On success it denotes a finite term and exactly the
        nodes below it are computed too; every error names a defect the graph really has, and the depth
        error is raised exactly when computing goes too deep. */
    method ComputeNode(id: Id, trail: seq<Id>) returns (r: Outcome<Ref>)
      requires Valid() && |trail| <= MAX_DEPTH && TrailTo(graph, trail, id) && ClosedDown(graph, Done())
      requires id in refs || id !in graph.nodes || forall x | x in refs :: Declared(graph, x)
      modifies this
      ensures Valid() && Grows(old(refs), old(trees), refs, trees)
      ensures r.Ok? ==> id in refs && r.value == refs[id]
      ensures r.Ok? ==> Done() == old(Done()) + NodesBelow(graph, id) && ClosedDown(graph, Done())
      ensures r.Ok? ==> !Exceeds(graph, old(Done()), id, MAX_DEPTH - |trail|)
      ensures r.Fail? ==> NodeFault(graph, digest, id, r.error)
      ensures r.Fail? && r.error == TooDeep ==> Exceeds(graph, old(Done()), id, MAX_DEPTH - |trail|)
      ensures forall x | x in refs && x !in old(refs) :: x in graph.nodes
      decreases MAX_DEPTH - |trail|, 1
    {
      hide ClosedDown, NodesBelow, Faithful, DistinctIds;
      if id in refs {
        KnownBelow(graph, Done(), id);
        return Ok(refs[id]);
      }
      UnknownId(graph, digest, refs, trees, id);
      if id !in graph.nodes {
        return Fail(Dangling);
      }
      if id in trail {
        TrailRepeats(graph, trail, id);
        return Fail(Cyclic);
      }
      if |trail| >= MAX_DEPTH {
        return Fail(TooDeep);
      }
      var node := graph.nodes[id];
      var defect := Defect(node);
      if defect.Some? {
        DefectFound(graph, digest, id);
        return Fail(defect.value);
      }
      var edges := ComputeChildren(id, trail);
      if edges.Fail? {
        return Fail(edges.error);
      }
      ghost var childRefs, childTrees, childDone := refs, trees, Done();
      r := Store(id, edges.value);
      if r.Ok? {
        StoreGrows(old(refs), old(trees), childRefs, childTrees, id, r.value, trees[id]);
        StoreDone(graph, childRefs, id, r.value);
        NodesBelowSplit(graph, id);
        ClosedWith(graph, childDone, id);
        assert Done() == childDone + {id};
      }
    }

    /** The references of a node's children, in edge order. */
    method ComputeChildren(id: Id, trail: seq<Id>) returns (r: Outcome<seq<(Role, Ref)>>)
      requires Valid() && |trail| < MAX_DEPTH && TrailTo(graph, trail, id) && id in graph.nodes && id !in refs
      requires ClosedDown(graph, Done()) && forall x | x in refs :: Declared(graph, x)
      modifies this
      ensures Valid() && Grows(old(refs), old(trees), refs, trees)
      ensures r.Ok? ==> ChildrenKnown(graph, digest, trees, graph.nodes[id], |graph.nodes[id].edges|, r.value)
      ensures r.Ok? ==> Done() == old(Done()) + ChildrenBelow(graph, id, |graph.nodes[id].edges|)
      ensures r.Ok? ==> ClosedDown(graph, Done()) && !Exceeds(graph, old(Done()), id, MAX_DEPTH - |trail|)
      ensures r.Fail? ==> NodeFault(graph, digest, id, r.error)
      ensures r.Fail? && r.error == TooDeep ==> Exceeds(graph, old(Done()), id, MAX_DEPTH - |trail|)
      ensures forall x | x in refs && x !in old(refs) :: x in graph.nodes
      decreases MAX_DEPTH - |trail|, 0
    {
      hide Exceeds, ClosedDown, NodesBelow, Faithful, DistinctIds, TermFault, Grows, ChildrenKnown;
      var node := graph.nodes[id];
      var edges: seq<(Role, Ref)> := [];
      NothingGrown(graph, digest, refs, trees, node);
      ghost var d: nat := MAX_DEPTH - |trail|;
      for i := 0 to |node.edges|
        invariant Valid() && Grows(old(refs), old(trees), refs, trees)
        invariant ChildrenKnown(graph, digest, trees, node, i, edges)
        invariant Done() == old(Done()) + ChildrenBelow(graph, id, i) && ClosedDown(graph, Done())
        invariant NoneExceeds(graph, old(Done()), id, d, i)
        invariant forall x | x in refs && x !in old(refs) :: x in graph.nodes
      {
        var child := node.edges[i].1;
        assert ChildOf(graph, id, child);
        TrailExtends(graph, trail, id, child);
        ghost var beforeRefs, before := refs, trees;
        var c := ComputeNode(child, trail + [id]);
        GrowsTransitive(old(refs), old(trees), beforeRefs, before, refs, trees);
        if c.Fail? {
          FaultBelow(graph, digest, id, child, c.error);
          if c.error == TooDeep {
            ChildExceeds(graph, old(Done()), id, d, i);
          }
          return Fail(c.error);
        }
        ChildrenStayKnown(graph, digest, beforeRefs, before, trees, refs, node, i, edges, c.value);
        assert !ExceedsBy(graph, old(Done()), id, d, i);
        edges := edges + [(node.edges[i].0, c.value)];
      }
      NoChildExceeds(graph, old(Done()), id, d);
      return Ok(edges);
    }

    /** The digest of a node whose operator symbol is present. */
    method SemanticRef(node: Node, edges: seq<(Role, Ref)>) returns (r: Ref)
      requires Valid() && (node.operatorSymbol.Some? ==> node.operatorSymbol.value in graph.symbols)
      ensures DigestOf(graph, digest, refs, node, edges, r)
    {
      assert node.operatorSymbol.Some? ==> Terminal(graph, node.operatorSymbol.value);
      var operatorRef := if node.operatorSymbol.Some? then Some(refs[node.operatorSymbol.value]) else None;
      r := digest(TermPayload(node.operator, operatorRef, SortPairs(edges)));
    }

    /** The reference of a node whose children are computed, if its symbol is there and a declared key holds. */
    method CheckedRef(id: Id, edges: seq<(Role, Ref)>) returns (r: Outcome<Ref>)
      requires Valid() && id in graph.nodes
      requires ChildrenKnown(graph, digest, trees, graph.nodes[id], |graph.nodes[id].edges|, edges)
      ensures r.Ok? ==> KeyHolds(graph.nodes[id], r.value)
                        && DigestOf(graph, digest, refs, graph.nodes[id], edges, r.value)
      ensures r.Fail? ==> r.error != TooDeep && NodeFault(graph, digest, id, r.error)
    {
      var node := graph.nodes[id];
      if node.operatorSymbol.Some? && node.operatorSymbol.value !in graph.symbols {
        assert LacksSymbol(graph, id);
        return Fail(MissingSymbol);
      }
      var semanticRef := SemanticRef(node, edges);
      if node.declaredKey.Some? && node.declaredKey.value != semanticRef {
        ForgedKeyFound(graph, digest, refs, trees, id, edges, semanticRef);
        return Fail(ForgedKey);
      }
      return Ok(semanticRef);
    }

    /** Files the reference of a typed node whose children are computed. */
    method Store(id: Id, edges: seq<(Role, Ref)>) returns (r: Outcome<Ref>)
      requires Valid() && id in graph.nodes && Typed(graph.nodes[id])
      requires ChildrenKnown(graph, digest, trees, graph.nodes[id], |graph.nodes[id].edges|, edges)
      modifies this
      ensures Valid()
      ensures r.Ok? ==> refs == old(refs)[id := r.value] && id in trees && trees == old(trees)[id := trees[id]]
      ensures r.Fail? ==> refs == old(refs) && trees == old(trees)
      ensures r.Fail? ==> r.error != TooDeep && NodeFault(graph, digest, id, r.error)
    {
      r := CheckedRef(id, edges);
      if r.Ok? {
        StoreFaithful(graph, digest, refs, trees, id, edges, r.value);
        SetRef(id, r.value, Assembled(graph, trees, graph.nodes[id]));
      }
    }

    method SetRef(id: Id, r: Ref, ghost t: Tree)
      requires DistinctIds(graph) && Faithful(graph, digest, refs[id := r], trees[id := t])
      modifies this
      ensures Valid() && refs == old(refs)[id := r] && trees == old(trees)[id := t]
    {
      refs := refs[id := r];
      trees := trees[id := t];
    }

    /** Files the reference of an event. */
    method AddEvent(id: Id, payload: Payload)
      requires Valid() && !Declared(graph, id)
      modifies this`refs
      ensures Valid() && refs == old(refs)[id := digest(payload)]
    {
      refs := refs[id := digest(payload)];
    }
  }
}
