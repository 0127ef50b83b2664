/** Accepting a declared graph: all references computed, every event resolved, no orphan left. */
module HypergraphContract {
  import opened Options
  import opened Order
  import opened TermModel
  import opened TermTrees
  import opened Hypergraph

  // ---- Reachability from events ----------------------------------------------------------------------

  /** What an event names directly. */
  ghost predicate EventNames(e: Event, id: Id) {
    || id == e.predicateId || id in e.modalities
    || (exists i :: 0 <= i < |e.roles| && e.roles[i].1 == id)
    || (exists i :: 0 <= i < |e.temporal| && (e.temporal[i].0 == id || e.temporal[i].1 == id))
  }

  /** What a node names directly: its operator symbol and its children. */
  ghost predicate NodeNames(g: Graph, parent: Id, id: Id) {
    parent in g.nodes && (ChildOf(g, parent, id) || g.nodes[parent].operatorSymbol == Some(id))
  }

  ghost predicate NamesAlong(g: Graph, path: seq<Id>) {
    forall i | 0 <= i < |path| - 1 :: NodeNames(g, path[i], path[i + 1])
  }

  /** A chain of names from an event. */
  ghost predicate ReachedBy(g: Graph, path: seq<Id>, id: Id) {
    && path != [] && path[|path| - 1] == id && NamesAlong(g, path)
    && exists e :: 0 <= e < |g.events| && EventNames(g.events[e], path[0])
  }

  ghost predicate Reachable(g: Graph, id: Id) {
    exists path :: ReachedBy(g, path, id)
  }

  lemma ReachStep(g: Graph, parent: Id, id: Id)
    requires Reachable(g, parent) && NodeNames(g, parent, id)
    ensures Reachable(g, id)
  {
    var path :| ReachedBy(g, path, parent);
    var longer := path + [id];
    forall i | 0 <= i < |longer| - 1 ensures NodeNames(g, longer[i], longer[i + 1]) {
      if i + 1 < |path| {
        assert NodeNames(g, path[i], path[i + 1]);
      }
    }
    assert ReachedBy(g, longer, id);
  }

  lemma ReachEvent(g: Graph, e: nat, id: Id)
    requires e < |g.events| && EventNames(g.events[e], id)
    ensures Reachable(g, id)
  {
    assert ReachedBy(g, [id], id);
  }

  // ---- Marking ---------------------------------------------------------------------------------------

  ghost predicate Marked(nodes: set<Id>, terminals: set<Id>, id: Id) {
    id in nodes || id in terminals
  }

  ghost predicate NamesMarked(g: Graph, nodes: set<Id>, terminals: set<Id>, parent: Id) {
    forall id | NodeNames(g, parent, id) :: Marked(nodes, terminals, id)
  }

  class Marker {
    const graph: Graph
    var nodes: set<Id>
    var terminals: set<Id>

    /** Everything marked is reachable and of its kind. */
    ghost predicate Valid()
      reads this
    {
      && (forall id | id in nodes :: id in graph.nodes && Reachable(graph, id))
      && (forall id | id in terminals :: id !in graph.nodes && Reachable(graph, id))
    }

    constructor (graph: Graph)
      ensures Valid() && this.graph == graph && nodes == {} && terminals == {}
    {
      this.graph := graph;
      nodes, terminals := {}, {};
    }

    /** Marks an identity and everything below it, each node once. */
    method Mark(id: Id)
      requires Valid() && Reachable(graph, id)
      requires forall n | n in graph.nodes :: SymbolPresent(graph, n)
      requires forall x | x in graph.symbols :: x !in graph.nodes
      modifies this
      ensures Valid() && old(nodes) <= nodes && old(terminals) <= terminals && Marked(nodes, terminals, id)
      ensures forall n | n in nodes && n !in old(nodes) :: NamesMarked(graph, nodes, terminals, n)
      decreases graph.nodes.Keys - nodes
    {
      if id in terminals || id in nodes {
        return;
      }
      if id in graph.nodes {
        nodes := nodes + {id};
        var node := graph.nodes[id];
        if node.operatorSymbol.Some? {
          ReachStep(graph, id, node.operatorSymbol.value);
          assert SymbolPresent(graph, id);
          terminals := terminals + {node.operatorSymbol.value};
        }
        ghost var within := nodes;
        for i := 0 to |node.edges|
          invariant Valid() && within <= nodes && old(terminals) <= terminals
          invariant node.operatorSymbol.Some? ==> node.operatorSymbol.value in terminals
          invariant forall j | 0 <= j < i :: Marked(nodes, terminals, node.edges[j].1)
          invariant forall n | n in nodes && n !in within :: NamesMarked(graph, nodes, terminals, n)
        {
          assert ChildOf(graph, id, node.edges[i].1);
          ReachStep(graph, id, node.edges[i].1);
          Mark(node.edges[i].1);
        }
        forall x | NodeNames(graph, id, x) ensures Marked(nodes, terminals, x) {
          if ChildOf(graph, id, x) {
            var j :| 0 <= j < |node.edges| && node.edges[j].1 == x;
          }
        }
      } else {
        terminals := terminals + {id};
      }
    }
  }

  /** Marks that contain every event's names and are closed under naming contain all reachable ids. */
  lemma {:induction false} ClosedMarksReach(g: Graph, nodes: set<Id>, terminals: set<Id>, path: seq<Id>, id: Id)
    requires forall e, x | 0 <= e < |g.events| && EventNames(g.events[e], x) :: Marked(nodes, terminals, x)
    requires forall n | n in nodes :: NamesMarked(g, nodes, terminals, n)
    requires forall x | x in terminals :: x !in g.nodes
    requires ReachedBy(g, path, id)
    ensures Marked(nodes, terminals, id)
    decreases |path|
  {
    if |path| > 1 {
      var parent := path[|path| - 2];
      assert NodeNames(g, parent, path[|path| - 2 + 1]);
      var front := path[..|path| - 1];
      assert NamesAlong(g, front) by {
        forall i | 0 <= i < |front| - 1 ensures NodeNames(g, front[i], front[i + 1]) {
          assert NodeNames(g, path[i], path[i + 1]);
        }
      }
      ClosedMarksReach(g, nodes, terminals, front, parent);
    }
  }

  // ---- Acceptance ------------------------------------------------------------------------------------

  /** Every node denotes a finite term, so its operator symbol is present. */
  lemma UnfoldedSymbols(g: Graph, trees: Trees)
    requires DistinctIds(g) && AllUnfold(g, trees)
    ensures forall n | n in g.nodes :: SymbolPresent(g, n)
  {
    forall n | n in g.nodes ensures SymbolPresent(g, n) {
      assert Declared(g, n) && Unfolds(g, n, trees[n]);
    }
  }

  predicate RolesWellFormed(roles: seq<(Role, Id)>) {
    && roles != []
    && (forall i | 0 <= i < |roles| :: 1 <= roles[i].0 <= 4)
    && (forall i, j | 0 <= i < j < |roles| :: roles[i].0 != roles[j].0)
  }

  predicate EventWellFormed(g: Graph, e: Event) {
    && e.predicateId in g.symbols
    && RolesWellFormed(e.roles)
    && (forall i | 0 <= i < |e.modalities| :: e.modalities[i] in g.symbols)
    && (forall i | 0 <= i < |e.temporal| :: e.temporal[i].0 in g.symbols)
    && CanonicalPairs(e.properties)
  }

  ghost predicate NoneTooDeep(g: Graph, ids: seq<Id>, k: nat)
    requires k <= |ids|
  {
    forall j | 0 <= j < k :: !TooDeepFrom(g, ids[j])
  }

  /** The nodes below the first `k` identities. */
  ghost function FirstBelow(g: Graph, ids: seq<Id>, k: nat): set<Id>
    requires k <= |ids|
  {
    if k == 0 then {} else FirstBelow(g, ids, k - 1) + NodesBelow(g, ids[k - 1])
  }

  lemma {:induction false} FirstBelowMembers(g: Graph, ids: seq<Id>, k: nat, x: Id)
    requires k <= |ids|
    ensures x in FirstBelow(g, ids, k) <==> exists j :: 0 <= j < k && x in NodesBelow(g, ids[j])
  {
    if k > 0 {
      FirstBelowMembers(g, ids, k - 1, x);
    }
  }

  /** In ascending order, what precedes an identity is what is smaller. */
  lemma FirstBelowIsSmaller(g: Graph, ids: seq<Id>, k: nat)
    requires k < |ids| && StrictlyAscending(ids) && forall x :: x in ids <==> x in g.nodes
    ensures FirstBelow(g, ids, k) == BelowSmaller(g, ids[k])
  {
    forall x ensures x in FirstBelow(g, ids, k) <==> x in BelowSmaller(g, ids[k]) {
      FirstBelowMembers(g, ids, k, x);
      SmallerIsEarlier(g, ids, k, x);
    }
  }

  lemma SmallerIsEarlier(g: Graph, ids: seq<Id>, k: nat, x: Id)
    requires k < |ids| && StrictlyAscending(ids) && forall y :: y in ids <==> y in g.nodes
    ensures x in BelowSmaller(g, ids[k]) <==> exists j :: 0 <= j < k && x in NodesBelow(g, ids[j])
  {
    if x in BelowSmaller(g, ids[k]) {
      var y :| y in g.nodes && y < ids[k] && IsBelow(g, y, x);
      var j :| 0 <= j < |ids| && ids[j] == y;
      assert j < k && x in NodesBelow(g, ids[j]);
    }
    if j :| 0 <= j < k && x in NodesBelow(g, ids[j]) {
      var y := ids[j];
      assert y in ids && y < ids[k] && IsBelow(g, y, x);
    }
  }

  /** Computes every node, in ascending order of identity. */
  method ComputeAll(b: Builder) returns (failed: Option<Error>)
    requires b.Valid() && forall id | id in b.refs :: Terminal(b.graph, id)
    modifies b
    ensures b.Valid() && forall id | id in b.refs :: Declared(b.graph, id)
    ensures failed.None? ==> AllUnfold(b.graph, b.trees) && forall id | id in b.graph.nodes :: !TooDeepFrom(b.graph, id)
    ensures failed.Some? ==> TermFault(b.graph, b.digest, failed.value)
  {
    hide ClosedDown, NodesBelow, TooDeepFrom, BelowSmaller, Faithful, DistinctIds, AllUnfold, TermFault;
    var ids := Sorted(b.graph.nodes.Keys);
    NothingDone(b);
    for i := 0 to |ids|
      invariant b.Valid() && forall id | id in b.refs :: Declared(b.graph, id)
      invariant FirstKnown(ids, i, b.refs) && NoneTooDeep(b.graph, ids, i)
      invariant b.Done() == FirstBelow(b.graph, ids, i) && ClosedDown(b.graph, b.Done())
    {
      FirstBelowIsSmaller(b.graph, ids, i);
      var r := ComputeNext(b, ids, i);
      if r.Some? {
        return r;
      }
    }
    AllComputed(b.graph, b.digest, b.refs, b.trees, ids);
    return None;
  }

  /** Once every node has a reference, everything declared denotes a finite term. */
  lemma AllComputed(g: Graph, digest: Digest, refs: Refs, trees: Trees, ids: seq<Id>)
    requires Faithful(g, digest, refs, trees) && forall x | x in g.nodes :: x in ids
    requires FirstKnown(ids, |ids|, refs) && NoneTooDeep(g, ids, |ids|)
    ensures AllUnfold(g, trees) && forall id | id in g.nodes :: !TooDeepFrom(g, id)
  {
    hide TooDeepFrom;
    forall id | id in g.nodes ensures id in refs && !TooDeepFrom(g, id) {
      var j :| 0 <= j < |ids| && ids[j] == id;
    }
    forall id | Declared(g, id) ensures id in trees && Unfolds(g, id, trees[id]) {
      assert Denotes(g, digest, id, trees[id], refs[id]);
    }
  }

  lemma NothingDone(b: Builder)
    requires DistinctIds(b.graph) && forall id | id in b.refs :: Terminal(b.graph, id)
    ensures b.Done() == {} && ClosedDown(b.graph, {})
  {}

  /** Computes the next node, everything below the smaller ones being computed. */
  method ComputeNext(b: Builder, ids: seq<Id>, i: nat) returns (failed: Option<Error>)
    requires b.Valid() && i < |ids| && ids[i] in b.graph.nodes && forall id | id in b.refs :: Declared(b.graph, id)
    requires FirstKnown(ids, i, b.refs) && NoneTooDeep(b.graph, ids, i)
    requires b.Done() == FirstBelow(b.graph, ids, i) == BelowSmaller(b.graph, ids[i]) && ClosedDown(b.graph, b.Done())
    modifies b
    ensures b.Valid() && forall id | id in b.refs :: Declared(b.graph, id)
    ensures failed.None? ==> FirstKnown(ids, i + 1, b.refs) && NoneTooDeep(b.graph, ids, i + 1)
    ensures failed.None? ==> b.Done() == FirstBelow(b.graph, ids, i + 1) && ClosedDown(b.graph, b.Done())
    ensures failed.Some? ==> TermFault(b.graph, b.digest, failed.value)
  {
    hide ClosedDown, NodesBelow, Exceeds, BelowSmaller, Faithful, NodeFault, TermFault, HasCycle, Terminal;
    ghost var refs, trees := b.refs, b.trees;
    var r := b.ComputeNode(ids[i], []);
    if r.Fail? {
      TopFault(b.graph, b.digest, ids[i], r.error);
      return Some(r.error);
    }
    FirstKnownStep(ids, i, refs, trees, b.refs, b.trees);
    return None;
  }

  lemma TopFault(g: Graph, digest: Digest, id: Id, e: Error)
    requires id in g.nodes && NodeFault(g, digest, id, e) && (e == TooDeep ==> TooDeepFrom(g, id))
    ensures TermFault(g, digest, e)
  {}

  ghost predicate FirstKnown(ids: seq<Id>, k: nat, refs: Refs)
    requires k <= |ids|
  {
    forall j | 0 <= j < k :: ids[j] in refs
  }

  lemma FirstKnownStep(ids: seq<Id>, k: nat, before: Refs, beforeTrees: Trees, refs: Refs, trees: Trees)
    requires k < |ids| && FirstKnown(ids, k, before) && Grows(before, beforeTrees, refs, trees) && ids[k] in refs
    ensures FirstKnown(ids, k + 1, refs)
  {}

  function RefPairs(pairs: seq<(nat, Id)>, refs: Refs): seq<(nat, Ref)>
    requires forall i | 0 <= i < |pairs| :: pairs[i].1 in refs
  {
    seq(|pairs|, i requires 0 <= i < |pairs| && pairs[i].1 in refs => (pairs[i].0, refs[pairs[i].1]))
  }

  function ModalityRefs(modalities: seq<Id>, refs: Refs): set<Ref>
    requires forall i | 0 <= i < |modalities| :: modalities[i] in refs
  {
    set i | 0 <= i < |modalities| :: refs[modalities[i]]
  }

  function TemporalRefs(pairs: seq<(Id, Id)>, refs: Refs): seq<(Ref, Ref)>
    requires forall i | 0 <= i < |pairs| :: pairs[i].0 in refs && pairs[i].1 in refs
  {
    seq(|pairs|, i requires 0 <= i < |pairs| && pairs[i].0 in refs && pairs[i].1 in refs =>
      (refs[pairs[i].0], refs[pairs[i].1]))
  }

  /** Everything an event names has a reference. */
  ghost predicate NamesKnown(e: Event, refs: Refs) {
    && e.predicateId in refs
    && (forall i | 0 <= i < |e.roles| :: e.roles[i].1 in refs)
    && (forall i | 0 <= i < |e.modalities| :: e.modalities[i] in refs)
    && (forall i | 0 <= i < |e.temporal| :: e.temporal[i].0 in refs && e.temporal[i].1 in refs)
  }

  ghost function PayloadOf(digest: Digest, e: Event, refs: Refs): Payload
    requires NamesKnown(e, refs)
  {
    EventPayload(refs[e.predicateId], SortPairs(RefPairs(e.roles, refs)),
                 digest(ChargePayload(e.positive, ModalityRefs(e.modalities, refs))),
                 SortPairs(TemporalRefs(e.temporal, refs)), e.properties)
  }

  /** The event carries the digest over the references of everything it names. */
  ghost predicate Filed(digest: Digest, e: Event, refs: Refs) {
    NamesKnown(e, refs) && e.id in refs && refs[e.id] == digest(PayloadOf(digest, e, refs))
  }

  lemma PayloadStays(digest: Digest, e: Event, refs: Refs, id: Id, r: Ref)
    requires NamesKnown(e, refs) && id !in refs
    ensures NamesKnown(e, refs[id := r]) && PayloadOf(digest, e, refs[id := r]) == PayloadOf(digest, e, refs)
  {
    var longer := refs[id := r];
    assert RefPairs(e.roles, longer) == RefPairs(e.roles, refs);
    assert TemporalRefs(e.temporal, longer) == TemporalRefs(e.temporal, refs);
    assert forall i | 0 <= i < |e.modalities| :: longer[e.modalities[i]] == refs[e.modalities[i]];
    assert ModalityRefs(e.modalities, longer) == ModalityRefs(e.modalities, refs);
  }

  lemma FiledStays(digest: Digest, e: Event, refs: Refs, id: Id, r: Ref)
    requires Filed(digest, e, refs) && id !in refs
    ensures Filed(digest, e, refs[id := r])
  {
    PayloadStays(digest, e, refs, id, r);
  }

  lemma FiledNow(digest: Digest, e: Event, refs: Refs, r: Ref)
    requires NamesKnown(e, refs) && e.id !in refs && r == digest(PayloadOf(digest, e, refs))
    ensures Filed(digest, e, refs[e.id := r])
  {
    PayloadStays(digest, e, refs, e.id, r);
  }

  /** The event names a term that is not declared. */
  ghost predicate Dangles(g: Graph, e: Event) {
    || (exists i :: 0 <= i < |e.roles| && !Declared(g, e.roles[i].1))
    || (exists i :: 0 <= i < |e.temporal| && !Declared(g, e.temporal[i].1))
  }

  /** The defect of the event that an error names. */
  ghost predicate FaultOf(g: Graph, refs: Refs, event: Event, e: Error) {
    || (e == BadEvent && !EventWellFormed(g, event))
    || (e == Dangling && Dangles(g, event) && !NamesKnown(event, refs))
  }

  /** The defect an error found while resolving events names. */
  ghost predicate EventFault(g: Graph, e: Error) {
    exists i :: 0 <= i < |g.events|
      && ((e == BadEvent && !EventWellFormed(g, g.events[i])) || (e == Dangling && Dangles(g, g.events[i])))
  }

  /** The references of the terms an event's roles name; every node is computed by now, so a term
      without a reference is dangling. */
  method ResolveRoles(b: Builder, k: nat) returns (r: Outcome<seq<(Role, Ref)>>)
    requires b.Valid() && AllUnfold(b.graph, b.trees) && k < |b.graph.events|
    ensures r.Ok? ==> (forall i | 0 <= i < |b.graph.events[k].roles| :: b.graph.events[k].roles[i].1 in b.refs)
                      && r.value == RefPairs(b.graph.events[k].roles, b.refs)
    ensures r.Fail? ==> FaultOf(b.graph, b.refs, b.graph.events[k], r.error)
  {
    var roles := b.graph.events[k].roles;
    var refs: seq<(Role, Ref)> := [];
    for i := 0 to |roles|
      invariant |refs| == i
      invariant forall j | 0 <= j < i :: roles[j].1 in b.refs && refs[j] == (roles[j].0, b.refs[roles[j].1])
    {
      if roles[i].1 !in b.refs {
        assert !Declared(b.graph, b.graph.events[k].roles[i].1);
        return Fail(Dangling);
      }
      refs := refs + [(roles[i].0, b.refs[roles[i].1])];
    }
    assert refs == RefPairs(roles, b.refs);
    return Ok(refs);
  }

  /** The references of an event's modality symbols. */
  method ResolveModalities(b: Builder, k: nat) returns (r: Outcome<set<Ref>>)
    requires b.Valid() && k < |b.graph.events|
    ensures r.Ok? ==> forall i | 0 <= i < |b.graph.events[k].modalities| ::
              b.graph.events[k].modalities[i] in b.graph.symbols && b.graph.events[k].modalities[i] in b.refs
    ensures r.Ok? ==> r.value == ModalityRefs(b.graph.events[k].modalities, b.refs)
    ensures r.Fail? ==> FaultOf(b.graph, b.refs, b.graph.events[k], r.error)
  {
    var modalities := b.graph.events[k].modalities;
    var refs: set<Ref> := {};
    for i := 0 to |modalities|
      invariant forall j | 0 <= j < i :: modalities[j] in b.graph.symbols && modalities[j] in b.refs
      invariant refs == set j | 0 <= j < i :: b.refs[modalities[j]]
    {
      if modalities[i] !in b.graph.symbols {
        assert !EventWellFormed(b.graph, b.graph.events[k]);
        return Fail(BadEvent);
      }
      assert Terminal(b.graph, modalities[i]);
      refs := refs + {b.refs[modalities[i]]};
    }
    return Ok(refs);
  }

  ghost predicate RelationsKnown(g: Graph, temporal: seq<(Id, Id)>, refs: Refs) {
    forall i | 0 <= i < |temporal| ::
      temporal[i].0 in g.symbols && temporal[i].0 in refs && temporal[i].1 in refs
  }

  /** The references of an event's temporal relations and of the terms they relate it to. */
  method ResolveTemporal(b: Builder, k: nat) returns (r: Outcome<seq<(Ref, Ref)>>)
    requires b.Valid() && AllUnfold(b.graph, b.trees) && k < |b.graph.events|
    ensures r.Ok? ==> RelationsKnown(b.graph, b.graph.events[k].temporal, b.refs)
                      && r.value == TemporalRefs(b.graph.events[k].temporal, b.refs)
    ensures r.Fail? ==> FaultOf(b.graph, b.refs, b.graph.events[k], r.error)
  {
    var temporal := b.graph.events[k].temporal;
    var refs: seq<(Ref, Ref)> := [];
    for i := 0 to |temporal|
      invariant |refs| == i
      invariant forall j | 0 <= j < i :: temporal[j].0 in b.graph.symbols && temporal[j].0 in b.refs
                    && temporal[j].1 in b.refs && refs[j] == (b.refs[temporal[j].0], b.refs[temporal[j].1])
    {
      if temporal[i].0 !in b.graph.symbols {
        assert !EventWellFormed(b.graph, b.graph.events[k]);
        return Fail(BadEvent);
      }
      assert Terminal(b.graph, temporal[i].0);
      if temporal[i].1 !in b.refs {
        assert !Declared(b.graph, b.graph.events[k].temporal[i].1);
        return Fail(Dangling);
      }
      refs := refs + [(b.refs[temporal[i].0], b.refs[temporal[i].1])];
    }
    assert refs == TemporalRefs(temporal, b.refs);
    return Ok(refs);
  }

  /** Checks one event and files its reference. */
  method ResolveEvent(b: Builder, k: nat) returns (failed: Option<Error>)
    requires b.Valid() && AllUnfold(b.graph, b.trees) && k < |b.graph.events| && b.graph.events[k].id !in b.refs
    modifies b`refs
    ensures b.Valid()
    ensures failed.None? ==> EventWellFormed(b.graph, b.graph.events[k]) && NamesKnown(b.graph.events[k], old(b.refs))
    ensures failed.None? ==>
              b.refs == old(b.refs)[b.graph.events[k].id :=
                b.digest(PayloadOf(b.digest, b.graph.events[k], old(b.refs)))]
    ensures failed.Some? ==> b.refs == old(b.refs) && FaultOf(b.graph, b.refs, b.graph.events[k], failed.value)
  {
    var e := b.graph.events[k];
    if e.predicateId !in b.graph.symbols || !RolesWellFormed(e.roles) {
      assert !EventWellFormed(b.graph, b.graph.events[k]);
      return Some(BadEvent);
    }
    var roles := ResolveRoles(b, k);
    if roles.Fail? {
      return Some(roles.error);
    }
    var modalities := ResolveModalities(b, k);
    if modalities.Fail? {
      return Some(modalities.error);
    }
    var temporal := ResolveTemporal(b, k);
    if temporal.Fail? {
      return Some(temporal.error);
    }
    if !CanonicalPairs(e.properties) {
      assert !EventWellFormed(b.graph, b.graph.events[k]);
      return Some(BadEvent);
    }
    assert Terminal(b.graph, e.predicateId);
    var charge := b.digest(ChargePayload(e.positive, modalities.value));
    b.AddEvent(e.id, EventPayload(b.refs[e.predicateId], SortPairs(roles.value), charge, SortPairs(temporal.value),
                                  e.properties));
    return None;
  }

  ghost predicate EventDone(g: Graph, digest: Digest, refs: Refs, e: Event) {
    EventWellFormed(g, e) && Filed(digest, e, refs)
  }

  /** The first `k` events are well-formed and filed. */
  ghost predicate FirstDone(g: Graph, digest: Digest, refs: Refs, k: nat)
    requires k <= |g.events|
  {
    forall i | 0 <= i < k :: EventDone(g, digest, refs, g.events[i])
  }

  ghost predicate RestNotFiled(g: Graph, refs: Refs, k: nat) {
    forall i | k <= i < |g.events| :: g.events[i].id !in refs
  }

  lemma DoneStays(g: Graph, digest: Digest, refs: Refs, e: Event, id: Id, r: Ref)
    requires EventDone(g, digest, refs, e) && id !in refs
    ensures EventDone(g, digest, refs[id := r], e)
  {
    FiledStays(digest, e, refs, id, r);
  }

  lemma FirstDoneStays(g: Graph, digest: Digest, refs: Refs, k: nat, id: Id, r: Ref)
    requires k <= |g.events| && FirstDone(g, digest, refs, k) && id !in refs
    ensures FirstDone(g, digest, refs[id := r], k)
  {
    forall i | 0 <= i < k ensures EventDone(g, digest, refs[id := r], g.events[i]) {
      DoneStays(g, digest, refs, g.events[i], id, r);
    }
  }

  lemma FirstDoneStep(g: Graph, digest: Digest, refs: Refs, k: nat, after: Refs)
    requires k < |g.events| && FirstDone(g, digest, refs, k) && g.events[k].id !in refs
    requires EventWellFormed(g, g.events[k]) && NamesKnown(g.events[k], refs)
    requires after == refs[g.events[k].id := digest(PayloadOf(digest, g.events[k], refs))]
    ensures FirstDone(g, digest, after, k + 1)
  {
    var r := digest(PayloadOf(digest, g.events[k], refs));
    FirstDoneStays(g, digest, refs, k, g.events[k].id, r);
    FiledNow(digest, g.events[k], refs, r);
  }

  /** Files the references of all events. */
  method ResolveEvents(b: Builder) returns (failed: Option<Error>)
    requires b.Valid() && AllUnfold(b.graph, b.trees) && forall id | id in b.refs :: Declared(b.graph, id)
    modifies b`refs
    ensures b.Valid()
    ensures failed.None? ==> FirstDone(b.graph, b.digest, b.refs, |b.graph.events|)
    ensures failed.Some? ==> EventFault(b.graph, failed.value)
  {
    for k := 0 to |b.graph.events|
      invariant b.Valid() && FirstDone(b.graph, b.digest, b.refs, k) && RestNotFiled(b.graph, b.refs, k)
    {
      ghost var before := b.refs;
      failed := ResolveEvent(b, k);
      if failed.Some? {
        return;
      }
      FirstDoneStep(b.graph, b.digest, before, k, b.refs);
    }
    return None;
  }

  ghost predicate EventMarked(m: Marker, e: Event)
    reads m
  {
    forall id | EventNames(e, id) :: Marked(m.nodes, m.terminals, id)
  }

  ghost predicate AllNamesMarked(m: Marker)
    reads m
  {
    forall n | n in m.nodes :: NamesMarked(m.graph, m.nodes, m.terminals, n)
  }

  /** The marker is consistent, and the graph is one whose nodes are all computed. */
  ghost predicate Marking(m: Marker)
    reads m
  {
    && m.Valid() && AllNamesMarked(m)
    && (forall n | n in m.graph.nodes :: SymbolPresent(m.graph, n))
    && (forall x | x in m.graph.symbols :: x !in m.graph.nodes)
  }

  /** Marks the symbols an event names. */
  method MarkSymbols(m: Marker, k: nat)
    requires Marking(m) && k < |m.graph.events| && EventWellFormed(m.graph, m.graph.events[k])
    modifies m
    ensures Marking(m) && old(m.nodes) <= m.nodes && old(m.terminals) <= m.terminals
    ensures m.graph.events[k].predicateId in m.terminals
    ensures forall id | id in m.graph.events[k].modalities :: id in m.terminals
  {
    var e := m.graph.events[k];
    var named := {e.predicateId} + (set id | id in e.modalities);
    forall id | id in named ensures Reachable(m.graph, id) && id !in m.graph.nodes {
      ReachEvent(m.graph, k, id);
    }
    m.terminals := m.terminals + named;
  }

  /** Marks the terms in an event's roles. */
  method MarkRoles(m: Marker, k: nat)
    requires Marking(m) && k < |m.graph.events|
    modifies m
    ensures Marking(m) && old(m.nodes) <= m.nodes && old(m.terminals) <= m.terminals
    ensures forall i | 0 <= i < |m.graph.events[k].roles| :: Marked(m.nodes, m.terminals, m.graph.events[k].roles[i].1)
  {
    var roles := m.graph.events[k].roles;
    for i := 0 to |roles|
      invariant Marking(m) && old(m.nodes) <= m.nodes && old(m.terminals) <= m.terminals
      invariant forall j | 0 <= j < i :: Marked(m.nodes, m.terminals, roles[j].1)
    {
      ReachEvent(m.graph, k, m.graph.events[k].roles[i].1);
      m.Mark(roles[i].1);
    }
  }

  /** Marks an event's temporal relations and the terms they relate it to. */
  method MarkTemporal(m: Marker, k: nat)
    requires Marking(m) && k < |m.graph.events| && EventWellFormed(m.graph, m.graph.events[k])
    modifies m
    ensures Marking(m) && old(m.nodes) <= m.nodes && old(m.terminals) <= m.terminals
    ensures forall i | 0 <= i < |m.graph.events[k].temporal| :: m.graph.events[k].temporal[i].0 in m.terminals
              && Marked(m.nodes, m.terminals, m.graph.events[k].temporal[i].1)
  {
    var temporal := m.graph.events[k].temporal;
    for i := 0 to |temporal|
      invariant Marking(m) && old(m.nodes) <= m.nodes && old(m.terminals) <= m.terminals
      invariant forall j | 0 <= j < i :: temporal[j].0 in m.terminals && Marked(m.nodes, m.terminals, temporal[j].1)
    {
      ReachEvent(m.graph, k, m.graph.events[k].temporal[i].0);
      ReachEvent(m.graph, k, m.graph.events[k].temporal[i].1);
      m.terminals := m.terminals + {temporal[i].0};
      m.Mark(temporal[i].1);
    }
  }

  /** Marks what one event names. */
  method MarkEvent(m: Marker, k: nat)
    requires Marking(m) && k < |m.graph.events| && EventWellFormed(m.graph, m.graph.events[k])
    modifies m
    ensures Marking(m) && old(m.nodes) <= m.nodes && old(m.terminals) <= m.terminals
    ensures EventMarked(m, m.graph.events[k])
  {
    MarkSymbols(m, k);
    MarkRoles(m, k);
    MarkTemporal(m, k);
  }

  /** Marks everything reachable from the events, and nothing else. */
  method MarkAll(m: Marker)
    requires Marking(m) && m.nodes == {} && m.terminals == {}
    requires forall i | 0 <= i < |m.graph.events| :: EventWellFormed(m.graph, m.graph.events[i])
    modifies m
    ensures forall id :: Marked(m.nodes, m.terminals, id) <==> Reachable(m.graph, id)
    ensures forall id | id in m.nodes :: id in m.graph.nodes
    ensures forall id | id in m.terminals :: id !in m.graph.nodes
  {
    for k := 0 to |m.graph.events|
      invariant Marking(m) && forall i | 0 <= i < k :: EventMarked(m, m.graph.events[i])
    {
      MarkEvent(m, k);
    }
    forall id | Reachable(m.graph, id) ensures Marked(m.nodes, m.terminals, id) {
      var path :| ReachedBy(m.graph, path, id);
      ClosedMarksReach(m.graph, m.nodes, m.terminals, path, id);
    }
  }

  /** Every identity denotes a finite term and carries that term's reference; nodes and events obey
      their laws, and events carry their own references. */
  ghost predicate Computed(g: Graph, digest: Digest, refs: Refs, trees: Trees) {
    && AllUnfold(g, trees)
    && (forall id | Declared(g, id) :: id in refs && refs[id] == TreeRef(digest, trees[id]))
    && (forall id | id in g.nodes :: Typed(g.nodes[id]) && KeyHolds(g.nodes[id], refs[id]))
    && FirstDone(g, digest, refs, |g.events|)
    && forall id | id in g.nodes :: !TooDeepFrom(g, id)
  }

  /** An accepted graph also declares exactly what its events reach. */
  ghost predicate Accepted(g: Graph, digest: Digest, refs: Refs, trees: Trees) {
    && Computed(g, digest, refs, trees) && !Lacking(g) && !TooLarge(g)
    && forall id :: Declared(g, id) <==> Reachable(g, id)
  }

  /** A graph needs symbols, nodes and events. */
  predicate Lacking(g: Graph) {
    g.symbols == map[] || g.nodes == map[] || g.events == []
  }

  const MAX_TERMS := 10_000
  const MAX_EVENTS := 2_000
  const MAX_EDGES := 40_000

  /** The edges of the first `k` nodes. */
  function NodeEdges(g: Graph, ids: seq<Id>, k: nat): nat
    requires k <= |ids| && forall id | id in ids :: id in g.nodes
  {
    if k == 0 then 0 else NodeEdges(g, ids, k - 1) + |g.nodes[ids[k - 1]].edges|
  }

  /** Everything the first `k` events name. */
  function EventEdges(events: seq<Event>, k: nat): nat
    requires k <= |events|
  {
    if k == 0 then 0
    else
      var e := events[k - 1];
      EventEdges(events, k - 1) + |e.roles| + |e.modalities| + |e.temporal| + |e.properties|
  }

  /** One of the object or edge budgets is exceeded. */
  predicate TooLarge(g: Graph) {
    || |g.leaves| > MAX_TERMS || |g.symbols| > MAX_TERMS || |g.nodes| > MAX_TERMS || |g.events| > MAX_EVENTS
    || NodeEdges(g, Sorted(g.nodes.Keys), |Sorted(g.nodes.Keys)|) + EventEdges(g.events, |g.events|) > MAX_EDGES
  }

  /** The error names a defect that the graph has. */
  ghost predicate Defective(g: Graph, digest: Digest, e: Error) {
    || (e == EmptyGraph && Lacking(g)) || (e == Oversized && TooLarge(g)) || TermFault(g, digest, e) || EventFault(g, e)
    || OrphanFault(g, e)
  }

  ghost predicate OrphanFault(g: Graph, e: Error) {
    e == Orphan && exists id :: Declared(g, id) != Reachable(g, id)
  }

  /** Accepts a declared graph or names a defect that the graph has: exactly the graphs without defect are
      accepted. */
  method FromContract(g: Graph, digest: Digest) returns (r: Outcome<Refs>, ghost trees: Trees)
    requires DistinctIds(g)
    ensures r.Ok? ==> Accepted(g, digest, r.value, trees)
    ensures r.Fail? ==> Defective(g, digest, r.error)
    ensures r.Ok? <==> forall e :: !Defective(g, digest, e)
  {
    hide TermFault, EventFault, OrphanFault, TooLarge, Computed, DistinctIds;
    if g.symbols == map[] || g.nodes == map[] || g.events == [] {
      assert Defective(g, digest, EmptyGraph);
      return Fail(EmptyGraph), map[];
    }
    if TooLarge(g) {
      assert Defective(g, digest, Oversized);
      return Fail(Oversized), map[];
    }
    r, trees := Assemble(g, digest);
    if r.Ok? {
      forall e ensures !Defective(g, digest, e) {
        AcceptedHasNoDefect(g, digest, r.value, trees, e);
      }
    } else {
      assert Defective(g, digest, r.error);
    }
  }

  method Assemble(g: Graph, digest: Digest) returns (r: Outcome<Refs>, ghost trees: Trees)
    requires DistinctIds(g)
    ensures r.Ok? ==> Computed(g, digest, r.value, trees) && forall id :: Declared(g, id) <==> Reachable(g, id)
    ensures r.Fail? ==> TermFault(g, digest, r.error) || EventFault(g, r.error) || OrphanFault(g, r.error)
  {
    var b := new Builder(g, digest);
    var failed := Resolve(b);
    trees := b.trees;
    if failed.Some? {
      return Fail(failed.value), trees;
    }
    UnfoldedSymbols(g, trees);
    var orphan := FindOrphan(g);
    r := if orphan then Fail(Orphan) else Ok(b.refs);
  }

  /** Whether what is declared differs from what the events reach. */
  method FindOrphan(g: Graph) returns (orphan: bool)
    requires DistinctIds(g) && forall n | n in g.nodes :: SymbolPresent(g, n)
    requires forall i | 0 <= i < |g.events| :: EventWellFormed(g, g.events[i])
    ensures orphan <==> exists id :: Declared(g, id) != Reachable(g, id)
  {
    var m := new Marker(g);
    MarkAll(m);
    orphan := g.leaves.Keys + g.symbols.Keys != m.terminals || g.nodes.Keys != m.nodes;
    if orphan {
      OrphanExists(g, m.nodes, m.terminals);
    } else {
      NoOrphan(g, m.nodes, m.terminals);
    }
  }

  /** Computes all nodes, then all events. */
  method Resolve(b: Builder) returns (failed: Option<Error>)
    requires b.Valid() && forall id | id in b.refs :: Terminal(b.graph, id)
    modifies b
    ensures failed.None? ==> Computed(b.graph, b.digest, b.refs, b.trees)
    ensures failed.Some? ==> TermFault(b.graph, b.digest, failed.value) || EventFault(b.graph, failed.value)
  {
    hide EventFault, TermFault, EventDone, Unfolds, TooDeepFrom;
    failed := ComputeAll(b);
    if failed.None? {
      failed := ResolveEvents(b);
    }
  }

  lemma NoOrphan(g: Graph, nodes: set<Id>, terminals: set<Id>)
    requires forall id :: Marked(nodes, terminals, id) <==> Reachable(g, id)
    requires g.leaves.Keys + g.symbols.Keys == terminals && g.nodes.Keys == nodes
    ensures forall id :: Declared(g, id) <==> Reachable(g, id)
  {
    forall id ensures Declared(g, id) <==> Reachable(g, id) {
      assert Marked(nodes, terminals, id) <==> Declared(g, id);
    }
  }

  lemma OrphanExists(g: Graph, nodes: set<Id>, terminals: set<Id>)
    requires DistinctIds(g)
    requires forall id :: Marked(nodes, terminals, id) <==> Reachable(g, id)
    requires forall id | id in nodes :: id in g.nodes
    requires forall id | id in terminals :: id !in g.nodes
    requires g.leaves.Keys + g.symbols.Keys != terminals || g.nodes.Keys != nodes
    ensures exists id :: Declared(g, id) != Reachable(g, id)
  {
    if g.nodes.Keys != nodes {
      var id :| id in g.nodes && id !in nodes;
      assert Declared(g, id) != Reachable(g, id);
    } else if id :| id in terminals && id !in g.leaves.Keys + g.symbols.Keys {
      assert Declared(g, id) != Reachable(g, id);
    } else {
      var id :| id in g.leaves.Keys + g.symbols.Keys && id !in terminals;
      assert Declared(g, id) != Reachable(g, id);
    }
  }

  /** In an accepted graph two identities share a reference exactly when they denote the same term up
      to the order of typed edges; and the graph has no cycle and nothing dangling below a node. */
  lemma AcceptedIsFaithful(g: Graph, digest: Digest, refs: Refs, trees: Trees)
    requires DistinctIds(g) && Injective(digest) && Accepted(g, digest, refs, trees)
    ensures forall a, b | Declared(g, a) && Declared(g, b) :: refs[a] == refs[b] <==> SameTerm(trees[a], trees[b])
    ensures !HasCycle(g)
    ensures forall parent, child | ChildOf(g, parent, child) :: Declared(g, child)
  {
    forall a, b | Declared(g, a) && Declared(g, b) ensures refs[a] == refs[b] <==> SameTerm(trees[a], trees[b]) {
      ReferenceFaithful(digest, trees[a], trees[b]);
    }
    UnfoldingMeansAcyclic(g, trees);
  }

  /** An accepted graph has none of the defects that errors name. */
  lemma AcceptedHasNoDefect(g: Graph, digest: Digest, refs: Refs, trees: Trees, e: Error)
    requires DistinctIds(g) && Accepted(g, digest, refs, trees)
    ensures !Defective(g, digest, e)
  {
    hide TermFault, EventFault, AllUnfold, FirstDone, DistinctIds, TooLarge;
    NoTermFault(g, digest, refs, trees, e);
    NoEventFault(g, digest, refs, e);
  }

  lemma NoEventFault(g: Graph, digest: Digest, refs: Refs, e: Error)
    requires FirstDone(g, digest, refs, |g.events|) && forall id | Reachable(g, id) :: Declared(g, id)
    ensures !EventFault(g, e)
  {
    NothingDangles(g);
    NoBadEvent(g, digest, refs);
  }

  lemma NoBadEvent(g: Graph, digest: Digest, refs: Refs)
    requires FirstDone(g, digest, refs, |g.events|)
    ensures forall i | 0 <= i < |g.events| :: EventWellFormed(g, g.events[i])
  {
    assert forall i | 0 <= i < |g.events| :: EventDone(g, digest, refs, g.events[i]);
  }

  lemma NoneLacksSymbol(g: Graph, trees: Trees)
    requires DistinctIds(g) && AllUnfold(g, trees)
    ensures forall id :: !LacksSymbol(g, id)
  {
    UnfoldedSymbols(g, trees);
    forall id ensures !LacksSymbol(g, id) {
      assert id in g.nodes ==> SymbolPresent(g, id);
    }
  }

  lemma NoTermFault(g: Graph, digest: Digest, refs: Refs, trees: Trees, e: Error)
    requires DistinctIds(g) && Computed(g, digest, refs, trees)
    ensures !TermFault(g, digest, e)
  {
    match e
    case Dangling => UnfoldingMeansAcyclic(g, trees);
    case Cyclic => UnfoldingMeansAcyclic(g, trees);
    case MissingSymbol => NoneLacksSymbol(g, trees);
    case ForgedKey => NotForged(g, digest, refs, trees);
    case _ =>
  }

  lemma NothingDangles(g: Graph)
    requires forall id | Reachable(g, id) :: Declared(g, id)
    ensures forall i | 0 <= i < |g.events| :: !Dangles(g, g.events[i])
  {
    forall i, k | 0 <= i < |g.events| && 0 <= k < |g.events[i].roles| ensures Declared(g, g.events[i].roles[k].1) {
      ReachEvent(g, i, g.events[i].roles[k].1);
    }
    forall i, k | 0 <= i < |g.events| && 0 <= k < |g.events[i].temporal|
      ensures Declared(g, g.events[i].temporal[k].1)
    {
      ReachEvent(g, i, g.events[i].temporal[k].1);
    }
  }

  lemma NotForged(g: Graph, digest: Digest, refs: Refs, trees: Trees)
    requires DistinctIds(g) && Computed(g, digest, refs, trees)
    ensures forall id, t :: !Forged(g, digest, id, t)
  {
    forall id, t | Forged(g, digest, id, t) ensures false {
      UnfoldingUnique(g, id, t, trees[id]);
    }
  }

  // ---- What events use -------------------------------------------------------------------------------

  /** The term holds the identity, as a node or terminal in it or as the operator symbol of one of its nodes. */
  ghost predicate UsedIn(g: Graph, term: Id, id: Id) {
    || IsBelow(g, term, id)
    || exists n :: n in g.nodes && IsBelow(g, term, n) && g.nodes[n].operatorSymbol == Some(id)
  }

  /** The event has the identity as its predicate, a modality or a temporal relation, or in one of its terms. */
  ghost predicate UsedBy(g: Graph, e: Event, id: Id) {
    || id == e.predicateId || id in e.modalities || (exists i :: 0 <= i < |e.temporal| && e.temporal[i].0 == id)
    || (exists i :: 0 <= i < |e.roles| && UsedIn(g, e.roles[i].1, id))
    || (exists i :: 0 <= i < |e.temporal| && UsedIn(g, e.temporal[i].1, id))
  }

  lemma BelowLonger(g: Graph, term: Id, parent: Id, id: Id)
    requires IsBelow(g, term, parent) && ChildOf(g, parent, id)
    ensures IsBelow(g, term, id)
  {
    var path :| Leads(g, path, term, parent);
    var longer := path + [id];
    forall i | 0 <= i < |longer| - 1 ensures ChildOf(g, longer[i], longer[i + 1]) {
      if i + 1 < |path| {
        assert ChildOf(g, path[i], path[i + 1]);
      }
    }
    assert Leads(g, longer, term, id);
  }

  lemma NamedIsUsed(g: Graph, e: Event, id: Id)
    requires EventNames(e, id)
    ensures UsedBy(g, e, id)
  {
    BelowItself(g, id);
  }

  /** What a node of a used term names is used. */
  lemma UsedStep(g: Graph, term: Id, parent: Id, id: Id)
    requires UsedIn(g, term, parent) && NodeNames(g, parent, id)
    requires forall n | n in g.nodes :: SymbolPresent(g, n)
    requires forall x | x in g.symbols :: x !in g.nodes
    ensures UsedIn(g, term, id)
  {
    if ChildOf(g, parent, id) {
      BelowLonger(g, term, parent, id);
    }
  }

  lemma UsedByStep(g: Graph, e: Event, parent: Id, id: Id)
    requires EventWellFormed(g, e) && UsedBy(g, e, parent) && NodeNames(g, parent, id)
    requires forall n | n in g.nodes :: SymbolPresent(g, n)
    requires forall x | x in g.symbols :: x !in g.nodes
    ensures UsedBy(g, e, id)
  {
    hide UsedIn, NodeNames, SymbolPresent;
    assert parent in g.nodes by {
      NamesOfNode(g, parent, id);
    }
    if i :| 0 <= i < |e.roles| && UsedIn(g, e.roles[i].1, parent) {
      UsedStep(g, e.roles[i].1, parent, id);
    } else {
      var i :| 0 <= i < |e.temporal| && UsedIn(g, e.temporal[i].1, parent);
      UsedStep(g, e.temporal[i].1, parent, id);
    }
  }

  lemma NamesOfNode(g: Graph, parent: Id, id: Id)
    requires NodeNames(g, parent, id)
    ensures parent in g.nodes
  {}

  lemma {:induction false} ReachedIsUsed(g: Graph, path: seq<Id>, id: Id) returns (e: nat)
    requires forall i | 0 <= i < |g.events| :: EventWellFormed(g, g.events[i])
    requires forall n | n in g.nodes :: SymbolPresent(g, n)
    requires forall x | x in g.symbols :: x !in g.nodes
    requires ReachedBy(g, path, id)
    ensures e < |g.events| && UsedBy(g, g.events[e], id)
    decreases |path|
  {
    hide UsedBy, EventWellFormed, SymbolPresent, EventNames, NodeNames;
    if |path| == 1 {
      var k: nat :| k < |g.events| && EventNames(g.events[k], path[0]);
      NamedIsUsed(g, g.events[k], id);
      return k;
    }
    var n := |path| - 1;
    var front := path[..n];
    forall i | 0 <= i < |front| - 1 ensures NodeNames(g, front[i], front[i + 1]) {
      assert NodeNames(g, path[i], path[i + 1]);
    }
    e := ReachedIsUsed(g, front, path[n - 1]);
    assert NodeNames(g, path[n - 1], path[n - 1 + 1]);
    UsedByStep(g, g.events[e], path[n - 1], id);
  }

  lemma {:induction false} BelowIsReached(g: Graph, path: seq<Id>, from: Id, id: Id)
    requires Reachable(g, from) && Leads(g, path, from, id)
    ensures Reachable(g, id)
    decreases |path|
  {
    if |path| > 1 {
      assert ChildOf(g, path[0], path[0 + 1]);
      ReachStep(g, from, path[1]);
      var rest := path[1..];
      forall i | 0 <= i < |rest| - 1 ensures ChildOf(g, rest[i], rest[i + 1]) {
        assert ChildOf(g, path[i + 1], path[i + 1 + 1]);
      }
      BelowIsReached(g, rest, path[1], id);
    }
  }

  lemma UsedInIsReached(g: Graph, term: Id, id: Id)
    requires Reachable(g, term) && UsedIn(g, term, id)
    ensures Reachable(g, id)
  {
    if IsBelow(g, term, id) {
      var path :| Leads(g, path, term, id);
      BelowIsReached(g, path, term, id);
    } else {
      var n :| n in g.nodes && IsBelow(g, term, n) && g.nodes[n].operatorSymbol == Some(id);
      var path :| Leads(g, path, term, n);
      BelowIsReached(g, path, term, n);
      ReachStep(g, n, id);
    }
  }

  lemma UsedIsReached(g: Graph, e: nat, id: Id)
    requires e < |g.events| && UsedBy(g, g.events[e], id)
    ensures Reachable(g, id)
  {
    var event := g.events[e];
    if i :| 0 <= i < |event.roles| && UsedIn(g, event.roles[i].1, id) {
      ReachEvent(g, e, event.roles[i].1);
      UsedInIsReached(g, event.roles[i].1, id);
    } else if i :| 0 <= i < |event.temporal| && UsedIn(g, event.temporal[i].1, id) {
      ReachEvent(g, e, event.temporal[i].1);
      UsedInIsReached(g, event.temporal[i].1, id);
    } else {
      ReachEvent(g, e, id);
    }
  }

  /** An accepted graph declares exactly what its events use: every leaf, symbol and node has a use, and
      everything used is declared. */
  lemma AcceptedIsUsed(g: Graph, digest: Digest, refs: Refs, trees: Trees, id: Id)
    requires DistinctIds(g) && Accepted(g, digest, refs, trees)
    ensures Declared(g, id) <==> exists e :: 0 <= e < |g.events| && UsedBy(g, g.events[e], id)
  {
    hide UsedBy, Unfolds, EventDone, TooDeepFrom, TooLarge;
    UnfoldedSymbols(g, trees);
    NoBadEvent(g, digest, refs);
    if Declared(g, id) {
      var path :| ReachedBy(g, path, id);
      var e := ReachedIsUsed(g, path, id);
    }
    if e: nat :| e < |g.events| && UsedBy(g, g.events[e], id) {
      UsedIsReached(g, e, id);
    }
  }

  // ---- Readout ---------------------------------------------------------------------------------------

  /** A chain of node-to-child steps down to a terminal. */
  ghost predicate WitnessedBy(g: Graph, path: seq<Id>, id: Id, terminal: Id) {
    path != [] && path[0] == id && path[|path| - 1] == terminal && Descends(g, path) && Terminal(g, terminal)
  }

  ghost predicate Below(g: Graph, id: Id, terminal: Id) {
    exists path :: WitnessedBy(g, path, id, terminal)
  }

  ghost predicate DenotesHigher(g: Graph, id: Id, t: Tree) {
    exists s :: Unfolds(g, id, s) && Height(s) > Height(t)
  }

  /** The terminals below an identity, by recursion over its edges. On a finite term the cycle error
      is never met. */
  method LeafWitnesses(g: Graph, id: Id, trail: set<Id>, ghost t: Tree) returns (r: Outcome<set<Id>>)
    requires DistinctIds(g) && Unfolds(g, id, t)
    requires forall x | x in trail :: DenotesHigher(g, x, t)
    ensures r.Ok?
    ensures forall x :: x in r.value <==> Below(g, id, x)
    decreases t
  {
    NotOnTrail(g, id, trail, t);
    if id in trail {
      assert false;
    }
    if Terminal(g, id) {
      TerminalWitness(g, id);
      return Ok({id});
    }
    var witnesses: set<Id> := {};
    var edges := g.nodes[id].edges;
    for i := 0 to |edges|
      invariant forall x :: x in witnesses <==> exists j :: 0 <= j < i && Below(g, edges[j].1, x)
    {
      ghost var child := t.children[i].tree;
      ChildLower(t, i, |t.children|);
      forall x | x in trail + {id} ensures DenotesHigher(g, x, child) {
        if x == id {
          assert Unfolds(g, x, t) && Height(t) > Height(child);
        } else {
          var s :| Unfolds(g, x, s) && Height(s) > Height(t);
        }
      }
      var below := LeafWitnesses(g, edges[i].1, trail + {id}, child);
      witnesses := witnesses + below.value;
    }
    forall x ensures x in witnesses <==> Below(g, id, x) {
      NodeWitness(g, id, x);
    }
    return Ok(witnesses);
  }

  lemma NotOnTrail(g: Graph, id: Id, trail: set<Id>, t: Tree)
    requires DistinctIds(g) && Unfolds(g, id, t)
    requires forall x | x in trail :: DenotesHigher(g, x, t)
    ensures id !in trail
  {
    if id in trail {
      var s :| Unfolds(g, id, s) && Height(s) > Height(t);
      UnfoldingUnique(g, id, s, t);
    }
  }

  lemma TerminalWitness(g: Graph, id: Id)
    requires DistinctIds(g) && Terminal(g, id)
    ensures forall x :: Below(g, id, x) <==> x == id
  {
    assert WitnessedBy(g, [id], id, id);
    forall path, x | WitnessedBy(g, path, id, x) ensures x == id {
      assert |path| > 1 ==> ChildOf(g, path[0], path[0 + 1]);
    }
  }

  lemma NodeWitness(g: Graph, id: Id, x: Id)
    requires DistinctIds(g) && id in g.nodes
    ensures Below(g, id, x) <==> exists j :: 0 <= j < |g.nodes[id].edges| && Below(g, g.nodes[id].edges[j].1, x)
  {
    var edges := g.nodes[id].edges;
    if Below(g, id, x) {
      var path :| WitnessedBy(g, path, id, x);
      assert |path| > 1;
      assert ChildOf(g, path[0], path[1]);
      var j :| 0 <= j < |edges| && edges[j].1 == path[1];
      var rest := path[1..];
      forall k | 0 <= k < |rest| - 1 ensures ChildOf(g, rest[k], rest[k + 1]) {
        assert ChildOf(g, path[k + 1], path[k + 2]);
      }
      assert WitnessedBy(g, rest, edges[j].1, x);
    }
    if j :| 0 <= j < |edges| && Below(g, edges[j].1, x) {
      var path :| WitnessedBy(g, path, edges[j].1, x);
      var longer := [id] + path;
      forall k | 0 <= k < |longer| - 1 ensures ChildOf(g, longer[k], longer[k + 1]) {
        if k > 0 {
          assert ChildOf(g, path[k - 1], path[k]);
        }
      }
      assert WitnessedBy(g, longer, id, x);
    }
  }
}
