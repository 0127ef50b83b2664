/** When two events of an accepted graph share a reference: exactly when they state the same thing. */
module EventIdentity {
  import opened TermModel
  import opened TermTrees
  import opened Hypergraph
  import opened HypergraphContract

  /** Role `i` of `e` corresponds to role `order[i]` of `f`: the same name, the same term. */
  ghost predicate RolesMatch(trees: Trees, e: Event, f: Event, order: seq<nat>)
    requires TermsIn(trees, e) && TermsIn(trees, f)
  {
    && |e.roles| == |f.roles| && Reordering(order, |e.roles|)
    && forall i | 0 <= i < |e.roles| ::
         e.roles[i].0 == f.roles[order[i]].0 && SameTerm(trees[e.roles[i].1], trees[f.roles[order[i]].1])
  }

  /** Temporal modifier `i` of `e` corresponds to modifier `order[i]` of `f`: the same relation, the same term. */
  ghost predicate TemporalMatch(g: Graph, trees: Trees, e: Event, f: Event, order: seq<nat>)
    requires TermsIn(trees, e) && TermsIn(trees, f) && EventWellFormed(g, e) && EventWellFormed(g, f)
  {
    && |e.temporal| == |f.temporal| && Reordering(order, |e.temporal|)
    && forall i | 0 <= i < |e.temporal| ::
         && g.symbols[e.temporal[i].0] == g.symbols[f.temporal[order[i]].0]
         && SameTerm(trees[e.temporal[i].1], trees[f.temporal[order[i]].1])
  }

  /** The modalities an event has, however often and in whatever order it lists them. */
  ghost function Modalities(g: Graph, e: Event): set<Symbol>
    requires EventWellFormed(g, e)
  {
    set i | 0 <= i < |e.modalities| :: g.symbols[e.modalities[i]]
  }

  /** The same predicate, roles, polarity, modalities, temporal modifiers and properties. */
  ghost predicate SameEvent(g: Graph, trees: Trees, e: Event, f: Event)
    requires TermsIn(trees, e) && TermsIn(trees, f) && EventWellFormed(g, e) && EventWellFormed(g, f)
  {
    && g.symbols[e.predicateId] == g.symbols[f.predicateId]
    && (exists order :: RolesMatch(trees, e, f, order))
    && e.positive == f.positive
    && Modalities(g, e) == Modalities(g, f)
    && (exists order :: TemporalMatch(g, trees, e, f, order))
    && e.properties == f.properties
  }

  /** The terms an event names are unfolded. */
  ghost predicate TermsIn(trees: Trees, e: Event) {
    && (forall i | 0 <= i < |e.roles| :: e.roles[i].1 in trees)
    && forall i | 0 <= i < |e.temporal| :: e.temporal[i].1 in trees
  }

  /** The references of an event's parts are those of the symbols and terms it names. */
  ghost predicate PartsDenote(g: Graph, digest: Digest, refs: Refs, trees: Trees, e: Event) {
    && EventWellFormed(g, e) && TermsIn(trees, e) && NamesKnown(e, refs)
    && refs[e.predicateId] == digest(SymbolPayload(g.symbols[e.predicateId]))
    && (forall i | 0 <= i < |e.modalities| ::
          refs[e.modalities[i]] == digest(SymbolPayload(g.symbols[e.modalities[i]])))
    && (forall i | 0 <= i < |e.roles| :: refs[e.roles[i].1] == TreeRef(digest, trees[e.roles[i].1]))
    && forall i | 0 <= i < |e.temporal| ::
         && refs[e.temporal[i].0] == digest(SymbolPayload(g.symbols[e.temporal[i].0]))
         && refs[e.temporal[i].1] == TreeRef(digest, trees[e.temporal[i].1])
  }

  lemma SymbolDenotes(g: Graph, digest: Digest, refs: Refs, trees: Trees, id: Id)
    requires DistinctIds(g) && Accepted(g, digest, refs, trees) && id in g.symbols
    ensures id in refs && refs[id] == digest(SymbolPayload(g.symbols[id]))
  {
    assert Declared(g, id) && Unfolds(g, id, trees[id]);
  }

  lemma NamedDenotes(g: Graph, digest: Digest, refs: Refs, trees: Trees, k: nat, id: Id)
    requires Accepted(g, digest, refs, trees) && k < |g.events| && EventNames(g.events[k], id)
    ensures id in trees && id in refs && refs[id] == TreeRef(digest, trees[id])
  {
    ReachEvent(g, k, id);
    assert Declared(g, id);
  }

  lemma EventDenotes(g: Graph, digest: Digest, refs: Refs, trees: Trees, k: nat)
    requires DistinctIds(g) && Accepted(g, digest, refs, trees) && k < |g.events|
    ensures PartsDenote(g, digest, refs, trees, g.events[k])
    ensures Filed(digest, g.events[k], refs)
  {
    var e := g.events[k];
    assert EventDone(g, digest, refs, e);
    SymbolDenotes(g, digest, refs, trees, e.predicateId);
    forall i | 0 <= i < |e.roles|
      ensures e.roles[i].1 in trees && refs[e.roles[i].1] == TreeRef(digest, trees[e.roles[i].1])
    {
      NamedDenotes(g, digest, refs, trees, k, e.roles[i].1);
    }
    forall i | 0 <= i < |e.modalities|
      ensures refs[e.modalities[i]] == digest(SymbolPayload(g.symbols[e.modalities[i]]))
    {
      SymbolDenotes(g, digest, refs, trees, e.modalities[i]);
    }
    forall i | 0 <= i < |e.temporal|
      ensures refs[e.temporal[i].0] == digest(SymbolPayload(g.symbols[e.temporal[i].0]))
      ensures e.temporal[i].1 in trees && refs[e.temporal[i].1] == TreeRef(digest, trees[e.temporal[i].1])
    {
      SymbolDenotes(g, digest, refs, trees, e.temporal[i].0);
      NamedDenotes(g, digest, refs, trees, k, e.temporal[i].1);
    }
  }

  /** Sorting forgets exactly the order. */
  lemma SortedAlike(a: seq<(nat, nat)>, b: seq<(nat, nat)>)
    ensures SortPairs(a) == SortPairs(b) <==> exists order :: Reorders(a, b, order)
  {
    SortIgnoresOrder(a, b);
    if multiset(a) == multiset(b) {
      var order := MultisetsReorder(a, b);
    }
    if order :| Reorders(a, b, order) {
      ReorderedMultisets(a, b, order);
    }
  }

  lemma SymbolsFaithful(digest: Digest, a: Symbol, b: Symbol)
    requires Injective(digest)
    ensures digest(SymbolPayload(a)) == digest(SymbolPayload(b)) <==> a == b
  {
    if digest(SymbolPayload(a)) == digest(SymbolPayload(b)) {
      assert SymbolPayload(a) == SymbolPayload(b);
    }
  }

  lemma RolesFaithful(g: Graph, digest: Digest, refs: Refs, trees: Trees, e: Event, f: Event, order: seq<nat>)
    requires Injective(digest)
    requires PartsDenote(g, digest, refs, trees, e) && PartsDenote(g, digest, refs, trees, f)
    ensures Reorders(RefPairs(e.roles, refs), RefPairs(f.roles, refs), order) <==> RolesMatch(trees, e, f, order)
  {
    var a, b := RefPairs(e.roles, refs), RefPairs(f.roles, refs);
    if |e.roles| == |f.roles| && Reordering(order, |e.roles|) {
      forall i | 0 <= i < |e.roles|
        ensures a[i] == b[order[i]] <==>
                e.roles[i].0 == f.roles[order[i]].0 && SameTerm(trees[e.roles[i].1], trees[f.roles[order[i]].1])
      {
        ReferenceFaithful(digest, trees[e.roles[i].1], trees[f.roles[order[i]].1]);
      }
    }
  }

  lemma TemporalFaithful(g: Graph, digest: Digest, refs: Refs, trees: Trees, e: Event, f: Event, order: seq<nat>)
    requires Injective(digest)
    requires PartsDenote(g, digest, refs, trees, e) && PartsDenote(g, digest, refs, trees, f)
    ensures Reorders(TemporalRefs(e.temporal, refs), TemporalRefs(f.temporal, refs), order)
            <==> TemporalMatch(g, trees, e, f, order)
  {
    var a, b := TemporalRefs(e.temporal, refs), TemporalRefs(f.temporal, refs);
    if |e.temporal| == |f.temporal| && Reordering(order, |e.temporal|) {
      forall i | 0 <= i < |e.temporal|
        ensures a[i] == b[order[i]] <==>
                && g.symbols[e.temporal[i].0] == g.symbols[f.temporal[order[i]].0]
                && SameTerm(trees[e.temporal[i].1], trees[f.temporal[order[i]].1])
      {
        SymbolsFaithful(digest, g.symbols[e.temporal[i].0], g.symbols[f.temporal[order[i]].0]);
        ReferenceFaithful(digest, trees[e.temporal[i].1], trees[f.temporal[order[i]].1]);
      }
    }
  }

  lemma ModalitySubset(g: Graph, digest: Digest, refs: Refs, trees: Trees, e: Event, f: Event)
    requires Injective(digest)
    requires PartsDenote(g, digest, refs, trees, e) && PartsDenote(g, digest, refs, trees, f)
    ensures ModalityRefs(e.modalities, refs) <= ModalityRefs(f.modalities, refs)
            <==> Modalities(g, e) <= Modalities(g, f)
  {
    var a, b := ModalityRefs(e.modalities, refs), ModalityRefs(f.modalities, refs);
    forall i, j | 0 <= i < |e.modalities| && 0 <= j < |f.modalities|
      ensures refs[e.modalities[i]] == refs[f.modalities[j]]
              <==> g.symbols[e.modalities[i]] == g.symbols[f.modalities[j]]
    {
      SymbolsFaithful(digest, g.symbols[e.modalities[i]], g.symbols[f.modalities[j]]);
    }
    if a <= b {
      forall i | 0 <= i < |e.modalities| ensures g.symbols[e.modalities[i]] in Modalities(g, f) {
        assert refs[e.modalities[i]] in a;
        var j :| 0 <= j < |f.modalities| && refs[f.modalities[j]] == refs[e.modalities[i]];
      }
    }
    if Modalities(g, e) <= Modalities(g, f) {
      forall i | 0 <= i < |e.modalities| ensures refs[e.modalities[i]] in b {
        assert g.symbols[e.modalities[i]] in Modalities(g, e);
        var j :| 0 <= j < |f.modalities| && g.symbols[f.modalities[j]] == g.symbols[e.modalities[i]];
      }
    }
  }

  lemma ModalitiesFaithful(g: Graph, digest: Digest, refs: Refs, trees: Trees, e: Event, f: Event)
    requires Injective(digest)
    requires PartsDenote(g, digest, refs, trees, e) && PartsDenote(g, digest, refs, trees, f)
    ensures ModalityRefs(e.modalities, refs) == ModalityRefs(f.modalities, refs)
            <==> Modalities(g, e) == Modalities(g, f)
  {
    ModalitySubset(g, digest, refs, trees, e, f);
    ModalitySubset(g, digest, refs, trees, f, e);
  }

  lemma ChargesFaithful(digest: Digest, p: bool, a: set<Ref>, q: bool, b: set<Ref>)
    requires Injective(digest)
    ensures digest(ChargePayload(p, a)) == digest(ChargePayload(q, b)) <==> p == q && a == b
  {
    if digest(ChargePayload(p, a)) == digest(ChargePayload(q, b)) {
      assert ChargePayload(p, a) == ChargePayload(q, b);
    }
  }

  lemma RolesPart(g: Graph, digest: Digest, refs: Refs, trees: Trees, e: Event, f: Event)
    requires Injective(digest)
    requires PartsDenote(g, digest, refs, trees, e) && PartsDenote(g, digest, refs, trees, f)
    ensures SortPairs(RefPairs(e.roles, refs)) == SortPairs(RefPairs(f.roles, refs))
            <==> exists order :: RolesMatch(trees, e, f, order)
  {
    SortedAlike(RefPairs(e.roles, refs), RefPairs(f.roles, refs));
    forall order ensures Reorders(RefPairs(e.roles, refs), RefPairs(f.roles, refs), order)
        <==> RolesMatch(trees, e, f, order)
    {
      RolesFaithful(g, digest, refs, trees, e, f, order);
    }
  }

  lemma TemporalPart(g: Graph, digest: Digest, refs: Refs, trees: Trees, e: Event, f: Event)
    requires Injective(digest)
    requires PartsDenote(g, digest, refs, trees, e) && PartsDenote(g, digest, refs, trees, f)
    ensures SortPairs(TemporalRefs(e.temporal, refs)) == SortPairs(TemporalRefs(f.temporal, refs))
            <==> exists order :: TemporalMatch(g, trees, e, f, order)
  {
    SortedAlike(TemporalRefs(e.temporal, refs), TemporalRefs(f.temporal, refs));
    forall order ensures Reorders(TemporalRefs(e.temporal, refs), TemporalRefs(f.temporal, refs), order)
        <==> TemporalMatch(g, trees, e, f, order)
    {
      TemporalFaithful(g, digest, refs, trees, e, f, order);
    }
  }

  lemma PartsFaithful(g: Graph, digest: Digest, refs: Refs, trees: Trees, e: Event, f: Event)
    requires Injective(digest)
    requires PartsDenote(g, digest, refs, trees, e) && PartsDenote(g, digest, refs, trees, f)
    ensures PayloadOf(digest, e, refs) == PayloadOf(digest, f, refs) <==> SameEvent(g, trees, e, f)
  {
    SymbolsFaithful(digest, g.symbols[e.predicateId], g.symbols[f.predicateId]);
    RolesPart(g, digest, refs, trees, e, f);
    TemporalPart(g, digest, refs, trees, e, f);
    ModalitiesFaithful(g, digest, refs, trees, e, f);
    ChargesFaithful(digest, e.positive, ModalityRefs(e.modalities, refs), f.positive,
                    ModalityRefs(f.modalities, refs));
    hide RolesMatch, TemporalMatch, Modalities, SortPairs, RefPairs, TemporalRefs, ModalityRefs, Injective;
  }

  /** In an accepted graph two events share a reference exactly when they state the same thing. */
  lemma EventsFaithful(g: Graph, digest: Digest, refs: Refs, trees: Trees, i: nat, j: nat)
    requires DistinctIds(g) && Injective(digest) && Accepted(g, digest, refs, trees)
    requires i < |g.events| && j < |g.events|
    ensures EventWellFormed(g, g.events[i]) && EventWellFormed(g, g.events[j])
    ensures TermsIn(trees, g.events[i]) && TermsIn(trees, g.events[j])
    ensures g.events[i].id in refs && g.events[j].id in refs
    ensures refs[g.events[i].id] == refs[g.events[j].id] <==> SameEvent(g, trees, g.events[i], g.events[j])
  {
    var e, f := g.events[i], g.events[j];
    EventDenotes(g, digest, refs, trees, i);
    EventDenotes(g, digest, refs, trees, j);
    PartsFaithful(g, digest, refs, trees, e, f);
    if refs[e.id] == refs[f.id] {
      assert digest(PayloadOf(digest, e, refs)) == digest(PayloadOf(digest, f, refs));
    }
  }

  lemma TermIsNoEvent(digest: Digest, t: Tree, payload: Payload)
    requires Injective(digest) && payload.EventPayload?
    ensures TreeRef(digest, t) != digest(payload)
  {
    var hashed := match t
      case LeafTree(leaf) => LeafPayload(leaf)
      case SymbolTree(symbol) => SymbolPayload(symbol)
      case NodeTree(operator, symbol, children) =>
        TermPayload(operator, OperatorRef(digest, symbol), SortPairs(EdgeRefs(digest, t, |children|)));
    assert TreeRef(digest, t) == digest(hashed);
    assert hashed != payload;
  }

  /** No event shares its reference with a leaf, a symbol or a node. */
  lemma EventsApart(g: Graph, digest: Digest, refs: Refs, trees: Trees, i: nat, id: Id)
    requires DistinctIds(g) && Injective(digest) && Accepted(g, digest, refs, trees)
    requires i < |g.events| && Declared(g, id)
    ensures g.events[i].id in refs && id in refs && refs[g.events[i].id] != refs[id]
  {
    EventDenotes(g, digest, refs, trees, i);
    assert id in trees && refs[id] == TreeRef(digest, trees[id]);
    TermIsNoEvent(digest, trees[id], PayloadOf(digest, g.events[i], refs));
  }
}
