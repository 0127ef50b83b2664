/** Unfolded terms, equality up to reordering of typed edges, and the faithfulness of references. */
module TermTrees {
  import opened Options
  import opened TermModel

  datatype Tree =
    | LeafTree(leaf: Leaf)
    | SymbolTree(symbol: Symbol)
    | NodeTree(operator: Operator, operatorSymbol: Option<Symbol>, children: seq<Child>)

  datatype Child = Child(role: Role, tree: Tree)

  function OperatorRef(digest: Digest, s: Option<Symbol>): Option<Ref> {
    if s.Some? then Some(digest(SymbolPayload(s.value))) else None
  }

  /** The semantic reference of a term: a digest over its operator and its sorted edges. */
  function TreeRef(digest: Digest, t: Tree): Ref
    decreases t, 0
  {
    match t
    case LeafTree(leaf) => digest(LeafPayload(leaf))
    case SymbolTree(symbol) => digest(SymbolPayload(symbol))
    case NodeTree(operator, symbol, children) =>
      digest(TermPayload(operator, OperatorRef(digest, symbol), SortPairs(EdgeRefs(digest, t, |children|))))
  }

  /** The typed references of the first `k` children. */
  function EdgeRefs(digest: Digest, t: Tree, k: nat): seq<(Role, Ref)>
    requires t.NodeTree? && k <= |t.children|
    decreases t, 0, k
  {
    if k == 0 then []
    else EdgeRefs(digest, t, k - 1) + [(t.children[k - 1].role, TreeRef(digest, t.children[k - 1].tree))]
  }

  lemma {:induction false} EdgeRefsAt(digest: Digest, t: Tree, k: nat)
    requires t.NodeTree? && k <= |t.children|
    ensures |EdgeRefs(digest, t, k)| == k
    ensures forall i | 0 <= i < k ::
            EdgeRefs(digest, t, k)[i] == (t.children[i].role, TreeRef(digest, t.children[i].tree))
  {
    if k > 0 {
      EdgeRefsAt(digest, t, k - 1);
    }
  }

  /** The same term, up to the order of typed edges at every node. */
  ghost predicate SameTerm(a: Tree, b: Tree)
    decreases a, 1
  {
    match a
    case LeafTree(leaf) => b == a
    case SymbolTree(symbol) => b == a
    case NodeTree(operator, symbol, children) =>
      && b.NodeTree? && b.operator == operator && b.operatorSymbol == symbol
      && exists order :: MatchedBy(a, b, order)
  }

  /** Child `i` of `a` corresponds to child `order[i]` of `b`. */
  ghost predicate MatchedBy(a: Tree, b: Tree, order: seq<nat>)
    requires a.NodeTree? && b.NodeTree?
    decreases a, 0
  {
    && |a.children| == |b.children| && Reordering(order, |a.children|)
    && forall i | 0 <= i < |a.children| ::
         && a.children[i].role == b.children[order[i]].role
         && SameTerm(a.children[i].tree, b.children[order[i]].tree)
  }

  /** References are faithful: equal exactly for equal terms. */
  lemma {:induction false} ReferenceFaithful(digest: Digest, a: Tree, b: Tree)
    requires Injective(digest)
    ensures TreeRef(digest, a) == TreeRef(digest, b) <==> SameTerm(a, b)
    decreases a, 1
  {
    if a.NodeTree? && b.NodeTree? {
      if TreeRef(digest, a) == TreeRef(digest, b) {
        EqualRefsMatch(digest, a, b);
      }
      if SameTerm(a, b) {
        MatchedRefsEqual(digest, a, b);
      }
    }
  }

  lemma EqualRefsParts(digest: Digest, a: Tree, b: Tree)
    requires Injective(digest) && a.NodeTree? && b.NodeTree?
    requires TreeRef(digest, a) == TreeRef(digest, b)
    ensures a.operator == b.operator && a.operatorSymbol == b.operatorSymbol
    ensures multiset(EdgeRefs(digest, a, |a.children|)) == multiset(EdgeRefs(digest, b, |b.children|))
  {
    var ra, rb := EdgeRefs(digest, a, |a.children|), EdgeRefs(digest, b, |b.children|);
    var pa := TermPayload(a.operator, OperatorRef(digest, a.operatorSymbol), SortPairs(ra));
    var pb := TermPayload(b.operator, OperatorRef(digest, b.operatorSymbol), SortPairs(rb));
    assert digest(pa) == digest(pb);
    assert pa == pb;
    SortIgnoresOrder(ra, rb);
    if a.operatorSymbol.Some? && b.operatorSymbol.Some? {
      assert SymbolPayload(a.operatorSymbol.value) == SymbolPayload(b.operatorSymbol.value);
    }
  }

  lemma {:induction false} EqualRefsMatch(digest: Digest, a: Tree, b: Tree)
    requires Injective(digest) && a.NodeTree? && b.NodeTree?
    requires TreeRef(digest, a) == TreeRef(digest, b)
    ensures SameTerm(a, b)
    decreases a, 0
  {
    var ra, rb := EdgeRefs(digest, a, |a.children|), EdgeRefs(digest, b, |b.children|);
    EdgeRefsAt(digest, a, |a.children|);
    EdgeRefsAt(digest, b, |b.children|);
    EqualRefsParts(digest, a, b);
    var order := MultisetsReorder(ra, rb);
    forall i | 0 <= i < |a.children|
      ensures a.children[i].role == b.children[order[i]].role
      ensures SameTerm(a.children[i].tree, b.children[order[i]].tree)
    {
      assert ra[i] == rb[order[i]];
      ReferenceFaithful(digest, a.children[i].tree, b.children[order[i]].tree);
    }
    assert MatchedBy(a, b, order);
  }

  lemma {:induction false} MatchedRefsEqual(digest: Digest, a: Tree, b: Tree)
    requires Injective(digest) && a.NodeTree? && b.NodeTree? && SameTerm(a, b)
    ensures TreeRef(digest, a) == TreeRef(digest, b)
    decreases a, 0
  {
    var ra, rb := EdgeRefs(digest, a, |a.children|), EdgeRefs(digest, b, |b.children|);
    EdgeRefsAt(digest, a, |a.children|);
    EdgeRefsAt(digest, b, |b.children|);
    var order :| MatchedBy(a, b, order);
    forall i | 0 <= i < |ra| ensures ra[i] == rb[order[i]] {
      ReferenceFaithful(digest, a.children[i].tree, b.children[order[i]].tree);
    }
    ReorderedMultisets(ra, rb, order);
    SortIgnoresOrder(ra, rb);
  }
}
