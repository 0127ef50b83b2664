/** Content-addressed terms: unfolded trees, and references that ignore the order of edges. */
module TermModel {
  import opened Options

  type Id = nat
  type Role = nat
  type Ref = nat

  datatype Operator = EntityBundle | CoordAnd | CoordOr | Compound | Quantified | Unknown

  datatype Leaf = Leaf(kind: nat, canonical: nat)
  datatype Symbol = Symbol(namespace: nat, symbol: nat)

  /** What is hashed. The digest is an injective function on payloads of all kinds. */
  datatype Payload =
    | LeafPayload(leaf: Leaf)
    | SymbolPayload(symbol: Symbol)
    | TermPayload(operator: Operator, operatorRef: Option<Ref>, edges: seq<(Role, Ref)>)
    | ChargePayload(positive: bool, modalities: set<Ref>)
    | EventPayload(predicateRef: Ref, roles: seq<(Role, Ref)>, chargeRef: Ref, temporal: seq<(Ref, Ref)>,
                   properties: seq<(nat, nat)>)

  type Digest = Payload -> Ref

  ghost predicate Injective(digest: Digest) {
    forall a, b :: digest(a) == digest(b) ==> a == b
  }

  // ---- Sorting edges ---------------------------------------------------------------------------------

  predicate PairLeq(a: (nat, nat), b: (nat, nat)) {
    a.0 < b.0 || (a.0 == b.0 && a.1 <= b.1)
  }

  predicate PairsSorted(s: seq<(nat, nat)>) {
    forall i, j | 0 <= i < j < |s| :: PairLeq(s[i], s[j])
  }

  /** Sorted, and without repetitions. */
  predicate CanonicalPairs(s: seq<(nat, nat)>) {
    forall i, j | 0 <= i < j < |s| :: PairLeq(s[i], s[j]) && s[i] != s[j]
  }

  function Insert(s: seq<(nat, nat)>, x: (nat, nat)): (r: seq<(nat, nat)>)
    requires PairsSorted(s)
    ensures PairsSorted(r) && multiset(r) == multiset(s) + multiset{x}
  {
    if s == [] then [x]
    else if PairLeq(s[|s| - 1], x) then s + [x]
    else
      var r := Insert(s[..|s| - 1], x) + [s[|s| - 1]];
      assert s == s[..|s| - 1] + [s[|s| - 1]];
      assert PairsSorted(r) by {
        forall i | 0 <= i < |r| - 1 ensures PairLeq(r[i], s[|s| - 1]) {
          assert r[i] in multiset(Insert(s[..|s| - 1], x));
          assert r[i] == x || r[i] in multiset(s[..|s| - 1]);
        }
      }
      r
  }

  /** The canonical order of typed edges. */
  function SortPairs(s: seq<(nat, nat)>): (r: seq<(nat, nat)>)
    ensures PairsSorted(r) && multiset(r) == multiset(s)
  {
    if s == [] then []
    else
      assert s == s[..|s| - 1] + [s[|s| - 1]];
      Insert(SortPairs(s[..|s| - 1]), s[|s| - 1])
  }

  lemma SplitLast(s: seq<(nat, nat)>)
    requires s != []
    ensures multiset(s) == multiset(s[..|s| - 1]) + multiset{s[|s| - 1]}
  {
    assert s == s[..|s| - 1] + [s[|s| - 1]];
  }

  lemma MemberOfOther(a: seq<(nat, nat)>, b: seq<(nat, nat)>, i: nat) returns (j: nat)
    requires multiset(a) == multiset(b) && i < |a|
    ensures j < |b| && b[j] == a[i]
  {
    assert a[i] in multiset(b);
    j :| 0 <= j < |b| && b[j] == a[i];
  }

  lemma SameLength(a: seq<(nat, nat)>, b: seq<(nat, nat)>)
    requires multiset(a) == multiset(b)
    ensures |a| == |b|
  {
    assert |multiset(a)| == |a| && |multiset(b)| == |b|;
  }

  lemma LargestAgree(a: seq<(nat, nat)>, b: seq<(nat, nat)>)
    requires PairsSorted(a) && PairsSorted(b) && multiset(a) == multiset(b) && a != [] && b != []
    ensures a[|a| - 1] == b[|b| - 1]
  {
    var j := MemberOfOther(a, b, |a| - 1);
    var i := MemberOfOther(b, a, |b| - 1);
    assert j == |b| - 1 || PairLeq(b[j], b[|b| - 1]);
    assert i == |a| - 1 || PairLeq(a[i], a[|a| - 1]);
  }

  lemma FrontsAgree(a: seq<(nat, nat)>, b: seq<(nat, nat)>)
    requires multiset(a) == multiset(b) && a != [] && b != [] && a[|a| - 1] == b[|b| - 1]
    ensures multiset(a[..|a| - 1]) == multiset(b[..|b| - 1])
  {
    SplitLast(a);
    SplitLast(b);
    var x := a[|a| - 1];
    assert multiset(a[..|a| - 1]) == multiset(a) - multiset{x};
    assert multiset(b[..|b| - 1]) == multiset(b) - multiset{x};
  }

  lemma {:induction false} SortedUnique(a: seq<(nat, nat)>, b: seq<(nat, nat)>)
    requires PairsSorted(a) && PairsSorted(b) && multiset(a) == multiset(b)
    ensures a == b
  {
    SameLength(a, b);
    if a != [] {
      LargestAgree(a, b);
      FrontsAgree(a, b);
      SortedUnique(a[..|a| - 1], b[..|b| - 1]);
      assert a == a[..|a| - 1] + [a[|a| - 1]] && b == b[..|b| - 1] + [b[|b| - 1]];
    }
  }

  lemma SortIgnoresOrder(a: seq<(nat, nat)>, b: seq<(nat, nat)>)
    ensures SortPairs(a) == SortPairs(b) <==> multiset(a) == multiset(b)
  {
    if multiset(a) == multiset(b) {
      SortedUnique(SortPairs(a), SortPairs(b));
    }
  }

  // ---- Reorderings -----------------------------------------------------------------------------------

  /** `order` lists the indices below `n`, each once. */
  ghost predicate Reordering(order: seq<nat>, n: nat) {
    && |order| == n
    && (forall i | 0 <= i < n :: order[i] < n)
    && (forall i, j | 0 <= i < j < n :: order[i] != order[j])
  }

  /** `s` without its element `j`. */
  ghost function Dropped(s: seq<(nat, nat)>, j: nat): (r: seq<(nat, nat)>)
    requires j < |s|
    ensures |r| == |s| - 1
    ensures forall k | 0 <= k < |r| :: r[k] == if k < j then s[k] else s[k + 1]
  {
    s[..j] + s[j + 1..]
  }

  lemma DroppedMultiset(s: seq<(nat, nat)>, j: nat)
    requires j < |s|
    ensures multiset(Dropped(s, j)) == multiset(s) - multiset{s[j]}
    ensures multiset(s) == multiset(Dropped(s, j)) + multiset{s[j]}
  {
    assert s == s[..j] + [s[j]] + s[j + 1..];
  }

  /** Where index `x` lands when index `j` is dropped, and back. */
  function Lowered(x: nat, j: nat): nat {
    if x < j || x == 0 then x else x - 1
  }

  function Raised(x: nat, j: nat): nat {
    if x < j then x else x + 1
  }

  ghost predicate Reorders(a: seq<(nat, nat)>, b: seq<(nat, nat)>, order: seq<nat>) {
    |a| == |b| && Reordering(order, |a|) && forall i | 0 <= i < |a| :: a[i] == b[order[i]]
  }

  lemma RaiseOrder(a: seq<(nat, nat)>, b: seq<(nat, nat)>, j: nat, rest: seq<nat>) returns (order: seq<nat>)
    requires a != [] && j < |b| && b[j] == a[|a| - 1] && Reorders(Dropped(a, |a| - 1), Dropped(b, j), rest)
    ensures Reorders(a, b, order)
  {
    order := seq(|rest|, i requires 0 <= i < |rest| => Raised(rest[i], j)) + [j];
    forall i | 0 <= i < |a| ensures a[i] == b[order[i]] {
      if i < |a| - 1 {
        assert Dropped(a, |a| - 1)[i] == Dropped(b, j)[rest[i]];
      }
    }
  }

  lemma LowerOrder(a: seq<(nat, nat)>, b: seq<(nat, nat)>, order: seq<nat>) returns (rest: seq<nat>)
    requires a != [] && Reorders(a, b, order)
    ensures Reorders(Dropped(a, |a| - 1), Dropped(b, order[|a| - 1]), rest)
  {
    var n := |a| - 1;
    var j := order[n];
    rest := seq(n, i requires 0 <= i < n && i < |order| => Lowered(order[i], j));
    forall i | 0 <= i < n ensures Dropped(a, n)[i] == Dropped(b, j)[rest[i]] && order[i] != j && rest[i] < n {
      assert a[i] == b[order[i]];
    }
  }

  /** Equal multisets are reorderings of each other. */
  lemma {:induction false} MultisetsReorder(a: seq<(nat, nat)>, b: seq<(nat, nat)>) returns (order: seq<nat>)
    requires multiset(a) == multiset(b)
    ensures Reorders(a, b, order)
    decreases |a|
  {
    SameLength(a, b);
    if a == [] {
      return [];
    }
    var j := MemberOfOther(a, b, |a| - 1);
    DroppedMultiset(a, |a| - 1);
    DroppedMultiset(b, j);
    var rest := MultisetsReorder(Dropped(a, |a| - 1), Dropped(b, j));
    order := RaiseOrder(a, b, j, rest);
  }

  lemma {:induction false} ReorderedMultisets(a: seq<(nat, nat)>, b: seq<(nat, nat)>, order: seq<nat>)
    requires Reorders(a, b, order)
    ensures multiset(a) == multiset(b)
    decreases |a|
  {
    if a != [] {
      var n := |a| - 1;
      var rest := LowerOrder(a, b, order);
      ReorderedMultisets(Dropped(a, n), Dropped(b, order[n]), rest);
      DroppedMultiset(a, n);
      DroppedMultiset(b, order[n]);
    }
  }
}
