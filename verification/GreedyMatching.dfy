/** Greedy one-to-one pairing of isomorphic readings, and why it is a maximum matching. */
module GreedyMatching {

  type Reading = nat
  type Relation = (Reading, Reading) -> bool

  ghost predicate Equivalence(iso: Relation) {
    && (forall a :: iso(a, a))
    && (forall a, b :: iso(a, b) ==> iso(b, a))
    && (forall a, b, c :: iso(a, b) && iso(b, c) ==> iso(a, c))
  }

  /** A pairing of left positions with right positions: isomorphic, and one to one. */
  ghost predicate Matching(left: seq<Reading>, right: seq<Reading>, iso: Relation, m: map<int, int>) {
    && (forall l | l in m :: 0 <= l < |left| && 0 <= m[l] < |right| && iso(left[l], right[m[l]]))
    && (forall k, l | k in m && l in m && m[k] == m[l] :: k == l)
  }

  ghost predicate Taken(m: map<int, int>, r: int) {
    exists k :: k in m && m[k] == r
  }

  /** Every reading on the right that is isomorphic to this one is taken. */
  ghost predicate NoneLeft(right: seq<Reading>, iso: Relation, m: map<int, int>, reading: Reading) {
    forall r | 0 <= r < |right| && iso(reading, right[r]) :: Taken(m, r)
  }

  /** What the greedy pass leaves: an unmatched left reading finds every isomorphic right one taken. */
  ghost predicate Exhausted(left: seq<Reading>, right: seq<Reading>, iso: Relation, m: map<int, int>, upTo: nat)
    requires upTo <= |left|
  {
    forall l | 0 <= l < upTo && l !in m :: NoneLeft(right, iso, m, left[l])
  }

  /** The state of the greedy pass after some left readings. */
  ghost predicate Greedy(left: seq<Reading>, right: seq<Reading>, iso: Relation, m: map<int, int>,
                         matched: nat, consumedRight: set<int>, upTo: nat)
    requires upTo <= |left|
  {
    && Matching(left, right, iso, m) && |m| == matched
    && (forall l | l in m :: l < upTo)
    && (forall r :: r in consumedRight <==> Taken(m, r))
    && Exhausted(left, right, iso, m, upTo)
  }

  /** The inner loop: the first unconsumed right reading isomorphic to this one. */
  method FirstUnconsumed(right: seq<Reading>, iso: Relation, reading: Reading, consumedRight: set<int>)
    returns (index: nat)
    ensures index <= |right|
    ensures index < |right| ==> index !in consumedRight && iso(reading, right[index])
    ensures forall r | 0 <= r < index && iso(reading, right[r]) :: r in consumedRight
  {
    index := 0;
    while index < |right|
      invariant index <= |right|
      invariant forall r | 0 <= r < index && iso(reading, right[r]) :: r in consumedRight
    {
      if index !in consumedRight && iso(reading, right[index]) {
        return;
      }
      index := index + 1;
    }
  }

  method SharedIsomorphicCount(left: seq<Reading>, right: seq<Reading>, iso: Relation) returns (matched: nat)
    ensures exists m :: Matching(left, right, iso, m) && |m| == matched
    ensures Equivalence(iso) ==> forall m | Matching(left, right, iso, m) :: |m| <= matched
  {
    matched := 0;
    var consumedRight: set<int> := {};
    ghost var m: map<int, int> := map[];
    for i := 0 to |left|
      invariant Greedy(left, right, iso, m, matched, consumedRight, i)
    {
      var index := FirstUnconsumed(right, iso, left[i], consumedRight);
      if index < |right| {
        PairUp(left, right, iso, m, matched, consumedRight, i, index);
        m := m[i := index];
        matched := matched + 1;
        consumedRight := consumedRight + {index};
      }
    }
    GreedyDone(left, right, iso, m, matched, consumedRight);
  }

  lemma PairUp(left: seq<Reading>, right: seq<Reading>, iso: Relation, m: map<int, int>,
               matched: nat, consumedRight: set<int>, i: nat, r: nat)
    requires i < |left| && Greedy(left, right, iso, m, matched, consumedRight, i)
    requires r < |right| && r !in consumedRight && iso(left[i], right[r])
    ensures Greedy(left, right, iso, m[i := r], matched + 1, consumedRight + {r}, i + 1)
  {
    var more := m[i := r];
    assert more.Keys == m.Keys + {i};
    TakenGrows(m, i, r);
    forall l | 0 <= l < i + 1 && l !in more ensures NoneLeft(right, iso, more, left[l]) {
      assert NoneLeft(right, iso, m, left[l]);
    }
  }

  lemma TakenGrows(m: map<int, int>, l: int, r: int)
    requires l !in m
    ensures forall v :: Taken(m[l := r], v) <==> Taken(m, v) || v == r
  {
    var more := m[l := r];
    forall v ensures Taken(more, v) <==> Taken(m, v) || v == r {
      if Taken(m, v) {
        var k :| k in m && m[k] == v;
        assert k in more && more[k] == v;
      }
      assert l in more && more[l] == r;
    }
  }

  // ---------------------------------------------------------------- the exchange argument

  /** A class is saturated when one of its left readings went unmatched. */
  ghost predicate Saturated(left: seq<Reading>, iso: Relation, m: map<int, int>, l: int)
    requires 0 <= l < |left|
  {
    exists k :: 0 <= k < |left| && k !in m && iso(left[l], left[k])
  }

  ghost function Partner(m: map<int, int>, r: int): int {
    if Taken(m, r) then var k :| k in m && m[k] == r; k else 0
  }

  /** Where a position of another matching goes in the greedy one: to itself while its class is served, and
      otherwise to the position that took its partner. */
  ghost function Exchange(left: seq<Reading>, iso: Relation, m: map<int, int>, l: int, r: int): int
    requires 0 <= l < |left|
  {
    if Saturated(left, iso, m, l) then Partner(m, r) else l
  }

  lemma ExchangeInjective(left: seq<Reading>, right: seq<Reading>, iso: Relation, m: map<int, int>,
                          other: map<int, int>, a: int, b: int)
    requires Equivalence(iso)
    requires Matching(left, right, iso, m) && Exhausted(left, right, iso, m, |left|)
    requires Matching(left, right, iso, other) && a in other && b in other
    requires Exchange(left, iso, m, a, other[a]) == Exchange(left, iso, m, b, other[b])
    ensures a == b
  {
    var k := Exchange(left, iso, m, a, other[a]);
  }

  lemma {:induction false} InjectiveSize(f: map<int, int>, some: set<nat>, target: set<int>)
    requires forall l | l in some :: l in f && f[l] in target
    requires forall a, b | a in f && b in f && f[a] == f[b] :: a == b
    ensures |some| <= |target|
    decreases |some|
  {
    if some != {} {
      var l :| l in some;
      InjectiveSize(f, some - {l}, target - {f[l]});
    }
  }

  /** Greedy pairing is a maximum matching: any other matching maps injectively into it. */
  lemma GreedyIsMaximum(left: seq<Reading>, right: seq<Reading>, iso: Relation, m: map<int, int>,
                        other: map<int, int>)
    requires Equivalence(iso)
    requires Matching(left, right, iso, m) && Exhausted(left, right, iso, m, |left|)
    requires Matching(left, right, iso, other)
    ensures |other| <= |m|
  {
    var f := map l | l in other :: Exchange(left, iso, m, l, other[l]);
    forall l | l in f ensures f[l] in m.Keys {}
    forall a, b | a in f && b in f && f[a] == f[b] ensures a == b {
      ExchangeInjective(left, right, iso, m, other, a, b);
    }
    assert f.Keys == other.Keys;
    InjectiveSize(f, f.Keys, m.Keys);
  }

  lemma GreedyDone(left: seq<Reading>, right: seq<Reading>, iso: Relation, m: map<int, int>, matched: nat,
                   consumedRight: set<int>)
    requires Greedy(left, right, iso, m, matched, consumedRight, |left|)
    ensures exists m :: Matching(left, right, iso, m) && |m| == matched
    ensures Equivalence(iso) ==> forall other | Matching(left, right, iso, other) :: |other| <= matched
  {
    if Equivalence(iso) {
      forall other | Matching(left, right, iso, other) ensures |other| <= matched {
        GreedyIsMaximum(left, right, iso, m, other);
      }
    }
  }
}
