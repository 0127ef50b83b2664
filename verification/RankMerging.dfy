/** Merging rankings: a protected prefix with a bounded reserve, and reciprocal rank fusion. */
module RankMerging {
  import opened Filtering
  import opened Order

  datatype Merged = Invalid | Ranking(ids: seq<nat>)

  function Elements(s: seq<nat>): set<nat> {
    set x | x in s
  }

  function Min(a: int, b: int): int {
    if a < b then a else b
  }

  // ---------------------------------------------------------------- protected merge

  predicate FittingReserve(primary: seq<nat>, reserveOrder: seq<nat>, quota: int, reserve: int) {
    1 <= quota && 0 <= reserve < quota && NoDuplicates(primary) && NoDuplicates(reserveOrder)
  }

  /** The primary ids that are protected. */
  function Protected(primary: seq<nat>, quota: int, reserve: int): seq<nat>
    requires 0 <= reserve < quota
  {
    primary[..Min(quota - reserve, |primary|)]
  }

  /** The reserve ids that are not protected already. */
  function Newcomers(primary: seq<nat>, reserveOrder: seq<nat>, quota: int, reserve: int): seq<nat>
    requires 0 <= reserve < quota
  {
    Without(reserveOrder, Elements(Protected(primary, quota, reserve)))
  }

  /** Nothing is lost or doubled; the protected ids come first, then as many newcomers as fit the quota, in
      their order, and at least the reserve of them when there are that many; then what is left of the primary
      list and of the reserve list, each in its order. */
  ghost predicate Protects(primary: seq<nat>, reserveOrder: seq<nat>, quota: int, reserve: int, r: seq<nat>)
    requires 0 <= reserve < quota
  {
    && NoDuplicates(r)
    && (forall x :: x in r <==> x in primary || x in reserveOrder)
    && var head, newcomers := Protected(primary, quota, reserve), Newcomers(primary, reserveOrder, quota, reserve);
       var m := Min(|newcomers|, quota - |head|);
       && Min(reserve, |newcomers|) <= m
       && r == Refilled(head + newcomers[..m], primary, reserveOrder)
  }

  /** The first ids, then the other primary ones, then the other reserve ones. */
  function Refilled(first: seq<nat>, primary: seq<nat>, reserveOrder: seq<nat>): seq<nat> {
    first + Without(primary, Elements(first)) + Without(reserveOrder, Elements(first) + Elements(primary))
  }

  method AppendMissing(result: seq<nat>, order: seq<nat>) returns (more: seq<nat>)
    requires NoDuplicates(result) && NoDuplicates(order)
    ensures result <= more && NoDuplicates(more)
    ensures forall x :: x in more <==> x in result || x in order
    ensures more == result + Without(order, Elements(result))
  {
    more := result;
    for i := 0 to |order|
      invariant NoDuplicates(more) && more == result + Kept(order, Elements(result), i)
      invariant forall x :: x in more <==> x in result || x in order[..i]
    {
      PrefixStep(order, i);
      assert order[i] !in order[..i];
      if order[i] !in more {
        more := more + [order[i]];
      }
    }
  }

  method ProtectedRankMerge(primary: seq<nat>, reserveOrder: seq<nat>, quota: int, reserve: int)
    returns (merged: Merged)
    ensures merged.Ranking? <==> FittingReserve(primary, reserveOrder, quota, reserve)
    ensures merged.Ranking? ==> Protects(primary, reserveOrder, quota, reserve, merged.ids)
  {
    if !FittingReserve(primary, reserveOrder, quota, reserve) {
      return Invalid;
    }
    var primaryWidth := quota - reserve;
    var result := if primaryWidth < |primary| then primary[..primaryWidth] else primary;
    ghost var head, dropped := Protected(primary, quota, reserve), Elements(Protected(primary, quota, reserve));
    assert result == head;
    var i := 0;
    while i < |reserveOrder| && |result| < quota
      invariant i <= |reserveOrder| && |result| <= quota
      invariant result == head + Kept(reserveOrder, dropped, i)
      invariant NoDuplicates(result)
      invariant forall x | x in result :: x in primary || x in reserveOrder
    {
      KeptMembers(reserveOrder, dropped, i, reserveOrder[i]);
      assert reserveOrder[i] !in reserveOrder[..i];
      if reserveOrder[i] !in result {
        result := result + [reserveOrder[i]];
      }
      i := i + 1;
    }
    FilledReserve(primary, reserveOrder, quota, reserve, i);
    var all := Refill(result, primary, reserveOrder);
    merged := Ranking(all);
  }

  method Refill(first: seq<nat>, primary: seq<nat>, reserveOrder: seq<nat>) returns (all: seq<nat>)
    requires NoDuplicates(first) && NoDuplicates(primary) && NoDuplicates(reserveOrder)
    ensures all == Refilled(first, primary, reserveOrder) && NoDuplicates(all)
    ensures forall x :: x in all <==> x in first || x in primary || x in reserveOrder
  {
    var some := AppendMissing(first, primary);
    all := AppendMissing(some, reserveOrder);
    assert Elements(some) == Elements(first) + Elements(primary);
  }

  /** Where the reserve loop stops: the quota is full or every newcomer is in. */
  lemma FilledReserve(primary: seq<nat>, reserveOrder: seq<nat>, quota: int, reserve: int, i: nat)
    requires 0 <= reserve < quota && i <= |reserveOrder|
    requires var head := Protected(primary, quota, reserve);
             var taken := Kept(reserveOrder, Elements(head), i);
             |head| + |taken| <= quota && (i == |reserveOrder| || |head| + |taken| >= quota)
    ensures var head, newcomers := Protected(primary, quota, reserve), Newcomers(primary, reserveOrder, quota, reserve);
            var m := Min(|newcomers|, quota - |head|);
            Min(reserve, |newcomers|) <= m && Kept(reserveOrder, Elements(head), i) == newcomers[..m]
  {
    KeptPrefix(reserveOrder, Elements(Protected(primary, quota, reserve)), i, |reserveOrder|);
  }

  // ---------------------------------------------------------------- sorting a set by a key

  type Precedence = (nat, nat) -> bool

  ghost predicate StrictOrder(before: Precedence) {
    && (forall u, v :: (u == v || before(u, v) || before(v, u)) && !(before(u, v) && before(v, u)))
    && (forall u, v, w :: before(u, v) && before(v, w) ==> before(u, w))
  }

  predicate IsFirst(before: Precedence, ids: set<nat>, u: nat) {
    u in ids && forall v | v in ids :: v == u || before(u, v)
  }

  lemma {:induction false} FirstExists(before: Precedence, ids: set<nat>)
    requires StrictOrder(before) && ids != {}
    ensures exists u :: IsFirst(before, ids, u)
    decreases |ids|
  {
    var x :| x in ids;
    var rest := ids - {x};
    if rest == {} {
      assert ids == rest + {x};
      assert IsFirst(before, ids, x);
    } else {
      FirstExists(before, rest);
      var u :| IsFirst(before, rest, u);
      var first := if before(x, u) then x else u;
      forall v | v in ids ensures v == first || before(first, v) {
        assert v == x || v in rest;
      }
      assert IsFirst(before, ids, first);
    }
  }

  /** These ids, each once, every one before the later ones. */
  ghost predicate IsSorting(before: Precedence, ids: set<nat>, r: seq<nat>) {
    && (forall x :: x in r <==> x in ids)
    && (forall i, j | 0 <= i < j < |r| :: r[i] != r[j] && before(r[i], r[j]))
  }

  function SortBy(before: Precedence, ids: set<nat>): (r: seq<nat>)
    requires StrictOrder(before)
    ensures IsSorting(before, ids, r)
    decreases |ids|
  {
    if ids == {} then []
    else
      FirstExists(before, ids);
      var u :| IsFirst(before, ids, u);
      [u] + SortBy(before, ids - {u})
  }

  // ---------------------------------------------------------------- reciprocal rank fusion

  const SENTINEL: nat := 1_000_000_000_000_000_000

  /** Rank, counted from one, of an id in a ranking that lists it from position i on. */
  function RankFrom(order: seq<nat>, v: nat, i: nat): (rank: nat)
    requires i <= |order| && v in order[i..]
    ensures i < rank <= |order| && order[rank - 1] == v
    decreases |order| - i
  {
    if order[i] == v then i + 1 else RankFrom(order, v, i + 1)
  }

  function Rank(order: seq<nat>, v: nat): (rank: nat)
    requires v in order
    ensures 0 < rank <= |order| && order[rank - 1] == v
  {
    RankFrom(order, v, 0)
  }

  function Contribution(k: nat, rank: nat): real
    requires 0 < rank
  {
    1.0 / (k + rank) as real
  }

  function Part(k: nat, order: seq<nat>, v: nat): real {
    if v in order then Contribution(k, Rank(order, v)) else 0.0
  }

  /** The reciprocal-rank score over the first n rankings. */
  function Score(orders: seq<seq<nat>>, k: nat, v: nat, n: nat): real
    requires n <= |orders|
  {
    if n == 0 then 0.0 else Score(orders, k, v, n - 1) + Part(k, orders[n - 1], v)
  }

  function RankOrSentinel(order: seq<nat>, v: nat): nat {
    if v in order then Rank(order, v) else SENTINEL
  }

  function Ranks(orders: seq<seq<nat>>, v: nat, n: nat): (ranks: seq<nat>)
    requires n <= |orders|
    ensures |ranks| == n
  {
    if n == 0 then [] else Ranks(orders, v, n - 1) + [RankOrSentinel(orders[n - 1], v)]
  }

  function BestRank(orders: seq<seq<nat>>, v: nat, n: nat): nat
    requires 0 < n <= |orders|
  {
    var rank := RankOrSentinel(orders[n - 1], v);
    if n == 1 then rank else
      var best := BestRank(orders, v, n - 1);
      if rank < best then rank else best
  }

  /** The ties: best rank, then the ranks in turn, then the id. */
  function Ties(orders: seq<seq<nat>>, v: nat): seq<nat>
    requires orders != []
  {
    [BestRank(orders, v, |orders|)] + Ranks(orders, v, |orders|) + [v]
  }

  /** The sort key's order. */
  predicate Before(orders: seq<seq<nat>>, k: nat, u: nat, v: nat)
    requires orders != []
  {
    var a, b := Score(orders, k, u, |orders|), Score(orders, k, v, |orders|);
    a > b || (a == b && LexLess(Ties(orders, u), Ties(orders, v)))
  }

  lemma BeforeTotal(orders: seq<seq<nat>>, k: nat, u: nat, v: nat)
    requires orders != []
    ensures u == v || Before(orders, k, u, v) || Before(orders, k, v, u)
  {
    var a, b := Ties(orders, u), Ties(orders, v);
    LexTotal(a, b);
    assert a[|a| - 1] == u && b[|b| - 1] == v;
  }

  lemma BeforeTransitive(orders: seq<seq<nat>>, k: nat, u: nat, v: nat, w: nat)
    requires orders != [] && Before(orders, k, u, v) && Before(orders, k, v, w)
    ensures Before(orders, k, u, w)
  {
    var a, b, c := Ties(orders, u), Ties(orders, v), Ties(orders, w);
    if LexLess(a, b) && LexLess(b, c) {
      LexTransitive(a, b, c);
    }
  }

  lemma BeforeAsymmetric(orders: seq<seq<nat>>, k: nat, u: nat, v: nat)
    requires orders != [] && Before(orders, k, u, v)
    ensures !Before(orders, k, v, u)
  {
    if Before(orders, k, v, u) {
      LexAsymmetric(Ties(orders, u), Ties(orders, v));
    }
  }

  function Key(orders: seq<seq<nat>>, k: nat): Precedence
    requires orders != []
  {
    (u: nat, v: nat) => Before(orders, k, u, v)
  }

  lemma KeyIsStrictOrder(orders: seq<seq<nat>>, k: nat)
    requires orders != []
    ensures StrictOrder(Key(orders, k))
  {
    var before := Key(orders, k);
    forall u, v ensures (u == v || before(u, v) || before(v, u)) && !(before(u, v) && before(v, u)) {
      BeforeTotal(orders, k, u, v);
      if Before(orders, k, u, v) {
        BeforeAsymmetric(orders, k, u, v);
      }
    }
    forall u, v, w | before(u, v) && before(v, w) ensures before(u, w) {
      BeforeTransitive(orders, k, u, v, w);
    }
  }

  function Union(orders: seq<seq<nat>>): set<nat> {
    set i, x | 0 <= i < |orders| && x in orders[i] :: x
  }

  function ReciprocalRankFusion(orders: seq<seq<nat>>, k: int): (merged: Merged)
    ensures merged.Ranking? <==> 1 <= k && orders != [] && forall i | 0 <= i < |orders| :: NoDuplicates(orders[i])
    ensures merged.Ranking? ==> IsSorting(Key(orders, k), Union(orders), merged.ids)
  {
    if k < 1 || orders == [] || exists i :: 0 <= i < |orders| && !NoDuplicates(orders[i]) then Invalid
    else
      KeyIsStrictOrder(orders, k);
      Ranking(SortBy(Key(orders, k), Union(orders)))
  }

  /** Ahead in every ranking that contains the other. */
  ghost predicate Dominates(orders: seq<seq<nat>>, u: nat, v: nat) {
    u != v && forall i | 0 <= i < |orders| && v in orders[i] ::
      u in orders[i] && Rank(orders[i], u) < Rank(orders[i], v)
  }

  lemma ContributionFalls(k: nat, better: nat, worse: nat)
    requires 0 < better < worse
    ensures 0.0 < Contribution(k, worse) < Contribution(k, better)
  {
    var a, b := (k + better) as real, (k + worse) as real;
    assert 1.0 / a - 1.0 / b == (b - a) / (a * b);
  }

  lemma {:induction false} DominantScore(orders: seq<seq<nat>>, k: nat, u: nat, v: nat, n: nat)
    requires n <= |orders| && Dominates(orders, u, v)
    ensures Score(orders, k, u, n) >= Score(orders, k, v, n)
    ensures (exists i :: 0 <= i < n && v in orders[i]) ==> Score(orders, k, u, n) > Score(orders, k, v, n)
  {
    if n > 0 {
      DominantScore(orders, k, u, v, n - 1);
      var order := orders[n - 1];
      if v in order {
        ContributionFalls(k, Rank(order, u), Rank(order, v));
      }
    }
  }

  /** An id ahead of another in every ranking containing the other always precedes it. */
  lemma DominantPrecedes(orders: seq<seq<nat>>, k: nat, r: seq<nat>, i: nat, j: nat)
    requires orders != [] && IsSorting(Key(orders, k), Union(orders), r)
    requires i < |r| && j < |r| && Dominates(orders, r[i], r[j])
    ensures i < j
  {
    assert r[j] in Union(orders);
    DominantScore(orders, k, r[i], r[j], |orders|);
    BeforeAsymmetric(orders, k, r[i], r[j]);
    assert !Key(orders, k)(r[j], r[i]);
  }

  // ---------------------------------------------------------------- many good ranks against few

  /** How many of the first n rankings list the id at a rank of at most r. */
  function Backers(orders: seq<seq<nat>>, v: nat, r: nat, n: nat): nat
    requires n <= |orders|
  {
    if n == 0 then 0
    else
      var order := orders[n - 1];
      Backers(orders, v, r, n - 1) + if v in order && Rank(order, v) <= r then 1 else 0
  }

  /** No ranking lists the id before rank r. */
  predicate NeverAbove(orders: seq<seq<nat>>, v: nat, r: nat) {
    forall i | 0 <= i < |orders| && v in orders[i] :: Rank(orders[i], v) >= r
  }

  /** How many of the first n rankings list the id. */
  function Listings(orders: seq<seq<nat>>, v: nat, n: nat): nat
    requires n <= |orders|
  {
    if n == 0 then 0 else Listings(orders, v, n - 1) + if v in orders[n - 1] then 1 else 0
  }

  lemma ContributionAtLeast(k: nat, rank: nat, r: nat)
    requires 0 < rank <= r
    ensures Contribution(k, rank) >= Contribution(k, r)
  {
    if rank < r {
      ContributionFalls(k, rank, r);
    }
  }

  function Weighted(m: nat, c: real): real {
    m as real * c
  }

  lemma WeightedStep(m: nat, c: real)
    ensures Weighted(m + 1, c) == Weighted(m, c) + c
  {}

  lemma {:induction false} ScoreAtLeast(orders: seq<seq<nat>>, k: nat, v: nat, r: nat, n: nat)
    requires n <= |orders| && 0 < r
    ensures Score(orders, k, v, n) >= Weighted(Backers(orders, v, r, n), Contribution(k, r))
  {
    hide Weighted, Contribution;
    if n == 0 {
      WeightedNone(Contribution(k, r));
    } else {
      ScoreAtLeast(orders, k, v, r, n - 1);
      WeightedStep(Backers(orders, v, r, n - 1), Contribution(k, r));
      if v in orders[n - 1] {
        ContributionFalls(k, Rank(orders[n - 1], v), Rank(orders[n - 1], v) + 1);
        if Rank(orders[n - 1], v) <= r {
          ContributionAtLeast(k, Rank(orders[n - 1], v), r);
        }
      }
    }
  }

  lemma WeightedNone(c: real)
    ensures Weighted(0, c) == 0.0
  {}

  lemma {:induction false} ScoreAtMost(orders: seq<seq<nat>>, k: nat, v: nat, r: nat, n: nat)
    requires n <= |orders| && 0 < r && NeverAbove(orders, v, r)
    ensures Score(orders, k, v, n) <= Weighted(Listings(orders, v, n), Contribution(k, r))
  {
    hide Weighted, Contribution;
    if n == 0 {
      WeightedNone(Contribution(k, r));
    } else {
      ScoreAtMost(orders, k, v, r, n - 1);
      WeightedStep(Listings(orders, v, n - 1), Contribution(k, r));
      if v in orders[n - 1] {
        ContributionAtLeast(k, r, Rank(orders[n - 1], v));
      }
    }
  }

  /** m / a > n / b. */
  predicate Outweighs(m: nat, a: nat, n: nat, b: nat) {
    m * b > n * a
  }

  lemma OutweighsMeans(k: nat, m: nat, r: nat, n: nat, s: nat)
    requires 0 < r && 0 < s && Outweighs(m, k + r, n, k + s)
    ensures Weighted(m, Contribution(k, r)) > Weighted(n, Contribution(k, s))
  {
    var x, y, p, q := m as real, n as real, (k + r) as real, (k + s) as real;
    assert x * q > y * p by {
      assert (m * (k + s)) as real == x * q && (n * (k + r)) as real == y * p;
    }
    Crossed(x, p, y, q);
  }

  lemma Crossed(x: real, p: real, y: real, q: real)
    requires p > 0.0 && q > 0.0 && x * q > y * p
    ensures x * (1.0 / p) > y * (1.0 / q)
  {
    var a, b := x * (1.0 / p), y * (1.0 / q);
    assert a * p == x && b * q == y;
    assert (a - b) * (p * q) == x * q - y * p;
    assert p * q > 0.0;
  }

  lemma SortedPrecedes(orders: seq<seq<nat>>, k: nat, ids: seq<nat>, i: nat, j: nat)
    requires orders != [] && IsSorting(Key(orders, k), Union(orders), ids) && i < |ids| && j < |ids|
    requires Before(orders, k, ids[i], ids[j])
    ensures i < j
  {
    BeforeAsymmetric(orders, k, ids[i], ids[j]);
    assert !Key(orders, k)(ids[j], ids[i]);
  }

  /** Consensus: an id that at least m rankings put at rank r or better precedes one that at most n rankings
      list, never better than at rank s, whenever m / (k + r) > n / (k + s). */
  lemma ConsensusPrecedes(orders: seq<seq<nat>>, k: nat, ids: seq<nat>, i: nat, j: nat, r: nat, s: nat)
    requires orders != [] && IsSorting(Key(orders, k), Union(orders), ids)
    requires i < |ids| && j < |ids| && 0 < r && 0 < s && NeverAbove(orders, ids[j], s)
    requires Outweighs(Backers(orders, ids[i], r, |orders|), k + r, Listings(orders, ids[j], |orders|), k + s)
    ensures i < j
  {
    hide Weighted, Contribution, Outweighs, NeverAbove, Backers, Listings, Score, IsSorting, Ties;
    var n := |orders|;
    ScoreAtLeast(orders, k, ids[i], r, n);
    ScoreAtMost(orders, k, ids[j], s, n);
    OutweighsMeans(k, Backers(orders, ids[i], r, n), r, Listings(orders, ids[j], n), s);
    SortedPrecedes(orders, k, ids, i, j);
  }

  // ---------------------------------------------------------------- ties

  lemma {:induction false} BestRankIsLeast(orders: seq<seq<nat>>, v: nat, n: nat)
    requires 0 < n <= |orders|
    ensures forall i | 0 <= i < n :: BestRank(orders, v, n) <= RankOrSentinel(orders[i], v)
    ensures exists i :: 0 <= i < n && BestRank(orders, v, n) == RankOrSentinel(orders[i], v)
  {
    if n > 1 {
      BestRankIsLeast(orders, v, n - 1);
      var i :| 0 <= i < n - 1 && BestRank(orders, v, n - 1) == RankOrSentinel(orders[i], v);
      assert BestRank(orders, v, n) == RankOrSentinel(orders[i], v)
             || BestRank(orders, v, n) == RankOrSentinel(orders[n - 1], v);
    } else {
      assert BestRank(orders, v, n) == RankOrSentinel(orders[0], v);
    }
  }

  lemma {:induction false} RanksAt(orders: seq<seq<nat>>, v: nat, n: nat)
    requires n <= |orders|
    ensures forall i | 0 <= i < n :: Ranks(orders, v, n)[i] == RankOrSentinel(orders[i], v)
  {
    if n > 0 {
      RanksAt(orders, v, n - 1);
    }
  }

  lemma {:induction false} LexAt(a: seq<nat>, b: seq<nat>, d: nat)
    requires d < |a| && d < |b| && a[d] < b[d] && forall i | 0 <= i < d :: a[i] == b[i]
    ensures LexLess(a, b)
  {
    if d > 0 {
      LexAt(a[1..], b[1..], d - 1);
    }
  }

  /** Some ranking puts the first id ahead of the second, and all earlier ones rank them alike. */
  ghost predicate AheadAt(orders: seq<seq<nat>>, u: nat, v: nat, d: nat) {
    && d < |orders| && RankOrSentinel(orders[d], u) < RankOrSentinel(orders[d], v)
    && forall i | 0 <= i < d :: RankOrSentinel(orders[i], u) == RankOrSentinel(orders[i], v)
  }

  /** Of two ids with equal scores the one with the better best rank precedes; with equal best ranks, the one
      ahead in the first ranking that tells them apart. */
  lemma TiesBreak(orders: seq<seq<nat>>, k: nat, ids: seq<nat>, i: nat, j: nat)
    requires orders != [] && IsSorting(Key(orders, k), Union(orders), ids) && i < |ids| && j < |ids|
    requires Score(orders, k, ids[i], |orders|) == Score(orders, k, ids[j], |orders|)
    requires var a, b := BestRank(orders, ids[i], |orders|), BestRank(orders, ids[j], |orders|);
             a < b || (a == b && exists d :: AheadAt(orders, ids[i], ids[j], d))
    ensures i < j
  {
    var a, b := Ties(orders, ids[i]), Ties(orders, ids[j]);
    if a[0] < b[0] {
      LexAt(a, b, 0);
    } else {
      var d: nat :| AheadAt(orders, ids[i], ids[j], d);
      AheadIsLess(orders, ids[i], ids[j], d);
    }
    SortedPrecedes(orders, k, ids, i, j);
  }

  lemma AheadIsLess(orders: seq<seq<nat>>, u: nat, v: nat, d: nat)
    requires orders != [] && BestRank(orders, u, |orders|) == BestRank(orders, v, |orders|)
    requires AheadAt(orders, u, v, d)
    ensures LexLess(Ties(orders, u), Ties(orders, v))
  {
    var n := |orders|;
    RanksAt(orders, u, n);
    RanksAt(orders, v, n);
    var a, b := Ties(orders, u), Ties(orders, v);
    assert forall m | 0 < m <= n :: a[m] == Ranks(orders, u, n)[m - 1] && b[m] == Ranks(orders, v, n)[m - 1];
    LexAt(a, b, d + 1);
  }

  /** Some ranking always tells two fused ids apart, so the id itself never decides. */
  lemma RanksTellApart(orders: seq<seq<nat>>, u: nat, v: nat)
    requires u in Union(orders) && u != v && forall i | 0 <= i < |orders| :: |orders[i]| < SENTINEL
    ensures exists d :: AheadAt(orders, u, v, d) || AheadAt(orders, v, u, d)
  {
    var i :| 0 <= i < |orders| && u in orders[i];
    assert RankOrSentinel(orders[i], u) != RankOrSentinel(orders[i], v);
    FirstDifference(orders, u, v, i);
  }

  lemma {:induction false} FirstDifference(orders: seq<seq<nat>>, u: nat, v: nat, i: nat)
    requires i < |orders| && RankOrSentinel(orders[i], u) != RankOrSentinel(orders[i], v)
    ensures exists d :: AheadAt(orders, u, v, d) || AheadAt(orders, v, u, d)
  {
    if j :| 0 <= j < i && RankOrSentinel(orders[j], u) != RankOrSentinel(orders[j], v) {
      FirstDifference(orders, u, v, j);
    } else {
      assert AheadAt(orders, u, v, i) || AheadAt(orders, v, u, i);
    }
  }
}
