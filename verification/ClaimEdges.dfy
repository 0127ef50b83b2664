/** Which claims are neighbours: those sharing an anchor that few claims mention. */
module ClaimEdges {
  import opened Order
  import opened ClaimPath

  predicate DistinctIds(claims: seq<Claim>) {
    forall i, j | 0 <= i < j < |claims| :: claims[i].id != claims[j].id
  }

  /** How many of the first `k` claims mention the anchor. */
  function Mentions(claims: seq<Claim>, anchor: nat, k: nat): nat
    requires k <= |claims|
  {
    if k == 0 then 0 else Mentions(claims, anchor, k - 1) + if anchor in claims[k - 1].anchors then 1 else 0
  }

  /** The least number from `k` on whose square is at least `n`: `ceil(sqrt(n))` from zero. */
  function CeilSqrt(n: nat, k: nat): (r: nat)
    requires k <= n
    ensures k <= r && r * r >= n
    ensures forall m: nat | k <= m < r :: m * m < n
    decreases n - k
  {
    if k * k >= n then k else CeilSqrt(n, k + 1)
  }

  function Upper(claims: seq<Claim>): nat {
    var root := CeilSqrt(|claims|, 0);
    if root > 3 then root else 3
  }

  /** An anchor that links: at least two claims mention it, and not too many. */
  predicate Links(claims: seq<Claim>, anchor: nat) {
    2 <= Mentions(claims, anchor, |claims|) <= Upper(claims)
  }

  ghost function Fiber(claims: seq<Claim>, anchor: nat, k: nat): set<nat>
    requires k <= |claims|
  {
    set i | 0 <= i < k && anchor in claims[i].anchors :: claims[i].id
  }

  /** The linking anchors two claims share. */
  ghost predicate Shares(claims: seq<Claim>, left: nat, right: nat, anchor: nat) {
    && Links(claims, anchor)
    && left in Fiber(claims, anchor, |claims|) && right in Fiber(claims, anchor, |claims|)
  }

  method CountMentions(claims: seq<Claim>) returns (df: map<nat, nat>)
    ensures forall anchor :: (if anchor in df then df[anchor] else 0) == Mentions(claims, anchor, |claims|)
  {
    df := map[];
    for k := 0 to |claims|
      invariant forall anchor :: (if anchor in df then df[anchor] else 0) == Mentions(claims, anchor, k)
    {
      df := map anchor | anchor in df.Keys + claims[k].anchors ::
        (if anchor in df then df[anchor] else 0) + if anchor in claims[k].anchors then 1 else 0;
    }
  }

  type Bindings = map<(nat, nat), set<nat>>

  ghost predicate BindsExactly(claims: seq<Claim>, pairs: Bindings, done: set<nat>) {
    && (forall l, r | (l, r) in pairs :: l < r && pairs[(l, r)] != {})
    && (forall l: nat, r: nat, anchor: nat ::
          (l, r) in pairs && anchor in pairs[(l, r)] <==> l < r && anchor in done && Shares(claims, l, r, anchor))
  }

  /** Adds one anchor to every ordered pair of ids it joins. */
  function Bind(pairs: Bindings, ids: set<nat>, anchor: nat): Bindings {
    var joined := set l, r | l in ids && r in ids && l < r :: (l, r);
    map pair | pair in pairs.Keys + joined ::
      (if pair in pairs then pairs[pair] else {}) + if pair in joined then {anchor} else {}
  }

  lemma BindStep(claims: seq<Claim>, pairs: Bindings, done: set<nat>, anchor: nat)
    requires BindsExactly(claims, pairs, done)
    ensures Links(claims, anchor) ==>
              BindsExactly(claims, Bind(pairs, Fiber(claims, anchor, |claims|), anchor), done + {anchor})
    ensures !Links(claims, anchor) ==> BindsExactly(claims, pairs, done + {anchor})
  {
    if Links(claims, anchor) {
      var ids := Fiber(claims, anchor, |claims|);
      var next := Bind(pairs, ids, anchor);
      forall l: nat, r: nat, x: nat
        ensures (l, r) in next && x in next[(l, r)] <==> l < r && x in done + {anchor} && Shares(claims, l, r, x)
      {}
    }
  }

  /** The claim edges: a pair is bound by exactly the linking anchors both claims mention. */
  method BuildClaimEdges(claims: seq<Claim>) returns (pairs: Bindings)
    requires DistinctIds(claims)
    ensures forall l, r | (l, r) in pairs :: l < r && pairs[(l, r)] != {}
    ensures forall l: nat, r: nat, anchor: nat ::
              (l, r) in pairs && anchor in pairs[(l, r)] <==> l < r && Shares(claims, l, r, anchor)
  {
    var df := CountMentions(claims);
    var upper := Upper(claims);
    var anchors := Sorted(set i, anchor | 0 <= i < |claims| && anchor in claims[i].anchors :: anchor);
    pairs := map[];
    ghost var done := {};
    for a := 0 to |anchors|
      invariant done == set i | 0 <= i < a :: anchors[i]
      invariant BindsExactly(claims, pairs, done)
    {
      var anchor := anchors[a];
      BindStep(claims, pairs, done, anchor);
      if anchor in df && 2 <= df[anchor] <= upper {
        pairs := Bind(pairs, set i | 0 <= i < |claims| && anchor in claims[i].anchors :: claims[i].id, anchor);
      }
      done := done + {anchor};
    }
    AllAnchorsDone(claims, pairs, done, anchors);
  }

  lemma AllAnchorsDone(claims: seq<Claim>, pairs: Bindings, done: set<nat>, anchors: seq<nat>)
    requires BindsExactly(claims, pairs, done) && done == set i | 0 <= i < |anchors| :: anchors[i]
    requires forall i, anchor | 0 <= i < |claims| && anchor in claims[i].anchors :: anchor in anchors
    ensures forall l: nat, r: nat, anchor: nat ::
              (l, r) in pairs && anchor in pairs[(l, r)] <==> l < r && Shares(claims, l, r, anchor)
  {
    forall l: nat, r: nat, anchor: nat | Shares(claims, l, r, anchor) ensures anchor in done {
      var i :| 0 <= i < |claims| && anchor in claims[i].anchors && claims[i].id == l;
      assert anchor in anchors;
    }
  }

  /** The symmetric neighbour sets of all claims. */
  function AdjacencyOf(claims: seq<Claim>, pairs: Bindings): (adj: Adjacency)
    requires DistinctIds(claims)
    ensures forall u :: u in adj <==> exists i :: 0 <= i < |claims| && claims[i].id == u
  {
    var ids := set i | 0 <= i < |claims| :: claims[i].id;
    map u | u in ids :: set v | v in ids && ((u, v) in pairs || (v, u) in pairs)
  }

  function ById(claims: seq<Claim>): (m: Claims)
    requires DistinctIds(claims)
    ensures forall u :: u in m <==> exists i :: 0 <= i < |claims| && claims[i].id == u
    ensures forall i | 0 <= i < |claims| :: m[claims[i].id] == claims[i]
  {
    map i | 0 <= i < |claims| :: claims[i].id := claims[i]
  }

  lemma AdjacencyIsClosed(claims: seq<Claim>, pairs: Bindings)
    requires DistinctIds(claims)
    ensures Closed(AdjacencyOf(claims, pairs), ById(claims))
    ensures forall u, v | Joined(AdjacencyOf(claims, pairs), u, v) :: Joined(AdjacencyOf(claims, pairs), v, u)
  {}

  ghost predicate Neighbours(claims: seq<Claim>, u: nat, v: nat) {
    u != v && exists anchor :: Shares(claims, u, v, anchor)
  }

  /** Two claims are joined iff they share a linking anchor. */
  lemma JoinedIffShared(claims: seq<Claim>, pairs: Bindings)
    requires DistinctIds(claims)
    requires forall l, r | (l, r) in pairs :: l < r && pairs[(l, r)] != {}
    requires forall l: nat, r: nat, anchor: nat ::
               (l, r) in pairs && anchor in pairs[(l, r)] <==> l < r && Shares(claims, l, r, anchor)
    ensures forall u, v :: Joined(AdjacencyOf(claims, pairs), u, v) <==> Neighbours(claims, u, v)
  {
    var adj := AdjacencyOf(claims, pairs);
    forall u, v ensures Joined(adj, u, v) <==> Neighbours(claims, u, v) {
      if Joined(adj, u, v) {
        var l, r := if (u, v) in pairs then u else v, if (u, v) in pairs then v else u;
        var anchor :| anchor in pairs[(l, r)];
        assert Shares(claims, l, r, anchor) && Shares(claims, u, v, anchor);
      }
      if Neighbours(claims, u, v) {
        var anchor :| Shares(claims, u, v, anchor);
        var l, r := if u < v then u else v, if u < v then v else u;
        assert Shares(claims, l, r, anchor);
        assert (l, r) in pairs;
      }
    }
  }
}
