/** The possible-world oracle: every assignment of the product of the domains, one by one. */
module HdemEnumerative {
  import opened Order
  import opened HdemModel

  // ---- The Cartesian product, rightmost factor fastest ---------------------------------------

  function Prefixed(v: Val, tails: seq<seq<Val>>): (r: seq<seq<Val>>)
    ensures |r| == |tails|
    ensures forall i | 0 <= i < |tails| :: r[i] == [v] + tails[i]
  {
    seq(|tails|, i requires 0 <= i < |tails| => [v] + tails[i])
  }

  function Spread(values: seq<Val>, tails: seq<seq<Val>>): seq<seq<Val>> {
    if values == [] then [] else Prefixed(values[0], tails) + Spread(values[1..], tails)
  }

  function Product(factors: seq<seq<Val>>): seq<seq<Val>> {
    if factors == [] then [[]] else Spread(factors[0], Product(factors[1..]))
  }

  predicate Chooses(t: seq<Val>, factors: seq<seq<Val>>) {
    |t| == |factors| && forall i | 0 <= i < |t| :: t[i] in factors[i]
  }

  predicate LexSorted(ts: seq<seq<Val>>) {
    forall i, j | 0 <= i < j < |ts| :: LexLess(ts[i], ts[j])
  }

  lemma {:induction false} SpreadMembers(values: seq<Val>, tails: seq<seq<Val>>, t: seq<Val>)
    ensures t in Spread(values, tails) <==> t != [] && t[0] in values && t[1..] in tails
  {
    if values != [] {
      SpreadMembers(values[1..], tails, t);
      if t in Prefixed(values[0], tails) {
        var i :| 0 <= i < |tails| && t == [values[0]] + tails[i];
        assert t[1..] == tails[i];
      }
      if t != [] && t[0] == values[0] && t[1..] in tails {
        var i :| 0 <= i < |tails| && t[1..] == tails[i];
        assert Prefixed(values[0], tails)[i] == t;
      }
      assert t != [] ==> (t[0] in values <==> t[0] == values[0] || t[0] in values[1..]);
    }
  }

  /** The product holds exactly the choice tuples. */
  lemma {:induction false} ProductMembers(factors: seq<seq<Val>>, t: seq<Val>)
    ensures t in Product(factors) <==> Chooses(t, factors)
  {
    if factors != [] {
      SpreadMembers(factors[0], Product(factors[1..]), t);
      if t != [] {
        ProductMembers(factors[1..], t[1..]);
        if Chooses(t, factors) {
          assert Chooses(t[1..], factors[1..]);
        }
        if t[0] in factors[0] && Chooses(t[1..], factors[1..]) {
          forall i | 0 <= i < |t| ensures t[i] in factors[i] {
            if i > 0 { assert t[1..][i - 1] in factors[1..][i - 1]; }
          }
        }
      }
    }
  }

  lemma {:induction false} SpreadSorted(values: seq<Val>, tails: seq<seq<Val>>)
    requires StrictlyAscending(values) && LexSorted(tails)
    ensures LexSorted(Spread(values, tails))
  {
    if values != [] {
      SpreadSorted(values[1..], tails);
      var front, back := Prefixed(values[0], tails), Spread(values[1..], tails);
      forall i, j | 0 <= i < j < |front + back| ensures LexLess((front + back)[i], (front + back)[j]) {
        if j < |front| {
          assert front[i][1..] == tails[i] && front[j][1..] == tails[j];
        } else if i < |front| {
          SpreadMembers(values[1..], tails, back[j - |front|]);
          var k :| 0 <= k < |values[1..]| && values[1..][k] == back[j - |front|][0];
          assert values[0] < values[k + 1];
        }
      }
    }
  }

  /** Ascending factors are enumerated in ascending tuple order. */
  lemma {:induction false} ProductSorted(factors: seq<seq<Val>>)
    requires forall i | 0 <= i < |factors| :: StrictlyAscending(factors[i])
    ensures LexSorted(Product(factors))
  {
    if factors != [] {
      ProductSorted(factors[1..]);
      SpreadSorted(factors[0], Product(factors[1..]));
    }
  }

  // ---- From tuples to assignments ------------------------------------------------------------

  function TextSeq(v: Variable): (r: seq<Val>)
    ensures |r| == |v.domain|
    ensures forall i | 0 <= i < |r| :: r[i] == v.domain[i].text
  {
    seq(|v.domain|, i requires 0 <= i < |v.domain| => v.domain[i].text)
  }

  function Factors(p: Problem): (r: seq<seq<Val>>)
    ensures |r| == |p.variables|
    ensures forall i | 0 <= i < |r| :: r[i] == TextSeq(p.variables[i])
  {
    seq(|p.variables|, i requires 0 <= i < |p.variables| => TextSeq(p.variables[i]))
  }

  /** The tuples of the product are the assignments within the initial domains. */
  lemma TuplesAreAssignments(p: Problem, a: Assignment)
    ensures a in Product(Factors(p)) <==> Within(a, InitialDomains(p))
  {
    ProductMembers(Factors(p), a);
    if |a| == |p.variables| {
      forall i | 0 <= i < |a| ensures a[i] in Factors(p)[i] <==> a[i] in InitialDomains(p)[i] {}
    }
  }

  // ---- The solver ----------------------------------------------------------------------------

  /** The worlds of exactly the satisfying tuples of an initial part of the enumeration. */
  ghost predicate WorldsOfPrefix(p: Problem, tuples: seq<Assignment>, ws: seq<World>) {
    && SortedWorlds(ws)
    && forall w :: w in ws <==> Genuine(p, w) && w.assignment in tuples
  }

  lemma NextWorldIsLarger(p: Problem, k: nat, ws: seq<World>, w: World)
    requires WellFormed(p) && k < |Product(Factors(p))|
    requires WorldsOfPrefix(p, Product(Factors(p))[..k], ws)
    requires w.assignment == Product(Factors(p))[k]
    ensures SortedWorlds(ws + [w])
  {
    var tuples := Product(Factors(p));
    FactorsAscend(p);
    ProductSorted(Factors(p));
    forall i | 0 <= i < |ws| ensures WorldLess(ws[i], w) {
      assert ws[i] in ws;
      assert ws[i].assignment in tuples[..k];
    }
  }

  lemma WholeEnumerationIsExact(p: Problem, ws: seq<World>)
    requires WorldsOfPrefix(p, Product(Factors(p)), ws)
    ensures ExactWorlds(p, ws)
  {
    forall a | Solution(p, a) ensures WorldOf(p, a) in ws {
      TuplesAreAssignments(p, a);
      assert Genuine(p, WorldOf(p, a));
    }
  }

  lemma FactorsAscend(p: Problem)
    requires WellFormed(p)
    ensures forall i | 0 <= i < |Factors(p)| :: StrictlyAscending(Factors(p)[i])
  {
    forall i | 0 <= i < |Factors(p)| ensures StrictlyAscending(Factors(p)[i]) {
      assert p.variables[i] in p.variables;
    }
  }

  /** Tries every tuple of the product in order. The run is complete iff the whole product fits the
      budget, and then its worlds are exact; otherwise it reports exactly the worlds among the
      tuples it looked at. */
  method SolveEnumerative(p: Problem, maxAssignments: nat) returns (r: Result)
    requires WellFormed(p) && maxAssignments >= 1
    ensures r.complete <==> |Product(Factors(p))| <= maxAssignments
    ensures r.explored == if r.complete then |Product(Factors(p))| else maxAssignments
    ensures r.pruned == 0
    ensures Reports(r, r.worlds, r.complete)
    ensures r.complete ==> ExactWorlds(p, r.worlds)
    ensures !r.complete ==> WorldsOfPrefix(p, Product(Factors(p))[..maxAssignments], r.worlds)
  {
    var tuples := Product(Factors(p));
    var worlds: seq<World> := [];
    var explored := 0;
    for k := 0 to |tuples|
      invariant explored == k <= maxAssignments
      invariant WorldsOfPrefix(p, tuples[..k], worlds)
    {
      explored := explored + 1;
      if explored > maxAssignments {
        r := BuildResult(worlds, false, explored - 1, 0, EnumerationBudget);
        return;
      }
      var a := tuples[k];
      TuplesAreAssignments(p, a);
      PrefixStep(tuples, k);
      NextWorldIsLarger(p, k, worlds, WorldOf(p, a));
      if SatisfiesAll(p, a) {
        worlds := worlds + [WorldOf(p, a)];
      }
    }
    WholeEnumerationIsExact(p, worlds);
    r := BuildResult(worlds, true, explored, 0, EnumerationComplete);
  }
}
