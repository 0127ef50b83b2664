/** The packed solver's result, and its equality with the enumerative oracle. */
module HdemRefinement {
  import opened Order
  import opened HdemModel
  import opened HdemPropagation
  import opened HdemEnumerative
  import opened HdemPacked

  ghost predicate SameElements(s: set<World>, ws: seq<World>) {
    forall w :: w in ws <==> w in s
  }

  lemma GenuineByAssignment(p: Problem, s: set<World>, v: World, w: World)
    requires AllGenuine(p, s) && v in s && w in s && v.assignment == w.assignment
    ensures v == w
  {
    assert Genuine(p, v) && Genuine(p, w);
  }

  /** Puts one more world in its place. */
  method InsertWorld(p: Problem, ghost s: set<World>, ws: seq<World>, w: World) returns (r: seq<World>)
    requires AllGenuine(p, s + {w}) && SameElements(s, ws) && SortedWorlds(ws) && w !in s
    ensures SameElements(s + {w}, r) && SortedWorlds(r)
  {
    var k := 0;
    while k < |ws| && WorldLess(ws[k], w)
      invariant k <= |ws| && forall i | 0 <= i < k :: WorldLess(ws[i], w)
    {
      k := k + 1;
    }
    r := ws[..k] + [w] + ws[k..];
    if k < |ws| {
      RestGreater(p, s, ws, w, k);
    }
    forall v ensures v in r <==> v in s + {w} {
      assert v in r <==> v in ws || v == w;
    }
  }

  lemma RestGreater(p: Problem, s: set<World>, ws: seq<World>, w: World, k: nat)
    requires AllGenuine(p, s + {w}) && SameElements(s, ws) && SortedWorlds(ws) && w !in s
    requires k < |ws| && !WorldLess(ws[k], w)
    ensures forall i | k <= i < |ws| :: WorldLess(w, ws[i])
  {
    assert ws[k] in ws;
    LexTotal(ws[k].assignment, w.assignment);
    if ws[k].assignment == w.assignment {
      GenuineByAssignment(p, s + {w}, ws[k], w);
    }
    forall i | k <= i < |ws| ensures WorldLess(w, ws[i]) {
      if i > k {
        assert WorldLess(ws[k], ws[i]);
        LexTransitive(w.assignment, ws[k].assignment, ws[i].assignment);
      }
    }
  }

  /** `sorted(worlds)`. */
  method SortWorlds(p: Problem, worlds: set<World>) returns (r: seq<World>)
    requires AllGenuine(p, worlds)
    ensures SameElements(worlds, r) && SortedWorlds(r)
  {
    r := [];
    var rest, done := worlds, {};
    while rest != {}
      invariant rest !! done && rest + done == worlds
      invariant SameElements(done, r) && SortedWorlds(r)
      decreases |rest|
    {
      var w :| w in rest;
      r := InsertWorld(p, done, r, w);
      rest, done := rest - {w}, done + {w};
    }
    assert done == worlds;
  }

  /** The packed solver. A complete run reports exactly the worlds of the problem's solutions; a run
      out of budget reports genuine worlds only, at most `maxWorlds` of them, and abstains. It stops for
      worlds only when there are more of them than the budget. */
  method SolvePacked(p: Problem, maxStates: nat, maxWorlds: nat) returns (r: Result)
    requires WellFormed(p) && maxStates >= 1 && maxWorlds >= 1
    ensures Reports(r, r.worlds, r.complete)
    ensures r.complete ==> ExactWorlds(p, r.worlds)
    ensures !r.complete ==> r.state == Abstain
    ensures SortedWorlds(r.worlds) && forall w | w in r.worlds :: Genuine(p, w)
    ensures |r.worlds| <= maxWorlds && r.explored <= maxStates
    ensures !r.complete ==> r.explored == maxStates || |r.worlds| == maxWorlds
    ensures !r.complete ==> r.explored == maxStates || exists s: set<World> :: |s| > maxWorlds && AllGenuine(p, s)
  {
    var search := new PackedSearch(p, maxStates, maxWorlds);
    InitialDomainsInhabited(p);
    search.Visit(InitialDomains(p));
    var ordered := SortWorlds(p, search.worlds);
    SortedLength(search.worlds, ordered);
    var complete := !search.exhausted;
    ghost var all := ordered;
    if !complete && |ordered| > maxWorlds {
      ordered := ordered[..maxWorlds];
    }
    forall w | w in ordered ensures Genuine(p, w) {
      assert w in all;
    }
    r := BuildResult(ordered, complete, search.explored, search.pruned,
                     if complete then PackedComplete else PackedBudget);
    if complete {
      forall a | Solution(p, a) ensures WorldOf(p, a) in r.worlds {
        assert Within(a, InitialDomains(p));
      }
    }
  }

  lemma InitialDomainsInhabited(p: Problem)
    requires WellFormed(p)
    ensures NoneEmpty(InitialDomains(p))
  {
    forall n | 0 <= n < |p.variables| ensures InitialDomains(p)[n] != {} {
      assert p.variables[n] in p.variables;
      assert p.variables[n].domain[0] in p.variables[n].domain;
      assert p.variables[n].domain[0].text in InitialDomains(p)[n];
    }
  }

  lemma {:induction false} SortedLength(s: set<World>, ws: seq<World>)
    requires SameElements(s, ws) && SortedWorlds(ws)
    ensures |ws| == |s|
  {
    if ws == [] {
      assert s == {};
    } else {
      forall w ensures w in ws[1..] <==> w in s - {ws[0]} {
        TailMembership(ws, w);
      }
      assert ws[0] in ws;
      SortedLength(s - {ws[0]}, ws[1..]);
    }
  }

  /** The packed form equals the oracle: two complete results over exact worlds agree on worlds,
      proofs, state and answer. */
  lemma CompleteResultsAgree(p: Problem, packed: Result, oracle: Result)
    requires Reports(packed, packed.worlds, true) && ExactWorlds(p, packed.worlds)
    requires Reports(oracle, oracle.worlds, true) && ExactWorlds(p, oracle.worlds)
    ensures packed.worlds == oracle.worlds && packed.proofs == oracle.proofs
    ensures packed.state == oracle.state && packed.answer == oracle.answer
  {
    ExactWorldsUnique(p, packed.worlds, oracle.worlds);
    assert packed.state == Resolved ==> {packed.answer.value} == {oracle.answer.value};
    assert forall x: seq<Val>, y :: {x} == {y} ==> x in {y} && x == y;
  }

  /** The differential run over both solvers: they can differ only when a budget ran out. */
  method SolveBoth(p: Problem, maxAssignments: nat, maxStates: nat, maxWorlds: nat)
    returns (packed: Result, oracle: Result)
    requires WellFormed(p) && maxAssignments >= 1 && maxStates >= 1 && maxWorlds >= 1
    ensures packed.complete && oracle.complete ==>
              && packed.worlds == oracle.worlds && packed.proofs == oracle.proofs
              && packed.state == oracle.state && packed.answer == oracle.answer
    ensures Reports(packed, packed.worlds, packed.complete) && Reports(oracle, oracle.worlds, oracle.complete)
    ensures packed.complete ==> ExactWorlds(p, packed.worlds)
    ensures oracle.complete ==> ExactWorlds(p, oracle.worlds)
    ensures oracle.complete ==> forall w | w in packed.worlds :: w in oracle.worlds
  {
    packed := SolvePacked(p, maxStates, maxWorlds);
    oracle := SolveEnumerative(p, maxAssignments);
    if packed.complete && oracle.complete {
      CompleteResultsAgree(p, packed, oracle);
    }
    if oracle.complete {
      forall w | w in packed.worlds ensures w in oracle.worlds {
        assert Genuine(p, w);
      }
    }
  }
}
