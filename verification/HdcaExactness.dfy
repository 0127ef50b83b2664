/** When the edge solver's verdict equals the oracle's: exactly on the forests whose pairs carry at
    most one constraint each. */
module HdcaExactness {
  import opened Options
  import opened Order
  import opened HdemModel
  import opened HdemPropagation
  import opened HdemRefinement
  import opened BinaryForest
  import opened ForestExactness
  import opened Hdca

  // ---- The verdict on single-constraint pairs -------------------------------------------------

  /** The solver ran to its end on a certified forest. */
  predicate Finished(r: HdcaResult) {
    r.outcome == NoAssignment || r.outcome == UniqueAnswer || r.outcome == ManyAnswers
  }

  /** No solution is ever lost, so an emptied domain refutes the problem, forest or not, parallel
      constraints or not. */
  lemma EmptiedMeansUnsatisfiable(p: Problem, maxRevisions: nat, r: HdcaResult)
    requires WellFormed(p) && Outcomes(p, maxRevisions, r) && r.outcome == NoAssignment
    ensures !Satisfiable(p)
  {
    forall a ensures !Solution(p, a) {
      if Solution(p, a) {
        SolutionSurvives(p, InitialDomains(p), r.domains, a);
      }
    }
  }

  /** At the fixed point of a forest without parallel constraints the surviving values are exactly
      the values of solutions. */
  lemma SurvivorsAreExtensible(p: Problem, maxRevisions: nat, r: HdcaResult, n: Name, v: Val)
    requires WellFormed(p) && NoParallel(p) && Outcomes(p, maxRevisions, r)
    requires r.outcome == UniqueAnswer || r.outcome == ManyAnswers
    requires n < |p.variables|
    ensures v in r.domains[n] <==> exists a :: Solution(p, a) && a[n] == v
  {
    SingleConstraintsSupport(p, r.domains);
    SupportExtends(p, r.domains);
    if a :| Solution(p, a) && a[n] == v {
      SolutionSurvives(p, InitialDomains(p), r.domains, a);
    }
  }

  /** A finished run certifies what the problem entails: the one answer, a dispute, or no solution. */
  lemma FinishedVerdict(p: Problem, maxRevisions: nat, r: HdcaResult)
    requires WellFormed(p) && NoParallel(p) && Outcomes(p, maxRevisions, r) && Finished(r)
    ensures r.state == Resolved ==> Certain(p, r.answer.value)
    ensures r.state == Contested ==> Disputed(p)
    ensures r.state == Abstain ==> !Satisfiable(p)
  {
    match r.outcome {
      case NoAssignment =>
        EmptiedMeansUnsatisfiable(p, maxRevisions, r);
      case UniqueAnswer =>
        ResolvedIsCertain(p, maxRevisions, r);
      case ManyAnswers =>
        var n :| n in p.answerVars && n < |r.domains| && |r.domains[n]| > 1;
        ContestedIsDisputed(p, maxRevisions, r, n);
    }
  }

  lemma ResolvedIsCertain(p: Problem, maxRevisions: nat, r: HdcaResult)
    requires WellFormed(p) && NoParallel(p) && Outcomes(p, maxRevisions, r) && r.outcome == UniqueAnswer
    ensures Certain(p, r.answer.value)
  {
    var v :| v in r.domains[0];
    SurvivorsAreExtensible(p, maxRevisions, r, 0, v);
    forall a | Solution(p, a) ensures Row(p.answerVars, a) == r.answer.value {
      SolutionSurvives(p, InitialDomains(p), r.domains, a);
      forall i | 0 <= i < |p.answerVars| ensures Row(p.answerVars, a)[i] == r.answer.value[i] {
        assert a[p.answerVars[i]] in r.domains[p.answerVars[i]];
      }
    }
  }

  lemma ContestedIsDisputed(p: Problem, maxRevisions: nat, r: HdcaResult, n: Name)
    requires WellFormed(p) && NoParallel(p) && Outcomes(p, maxRevisions, r) && r.outcome == ManyAnswers
    requires n in p.answerVars && n < |r.domains| && |r.domains[n]| > 1
    ensures Disputed(p)
  {
    SmallSets(r.domains[n]);
    var x, y :| x in r.domains[n] && y in r.domains[n] && x != y;
    SurvivorsAreExtensible(p, maxRevisions, r, n, x);
    SurvivorsAreExtensible(p, maxRevisions, r, n, y);
    var a :| Solution(p, a) && a[n] == x;
    var b :| Solution(p, b) && b[n] == y;
    var i :| 0 <= i < |p.answerVars| && p.answerVars[i] == n;
    assert Row(p.answerVars, a)[i] != Row(p.answerVars, b)[i];
  }

  /** The finished verdict and answer are those of the complete oracle. */
  ghost predicate MatchesOracle(p: Problem, r: HdcaResult) {
    forall ws | ExactWorlds(p, ws) ::
      r.state == VerdictOf(ws) && (r.state == Resolved ==> r.answer.Some? && Answers(ws) == {r.answer.value})
  }

  lemma VerdictMatchesOracle(p: Problem, maxRevisions: nat, r: HdcaResult)
    requires WellFormed(p) && NoParallel(p) && Outcomes(p, maxRevisions, r) && Finished(r)
    ensures MatchesOracle(p, r)
  {
    FinishedVerdict(p, maxRevisions, r);
    forall ws | ExactWorlds(p, ws)
      ensures r.state == VerdictOf(ws) && (r.state == Resolved ==> Answers(ws) == {r.answer.value})
    {
      VerdictIsCertainty(p, ws);
    }
  }

  /** The facts a resolved answer cites are among those of every world of the oracle. */
  lemma ProofInEveryWorld(p: Problem, maxRevisions: nat, r: HdcaResult, a: Assignment)
    requires WellFormed(p) && Outcomes(p, maxRevisions, r) && r.outcome == UniqueAnswer && Solution(p, a)
    ensures r.proof <= WorldOf(p, a).provenance
  {
    SolutionSurvives(p, InitialDomains(p), r.domains, a);
    forall n, x, f | n in p.answerVars && n < |p.variables| && x in p.variables[n].domain
                     && x.text in r.domains[n] && f in x.facts
      ensures f in Provenance(p, a)
    {
      var i :| 0 <= i < |p.answerVars| && p.answerVars[i] == n;
      assert r.domains[p.answerVars[i]] == {r.answer.value[i]};
      assert Lookup(a, n) == x.text;
    }
  }

  /** The cited facts are the least set that witnesses every constraint and licenses every value left to an
      answer variable. */
  lemma ProofIsLeast(p: Problem, maxRevisions: nat, r: HdcaResult, given: set<FactId>)
    requires WellFormed(p) && Outcomes(p, maxRevisions, r)
    requires r.outcome == UniqueAnswer || r.outcome == ManyAnswers
    ensures r.proof <= given <==>
            && (forall n | n in p.answerVars :: n < |r.domains| && r.domains[n] <= Licensed(p, given)[n])
            && forall c | c in p.constraints :: c.witnesses <= given
  {
    hide ArcConsistent, AboveConsistent, Forest;
    assert r.proof == AnswerFacts(p, r.domains);
    if r.proof <= given {
      forall n | n in p.answerVars ensures n < |r.domains| && r.domains[n] <= Licensed(p, given)[n] {
        AnswerValuesLicensed(p, r.domains, n, given);
      }
      forall c, f | c in p.constraints && f in c.witnesses ensures f in given {
        assert f in AnswerFacts(p, r.domains);
      }
    } else {
      var f :| f in r.proof && f !in given;
      if forall c | c in p.constraints :: c.witnesses <= given {
        var n, x :| n in p.answerVars && n < |p.variables| && n < |r.domains| && x in p.variables[n].domain
                    && x.text in r.domains[n] && f in x.facts;
        UnlicensedValue(p, n, x, given);
      }
    }
  }

  lemma UnlicensedValue(p: Problem, n: Name, x: Value, given: set<FactId>)
    requires WellFormed(p) && n < |p.variables| && x in p.variables[n].domain && !(x.facts <= given)
    ensures x.text !in Licensed(p, given)[n]
  {
    forall y | y in p.variables[n].domain && y.facts <= given ensures y.text != x.text {
      if y.text == x.text {
        SameText(p, n, x, y);
      }
    }
  }

  lemma AnswerValuesLicensed(p: Problem, d: Domains, n: Name, given: set<FactId>)
    requires WellFormed(p) && SubDomains(d, InitialDomains(p)) && n in p.answerVars && AnswerFacts(p, d) <= given
    ensures n < |d| && d[n] <= Licensed(p, given)[n]
  {
    forall v | v in d[n] ensures v in Licensed(p, given)[n] {
      assert v in InitialDomains(p)[n];
      var x :| x in p.variables[n].domain && x.text == v;
      forall f | f in x.facts ensures f in given {
        assert f in AnswerFacts(p, d);
      }
      assert x.facts <= given;
    }
  }

  // ---- Parallel constraints break it ----------------------------------------------------------

  /** The same variables, scopes and answer variables; values and relations are free. */
  ghost predicate SameShape(p: Problem, q: Problem) {
    && |q.variables| == |p.variables| && |q.constraints| == |p.constraints|
    && (forall k | 0 <= k < |p.constraints| :: q.constraints[k].scope == p.constraints[k].scope)
    && q.answerVars == p.answerVars
  }

  /** On this shape the edge solver never disagrees with the oracle, whatever the relations. */
  ghost predicate ExactShape(p: Problem) {
    forall q, maxRevisions, r {:trigger Outcomes(q, maxRevisions, r)} |
      SameShape(p, q) && WellFormed(q) && Outcomes(q, maxRevisions, r) && Finished(r) ::
      MatchesOracle(q, r)
  }

  function Bit(): Variable {
    Variable([Value(0, {}), Value(1, {})])
  }

  function Row1(): seq<seq<Val>> { [[0], [1]] }
  function RowEqual(): seq<seq<Val>> { [[0, 0], [1, 1]] }
  function RowUnequal(): seq<seq<Val>> { [[0, 1], [1, 0]] }
  function RowAny(): seq<seq<Val>> { [[0, 0], [0, 1], [1, 0], [1, 1]] }

  /** Two-valued variables, equality at `i`, inequality at `j`, anything elsewhere. */
  function ClashConstraint(p: Problem, i: nat, j: nat, k: nat): Constraint
    requires k < |p.constraints|
  {
    var c := p.constraints[k];
    Constraint(c.id, c.scope,
               if |c.scope| == 1 then Row1()
               else if k == i then RowEqual() else if k == j then RowUnequal() else RowAny(), {})
  }

  function Clash(p: Problem, i: nat, j: nat): (q: Problem)
    ensures |q.variables| == |p.variables| && forall n | 0 <= n < |q.variables| :: q.variables[n] == Bit()
    ensures |q.constraints| == |p.constraints|
    ensures forall k | 0 <= k < |q.constraints| :: q.constraints[k] == ClashConstraint(p, i, j, k)
    ensures q.answerVars == p.answerVars
  {
    Problem(seq(|p.variables|, _ => Bit()),
            seq(|p.constraints|, k requires 0 <= k < |p.constraints| => ClashConstraint(p, i, j, k)),
            p.answerVars)
  }

  lemma BitTexts()
    ensures Texts(Bit()) == {0, 1} && WellFormedVariable(Bit())
  {
    var d := Bit().domain;
    assert d[0] in d && d[1] in d;
    assert d[0].text in Texts(Bit()) && d[1].text in Texts(Bit());
  }

  predicate BitRelation(c: Constraint) {
    if |c.scope| == 1 then c.allowed == Row1()
    else |c.scope| == 2 && (c.allowed == RowEqual() || c.allowed == RowUnequal() || c.allowed == RowAny())
  }

  lemma BitRelationFits(c: Constraint, d: Domains)
    requires BitRelation(c) && NoDuplicates(c.scope)
    requires forall m | 0 <= m < |c.scope| :: c.scope[m] < |d| && d[c.scope[m]] == {0, 1}
    ensures WellFormedConstraint(c, d)
  {
    forall row | row in c.allowed ensures |row| == |c.scope| && forall m | 0 <= m < |row| :: row[m] in {0, 1} {}
  }

  lemma ClashBits(p: Problem, i: nat, j: nat)
    ensures forall n | 0 <= n < |p.variables| :: InitialDomains(Clash(p, i, j))[n] == {0, 1}
    ensures forall v | v in Clash(p, i, j).variables :: WellFormedVariable(v)
  {
    BitTexts();
  }

  lemma ClashRelation(p: Problem, i: nat, j: nat, k: nat)
    requires WellFormed(p) && AtMostBinary(p) && k < |p.constraints|
    ensures var c := Clash(p, i, j).constraints[k];
            && BitRelation(c) && NoDuplicates(c.scope)
            && forall m | 0 <= m < |c.scope| :: c.scope[m] < |p.variables|
  {
    assert p.constraints[k] in p.constraints && |p.constraints[k].scope| <= 2;
    assert WellFormedConstraint(p.constraints[k], InitialDomains(p));
  }

  lemma ClashWellFormed(p: Problem, i: nat, j: nat)
    requires WellFormed(p) && AtMostBinary(p)
    ensures WellFormed(Clash(p, i, j)) && SameShape(p, Clash(p, i, j))
  {
    var q := Clash(p, i, j);
    ClashBits(p, i, j);
    forall c | c in q.constraints ensures WellFormedConstraint(c, InitialDomains(q)) {
      var k :| 0 <= k < |q.constraints| && q.constraints[k] == c;
      ClashRelation(p, i, j, k);
      BitRelationFits(c, InitialDomains(q));
    }
  }

  /** Every bit value has a live row at every position: the full domains are consistent. */
  lemma ClashConsistent(p: Problem, i: nat, j: nat)
    requires WellFormed(p) && AtMostBinary(p)
    ensures ArcConsistent(Clash(p, i, j), InitialDomains(Clash(p, i, j)))
  {
    var q := Clash(p, i, j);
    var d := InitialDomains(q);
    ClashBits(p, i, j);
    forall k | 0 <= k < |q.constraints| ensures ConsistentFor(q.constraints[k], d) {
      ClashRelation(p, i, j, k);
      ClashSupports(q.constraints[k], d);
    }
  }

  lemma ClashSupports(c: Constraint, d: Domains)
    requires BitRelation(c)
    requires forall m | 0 <= m < |c.scope| :: c.scope[m] < |d| && d[c.scope[m]] == {0, 1}
    ensures ConsistentFor(c, d)
  {
    forall pos, v: nat | 0 <= pos < |c.scope| && v in {0, 1} ensures v in Supported(c, d, pos) {
      var row := if |c.scope| == 1 then [v] else if c.allowed == RowUnequal() then
        (if pos == 0 then [v, 1 - v] else [1 - v, v]) else [v, v];
      assert row in c.allowed by {
        if |c.scope| == 1 { assert row == Row1()[v]; }
        else if c.allowed == RowUnequal() { assert row == RowUnequal()[if pos == 0 then v else 1 - v]; }
        else if c.allowed == RowEqual() { assert row == RowEqual()[v]; }
        else { assert row == RowAny()[3 * v]; }
      }
      assert Live(c, d, row) && row[pos] == v;
    }
  }

  /** Equality and inequality over one pair have no common assignment. */
  lemma ClashUnsatisfiable(p: Problem, i: nat, j: nat)
    requires WellFormed(p) && i < j < |p.constraints|
    requires Binary(p.constraints[i]) && Binary(p.constraints[j])
    requires EdgeOf(p.constraints[i]) == EdgeOf(p.constraints[j])
    ensures !Satisfiable(Clash(p, i, j))
  {
    var q := Clash(p, i, j);
    WellFormedPairs(p);
    forall a ensures !Solution(q, a) {
      if Solution(q, a) {
        var c, e := q.constraints[i], q.constraints[j];
        assert c in q.constraints && e in q.constraints;
        assert Satisfies(c, a) && Satisfies(e, a);
        RowOfPair(c, a);
        RowOfPair(e, a);
      }
    }
  }

  lemma SameShapeForest(p: Problem, q: Problem)
    requires SameShape(p, q)
    ensures Forest(p) <==> Forest(q)
    ensures NoParallel(p) <==> NoParallel(q)
  {
    forall k | 0 <= k < |p.constraints| ensures Binary(p.constraints[k]) <==> Binary(q.constraints[k]) {}
    assert Edges(p, |p.constraints|) == Edges(q, |q.constraints|);
  }

  /** A budget that some fixed point respects is never reported as exhausted. */
  lemma BudgetSuffices(p: Problem, maxRevisions: nat, r: HdcaResult, e: Domains)
    requires Outcomes(p, maxRevisions, r)
    requires SubDomains(e, InitialDomains(p)) && ArcConsistent(p, e)
    requires Size(InitialDomains(p)) <= Size(e) + maxRevisions
    ensures r.outcome != RevisionBudget
  {}

  /** On a certified network whose full domains are consistent every run, with any budget, ends with them. */
  lemma ConsistentRun(p: Problem, maxRevisions: nat, r: HdcaResult)
    requires WellFormed(p) && Forest(p) && Outcomes(p, maxRevisions, r)
    requires ArcConsistent(p, InitialDomains(p))
    ensures r.outcome == UniqueAnswer || r.outcome == ManyAnswers
    ensures r.domains == InitialDomains(p)
  {
    var d := InitialDomains(p);
    InitialDomainsInhabited(p);
    BudgetSuffices(p, maxRevisions, r, d);
    assert SubDomains(d, r.domains);
    forall n | 0 <= n < |d| ensures r.domains[n] == d[n] {}
  }

  lemma UniqueIsSingle(p: Problem, maxRevisions: nat, r: HdcaResult)
    requires Outcomes(p, maxRevisions, r) && p.answerVars != []
    ensures r.outcome == UniqueAnswer ==>
              p.answerVars[0] < |r.domains| && exists x :: r.domains[p.answerVars[0]] == {x}
  {}

  /** Every run on the clash is contested: nothing is revised and both answers survive. */
  lemma ClashIsContested(p: Problem, i: nat, j: nat, maxRevisions: nat, r: HdcaResult)
    requires WellFormed(p) && Forest(p) && Outcomes(Clash(p, i, j), maxRevisions, r)
    ensures r.outcome == ManyAnswers
  {
    var q := Clash(p, i, j);
    ClashWellFormed(p, i, j);
    ClashConsistent(p, i, j);
    ClashBits(p, i, j);
    SameShapeForest(p, q);
    ConsistentRun(q, maxRevisions, r);
    UniqueIsSingle(q, maxRevisions, r);
    var n := q.answerVars[0];
    assert n in q.answerVars && 0 in r.domains[n] && 1 in r.domains[n];
  }

  /** What a run on the clash may report, for some report there is. */
  lemma ClashRunExists(p: Problem, i: nat, j: nat) returns (r: HdcaResult)
    requires WellFormed(p) && Forest(p)
    ensures Outcomes(Clash(p, i, j), 1, r)
  {
    var q := Clash(p, i, j);
    ClashWellFormed(p, i, j);
    ClashConsistent(p, i, j);
    ClashBits(p, i, j);
    SameShapeForest(p, q);
    r := HdcaResult(Contested, None, InitialDomains(q), AnswerFacts(q, InitialDomains(q)), true, 0, ManyAnswers);
    var n := q.answerVars[0];
    assert n in q.answerVars && n < |p.variables|;
    assert |InitialDomains(q)[n]| == |{0, 1}| == 2;
  }

  /** Values and relations of this shape on which every run of the edge solver, whatever its budget, ends
      with a verdict other than the oracle's. */
  ghost predicate AlwaysWrong(p: Problem, q: Problem) {
    && SameShape(p, q) && WellFormed(q)
    && forall maxRevisions, r | Outcomes(q, maxRevisions, r) :: Finished(r) && !MatchesOracle(q, r)
  }

  lemma ClashAlwaysWrong(p: Problem, i: nat, j: nat)
    requires WellFormed(p) && Forest(p) && i < j < |p.constraints|
    requires Binary(p.constraints[i]) && Binary(p.constraints[j])
    requires EdgeOf(p.constraints[i]) == EdgeOf(p.constraints[j])
    ensures AlwaysWrong(p, Clash(p, i, j))
  {
    var q := Clash(p, i, j);
    ClashWellFormed(p, i, j);
    ClashUnsatisfiable(p, i, j);
    assert ExactWorlds(q, []) && VerdictOf([]) == Abstain;
    forall maxRevisions, r | Outcomes(q, maxRevisions, r) ensures Finished(r) && !MatchesOracle(q, r) {
      ClashIsContested(p, i, j, maxRevisions, r);
    }
  }

  /** The shapes on which the edge solver is exact: among the networks the certificate accepts, just
      those where no unordered pair carries two constraints. On all others, which the certificate accepts
      because it skips a repeated pair, some relations make every run wrong. */
  lemma ExactIffNoParallel(p: Problem)
    requires WellFormed(p) && Forest(p)
    ensures ExactShape(p) <==> NoParallel(p)
    ensures !NoParallel(p) ==> exists q :: AlwaysWrong(p, q)
  {
    if NoParallel(p) {
      forall q, maxRevisions, r | SameShape(p, q) && WellFormed(q) && Outcomes(q, maxRevisions, r) && Finished(r)
        ensures MatchesOracle(q, r)
      {
        SameShapeForest(p, q);
        VerdictMatchesOracle(q, maxRevisions, r);
      }
    } else {
      var i, j :| 0 <= i < j < |p.constraints| && Binary(p.constraints[i]) && Binary(p.constraints[j])
                  && EdgeOf(p.constraints[i]) == EdgeOf(p.constraints[j]);
      ClashAlwaysWrong(p, i, j);
      var r := ClashRunExists(p, i, j);
      assert !MatchesOracle(Clash(p, i, j), r);
    }
  }

  /** A concrete wrong answer: `x` has one value, `y` and `z` must be both equal and unequal. The
      edge solver resolves `x`; the problem has no solution and the oracle abstains. */
  function WrongAnswer(): Problem {
    Problem([Variable([Value(0, {})]), Bit(), Bit()],
            [Constraint(0, [1, 2], RowEqual(), {}), Constraint(1, [1, 2], RowUnequal(), {})],
            [0])
  }

  lemma WrongAnswerDomains()
    ensures InitialDomains(WrongAnswer()) == [{0}, {0, 1}, {0, 1}]
    ensures WellFormed(WrongAnswer())
  {
    var p := WrongAnswer();
    BitTexts();
    var x := p.variables[0];
    assert x.domain[0] in x.domain && x.domain[0].text in Texts(x);
    assert Texts(x) == {0};
    assert InitialDomains(p) == [{0}, {0, 1}, {0, 1}];
    BitRelationFits(p.constraints[0], InitialDomains(p));
    BitRelationFits(p.constraints[1], InitialDomains(p));
  }

  lemma WrongAnswerForest()
    ensures Forest(WrongAnswer())
  {
    var p := WrongAnswer();
    EdgesStep(p, 0);
    EdgesStep(p, 1);
    assert Edges(p, 2) == {{1, 2}};
    forall c ensures !Cycle(Edges(p, 2), c) {
      OneEdgeNoCycle(c);
    }
  }

  lemma OneEdgeNoCycle(c: seq<Name>)
    ensures !Cycle({{1, 2}}, c)
  {
    if |c| >= 3 && {c[0], c[1]} == {1, 2} && {c[1], c[2]} == {1, 2} {
      assert c[0] == c[2];
    }
  }

  lemma WrongAnswerUnsatisfiable()
    ensures !Satisfiable(WrongAnswer())
  {
    var p := WrongAnswer();
    WrongAnswerDomains();
    forall a ensures !Solution(p, a) {
      if |a| == 3 {
        RowOfPair(p.constraints[0], a);
        RowOfPair(p.constraints[1], a);
        assert p.constraints[0] in p.constraints && p.constraints[1] in p.constraints;
        assert Satisfies(p.constraints[0], a) ==> a[1] == a[2];
        assert Satisfies(p.constraints[1], a) ==> a[1] != a[2];
      }
    }
  }

  /** Every run on it resolves, whatever its budget, although there is no solution. */
  lemma ResolvedWithoutSolution(maxRevisions: nat, r: HdcaResult)
    requires Outcomes(WrongAnswer(), maxRevisions, r)
    ensures WellFormed(WrongAnswer()) && Forest(WrongAnswer()) && !Satisfiable(WrongAnswer())
    ensures r.state == Resolved && r.answer == Some([0])
  {
    var p := WrongAnswer();
    WrongAnswerDomains();
    WrongAnswerForest();
    WrongAnswerUnsatisfiable();
    ClashSupports(p.constraints[0], InitialDomains(p));
    ClashSupports(p.constraints[1], InitialDomains(p));
    ConsistentRun(p, maxRevisions, r);
    assert r.domains[0] == {0};
    assert forall n | n in p.answerVars :: |r.domains[n]| == 1;
    assert r.answer.value == [0];
  }

  // ---- The differential check ----------------------------------------------------------------

  /** Runs all three solvers and reports whether the edge solver kept its promise: a value it
      resolves is the packed solver's. The promise holds whenever the packed run completed and no
      pair carries two constraints. The original asserts first that packed solver and oracle agree; that can
      fail only when exactly one of the two ran out of budget. */
  method AgreesWithHdem(p: Problem, maxRevisions: nat, maxAssignments: nat, maxStates: nat, maxWorlds: nat)
    returns (asserted: bool, agree: bool, hdca: HdcaResult, hdem: Result, oracle: Result)
    requires WellFormed(p) && maxRevisions >= 1 && maxAssignments >= 1 && maxStates >= 1 && maxWorlds >= 1
    ensures asserted <==> hdem.state == oracle.state && hdem.answer == oracle.answer
    ensures hdem.complete && oracle.complete ==> asserted
    ensures !asserted ==> hdem.complete != oracle.complete
    ensures agree <==> (hdca.state == Resolved ==> hdem.state == Resolved && hdca.answer == hdem.answer)
    ensures NoParallel(p) && hdem.complete ==> agree
    ensures NoParallel(p) && hdem.complete && Finished(hdca) ==> hdca.state == hdem.state && hdca.answer == hdem.answer
  {
    hdca := SolveHdca(p, maxRevisions);
    hdem, oracle := SolveBoth(p, maxAssignments, maxStates, maxWorlds);
    asserted := hdem.state == oracle.state && hdem.answer == oracle.answer;
    agree := hdca.state != Resolved || (hdem.state == Resolved && hdca.answer == hdem.answer);
    if NoParallel(p) && hdem.complete && Finished(hdca) {
      VerdictMatchesOracle(p, maxRevisions, hdca);
    }
  }

}
