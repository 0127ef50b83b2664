/** The H-DEM problem: finite typed variables, extensional constraints, and possible worlds.
    Variables carry unique names in ascending order, so a name is modelled by its rank: variable
    `n` is `variables[n]`. Value texts are naturals. A canonical tuple of fact ids is a set. */
module HdemModel {
  import opened Options
  import opened Order

  type Name = nat
  type Val = nat
  type FactId = nat

  /** One value for every variable, in name order. */
  type Assignment = seq<Val>

  /** The values every variable may still take, in name order. */
  type Domains = seq<set<Val>>

  datatype Value = Value(text: Val, facts: set<FactId>)
  datatype Variable = Variable(domain: seq<Value>)
  datatype Constraint = Constraint(id: nat, scope: seq<Name>, allowed: seq<seq<Val>>, witnesses: set<FactId>)
  datatype Problem = Problem(variables: seq<Variable>, constraints: seq<Constraint>, answerVars: seq<Name>)

  datatype World = World(assignment: Assignment, answer: seq<Val>, provenance: set<FactId>)
  datatype Verdict = Resolved | Contested | Abstain

  // ---- Construction checks -----------------------------------------------------------------

  predicate WellFormedVariable(v: Variable) {
    v.domain != [] && forall i, j | 0 <= i < j < |v.domain| :: v.domain[i].text < v.domain[j].text
  }

  predicate WellFormedConstraint(c: Constraint, initial: Domains) {
    && c.scope != []
    && NoDuplicates(c.scope)
    && (forall i | 0 <= i < |c.scope| :: c.scope[i] < |initial|)
    && c.allowed != []
    && (forall row | row in c.allowed :: |row| == |c.scope|)
    && (forall row, i | row in c.allowed && 0 <= i < |c.scope| :: row[i] in initial[c.scope[i]])
  }

  predicate WellFormed(p: Problem) {
    && p.variables != []
    && (forall v | v in p.variables :: WellFormedVariable(v))
    && (forall i, j | 0 <= i < j < |p.constraints| :: p.constraints[i].id < p.constraints[j].id)
    && (forall c | c in p.constraints :: WellFormedConstraint(c, InitialDomains(p)))
    && p.answerVars != []
    && NoDuplicates(p.answerVars)
    && (forall n | n in p.answerVars :: n < |p.variables|)
  }

  function Texts(v: Variable): set<Val> {
    set x | x in v.domain :: x.text
  }

  function InitialDomains(p: Problem): (d: Domains)
    ensures |d| == |p.variables|
    ensures forall i | 0 <= i < |d| :: d[i] == Texts(p.variables[i])
  {
    seq(|p.variables|, i requires 0 <= i < |p.variables| => Texts(p.variables[i]))
  }

  // ---- Assignments and solutions -----------------------------------------------------------

  function Lookup(a: Assignment, n: Name): Val {
    if n < |a| then a[n] else 0
  }

  /** The tuple `a` gives to the variables of `scope`. */
  function Row(scope: seq<Name>, a: Assignment): (r: seq<Val>)
    ensures |r| == |scope|
    ensures forall i | 0 <= i < |scope| :: r[i] == Lookup(a, scope[i])
  {
    seq(|scope|, i requires 0 <= i < |scope| => Lookup(a, scope[i]))
  }

  predicate Satisfies(c: Constraint, a: Assignment) {
    Row(c.scope, a) in c.allowed
  }

  predicate SatisfiesAll(p: Problem, a: Assignment) {
    forall c | c in p.constraints :: Satisfies(c, a)
  }

  predicate Within(a: Assignment, d: Domains) {
    |a| == |d| && forall n | 0 <= n < |d| :: a[n] in d[n]
  }

  predicate Solution(p: Problem, a: Assignment) {
    Within(a, InitialDomains(p)) && SatisfiesAll(p, a)
  }

  // ---- Possible worlds ---------------------------------------------------------------------

  function Provenance(p: Problem, a: Assignment): set<FactId> {
    (set n, x, f | 0 <= n < |p.variables| && x in p.variables[n].domain && Lookup(a, n) == x.text && f in x.facts :: f)
    + (set c, f | c in p.constraints && f in c.witnesses :: f)
  }

  /** The world of a total assignment: its answer tuple and every fact it rests on. */
  function WorldOf(p: Problem, a: Assignment): World {
    World(a, Row(p.answerVars, a), Provenance(p, a))
  }

  /** World order: assignments are listed by ascending name, so the values decide. */
  predicate WorldLess(v: World, w: World) {
    LexLess(v.assignment, w.assignment)
  }

  predicate SortedWorlds(ws: seq<World>) {
    forall i, j | 0 <= i < j < |ws| :: WorldLess(ws[i], ws[j])
  }

  predicate Genuine(p: Problem, w: World)
  {
    Solution(p, w.assignment) && w == WorldOf(p, w.assignment)
  }

  /** The worlds of exactly the solutions of `p`, in canonical order. */
  ghost predicate ExactWorlds(p: Problem, ws: seq<World>)
  {
    && SortedWorlds(ws)
    && (forall w | w in ws :: Genuine(p, w))
    && (forall a | Solution(p, a) :: WorldOf(p, a) in ws)
  }

  // ---- Results -----------------------------------------------------------------------------

  datatype Reason =
    | EnumerationComplete | EnumerationBudget
    | PackedComplete | PackedBudget

  datatype Result = Result(
    state: Verdict, answer: Option<seq<Val>>, proofs: map<seq<Val>, set<set<FactId>>>,
    worlds: seq<World>, complete: bool, explored: nat, pruned: nat, reason: Reason)

  function Answers(ws: seq<World>): set<seq<Val>> {
    set w | w in ws :: w.answer
  }

  function Monomials(ws: seq<World>, answer: seq<Val>): set<set<FactId>> {
    set w | w in ws && w.answer == answer :: w.provenance
  }

  /** The answer proofs: every answer some world gives, with the provenances of those worlds. */
  function Proofs(ws: seq<World>): map<seq<Val>, set<set<FactId>>> {
    map answer | answer in Answers(ws) :: Monomials(ws, answer)
  }

  function VerdictOf(ws: seq<World>): Verdict {
    if |Answers(ws)| == 0 then Abstain else if |Answers(ws)| == 1 then Resolved else Contested
  }

  /** What a result says of its worlds, whichever solver built it. */
  ghost predicate Reports(r: Result, ws: seq<World>, complete: bool) {
    && r.worlds == ws
    && r.complete == complete
    && r.proofs == Proofs(ws)
    && r.state == (if complete then VerdictOf(ws) else Abstain)
    && (r.state == Resolved <==> r.answer.Some?)
    && (r.state == Resolved ==> Answers(ws) == {r.answer.value})
  }

  /** Groups the worlds by answer and settles the verdict. */
  method BuildResult(ws: seq<World>, complete: bool, explored: nat, pruned: nat, reason: Reason)
    returns (r: Result)
    ensures Reports(r, ws, complete)
    ensures r.explored == explored && r.pruned == pruned && r.reason == reason
  {
    var grouped: map<seq<Val>, set<set<FactId>>> := map[];
    for i := 0 to |ws|
      invariant grouped == Proofs(ws[..i])
    {
      var w := ws[i];
      assert ws[..i + 1] == ws[..i] + [w];
      var previous := if w.answer in grouped then grouped[w.answer] else {};
      GroupStep(ws[..i], w);
      grouped := grouped[w.answer := previous + {w.provenance}];
    }
    assert ws[..|ws|] == ws;
    assert grouped.Keys == Answers(ws);
    var state, answer := Abstain, None;
    if complete && |grouped| != 0 {
      if |grouped| == 1 {
        var key :| key in grouped.Keys;
        assert grouped.Keys == {key} by {
          assert |grouped.Keys - {key}| == 0;
          assert grouped.Keys == {key} + (grouped.Keys - {key});
        }
        state, answer := Resolved, Some(key);
      } else {
        state := Contested;
      }
    }
    r := Result(state, answer, grouped, ws, complete, explored, pruned, reason);
  }

  lemma GroupStep(ws: seq<World>, w: World)
    ensures Answers(ws + [w]) == Answers(ws) + {w.answer}
    ensures Proofs(ws + [w]) ==
            Proofs(ws)[w.answer := (if w.answer in Proofs(ws) then Proofs(ws)[w.answer] else {}) + {w.provenance}]
  {
    assert Answers(ws + [w]) == Answers(ws) + {w.answer} by {
      assert forall v :: v in ws + [w] <==> v in ws || v == w;
      assert w in ws + [w];
    }
    forall answer | answer in Answers(ws + [w])
      ensures Monomials(ws + [w], answer) == Monomials(ws, answer) + (if answer == w.answer then {w.provenance} else {})
    {
      assert forall v :: v in ws + [w] <==> v in ws || v == w;
      if answer == w.answer {
        assert w in ws + [w] && w.provenance in Monomials(ws + [w], answer);
      }
    }
    var known := if w.answer in Proofs(ws) then Proofs(ws)[w.answer] else {};
    var grouped := Proofs(ws)[w.answer := known + {w.provenance}];
    assert Proofs(ws + [w]).Keys == grouped.Keys;
    forall answer | answer in grouped ensures Proofs(ws + [w])[answer] == grouped[answer] {
      if answer !in Answers(ws) {
        assert Monomials(ws, answer) == {};
      }
    }
  }

  // ---- What provenance means ---------------------------------------------------------------

  /** The values that rest on the given facts alone. */
  function Licensed(p: Problem, given: set<FactId>): (d: Domains)
    ensures |d| == |p.variables|
    ensures forall n | 0 <= n < |d| ::
              d[n] == set x | x in p.variables[n].domain && x.facts <= given :: x.text
  {
    seq(|p.variables|, n requires 0 <= n < |p.variables| =>
      set x | x in p.variables[n].domain && x.facts <= given :: x.text)
  }

  /** The given facts license every value of the assignment and witness every constraint. */
  predicate Justifies(p: Problem, a: Assignment, given: set<FactId>) {
    Within(a, Licensed(p, given)) && forall c | c in p.constraints :: c.witnesses <= given
  }

  /** The provenance of a world is the least set of facts that justifies its assignment. */
  lemma ProvenanceIsLeast(p: Problem, a: Assignment, given: set<FactId>)
    requires WellFormed(p) && Within(a, InitialDomains(p))
    ensures WorldOf(p, a).provenance <= given <==> Justifies(p, a, given)
  {
    if WorldOf(p, a).provenance <= given {
      ProvenanceJustifies(p, a, given);
    }
    if Justifies(p, a, given) {
      forall n, x, f | 0 <= n < |p.variables| && x in p.variables[n].domain && Lookup(a, n) == x.text && f in x.facts
        ensures f in given
      {
        assert a[n] in Licensed(p, given)[n];
        var y :| y in p.variables[n].domain && y.facts <= given && y.text == a[n];
        SameText(p, n, x, y);
      }
    }
  }

  /** The texts of a domain are distinct. */
  lemma SameText(p: Problem, n: Name, x: Value, y: Value)
    requires WellFormed(p) && n < |p.variables| && x in p.variables[n].domain && y in p.variables[n].domain
    requires x.text == y.text
    ensures x == y
  {
    var domain := p.variables[n].domain;
    assert p.variables[n] in p.variables;
    var i :| 0 <= i < |domain| && domain[i] == x;
    var j :| 0 <= j < |domain| && domain[j] == y;
    assert i == j;
  }

  lemma ProvenanceJustifies(p: Problem, a: Assignment, given: set<FactId>)
    requires Within(a, InitialDomains(p)) && WorldOf(p, a).provenance <= given
    ensures Justifies(p, a, given)
  {
    forall n | 0 <= n < |a| ensures a[n] in Licensed(p, given)[n] {
      assert a[n] in InitialDomains(p)[n];
      var x :| x in p.variables[n].domain && x.text == a[n];
      forall f | f in x.facts ensures f in given {
        assert f in Provenance(p, a);
      }
      assert x.facts <= given;
    }
    forall c, f | c in p.constraints && f in c.witnesses ensures f in given {
      assert f in Provenance(p, a);
    }
  }

  /** The given facts hold some proof of the answer. */
  ghost predicate Proves(ws: seq<World>, answer: seq<Val>, given: set<FactId>) {
    answer in Proofs(ws) && exists proof :: proof in Proofs(ws)[answer] && proof <= given
  }

  /** Read as alternatives, the proofs of an answer hold exactly for the facts that justify some solution
      with that answer. */
  lemma ProofsAreExact(p: Problem, ws: seq<World>, answer: seq<Val>, given: set<FactId>)
    requires WellFormed(p) && ExactWorlds(p, ws)
    ensures Proves(ws, answer, given) <==>
            exists a :: Solution(p, a) && Row(p.answerVars, a) == answer && Justifies(p, a, given)
  {
    if Proves(ws, answer, given) {
      var proof :| proof in Proofs(ws)[answer] && proof <= given;
      var w :| w in ws && w.answer == answer && w.provenance == proof;
      ProvenanceIsLeast(p, w.assignment, given);
      assert Solution(p, w.assignment);
    }
    if a :| Solution(p, a) && Row(p.answerVars, a) == answer && Justifies(p, a, given) {
      ProvenanceIsLeast(p, a, given);
      var w := WorldOf(p, a);
      assert w in ws && w.answer in Answers(ws) && w.provenance in Proofs(ws)[answer];
    }
  }

  // ---- What exact worlds mean --------------------------------------------------------------

  /** Canonical worlds are determined by the problem: two exact lists are the same list. */
  lemma ExactWorldsUnique(p: Problem, vs: seq<World>, ws: seq<World>)
    requires ExactWorlds(p, vs) && ExactWorlds(p, ws)
    ensures vs == ws
  {
    forall w ensures w in vs <==> w in ws {
      if w in vs { assert WorldOf(p, w.assignment) in ws; }
      if w in ws { assert WorldOf(p, w.assignment) in vs; }
    }
    SortedSameElements(vs, ws);
  }

  lemma {:induction false} SortedSameElements(vs: seq<World>, ws: seq<World>)
    requires SortedWorlds(vs) && SortedWorlds(ws)
    requires forall w :: w in vs <==> w in ws
    ensures vs == ws
  {
    HeadIsMember(vs);
    HeadIsMember(ws);
    if vs != [] && ws != [] {
      HeadsAgree(vs, ws);
      forall w ensures w in vs[1..] <==> w in ws[1..] {
        TailMembership(vs, w);
        TailMembership(ws, w);
      }
      SortedSameElements(vs[1..], ws[1..]);
      assert vs == [vs[0]] + vs[1..] && ws == [ws[0]] + ws[1..];
    }
  }

  lemma HeadIsMember(ws: seq<World>)
    ensures ws == [] || ws[0] in ws
  {}

  lemma HeadsAgree(vs: seq<World>, ws: seq<World>)
    requires SortedWorlds(vs) && SortedWorlds(ws) && vs != [] && ws != []
    requires vs[0] in ws && ws[0] in vs
    ensures vs[0] == ws[0]
  {
    var i :| 0 <= i < |ws| && ws[i] == vs[0];
    var j :| 0 <= j < |vs| && vs[j] == ws[0];
    if i != 0 && j != 0 {
      assert WorldLess(ws[0], ws[i]) && WorldLess(vs[0], vs[j]);
      LexAsymmetric(ws[0].assignment, ws[i].assignment);
    }
  }

  lemma TailMembership(ws: seq<World>, w: World)
    requires SortedWorlds(ws) && ws != []
    ensures w in ws[1..] <==> w in ws && w != ws[0]
  {
    if w in ws[1..] {
      var i :| 0 <= i < |ws[1..]| && ws[1..][i] == w;
      assert WorldLess(ws[0], ws[i + 1]);
      LexIrreflexive(w.assignment);
    }
  }

  ghost predicate Satisfiable(p: Problem)
  {
    exists a :: Solution(p, a)
  }

  /** Some solution exists and every solution gives this answer. */
  ghost predicate Certain(p: Problem, answer: seq<Val>)
  {
    Satisfiable(p) && forall a | Solution(p, a) :: Row(p.answerVars, a) == answer
  }

  ghost predicate Disputed(p: Problem)
  {
    exists a, b :: Solution(p, a) && Solution(p, b) && Row(p.answerVars, a) != Row(p.answerVars, b)
  }

  lemma SolutionHasAnswer(p: Problem, ws: seq<World>, a: Assignment)
    requires ExactWorlds(p, ws) && Solution(p, a)
    ensures Row(p.answerVars, a) in Answers(ws)
  {
    assert WorldOf(p, a) in ws;
  }

  lemma SmallSets<T>(s: set<T>)
    ensures |s| == 0 <==> s == {}
    ensures |s| == 1 <==> exists x :: s == {x}
    ensures |s| >= 2 <==> exists x, y :: x in s && y in s && x != y
  {
    if s != {} {
      var x :| x in s;
      assert s == {x} + (s - {x});
      if |s| == 1 {
        assert |s - {x}| == 0;
        assert s == {x};
      } else {
        assert s - {x} != {};
        var y :| y in s - {x};
      }
    }
    if x, y :| x in s && y in s && x != y {
      assert |s - {x, y}| == |s| - 2;
    }
  }

  /** The verdict over exact worlds is the certain answer of the problem: resolved iff a solution
      exists and all solutions agree, abstaining iff there is none, contested otherwise. */
  lemma VerdictIsCertainty(p: Problem, ws: seq<World>)
    requires ExactWorlds(p, ws)
    ensures VerdictOf(ws) == Abstain <==> !Satisfiable(p)
    ensures VerdictOf(ws) == Resolved <==> exists answer :: Certain(p, answer)
    ensures forall answer :: Answers(ws) == {answer} <==> Certain(p, answer)
    ensures VerdictOf(ws) == Contested <==> Disputed(p)
  {
    SmallSets(Answers(ws));
    forall answer ensures Answers(ws) == {answer} <==> Certain(p, answer) {
      CertainIsSingleton(p, ws, answer);
    }
    if Satisfiable(p) {
      var a :| Solution(p, a);
      SolutionHasAnswer(p, ws, a);
    }
    if Answers(ws) != {} {
      var x :| x in Answers(ws);
    }
    if Disputed(p) {
      var a, b :| Solution(p, a) && Solution(p, b) && Row(p.answerVars, a) != Row(p.answerVars, b);
      SolutionHasAnswer(p, ws, a);
      SolutionHasAnswer(p, ws, b);
    }
  }

  lemma CertainIsSingleton(p: Problem, ws: seq<World>, answer: seq<Val>)
    requires ExactWorlds(p, ws)
    ensures Answers(ws) == {answer} <==> Certain(p, answer)
  {
    if Answers(ws) == {answer} {
      forall a | Solution(p, a) ensures Row(p.answerVars, a) == answer {
        SolutionHasAnswer(p, ws, a);
      }
    }
    if Certain(p, answer) {
      var a :| Solution(p, a);
      SolutionHasAnswer(p, ws, a);
      forall x | x in Answers(ws) ensures x == answer {}
      assert Answers(ws) == {answer};
    }
  }
}
