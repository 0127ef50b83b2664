/** Arc consistency on a binary forest is globally complete, and exactly when. */
module ForestExactness {
  import opened HdemModel
  import opened HdemPropagation
  import opened HdemPacked
  import opened BinaryForest

  // ---- Joint support -------------------------------------------------------------------------

  /** Values `v` of `u` and `s` of `w` satisfy every constraint between `u` and `w`. */
  ghost predicate PairSatisfied(p: Problem, u: Name, v: Val, w: Name, s: Val) {
    forall k | 0 <= k < |p.constraints| ::
      && (p.constraints[k].scope == [u, w] ==> [v, s] in p.constraints[k].allowed)
      && (p.constraints[k].scope == [w, u] ==> [s, v] in p.constraints[k].allowed)
  }

  ghost predicate SupportedBy(p: Problem, d: Domains, u: Name, v: Val, w: Name) {
    w < |d| && exists s :: s in d[w] && PairSatisfied(p, u, v, w, s)
  }

  /** Every value has, at every other variable, one partner that meets all constraints between the
      two variables at once. */
  ghost predicate JointlySupported(p: Problem, d: Domains) {
    forall u: Name, v: Val, w: Name | u < |d| && w < |d| && u != w && v in d[u] :: SupportedBy(p, d, u, v, w)
  }

  /** No unordered pair of variables carries two constraints. */
  ghost predicate NoParallel(p: Problem) {
    forall i, j | 0 <= i < j < |p.constraints| && Binary(p.constraints[i]) && Binary(p.constraints[j]) ::
      EdgeOf(p.constraints[i]) != EdgeOf(p.constraints[j])
  }

  /** Every value still held belongs to a solution within the domains. */
  ghost predicate Extensible(p: Problem, d: Domains) {
    forall n: Name, v: Val | n < |d| && v in d[n] :: exists a :: Solution(p, a) && Within(a, d) && a[n] == v
  }

  /** A value's live row names its partner. */
  lemma PartnerAfter(c: Constraint, d: Domains, v: Val) returns (s: Val)
    requires Binary(c) && v in Supported(c, d, 0)
    ensures c.scope[1] < |d| && s in d[c.scope[1]] && [v, s] in c.allowed
  {
    var row :| row in c.allowed && Live(c, d, row) && row[0] == v;
    s := row[1];
    assert row == [v, s];
  }

  lemma PartnerBefore(c: Constraint, d: Domains, v: Val) returns (s: Val)
    requires Binary(c) && v in Supported(c, d, 1)
    ensures c.scope[0] < |d| && s in d[c.scope[0]] && [s, v] in c.allowed
  {
    var row :| row in c.allowed && Live(c, d, row) && row[1] == v;
    s := row[0];
    assert row == [s, v];
  }

  predicate Relates(c: Constraint, u: Name, w: Name) {
    c.scope == [u, w] || c.scope == [w, u]
  }

  /** With one constraint a pair, arc consistency already supports values jointly. */
  lemma SingleConstraintsSupport(p: Problem, d: Domains)
    requires NoParallel(p) && ArcConsistent(p, d) && NoneEmpty(d)
    ensures JointlySupported(p, d)
  {
    forall u: Name, v: Val, w: Name | u < |d| && w < |d| && u != w && v in d[u] ensures SupportedBy(p, d, u, v, w) {
      SingleConstraintSupports(p, d, u, v, w);
    }
  }

  lemma SingleConstraintSupports(p: Problem, d: Domains, u: Name, v: Val, w: Name)
    requires NoParallel(p) && ArcConsistent(p, d) && NoneEmpty(d)
    requires u < |d| && w < |d| && u != w && v in d[u]
    ensures SupportedBy(p, d, u, v, w)
  {
    if k :| 0 <= k < |p.constraints| && Relates(p.constraints[k], u, w) {
      var c := p.constraints[k];
      var s;
      if c.scope == [u, w] {
        ValueSupported(p, d, k, 0, v);
        s := PartnerAfter(c, d, v);
      } else {
        ValueSupported(p, d, k, 1, v);
        s := PartnerBefore(c, d, v);
      }
      assert PairSatisfied(p, u, v, w, s);
    } else {
      var s :| s in d[w];
      forall k | 0 <= k < |p.constraints| ensures !Relates(p.constraints[k], u, w) {}
      assert PairSatisfied(p, u, v, w, s);
    }
  }

  // ---- Extending one value over the forest ----------------------------------------------------

  /** `a` meets every constraint over the pairs the first `k` constraints relate. */
  ghost predicate MeetsPairs(p: Problem, k: nat, a: Assignment)
    requires k <= |p.constraints|
  {
    forall j | 0 <= j < |p.constraints| && Binary(p.constraints[j]) && EdgeOf(p.constraints[j]) in Edges(p, k) ::
      Satisfies(p.constraints[j], a)
  }

  /** `b` on the component of `far`, `a` elsewhere. */
  ghost function Graft(labels: Labels, far: Name, a: Assignment, b: Assignment): (r: Assignment)
    requires |labels| == |a| == |b| && far < |labels|
    ensures |r| == |a|
    ensures forall n | 0 <= n < |r| :: r[n] == if labels[n] == labels[far] then b[n] else a[n]
  {
    seq(|a|, n requires 0 <= n < |a| && |labels| == |a| == |b| && far < |labels| =>
      if labels[n] == labels[far] then b[n] else a[n])
  }

  lemma RowOfPair(c: Constraint, a: Assignment)
    requires Binary(c) && c.scope[0] < |a| && c.scope[1] < |a|
    ensures Row(c.scope, a) == [a[c.scope[0]], a[c.scope[1]]]
  {}

  /** Old pairs lie inside one component, so grafting satisfies them like one of its halves. */
  lemma GraftKeepsPairs(p: Problem, k: nat, far: Name, a: Assignment, b: Assignment)
    requires PairsKnown(p) && k <= |p.constraints| && far < |p.variables| == |a| == |b|
    requires MeetsPairs(p, k, a) && MeetsPairs(p, k, b)
    ensures MeetsPairs(p, k, Graft(Components(p, k), far, a, b))
  {
    var r := Graft(Components(p, k), far, a, b);
    forall j | 0 <= j < |p.constraints| && Binary(p.constraints[j]) && EdgeOf(p.constraints[j]) in Edges(p, k)
      ensures Satisfies(p.constraints[j], r)
    {
      var c := p.constraints[j];
      RelatedShareLabel(p, k, c.scope[0], c.scope[1]);
      RowOfPair(c, a);
      RowOfPair(c, b);
      RowOfPair(c, r);
    }
  }

  lemma JointPairMeets(p: Problem, k: nat, a: Assignment, near: Name, far: Name)
    requires PairsKnown(p) && k < |p.constraints| && Binary(p.constraints[k]) && |a| == |p.variables|
    requires MeetsPairs(p, k, a) && near < |a| && far < |a|
    requires PairSatisfied(p, near, a[near], far, a[far]) && {near, far} == EdgeOf(p.constraints[k])
    ensures MeetsPairs(p, k + 1, a)
  {
    EdgesStep(p, k);
    forall j | 0 <= j < |p.constraints| && Binary(p.constraints[j]) && EdgeOf(p.constraints[j]) == {near, far}
      ensures Satisfies(p.constraints[j], a)
    {
      var c := p.constraints[j];
      RowOfPair(c, a);
    }
  }

  /** Two assignments for the components of a new pair are grafted into one for the joined component. */
  lemma GraftExtends(p: Problem, d: Domains, m: nat, x: Name, near: Name, far: Name, base: Assignment,
                     other: Assignment)
    returns (a: Assignment)
    requires PairsKnown(p) && m < |p.constraints| && Binary(p.constraints[m]) && {near, far} == EdgeOf(p.constraints[m])
    requires |d| == |p.variables| && near < |d| && far < |d| && x < |d|
    requires Components(p, m)[near] != Components(p, m)[far] && Components(p, m)[x] != Components(p, m)[far]
    requires Within(base, d) && Within(other, d) && MeetsPairs(p, m, base) && MeetsPairs(p, m, other)
    requires PairSatisfied(p, near, base[near], far, other[far])
    ensures Within(a, d) && a[x] == base[x] && MeetsPairs(p, m + 1, a)
  {
    hide MeetsPairs, PairSatisfied, PairsKnown;
    a := Graft(Components(p, m), far, base, other);
    GraftKeepsPairs(p, m, far, base, other);
    JointPairMeets(p, m, a, near, far);
  }

  /** Any value of any variable extends to an assignment meeting all pairs of the forest: each new
      pair joins two components, so the far one can be chosen afresh from the partner's value. */
  lemma {:induction false} Extend(p: Problem, d: Domains, k: nat, x: Name, v: Val) returns (a: Assignment)
    requires PairsKnown(p) && k <= |p.constraints| && |d| == |p.variables|
    requires forall j | 0 <= j < k :: Crosses(p, j)
    requires JointlySupported(p, d) && NoneEmpty(d) && x < |d| && v in d[x]
    ensures Within(a, d) && a[x] == v && MeetsPairs(p, k, a)
  {
    if k == 0 {
      a := seq(|d|, n requires 0 <= n < |d| => if n == x || d[n] == {} then v else TheValue(d[n]));
      assert Edges(p, 0) == {};
      return;
    }
    var c := p.constraints[k - 1];
    EdgesStep(p, k - 1);
    if !Binary(c) || EdgeOf(c) in Edges(p, k - 1) {
      a := Extend(p, d, k - 1, x, v);
      assert Edges(p, k) == Edges(p, k - 1);
      return;
    }
    assert Crosses(p, k - 1);
    var labels := Components(p, k - 1);
    var near, far := c.scope[0], c.scope[1];
    if labels[x] == labels[far] {
      near, far := far, near;
    }
    var base := Extend(p, d, k - 1, x, v);
    assert SupportedBy(p, d, near, base[near], far);
    var s :| s in d[far] && PairSatisfied(p, near, base[near], far, s);
    var fresh_ := Extend(p, d, k - 1, far, s);
    a := GraftExtends(p, d, k - 1, x, near, far, base, fresh_);
  }

  /** An assignment within arc-consistent domains meets the unary constraints by itself. */
  lemma UnaryMet(p: Problem, d: Domains, k: nat, a: Assignment)
    requires ArcConsistent(p, d) && k < |p.constraints| && |p.constraints[k].scope| == 1 && Within(a, d)
    ensures Satisfies(p.constraints[k], a)
  {
    var c := p.constraints[k];
    assert ConsistentFor(c, d);
    var n := c.scope[0];
    ValueSupported(p, d, k, 0, a[n]);
    var row :| row in c.allowed && Live(c, d, row) && row[0] == a[n];
    assert row == Row(c.scope, a);
  }

  /** On a forest, jointly supported domains extend every value they hold. */
  lemma SupportExtends(p: Problem, d: Domains)
    requires WellFormed(p) && Forest(p) && SubDomains(d, InitialDomains(p)) && NoneEmpty(d)
    requires ArcConsistent(p, d) && JointlySupported(p, d)
    ensures Extensible(p, d)
  {
    WellFormedPairs(p);
    AcyclicIffCrossing(p, |p.constraints|);
    forall n: Name, v: Val | n < |d| && v in d[n] ensures exists a :: Solution(p, a) && Within(a, d) && a[n] == v {
      var a := Extend(p, d, |p.constraints|, n, v);
      forall c | c in p.constraints ensures Satisfies(c, a) {
        var k :| 0 <= k < |p.constraints| && p.constraints[k] == c;
        assert WellFormedConstraint(c, InitialDomains(p)) && |p.constraints[k].scope| <= 2;
        if !Binary(p.constraints[k]) {
          UnaryMet(p, d, k, a);
        }
      }
      assert Solution(p, a);
    }
  }

  lemma SolutionMeetsPair(p: Problem, a: Assignment, u: Name, w: Name)
    requires SatisfiesAll(p, a) && u < |a| && w < |a|
    ensures PairSatisfied(p, u, a[u], w, a[w])
  {
    forall k | 0 <= k < |p.constraints|
      ensures p.constraints[k].scope == [u, w] ==> [a[u], a[w]] in p.constraints[k].allowed
      ensures p.constraints[k].scope == [w, u] ==> [a[w], a[u]] in p.constraints[k].allowed
    {
      var c := p.constraints[k];
      assert c in p.constraints && Satisfies(c, a);
      if Relates(c, u, w) {
        RowOfPair(c, a);
      }
    }
  }

  /** Solutions witness joint support. */
  lemma ExtensionSupports(p: Problem, d: Domains)
    requires Extensible(p, d)
    ensures JointlySupported(p, d)
  {
    forall u: Name, v: Val, w: Name | u < |d| && w < |d| && u != w && v in d[u] ensures SupportedBy(p, d, u, v, w) {
      var a :| Solution(p, a) && Within(a, d) && a[u] == v;
      SolutionMeetsPair(p, a, u, w);
      assert a[w] in d[w];
    }
  }

  /** The exact condition at a fixed point: on a forest, every surviving value is globally
      extensible iff the values support each other jointly. */
  lemma ExtensibleIffJoint(p: Problem, d: Domains)
    requires WellFormed(p) && Forest(p) && SubDomains(d, InitialDomains(p)) && NoneEmpty(d) && ArcConsistent(p, d)
    ensures Extensible(p, d) <==> JointlySupported(p, d)
  {
    if JointlySupported(p, d) {
      SupportExtends(p, d);
    }
    if Extensible(p, d) {
      ExtensionSupports(p, d);
    }
  }
}
