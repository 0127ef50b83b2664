/** Generalized arc consistency: the greatest supported sub-domains, and why pruning is safe. */
module HdemPropagation {
  import opened HdemModel

  // ---- Domains under inclusion ---------------------------------------------------------------

  ghost predicate SubDomains(e: Domains, d: Domains) {
    |e| == |d| && forall n | 0 <= n < |d| :: e[n] <= d[n]
  }

  ghost predicate NoneEmpty(d: Domains) {
    forall n | 0 <= n < |d| :: d[n] != {}
  }

  ghost function SizeFrom(d: Domains, k: nat): nat
    decreases |d| - k
  {
    if k >= |d| then 0 else |d[k]| + SizeFrom(d, k + 1)
  }

  /** How many values the domains hold altogether. */
  ghost function Size(d: Domains): nat {
    SizeFrom(d, 0)
  }

  lemma {:induction false} SizeFromUpdate(d: Domains, n: nat, s: set<Val>, k: nat)
    requires n < |d|
    ensures SizeFrom(d[n := s], k) == SizeFrom(d, k) + if k <= n then |s| - |d[n]| else 0
    decreases |d| - k
  {
    if k < |d| {
      SizeFromUpdate(d, n, s, k + 1);
    }
  }

  lemma SizeUpdate(d: Domains, n: nat, s: set<Val>)
    requires n < |d|
    ensures Size(d[n := s]) == Size(d) - |d[n]| + |s|
  {
    SizeFromUpdate(d, n, s, 0);
  }

  // ---- Support -------------------------------------------------------------------------------

  /** Every value of the row is still in its variable's domain. */
  predicate Live(c: Constraint, d: Domains, row: seq<Val>) {
    |row| == |c.scope| && forall i | 0 <= i < |row| :: c.scope[i] < |d| && row[i] in d[c.scope[i]]
  }

  /** The values of position `pos` that some live row of the constraint supports. */
  function Supported(c: Constraint, d: Domains, pos: nat): set<Val>
    requires pos < |c.scope|
  {
    set row | row in c.allowed && Live(c, d, row) :: row[pos]
  }

  ghost predicate ConsistentUpTo(c: Constraint, d: Domains, k: nat)
    requires k <= |c.scope|
  {
    forall pos | 0 <= pos < k :: c.scope[pos] < |d| && d[c.scope[pos]] <= Supported(c, d, pos)
  }

  ghost predicate ConsistentFor(c: Constraint, d: Domains) {
    ConsistentUpTo(c, d, |c.scope|)
  }

  ghost predicate ArcConsistent(p: Problem, d: Domains) {
    forall k {:trigger ConsistentFor(p.constraints[k], d)} | 0 <= k < |p.constraints| ::
      ConsistentFor(p.constraints[k], d)
  }

  ghost predicate AboveConsistent(p: Problem, initial: Domains, d: Domains) {
    forall e {:trigger ArcConsistent(p, e)} | SubDomains(e, initial) && ArcConsistent(p, e) :: SubDomains(e, d)
  }

  /** In consistent domains every value is supported. */
  lemma ValueSupported(p: Problem, d: Domains, k: nat, pos: nat, v: Val)
    requires ArcConsistent(p, d) && k < |p.constraints| && pos < |p.constraints[k].scope|
    requires p.constraints[k].scope[pos] < |d| && v in d[p.constraints[k].scope[pos]]
    ensures v in Supported(p.constraints[k], d, pos)
  {
    assert ConsistentFor(p.constraints[k], d);
  }

  /** Removing unsupported values keeps every consistent sub-domain. */
  lemma RevisionKeepsConsistent(c: Constraint, d: Domains, pos: nat, e: Domains)
    requires pos < |c.scope| && c.scope[pos] < |d|
    requires SubDomains(e, d) && ConsistentFor(c, e)
    ensures SubDomains(e, d[c.scope[pos] := d[c.scope[pos]] * Supported(c, d, pos)])
  {}

  /** The domains holding just the values of one assignment. */
  ghost function Pinned(a: Assignment): (d: Domains)
    ensures |d| == |a| && forall n | 0 <= n < |a| :: d[n] == {a[n]}
  {
    seq(|a|, n requires 0 <= n < |a| => {a[n]})
  }

  lemma SolutionIsConsistent(p: Problem, a: Assignment)
    requires WellFormed(p) && Solution(p, a)
    ensures ArcConsistent(p, Pinned(a))
  {
    forall k | 0 <= k < |p.constraints| ensures ConsistentFor(p.constraints[k], Pinned(a)) {
      var c := p.constraints[k];
      assert c in p.constraints;
      assert Satisfies(c, a) && WellFormedConstraint(c, InitialDomains(p));
    }
  }

  /** No solution is ever pruned: it survives in whatever is above all consistent sub-domains. */
  lemma SolutionSurvives(p: Problem, initial: Domains, d: Domains, a: Assignment)
    requires WellFormed(p) && Solution(p, a) && Within(a, initial)
    requires AboveConsistent(p, initial, d)
    ensures Within(a, d)
  {
    SolutionIsConsistent(p, a);
    assert SubDomains(Pinned(a), d);
    forall n | 0 <= n < |d| ensures a[n] in d[n] {
      assert Pinned(a)[n] <= d[n];
    }
  }

  /** An all-singleton fixed point is a solution. */
  lemma SingletonFixpointIsSolution(p: Problem, d: Domains, a: Assignment)
    requires WellFormed(p) && SubDomains(d, InitialDomains(p)) && ArcConsistent(p, d)
    requires |a| == |d| && forall n | 0 <= n < |d| :: d[n] == {a[n]}
    ensures Solution(p, a)
  {
    forall c | c in p.constraints ensures Satisfies(c, a) {
      var k :| 0 <= k < |p.constraints| && p.constraints[k] == c;
      assert ConsistentFor(p.constraints[k], d) && WellFormedConstraint(c, InitialDomains(p));
      SingletonSatisfies(c, d, a);
    }
    forall n | 0 <= n < |d| ensures a[n] in InitialDomains(p)[n] {
      assert a[n] in d[n];
    }
  }

  lemma SingletonSatisfies(c: Constraint, d: Domains, a: Assignment)
    requires c.scope != [] && ConsistentFor(c, d)
    requires |a| == |d| && forall n | 0 <= n < |d| :: d[n] == {a[n]}
    ensures Satisfies(c, a)
  {
    var n := c.scope[0];
    assert n < |d| && a[n] in d[n] && a[n] in Supported(c, d, 0);
    var row :| row in c.allowed && Live(c, d, row) && row[0] == a[n];
    forall i | 0 <= i < |row| ensures row[i] == Row(c.scope, a)[i] {
      assert row[i] in d[c.scope[i]];
    }
    assert row == Row(c.scope, a);
  }

  // ---- The propagation loop ------------------------------------------------------------------

  /** `d` lost `pruned` values of `initial`, none of them in a consistent sub-domain. */
  ghost predicate Narrowed(p: Problem, initial: Domains, d: Domains, pruned: nat) {
    && SubDomains(d, initial)
    && AboveConsistent(p, initial, d)
    && Size(initial) == Size(d) + pruned
  }

  ghost predicate Revised(p: Problem, initial: Domains, d: Domains, pruned: nat) {
    Narrowed(p, initial, d, pruned) && (NoneEmpty(initial) ==> NoneEmpty(d))
  }

  ghost predicate FirstConsistent(p: Problem, d: Domains, k: nat)
    requires k <= |p.constraints|
  {
    forall j | 0 <= j < k :: ConsistentFor(p.constraints[j], d)
  }

  ghost predicate ScopesKnown(p: Problem) {
    forall k, i | 0 <= k < |p.constraints| && 0 <= i < |p.constraints[k].scope| ::
      p.constraints[k].scope[i] < |p.variables|
  }

  lemma WellFormedScopes(p: Problem)
    requires WellFormed(p)
    ensures ScopesKnown(p)
  {
    forall k, i | 0 <= k < |p.constraints| && 0 <= i < |p.constraints[k].scope|
      ensures p.constraints[k].scope[i] < |p.variables|
    {
      assert p.constraints[k] in p.constraints;
    }
  }

  /** Revises every position of one constraint, until a domain empties. */
  method ReviseConstraint(p: Problem, ghost initial: Domains, k: nat, before: Domains, prunedBefore: nat)
    returns (emptied: bool, pruned: nat, domains: Domains)
    requires ScopesKnown(p) && k < |p.constraints| && |before| == |p.variables|
    requires Revised(p, initial, before, prunedBefore)
    ensures Narrowed(p, initial, domains, pruned) && prunedBefore <= pruned
    ensures emptied ==> exists n :: 0 <= n < |domains| && domains[n] == {}
    ensures !emptied ==> Revised(p, initial, domains, pruned)
    ensures !emptied && pruned == prunedBefore ==> domains == before && ConsistentFor(p.constraints[k], domains)
  {
    domains, pruned := before, prunedBefore;
    var c := p.constraints[k];
    for pos := 0 to |c.scope|
      invariant Revised(p, initial, domains, pruned) && prunedBefore <= pruned
      invariant pruned == prunedBefore ==> domains == before && ConsistentUpTo(c, domains, pos)
    {
      var name := c.scope[pos];
      var supported := Supported(c, domains, pos);
      var remove := domains[name] - supported;
      if remove != {} {
        RevisionStep(p, initial, k, pos, domains, pruned);
        pruned := pruned + |remove|;
        domains := domains[name := domains[name] - remove];
        if domains[name] == {} {
          return true, pruned, domains;
        }
      }
    }
    emptied := false;
  }

  /** Revises every constraint until nothing changes or a domain empties. When none does, the domains are
      the greatest arc-consistent sub-domains of the given ones. */
  method Propagate(p: Problem, initial: Domains)
    returns (consistent: bool, pruned: nat, domains: Domains)
    requires ScopesKnown(p) && |initial| == |p.variables|
    ensures Narrowed(p, initial, domains, pruned)
    ensures consistent ==> ArcConsistent(p, domains) && (NoneEmpty(initial) ==> NoneEmpty(domains))
    ensures !consistent ==> exists n :: 0 <= n < |domains| && domains[n] == {}
  {
    domains := initial;
    pruned := 0;
    var changed := true;
    while changed
      invariant Revised(p, initial, domains, pruned)
      invariant !changed ==> FirstConsistent(p, domains, |p.constraints|)
      decreases Size(initial) - pruned + if changed then 1 else 0
    {
      changed := false;
      ghost var start := pruned;
      for k := 0 to |p.constraints|
        invariant Revised(p, initial, domains, pruned)
        invariant if changed then start < pruned else start == pruned
        invariant !changed ==> FirstConsistent(p, domains, k)
      {
        var before := pruned;
        var emptied;
        emptied, pruned, domains := ReviseConstraint(p, initial, k, domains, pruned);
        if emptied {
          return false, pruned, domains;
        }
        changed := changed || pruned > before;
      }
    }
    return true, pruned, domains;
  }

  lemma RevisionStep(p: Problem, initial: Domains, k: nat, pos: nat, d: Domains, pruned: nat)
    requires k < |p.constraints| && pos < |p.constraints[k].scope| && p.constraints[k].scope[pos] < |d|
    requires Revised(p, initial, d, pruned)
    ensures var c := p.constraints[k];
            var n := c.scope[pos]; var remove := d[n] - Supported(c, d, pos); var r := d[n := d[n] - remove];
            && Narrowed(p, initial, r, pruned + |remove|)
            && (d[n] - remove != {} ==> Revised(p, initial, r, pruned + |remove|))
            && (remove != {} ==> Size(r) < Size(d))
  {
    var c := p.constraints[k];
    var n := c.scope[pos];
    var remove := d[n] - Supported(c, d, pos);
    var r := d[n := d[n] - remove];
    assert d[n] - remove == d[n] * Supported(c, d, pos);
    assert |d[n]| == |remove| + |d[n] - remove| by {
      assert d[n] == remove + (d[n] - remove);
    }
    SizeUpdate(d, n, d[n] - remove);
    forall e | SubDomains(e, initial) && ArcConsistent(p, e) ensures SubDomains(e, r) {
      assert ConsistentFor(p.constraints[k], e);
      RevisionKeepsConsistent(c, d, pos, e);
    }
  }
}
