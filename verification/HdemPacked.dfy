/** The packed solver: propagate, then split the smallest open domain, with a memo of states seen. */
module HdemPacked {
  import opened Options
  import opened Order
  import opened HdemModel
  import opened HdemPropagation

  // ---- What a search state owes the result ---------------------------------------------------

  /** Every solution inside `d` already has its world. */
  ghost predicate Covers(p: Problem, worlds: set<World>, d: Domains) {
    forall a {:trigger Within(a, d)} | Solution(p, a) && Within(a, d) :: WorldOf(p, a) in worlds
  }

  ghost predicate Covered(p: Problem, worlds: set<World>, ds: set<Domains>) {
    forall d | d in ds :: Covers(p, worlds, d)
  }

  ghost predicate AllGenuine(p: Problem, worlds: set<World>) {
    forall w {:trigger Genuine(p, w)} | w in worlds :: Genuine(p, w)
  }

  /** Covering every value of a split covers the whole state. */
  lemma SplitsCover(p: Problem, worlds: set<World>, d: Domains, n: Name)
    requires n < |d|
    requires forall x | x in d[n] :: Covers(p, worlds, d[n := {x}])
    ensures Covers(p, worlds, d)
  {
    forall a | Solution(p, a) && Within(a, d) ensures WorldOf(p, a) in worlds {
      assert Covers(p, worlds, d[n := {a[n]}]);
      assert Within(a, d[n := {a[n]}]);
    }
  }

  lemma PruningCovers(p: Problem, worlds: set<World>, d: Domains, local: Domains)
    requires WellFormed(p) && AboveConsistent(p, d, local) && Covers(p, worlds, local)
    ensures Covers(p, worlds, d)
  {
    forall a | Solution(p, a) && Within(a, d) ensures WorldOf(p, a) in worlds {
      SolutionSurvives(p, d, local, a);
    }
  }

  /** A consistent state without open variables is exactly one solution, and recording its world
      covers the state. */
  lemma LeafCovers(p: Problem, domains: Domains, local: Domains, a: Assignment, worlds: set<World>)
    requires WellFormed(p) && SubDomains(domains, InitialDomains(p)) && SubDomains(local, domains)
    requires AboveConsistent(p, domains, local) && ArcConsistent(p, local)
    requires |a| == |local| && forall n | 0 <= n < |local| :: local[n] == {a[n]}
    requires AllGenuine(p, worlds)
    ensures AllGenuine(p, worlds + {WorldOf(p, a)})
    ensures |worlds + {WorldOf(p, a)}| <= |worlds| + 1
    ensures Covers(p, worlds + {WorldOf(p, a)}, domains)
  {
    var w := WorldOf(p, a);
    SingletonFixpointIsSolution(p, local, a);
    assert Genuine(p, w);
    forall b | Solution(p, b) && Within(b, local) ensures b == a {
      forall n | 0 <= n < |b| ensures b[n] == a[n] {
        assert b[n] in local[n];
      }
    }
    PruningCovers(p, worlds + {w}, domains, local);
  }

  predicate Open(d: Domains, n: int) {
    0 <= n < |d| && |d[n]| > 1
  }

  /** The open variable with the fewest values, the least name among equals. */
  method PickOpen(d: Domains) returns (choice: Option<Name>)
    ensures choice.None? <==> forall n :: !Open(d, n)
    ensures choice.Some? ==> Open(d, choice.value)
    ensures choice.Some? ==> forall n | Open(d, n) ::
              |d[choice.value]| < |d[n]| || (|d[choice.value]| == |d[n]| && choice.value <= n)
  {
    choice := None;
    for i := 0 to |d|
      invariant choice.None? ==> forall n | 0 <= n < i :: !Open(d, n)
      invariant choice.Some? ==> choice.value < i && Open(d, choice.value)
      invariant choice.Some? ==> forall n | 0 <= n < i && Open(d, n) ::
                  |d[choice.value]| < |d[n]| || (|d[choice.value]| == |d[n]| && choice.value <= n)
    {
      if |d[i]| > 1 && (choice.None? || |d[i]| < |d[choice.value]|) {
        choice := Some(i);
      }
    }
  }

  function TheValue(s: set<Val>): (x: Val)
    requires s != {}
    ensures x in s
  {
    Sorted(s)[0]
  }

  lemma ClosedIsSingleton(d: Domains, n: Name)
    requires NoneEmpty(d) && n < |d| && !Open(d, n)
    ensures d[n] == {TheValue(d[n])}
  {
    SmallSets(d[n]);
  }

  class PackedSearch {
    const problem: Problem
    const maxStates: nat
    const maxWorlds: nat
    var worlds: set<World>
    var visited: set<Domains>
    var explored: nat
    var pruned: nat
    var exhausted: bool

    ghost predicate Valid()
      reads this
    {
      && WellFormed(problem) && ScopesKnown(problem)
      && AllGenuine(problem, worlds)
      && explored == |visited| <= maxStates
      && |worlds| <= maxWorlds + 1
      && (!exhausted ==> |worlds| <= maxWorlds)
      && (exhausted ==> explored == maxStates || |worlds| > maxWorlds)
    }

    constructor (p: Problem, maxStates: nat, maxWorlds: nat)
      requires WellFormed(p)
      ensures Valid() && problem == p && this.maxStates == maxStates && this.maxWorlds == maxWorlds
      ensures worlds == {} && visited == {} && !exhausted && explored == 0 && pruned == 0
    {
      problem, this.maxStates, this.maxWorlds := p, maxStates, maxWorlds;
      worlds, visited, explored, pruned, exhausted := {}, {}, 0, 0, false;
      WellFormedScopes(p);
    }

    /** The memo is honest below a size: what it holds there is covered. */
    ghost predicate MemoCovered(size: nat)
      reads this
    {
      forall d | d in visited && Size(d) <= size :: Covers(problem, worlds, d)
    }

    /** Explores one state. Unless the budget ran out, every solution inside it has its world
        afterwards, and so has every state this call added to the memo. A state the memo already
        holds is skipped: it is covered, because the states still open are strictly larger. */
    method Visit(domains: Domains)
      requires Valid() && SubDomains(domains, InitialDomains(problem)) && NoneEmpty(domains)
      requires !exhausted ==> MemoCovered(Size(domains))
      modifies this`worlds, this`visited, this`explored, this`pruned, this`exhausted
      ensures Valid()
      ensures old(worlds) <= worlds && old(visited) <= visited
      ensures old(exhausted) ==> exhausted
      ensures !exhausted ==> Covers(problem, worlds, domains)
      ensures !exhausted ==> Covered(problem, worlds, visited - old(visited))
      decreases Size(domains)
    {
      if exhausted {
        return;
      }
      if domains in visited {
        return;
      }
      if explored >= maxStates {
        exhausted := true;
        return;
      }
      visited := visited + {domains};
      explored := explored + 1;
      var consistent, removed, local := Propagate(problem, domains);
      pruned := pruned + removed;
      if !consistent {
        PruningCovers(problem, worlds, domains, local);
        assert visited - old(visited) == {domains};
        return;
      }
      var choice := PickOpen(local);
      if choice.None? {
        Record(domains, local);
        assert visited - old(visited) == {domains};
        return;
      }
      SplitAll(domains, local, choice.value, old(visited));
    }

    /** The leaf of `Visit`: every variable is settled, so the state is one solution. */
    method Record(domains: Domains, local: Domains)
      requires Valid() && !exhausted
      requires SubDomains(domains, InitialDomains(problem)) && SubDomains(local, domains) && NoneEmpty(local)
      requires AboveConsistent(problem, domains, local) && ArcConsistent(problem, local)
      requires forall n :: !Open(local, n)
      modifies this`worlds, this`exhausted
      ensures Valid() && old(worlds) <= worlds && Covers(problem, worlds, domains)
    {
      var assignment := seq(|local|, n requires 0 <= n < |local| && local[n] != {} => TheValue(local[n]));
      forall n | 0 <= n < |local| ensures local[n] == {assignment[n]} {
        ClosedIsSingleton(local, n);
      }
      LeafCovers(problem, domains, local, assignment, worlds);
      worlds := worlds + {WorldOf(problem, assignment)};
      if |worlds| > maxWorlds {
        exhausted := true;
      }
    }

    /** The loop of `Visit` over the values of the chosen variable, in ascending order. */
    method SplitAll(domains: Domains, local: Domains, name: Name, ghost before: set<Domains>)
      requires Valid() && !exhausted
      requires SubDomains(domains, InitialDomains(problem)) && SubDomains(local, domains) && NoneEmpty(local)
      requires AboveConsistent(problem, domains, local) && Size(local) <= Size(domains) && Open(local, name)
      requires visited == before + {domains}
      requires forall d | d in before && Size(d) <= Size(domains) :: Covers(problem, worlds, d)
      modifies this`worlds, this`visited, this`explored, this`pruned, this`exhausted
      ensures Valid()
      ensures old(worlds) <= worlds && old(visited) <= visited
      ensures !exhausted ==> Covers(problem, worlds, domains)
      ensures !exhausted ==> Covered(problem, worlds, visited - before)
      decreases Size(domains), 0
    {
      var values := Sorted(local[name]);
      for i := 0 to |values|
        invariant Valid()
        invariant old(worlds) <= worlds && old(visited) <= visited
        invariant !exhausted ==> forall j | 0 <= j < i :: Covers(problem, worlds, local[name := {values[j]}])
        invariant !exhausted ==> Covered(problem, worlds, visited - old(visited))
      {
        var child := local[name := {values[i]}];
        SizeUpdate(local, name, {values[i]});
        ghost var earlier, known := worlds, visited;
        Visit(child);
        if !exhausted {
          assert visited - old(visited) == (known - old(visited)) + (visited - known);
        }
      }
      if !exhausted {
        forall x | x in local[name] ensures Covers(problem, worlds, local[name := {x}]) {
          assert x in values;
        }
        SplitsCover(problem, worlds, local, name);
        PruningCovers(problem, worlds, domains, local);
        assert visited - before <= (visited - old(visited)) + {domains};
      }
    }
  }

}
