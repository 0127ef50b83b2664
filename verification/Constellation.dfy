/** Constraint propagation over question constellations: in-place passes to the greatest supported
    sub-domains. */
module Constellation {
  import opened Options

  datatype Candidate = Candidate(id: nat, charges: map<nat, nat>)
  datatype Edge = Edge(left: nat, right: nat, generator: nat)

  /** Changed fields with their value on both sides. */
  type Delta = map<nat, (nat, nat)>
  type Domains = map<nat, set<Candidate>>
  type Generators = map<nat, set<Delta>>

  /** The text shown for a missing charge. */
  const DASH: nat := 0

  function Charge(c: Candidate, field: nat): Option<nat> {
    if field in c.charges then Some(c.charges[field]) else None
  }

  function Text(v: Option<nat>): nat {
    if v.Some? then v.value else DASH
  }

  function ProgramDelta(left: Candidate, right: Candidate): Delta {
    map f | f in left.charges.Keys + right.charges.Keys && Charge(left, f) != Charge(right, f) ::
      (Text(Charge(left, f)), Text(Charge(right, f)))
  }

  // ---- What a delta means ----------------------------------------------------------------------------

  /** The charges with some fields rewritten; a dash removes the field. */
  function Rewritten(charges: map<nat, nat>, texts: map<nat, nat>): map<nat, nat> {
    map f | f in charges.Keys + texts.Keys && (f in texts ==> texts[f] != DASH) ::
      if f in texts then texts[f] else charges[f]
  }

  function Before(delta: Delta): map<nat, nat> {
    map f | f in delta :: delta[f].0
  }

  function After(delta: Delta): map<nat, nat> {
    map f | f in delta :: delta[f].1
  }

  /** Every dash among these charges stands in the others too. */
  predicate DashesKept(charges: map<nat, nat>, others: map<nat, nat>) {
    forall f | f in charges && charges[f] == DASH :: f in others && others[f] == DASH
  }

  /** Nothing changes exactly between equal charges. */
  lemma EmptyDeltaIffEqual(left: Candidate, right: Candidate)
    ensures ProgramDelta(left, right) == map[] <==> left.charges == right.charges
  {
    var delta := ProgramDelta(left, right);
    if delta == map[] {
      forall f ensures f in left.charges <==> f in right.charges {
        assert f !in delta;
      }
      forall f | f in left.charges ensures left.charges[f] == right.charges[f] {
        assert f !in delta;
      }
    }
    if left.charges == right.charges {
      forall f ensures f !in delta {}
      assert delta.Keys == {};
    }
  }

  /** Carrying a delta out turns the left charges into the right ones, and undoing it turns them back, exactly
      when the dash that stands for a missing field is not a charge of its own. */
  lemma DeltaCarriesOver(left: Candidate, right: Candidate)
    ensures var delta := ProgramDelta(left, right);
            && (Rewritten(left.charges, After(delta)) == right.charges <==> DashesKept(right.charges, left.charges))
            && (Rewritten(right.charges, Before(delta)) == left.charges <==> DashesKept(left.charges, right.charges))
  {
    DeltaCarriedOut(left, right);
    DeltaCarriedOut(right, left);
    assert Before(ProgramDelta(left, right)) == After(ProgramDelta(right, left));
  }

  lemma DeltaCarriedOut(left: Candidate, right: Candidate)
    ensures Rewritten(left.charges, After(ProgramDelta(left, right))) == right.charges
            <==> DashesKept(right.charges, left.charges)
  {
    var made := Rewritten(left.charges, After(ProgramDelta(left, right)));
    if made == right.charges {
      forall f | f in right.charges && right.charges[f] == DASH ensures f in left.charges && left.charges[f] == DASH {
        assert f in made;
      }
    }
    if DashesKept(right.charges, left.charges) {
      forall f ensures f in made <==> f in right.charges {}
      forall f | f in made ensures made[f] == right.charges[f] {}
    }
  }

  /** A delta rewrites no more than it must: whatever turns the left charges into the right ones rewrites all
      of its fields. */
  lemma DeltaIsLeast(left: Candidate, right: Candidate, texts: map<nat, nat>)
    requires Rewritten(left.charges, texts) == right.charges
    ensures ProgramDelta(left, right).Keys <= texts.Keys
  {
    forall f | f !in texts ensures Charge(left, f) == Charge(right, f) {
      assert f in left.charges <==> f in Rewritten(left.charges, texts);
    }
  }

  /** From one left candidate, equal deltas lead to equal charges. */
  lemma DeltaDetermines(left: Candidate, right: Candidate, other: Candidate)
    requires DashesKept(right.charges, left.charges) && DashesKept(other.charges, left.charges)
    requires ProgramDelta(left, right) == ProgramDelta(left, other)
    ensures right.charges == other.charges
  {
    DeltaCarriesOver(left, right);
    DeltaCarriesOver(left, other);
  }

  /** A charge that is the dash itself: the delta cannot tell it from a missing field. */
  lemma DashConfused()
    ensures var bare, dashed, five := Candidate(0, map[]), Candidate(1, map[2 := DASH]), Candidate(2, map[2 := 5]);
            ProgramDelta(five, bare) == ProgramDelta(five, dashed) && bare.charges != dashed.charges
  {
    var bare, dashed := Candidate(0, map[]), Candidate(1, map[2 := DASH]);
    var five := Candidate(2, map[2 := 5]);
    assert ProgramDelta(five, bare) == map[2 := (5, DASH)];
    assert ProgramDelta(five, dashed) == map[2 := (5, DASH)];
    assert 2 in dashed.charges && 2 !in bare.charges;
  }

  // ---- Solutions and supported sub-domains -----------------------------------------------------------

  ghost predicate Covers(d: Domains, edges: seq<Edge>) {
    forall e | e in edges :: e.left in d && e.right in d && e.left != e.right
  }

  /** One candidate a question and one delta a generator, meeting every edge. */
  ghost predicate Solution(initial: Domains, edges: seq<Edge>, f: map<nat, Candidate>, g: map<nat, Delta>) {
    && (forall q :: q in f <==> q in initial)
    && (forall q | q in initial :: f[q] in initial[q])
    && (forall e | e in edges ::
          e.left in f && e.right in f && e.generator in g && ProgramDelta(f[e.left], f[e.right]) == g[e.generator])
    && (forall x | x in g :: exists e :: e in edges && e.generator == x)
  }

  ghost predicate Possible(d: Domains, e: Edge, delta: Delta) {
    exists l, r :: e.left in d && e.right in d && l in d[e.left] && r in d[e.right] && ProgramDelta(l, r) == delta
  }

  /** Every edge of the generator can realize the delta. */
  ghost predicate Shared(d: Domains, edges: seq<Edge>, generator: nat, delta: Delta) {
    forall e | e in edges && e.generator == generator :: Possible(d, e, delta)
  }

  /** Some peer across the edge goes with candidate `c` of question `q` under an allowed delta. */
  predicate Peer(d: Domains, e: Edge, q: nat, c: Candidate, allowed: set<Delta>) {
    if q == e.left then e.right in d && exists peer :: peer in d[e.right] && ProgramDelta(c, peer) in allowed
    else e.left in d && exists peer :: peer in d[e.left] && ProgramDelta(peer, c) in allowed
  }

  predicate Incident(e: Edge, q: nat) {
    q == e.left || q == e.right
  }

  predicate Supported(d: Domains, edges: seq<Edge>, generators: Generators, q: nat, c: Candidate) {
    forall i | 0 <= i < |edges| && Incident(edges[i], q) ::
      edges[i].generator in generators && Peer(d, edges[i], q, c, generators[edges[i].generator])
  }

  /** The deltas of the generators are exactly the shared ones of the domains. */
  ghost predicate GeneratorsOf(d: Domains, edges: seq<Edge>, generators: Generators) {
    && (forall x :: x in generators <==> exists e :: e in edges && e.generator == x)
    && forall x, delta | x in generators :: delta in generators[x] <==> Shared(d, edges, x, delta)
  }

  /** Domains in which every candidate is supported by the domains themselves. */
  ghost predicate SelfSupported(d: Domains, edges: seq<Edge>, generators: Generators) {
    && GeneratorsOf(d, edges, generators)
    && forall q, c | q in d && c in d[q] :: Supported(d, edges, generators, q, c)
  }

  ghost predicate Sub(e: Domains, d: Domains) {
    && (forall q :: q in e <==> q in d)
    && forall q | q in d :: e[q] <= d[q]
  }

  /** Above every self-supported part of the initial domains. */
  ghost predicate Above(initial: Domains, edges: seq<Edge>, d: Domains) {
    forall e, g {:trigger SelfSupported(e, edges, g)} | Sub(e, initial) && SelfSupported(e, edges, g) :: Sub(e, d)
  }

  /** The greatest self-supported part. */
  ghost predicate Greatest(initial: Domains, edges: seq<Edge>, d: Domains, generators: Generators) {
    Sub(d, initial) && SelfSupported(d, edges, generators) && Above(initial, edges, d)
  }

  /** There is only one, so the order of the passes cannot matter. */
  lemma GreatestIsUnique(initial: Domains, edges: seq<Edge>, d: Domains, g: Generators, e: Domains, h: Generators)
    requires Greatest(initial, edges, d, g) && Greatest(initial, edges, e, h)
    ensures d == e && g == h
  {
    assert Sub(d, e) && Sub(e, d);
    forall q | q in d ensures d[q] == e[q] {}
    assert d == e;
    forall x | x in g ensures g[x] == h[x] {
      forall delta ensures delta in g[x] <==> delta in h[x] {}
    }
  }

  /** A candidate of a self-supported part passes any test against larger domains and the shared
      deltas of still larger ones: the in-place passes may use stale generators. */
  lemma PartSurvives(e: Domains, h: Generators, earlier: Domains, now: Domains, edges: seq<Edge>, g: Generators,
                     q: nat, c: Candidate)
    requires SelfSupported(e, edges, h) && Sub(e, earlier) && Sub(e, now) && GeneratorsOf(earlier, edges, g)
    requires q in e && c in e[q]
    ensures Supported(now, edges, g, q, c)
  {
    forall i | 0 <= i < |edges| && Incident(edges[i], q)
      ensures edges[i].generator in g && Peer(now, edges[i], q, c, g[edges[i].generator])
    {
      var x := edges[i].generator;
      assert edges[i] in edges;
      assert Supported(e, edges, h, q, c);
      assert Peer(e, edges[i], q, c, h[x]);
      forall delta | delta in h[x] ensures delta in g[x] {}
    }
  }

  ghost function Pinned(f: map<nat, Candidate>): Domains {
    map q | q in f :: {f[q]}
  }

  ghost function PinnedDeltas(g: map<nat, Delta>): Generators {
    map x | x in g :: {g[x]}
  }

  lemma PinnedGenerators(initial: Domains, edges: seq<Edge>, f: map<nat, Candidate>, g: map<nat, Delta>)
    requires Solution(initial, edges, f, g)
    ensures GeneratorsOf(Pinned(f), edges, PinnedDeltas(g))
  {
    forall x, delta | x in g ensures delta == g[x] <==> Shared(Pinned(f), edges, x, delta) {
      var e :| e in edges && e.generator == x;
      forall e' | e' in edges && e'.generator == x ensures Possible(Pinned(f), e', delta) <==> delta == g[x] {}
    }
  }

  /** A solution is a self-supported part with one candidate a question. */
  lemma SolutionIsSupported(initial: Domains, edges: seq<Edge>, f: map<nat, Candidate>, g: map<nat, Delta>)
    requires Solution(initial, edges, f, g)
    ensures Sub(Pinned(f), initial) && SelfSupported(Pinned(f), edges, PinnedDeltas(g))
  {
    var d, h := Pinned(f), PinnedDeltas(g);
    PinnedGenerators(initial, edges, f, g);
    forall q, c | q in d && c in d[q] ensures Supported(d, edges, h, q, c) {
      forall i | 0 <= i < |edges| && Incident(edges[i], q)
        ensures edges[i].generator in h && Peer(d, edges[i], q, c, h[edges[i].generator])
      {}
    }
  }

  lemma SolutionSurvives(initial: Domains, edges: seq<Edge>, d: Domains, f: map<nat, Candidate>, g: map<nat, Delta>)
    requires Solution(initial, edges, f, g) && Above(initial, edges, d)
    ensures forall q | q in f :: q in d && f[q] in d[q]
  {
    SolutionIsSupported(initial, edges, f, g);
    assert Sub(Pinned(f), d);
    forall q | q in f ensures q in d && f[q] in d[q] {
      assert f[q] in Pinned(f)[q];
    }
  }

  ghost predicate Solvable(initial: Domains, edges: seq<Edge>) {
    exists f, g :: Solution(initial, edges, f, g)
  }

  // ---- The propagation loop ------------------------------------------------------------------------

  datatype State = Resolved | Open | Conflict
  datatype Result =
    | Rejected
    | Propagated(state: State, domains: Domains, generators: Generators, iterations: nat)

  ghost predicate SharedAmong(d: Domains, edges: seq<Edge>, k: nat, generator: nat, delta: Delta)
    requires k <= |edges|
  {
    forall j | 0 <= j < k && edges[j].generator == generator :: Possible(d, edges[j], delta)
  }

  /** Intersects, generator by generator, the deltas its edges can realize. */
  method SharedDeltas(d: Domains, edges: seq<Edge>) returns (generators: Generators)
    requires Covers(d, edges)
    ensures GeneratorsOf(d, edges, generators)
  {
    generators := map[];
    for k := 0 to |edges|
      invariant forall x :: x in generators <==> exists j :: 0 <= j < k && edges[j].generator == x
      invariant forall x, delta | x in generators :: delta in generators[x] <==> SharedAmong(d, edges, k, x, delta)
    {
      var e := edges[k];
      assert e in edges;
      var possible := set l, r | l in d[e.left] && r in d[e.right] :: ProgramDelta(l, r);
      ghost var before := generators;
      forall delta ensures delta in possible <==> Possible(d, e, delta) {}
      var left := if e.generator in generators then generators[e.generator] * possible else possible;
      generators := generators[e.generator := left];
      forall x, delta | x in generators ensures delta in generators[x] <==> SharedAmong(d, edges, k + 1, x, delta) {
        if x != e.generator {
          assert x in before && (delta in before[x] <==> SharedAmong(d, edges, k, x, delta));
        } else if x in before {
          assert delta in before[x] <==> SharedAmong(d, edges, k, x, delta);
        }
      }
    }
    forall x, delta | x in generators ensures delta in generators[x] <==> Shared(d, edges, x, delta) {
      assert SharedAmong(d, edges, |edges|, x, delta) <==> Shared(d, edges, x, delta) by {
        forall j | 0 <= j < |edges| ensures edges[j] in edges {}
        forall e | e in edges ensures exists j :: 0 <= j < |edges| && edges[j] == e {}
      }
    }
  }

  function Total(order: seq<nat>, d: Domains, k: nat): nat
    requires k <= |order|
  {
    if k == 0 then 0 else Total(order, d, k - 1) + if order[k - 1] in d then |d[order[k - 1]]| else 0
  }

  predicate Inhabited(d: Domains) {
    forall q | q in d :: d[q] != {}
  }

  lemma {:induction false} TotalAtLeastOneEach(order: seq<nat>, d: Domains, k: nat)
    requires k <= |order| && Inhabited(d) && forall i | 0 <= i < |order| :: order[i] in d
    ensures Total(order, d, k) >= k
  {
    if k > 0 {
      TotalAtLeastOneEach(order, d, k - 1);
      assert d[order[k - 1]] != {};
    }
  }

  lemma {:induction false} TotalAfterUpdate(order: seq<nat>, d: Domains, i: nat, s: set<Candidate>, k: nat)
    requires k <= |order| && i < |order| && order[i] in d
    requires forall a, b | 0 <= a < b < |order| :: order[a] != order[b]
    ensures Total(order, d[order[i] := s], k) == Total(order, d, k) + if i < k then |s| - |d[order[i]]| else 0
  {
    if k > 0 {
      TotalAfterUpdate(order, d, i, s, k - 1);
    }
  }

  /** Every question once. */
  ghost predicate Enumerates(order: seq<nat>, d: Domains) {
    && (forall a, b | 0 <= a < b < |order| :: order[a] != order[b])
    && (forall q :: q in d <==> q in order)
  }

  /** The state of a pass: `now` narrows `start`, strictly unless it is `start` itself. */
  ghost predicate Narrowed(order: seq<nat>, start: Domains, now: Domains) {
    && Sub(now, start) && Inhabited(now)
    && (if now == start then true else Total(order, now, |order|) < Total(order, start, |order|))
  }

  lemma NarrowStep(order: seq<nat>, start: Domains, now: Domains, i: nat, survivors: set<Candidate>)
    requires i < |order| && Enumerates(order, start) && Narrowed(order, start, now)
    requires order[i] in now && survivors <= now[order[i]] && survivors != {}
    ensures Narrowed(order, start, now[order[i] := survivors])
    ensures now[order[i] := survivors] == start ==> now == start && survivors == start[order[i]]
  {
    var q := order[i];
    var next := now[q := survivors];
    TotalAfterUpdate(order, now, i, survivors, |order|);
    if survivors == now[q] {
      assert next == now;
    } else {
      assert now[q] == survivors + (now[q] - survivors);
      assert |now[q] - survivors| > 0;
      assert Total(order, next, |order|) < Total(order, now, |order|);
    }
  }

  /** Filtering against narrowed domains and the deltas of the pass's start loses no part. */
  lemma FilterKeepsAbove(initial: Domains, edges: seq<Edge>, start: Domains, now: Domains, g: Generators,
                         q: nat, survivors: set<Candidate>)
    requires Above(initial, edges, start) && Above(initial, edges, now) && GeneratorsOf(start, edges, g)
    requires q in now && survivors == set c | c in now[q] && Supported(now, edges, g, q, c)
    ensures Above(initial, edges, now[q := survivors])
  {
    hide SelfSupported, Supported, GeneratorsOf;
    forall e, h | Sub(e, initial) && SelfSupported(e, edges, h) ensures Sub(e, now[q := survivors]) {
      assert Sub(e, start) && Sub(e, now);
      forall c | c in e[q] ensures c in survivors {
        PartSurvives(e, h, start, now, edges, g, q, c);
      }
    }
  }

  /** The questions filtered so far, when none lost a candidate. */
  ghost predicate FilteredUpTo(edges: seq<Edge>, order: seq<nat>, start: Domains, g: Generators, k: nat)
    requires k <= |order|
  {
    forall j, c | 0 <= j < k && order[j] in start && c in start[order[j]] :: Supported(start, edges, g, order[j], c)
  }

  ghost predicate Emptied(initial: Domains, edges: seq<Edge>, q: nat, d: Domains) {
    q in initial && q in d && d[q] == {} && Above(initial, edges, d)
  }

  /** One pass over the questions, each filtered in place against the already filtered others. */
  method FilterPass(edges: seq<Edge>, order: seq<nat>, start: Domains, generators: Generators, ghost initial: Domains)
    returns (conflict: bool, now: Domains)
    requires Enumerates(order, start) && Inhabited(start) && Sub(start, initial)
    requires GeneratorsOf(start, edges, generators) && Above(initial, edges, start)
    ensures !conflict ==> Narrowed(order, start, now) && Above(initial, edges, now)
    ensures !conflict && now == start ==> SelfSupported(start, edges, generators)
    ensures conflict ==> exists q, d :: Emptied(initial, edges, q, d)
  {
    now := start;
    for i := 0 to |order|
      invariant Narrowed(order, start, now) && Above(initial, edges, now)
      invariant now == start ==> FilteredUpTo(edges, order, start, generators, i)
    {
      var q := order[i];
      assert q in start;
      var survivors := set c | c in now[q] && Supported(now, edges, generators, q, c);
      FilterKeepsAbove(initial, edges, start, now, generators, q, survivors);
      if survivors == {} {
        assert Emptied(initial, edges, q, now[q := survivors]);
        return true, now;
      }
      NarrowStep(order, start, now, i, survivors);
      now := now[q := survivors];
    }
    return false, now;
  }

  predicate Accepts(given: map<nat, seq<Candidate>>, edges: seq<Edge>) {
    && given != map[] && edges != []
    && (forall q | q in given ::
          given[q] != [] && forall i, j | 0 <= i < j < |given[q]| :: given[q][i].id != given[q][j].id)
    && (forall e | e in edges :: e.left in given && e.right in given)
  }

  function AsDomains(given: map<nat, seq<Candidate>>): Domains {
    map q | q in given :: set c | c in given[q]
  }

  /** What the result says, whatever the visiting order: a conflict exactly when no self-supported part gives
      every question a candidate; otherwise the domains and deltas of the greatest such part, resolved exactly
      when they leave no choice. */
  ghost predicate Verdict(initial: Domains, edges: seq<Edge>, r: Result)
    requires r.Propagated?
  {
    && (r.state == Conflict <==> NoPart(initial, edges))
    && (r.state != Conflict ==> Greatest(initial, edges, r.domains, r.generators) && Inhabited(r.domains))
    && (r.state != Conflict ==> (r.state == Resolved <==> Settled(r.domains, r.generators)))
  }

  /** The order of the questions cannot change the state, nor the domains and deltas short of a conflict. */
  lemma OrderDoesNotMatter(initial: Domains, edges: seq<Edge>, r: Result, s: Result)
    requires r.Propagated? && s.Propagated? && Verdict(initial, edges, r) && Verdict(initial, edges, s)
    ensures r.state == s.state
    ensures r.state != Conflict ==> r.domains == s.domains && r.generators == s.generators
  {
    if r.state != Conflict && s.state != Conflict {
      GreatestIsUnique(initial, edges, r.domains, r.generators, s.domains, s.generators);
    }
  }

  /** Propagates to the greatest self-supported sub-domains. A conflict also means that there is no solution;
      otherwise the domains hold every solution, and a resolved result is the one solution there is. */
  method Propagate(given: map<nat, seq<Candidate>>, edges: seq<Edge>, order: seq<nat>) returns (r: Result)
    requires Enumerates(order, AsDomains(given))
    requires forall e | e in edges :: e.left != e.right
    ensures r.Rejected? <==> !Accepts(given, edges)
    ensures r.Propagated? ==> Verdict(AsDomains(given), edges, r)
    ensures r.Propagated? && r.state == Conflict ==> !Solvable(AsDomains(given), edges)
    ensures r.Propagated? ==> 1 <= r.iterations <= 1 + Total(order, AsDomains(given), |order|) - |order|
  {
    if !Accepts(given, edges) {
      return Rejected;
    }
    var mutable := AsDomains(given);
    ghost var initial := mutable;
    GivenInhabited(given);
    var iterations: nat := 0;
    TotalAtLeastOneEach(order, mutable, |order|);
    while true
      invariant Sub(mutable, initial) && Inhabited(mutable) && Above(initial, edges, mutable)
      invariant Enumerates(order, mutable) && Covers(mutable, edges)
      invariant iterations + Total(order, mutable, |order|) <= Total(order, initial, |order|)
      decreases Total(order, mutable, |order|)
    {
      iterations := iterations + 1;
      var before := mutable;
      TotalAtLeastOneEach(order, mutable, |order|);
      var generators := SharedDeltas(mutable, edges);
      if exists x :: x in generators && generators[x] == {} {
        NothingShared(initial, edges, mutable, generators);
        NoPartNoSolution(initial, edges);
        return Propagated(Conflict, mutable, map[], iterations);
      }
      var conflict;
      conflict, mutable := FilterPass(edges, order, mutable, generators, initial);
      if conflict {
        NobodySupported(initial, edges);
        NoPartNoSolution(initial, edges);
        return Propagated(Conflict, mutable, generators, iterations);
      }
      if mutable == before {
        var resolved := Settled(mutable, generators);
        return Propagated(if resolved then Resolved else Open, mutable, generators, iterations);
      }
    }
  }

  predicate Settled(d: Domains, generators: Generators) {
    && (forall q | q in d :: |d[q]| == 1)
    && (forall x | x in generators :: |generators[x]| == 1)
  }

  lemma GivenInhabited(given: map<nat, seq<Candidate>>)
    requires forall q | q in given :: given[q] != []
    ensures Inhabited(AsDomains(given))
  {
    forall q | q in given ensures AsDomains(given)[q] != {} {
      assert given[q][0] in AsDomains(given)[q];
    }
  }

  /** No self-supported part of these domains gives every question a candidate. */
  ghost predicate NoPart(initial: Domains, edges: seq<Edge>) {
    forall e, h {:trigger SelfSupported(e, edges, h)} | Sub(e, initial) && SelfSupported(e, edges, h) :: !Inhabited(e)
  }

  /** A generator without a shared delta leaves no inhabited part: it would have a delta of its own there. */
  lemma NothingShared(initial: Domains, edges: seq<Edge>, d: Domains, generators: Generators)
    requires Above(initial, edges, d) && GeneratorsOf(d, edges, generators) && Covers(initial, edges)
    requires exists x :: x in generators && generators[x] == {}
    ensures NoPart(initial, edges)
  {
    var x :| x in generators && generators[x] == {};
    forall e, h | Sub(e, initial) && SelfSupported(e, edges, h) ensures !Inhabited(e) {
      if Inhabited(e) {
        DeltaOfPart(e, edges, h, x);
        var delta :| delta in h[x];
        assert Sub(e, d) && Shared(e, edges, x, delta);
        SharedGrows(e, d, edges, x, delta);
        assert false;
      }
    }
  }

  lemma SharedGrows(e: Domains, d: Domains, edges: seq<Edge>, x: nat, delta: Delta)
    requires Sub(e, d) && Shared(e, edges, x, delta)
    ensures Shared(d, edges, x, delta)
  {
    forall edge | edge in edges && edge.generator == x ensures Possible(d, edge, delta) {
      assert Possible(e, edge, delta);
    }
  }

  /** In an inhabited self-supported part every generator has a shared delta. */
  lemma DeltaOfPart(e: Domains, edges: seq<Edge>, h: Generators, x: nat)
    requires SelfSupported(e, edges, h) && Inhabited(e) && Covers(e, edges)
    requires exists edge :: edge in edges && edge.generator == x
    ensures x in h && h[x] != {}
  {
    var edge :| edge in edges && edge.generator == x;
    var c :| c in e[edge.left];
    assert Supported(e, edges, h, edge.left, c);
    var i :| 0 <= i < |edges| && edges[i] == edge;
    assert Incident(edges[i], edge.left);
    assert Peer(e, edges[i], edge.left, c, h[x]);
  }

  /** A question left without a candidate has none in any part. */
  lemma NobodySupported(initial: Domains, edges: seq<Edge>)
    requires exists q, d :: Emptied(initial, edges, q, d)
    ensures NoPart(initial, edges)
  {
    var q: nat, d :| Emptied(initial, edges, q, d);
    forall e, h | Sub(e, initial) && SelfSupported(e, edges, h) ensures !Inhabited(e) {
      assert Sub(e, d);
      assert e[q] == {};
    }
  }

  /** Without an inhabited part there is no solution. */
  lemma NoPartNoSolution(initial: Domains, edges: seq<Edge>)
    requires NoPart(initial, edges)
    ensures !Solvable(initial, edges)
  {
    if f, g :| Solution(initial, edges, f, g) {
      SolutionIsSupported(initial, edges, f, g);
      assert Inhabited(Pinned(f));
      assert false;
    }
  }

  ghost function TheOne<X>(s: set<X>): (x: X)
    requires |s| == 1
    ensures s == {x}
  {
    var x :| x in s;
    assert |s - {x}| == 0;
    x
  }

  ghost function TheChoice(d: Domains): (f: map<nat, Candidate>)
    requires forall q | q in d :: |d[q]| == 1
    ensures forall q :: q in f <==> q in d
    ensures forall q | q in f :: d[q] == {f[q]}
  {
    map q | q in d :: TheOne(d[q])
  }

  ghost function TheDeltas(generators: Generators): (g: map<nat, Delta>)
    requires forall x | x in generators :: |generators[x]| == 1
    ensures forall x :: x in g <==> x in generators
    ensures forall x | x in g :: generators[x] == {g[x]}
  {
    map x | x in generators :: TheOne(generators[x])
  }

  lemma PossibleHere(d: Domains, e: Edge, delta: Delta, left: Candidate, right: Candidate)
    requires Possible(d, e, delta) && e.left in d && e.right in d && d[e.left] == {left} && d[e.right] == {right}
    ensures ProgramDelta(left, right) == delta
  {}

  lemma SettledEdge(d: Domains, edges: seq<Edge>, generators: Generators, e: Edge)
    requires Settled(d, generators) && GeneratorsOf(d, edges, generators) && e in edges
    ensures e.left in d && e.right in d && e.generator in generators
    ensures ProgramDelta(TheChoice(d)[e.left], TheChoice(d)[e.right]) == TheDeltas(generators)[e.generator]
  {
    var delta := TheDeltas(generators)[e.generator];
    assert delta in generators[e.generator];
    PossibleHere(d, e, delta, TheChoice(d)[e.left], TheChoice(d)[e.right]);
  }

  lemma SettledSolves(initial: Domains, edges: seq<Edge>, d: Domains, generators: Generators)
    requires Sub(d, initial) && GeneratorsOf(d, edges, generators) && Settled(d, generators)
    ensures Solution(initial, edges, TheChoice(d), TheDeltas(generators))
  {
    var f, g := TheChoice(d), TheDeltas(generators);
    forall e | e in edges
      ensures e.left in f && e.right in f && e.generator in g && ProgramDelta(f[e.left], f[e.right]) == g[e.generator]
    {
      SettledEdge(d, edges, generators, e);
    }
    forall q | q in initial ensures f[q] in initial[q] {
      assert f[q] in d[q];
    }
  }

  lemma SettledChoiceUnique(initial: Domains, edges: seq<Edge>, d: Domains, generators: Generators,
                            f: map<nat, Candidate>, g: map<nat, Delta>)
    requires Greatest(initial, edges, d, generators) && Settled(d, generators) && Solution(initial, edges, f, g)
    ensures f == TheChoice(d)
  {
    SolutionSurvives(initial, edges, d, f, g);
    forall q | q in f ensures f[q] == TheChoice(d)[q] {
      assert f[q] in d[q];
    }
  }

  lemma DeltasFollow(initial: Domains, edges: seq<Edge>, f: map<nat, Candidate>, g: map<nat, Delta>, h: map<nat, Delta>)
    requires Solution(initial, edges, f, g) && Solution(initial, edges, f, h)
    ensures g == h
  {
    forall x | x in g ensures x in h && g[x] == h[x] {
      var e :| e in edges && e.generator == x;
    }
    forall x | x in h ensures x in g {
      var e :| e in edges && e.generator == x;
    }
  }

  /** A settled greatest part is a solution, and the only one. */
  lemma ResolvedIsUniqueSolution(initial: Domains, edges: seq<Edge>, d: Domains, generators: Generators)
    requires Greatest(initial, edges, d, generators) && Settled(d, generators)
    ensures forall f, g :: Solution(initial, edges, f, g) <==> f == TheChoice(d) && g == TheDeltas(generators)
  {
    SettledSolves(initial, edges, d, generators);
    forall f, g | Solution(initial, edges, f, g) ensures f == TheChoice(d) && g == TheDeltas(generators) {
      SettledChoiceUnique(initial, edges, d, generators, f, g);
      DeltasFollow(initial, edges, f, g, TheDeltas(generators));
    }
  }
}
