/** Deterministic bounded proof paths between claims: best-first search with a hop cap. */
module ClaimPath {
  import opened Order

  datatype Polarity = Positive | Negative
  datatype Modality = Asserted | Modal | Unmarked

  datatype Claim = Claim(
    id: nat, source: nat, start: nat, end: nat, bytes: nat,
    lexical: set<nat>, anchors: set<nat>, relations: set<nat>, polarity: Polarity, modality: Modality)

  type Adjacency = map<nat, set<nat>>
  type Claims = map<nat, Claim>

  const MAX_HOPS := 12

  function Penalty(c: Claim): nat {
    (if c.polarity == Negative then 2 else 0) + if c.modality == Modal then 1 else 0
  }

  /** Neighbours are known claims. */
  predicate Closed(adj: Adjacency, claims: Claims) {
    && (forall u | u in adj :: u in claims)
    && (forall u, v | u in adj && v in adj[u] :: v in adj)
  }

  // ---- Paths and their keys ------------------------------------------------------------------------

  predicate Joined(adj: Adjacency, u: nat, v: nat) {
    u in adj && v in adj && v in adj[u]
  }

  predicate Walk(adj: Adjacency, start: nat, path: seq<nat>) {
    && path != [] && path[0] == start && start in adj
    && forall i | 0 <= i < |path| - 1 :: Joined(adj, path[i], path[i + 1])
  }

  /** A simple path of at most twelve edges. */
  predicate ProofPath(adj: Adjacency, start: nat, path: seq<nat>) {
    Walk(adj, start, path) && NoDuplicates(path) && |path| <= MAX_HOPS + 1
  }

  function Last(path: seq<nat>): nat
    requires path != []
  {
    path[|path| - 1]
  }

  function PenaltyUpTo(claims: Claims, path: seq<nat>, k: nat): nat
    requires k <= |path|
  {
    if k <= 1 then 0
    else PenaltyUpTo(claims, path, k - 1) + if path[k - 1] in claims then Penalty(claims[path[k - 1]]) else 0
  }

  /** Positions after the start whose claims are negative, and those whose claims are modal. */
  function NegativeSteps(claims: Claims, path: seq<nat>, k: nat): set<nat>
    requires k <= |path|
  {
    set i | 0 < i < k && path[i] in claims && claims[path[i]].polarity == Negative
  }

  function ModalSteps(claims: Claims, path: seq<nat>, k: nat): set<nat>
    requires k <= |path|
  {
    set i | 0 < i < k && path[i] in claims && claims[path[i]].modality == Modal
  }

  lemma NegativeStep(claims: Claims, path: seq<nat>, k: nat)
    requires 0 < k < |path|
    ensures |NegativeSteps(claims, path, k + 1)| == |NegativeSteps(claims, path, k)|
            + if path[k] in claims && claims[path[k]].polarity == Negative then 1 else 0
  {
    var before := NegativeSteps(claims, path, k);
    if path[k] in claims && claims[path[k]].polarity == Negative {
      assert NegativeSteps(claims, path, k + 1) == before + {k};
    } else {
      assert NegativeSteps(claims, path, k + 1) == before;
    }
  }

  lemma ModalStep(claims: Claims, path: seq<nat>, k: nat)
    requires 0 < k < |path|
    ensures |ModalSteps(claims, path, k + 1)| == |ModalSteps(claims, path, k)|
            + if path[k] in claims && claims[path[k]].modality == Modal then 1 else 0
  {
    var before := ModalSteps(claims, path, k);
    if path[k] in claims && claims[path[k]].modality == Modal {
      assert ModalSteps(claims, path, k + 1) == before + {k};
    } else {
      assert ModalSteps(claims, path, k + 1) == before;
    }
  }

  /** A path's penalty: two for every negative claim after its start and one for every modal one. */
  lemma {:induction false} PenaltyCounts(claims: Claims, path: seq<nat>, k: nat)
    requires k <= |path|
    ensures PenaltyUpTo(claims, path, k) == 2 * |NegativeSteps(claims, path, k)| + |ModalSteps(claims, path, k)|
  {
    if k <= 1 {
      assert NegativeSteps(claims, path, k) == {} && ModalSteps(claims, path, k) == {};
    } else {
      PenaltyCounts(claims, path, k - 1);
      NegativeStep(claims, path, k - 1);
      ModalStep(claims, path, k - 1);
      hide NegativeSteps, ModalSteps;
    }
  }

  datatype State = State(hops: nat, penalty: nat, path: seq<nat>)

  /** The search key of a path: edges, then the penalties after its start, then the ids. */
  function StateOf(claims: Claims, path: seq<nat>): State
    requires path != []
  {
    State(|path| - 1, PenaltyUpTo(claims, path, |path|), path)
  }

  predicate Less(a: State, b: State) {
    || a.hops < b.hops
    || (a.hops == b.hops && a.penalty < b.penalty)
    || (a.hops == b.hops && a.penalty == b.penalty && LexLess(a.path, b.path))
  }

  predicate Leq(a: State, b: State) {
    a == b || Less(a, b)
  }

  lemma LeqTransitive(a: State, b: State, c: State)
    requires Leq(a, b) && Leq(b, c)
    ensures Leq(a, c)
  {
    if a != b && b != c && LexLess(a.path, b.path) && LexLess(b.path, c.path) {
      LexTransitive(a.path, b.path, c.path);
    }
  }

  lemma LeqTotal(a: State, b: State)
    ensures Leq(a, b) || Leq(b, a)
  {
    LexTotal(a.path, b.path);
  }

  function Extend(claims: Claims, s: State, x: nat): State {
    State(s.hops + 1, s.penalty + (if x in claims then Penalty(claims[x]) else 0), s.path + [x])
  }

  lemma {:induction false} PenaltyOfPrefix(claims: Claims, path: seq<nat>, longer: seq<nat>, k: nat)
    requires k <= |path| <= |longer| && forall i | 0 <= i < k :: path[i] == longer[i]
    ensures PenaltyUpTo(claims, path, k) == PenaltyUpTo(claims, longer, k)
  {
    if k > 1 {
      PenaltyOfPrefix(claims, path, longer, k - 1);
    }
  }

  lemma StateOfExtended(claims: Claims, path: seq<nat>, x: nat)
    requires path != []
    ensures StateOf(claims, path + [x]) == Extend(claims, StateOf(claims, path), x)
  {
    PenaltyOfPrefix(claims, path, path + [x], |path|);
  }

  /** Going on from a no worse path to the same end is no worse. */
  lemma ExtendMonotone(claims: Claims, a: State, b: State, x: nat)
    requires Leq(a, b) && |a.path| == a.hops + 1 && |b.path| == b.hops + 1
    ensures Leq(Extend(claims, a, x), Extend(claims, b, x))
  {
    if a != b && a.hops == b.hops && a.penalty == b.penalty {
      LexAppend(a.path, b.path, x);
    }
  }

  lemma PrefixIsLeq(claims: Claims, path: seq<nat>, k: nat)
    requires 0 < k <= |path|
    ensures Leq(StateOf(claims, path[..k]), StateOf(claims, path))
  {
    if k == |path| {
      assert path[..k] == path;
    }
  }

  // ---- What the search keeps -----------------------------------------------------------------------

  ghost predicate Reaches(adj: Adjacency, claims: Claims, start: nat, s: State, v: nat) {
    ProofPath(adj, start, s.path) && s == StateOf(claims, s.path) && Last(s.path) == v
  }

  /** `s` is the least key among all simple bounded paths to `v`. */
  ghost predicate Optimal(adj: Adjacency, claims: Claims, start: nat, s: State, v: nat) {
    && Reaches(adj, claims, start, s, v)
    && forall path | ProofPath(adj, start, path) && Last(path) == v :: Leq(s, StateOf(claims, path))
  }

  type Settled = map<nat, State>

  /** Settled claims carry their optimal paths, which run through settled claims only. */
  ghost predicate SettledWell(adj: Adjacency, claims: Claims, start: nat, best: Settled) {
    forall v {:trigger v in best} {:trigger best[v]} | v in best ::
      && v in adj
      && Optimal(adj, claims, start, best[v], v)
      && forall i | 0 <= i < |best[v].path| :: best[v].path[i] in best
  }

  /** Queued paths leave the settled claims only with their last step, and are no better. */
  ghost predicate QueuedWell(adj: Adjacency, claims: Claims, start: nat, best: Settled, queue: seq<State>) {
    forall s | s in queue ::
      && s.path != [] && Reaches(adj, claims, start, s, Last(s.path)) && Last(s.path) in adj
      && (forall i | 0 <= i < |s.path| - 1 :: s.path[i] in best)
      && (forall v | v in best :: Leq(best[v], s))
  }

  /** Every step out of the settled claims is queued, and so is the start until it is settled. */
  ghost predicate FrontierQueued(adj: Adjacency, claims: Claims, start: nat, best: Settled, queue: seq<State>) {
    && (start !in best ==> State(0, 0, [start]) in queue)
    && forall u, x {:trigger Extend(claims, best[u], x)} |
         u in best && u in adj && best[u].hops < MAX_HOPS && x in adj[u] && x !in best ::
         Extend(claims, best[u], x) in queue
  }

  lemma FirstUnsettled(best: Settled, path: seq<nat>) returns (i: nat)
    requires path != [] && Last(path) !in best
    ensures i < |path| && path[i] !in best && forall j | 0 <= j < i :: path[j] in best
  {
    i := 0;
    while path[i] in best
      invariant i < |path| && forall j | 0 <= j < i :: path[j] in best
      decreases |path| - i
    {
      i := i + 1;
    }
  }

  /** Any path to an unsettled claim is matched by a queued state that is no worse: skipping settled
      claims discards no optimal path. */
  lemma FrontierCovers(adj: Adjacency, claims: Claims, start: nat, best: Settled, queue: seq<State>, path: seq<nat>)
    returns (s: State)
    requires SettledWell(adj, claims, start, best) && FrontierQueued(adj, claims, start, best, queue)
    requires ProofPath(adj, start, path) && Last(path) !in best
    ensures s in queue && Leq(s, StateOf(claims, path))
  {
    var i := FirstUnsettled(best, path);
    PrefixIsLeq(claims, path, i + 1);
    if i == 0 {
      s := State(0, 0, [start]);
      assert path[..1] == [start];
    } else {
      assert Joined(adj, path[i - 1], path[i]);
      s := Extend(claims, best[path[i - 1]], path[i]);
      StepIsLeq(adj, claims, start, best[path[i - 1]], path, i);
      LeqTransitive(s, StateOf(claims, path[..i + 1]), StateOf(claims, path));
    }
  }

  lemma StepIsLeq(adj: Adjacency, claims: Claims, start: nat, b: State, path: seq<nat>, i: nat)
    requires 0 < i < |path| && Optimal(adj, claims, start, b, path[i - 1])
    requires ProofPath(adj, start, path[..i])
    ensures Leq(Extend(claims, b, path[i]), StateOf(claims, path[..i + 1]))
    ensures b.hops < i
  {
    assert Leq(b, StateOf(claims, path[..i]));
    assert path[..i + 1] == path[..i] + [path[i]];
    StateOfExtended(claims, path[..i], path[i]);
    ExtendMonotone(claims, b, StateOf(claims, path[..i]), path[i]);
  }

  // ---- The search ----------------------------------------------------------------------------------

  /** `heappop`: removes a least state. */
  method PopLeast(queue: seq<State>) returns (s: State, rest: seq<State>)
    requires queue != []
    ensures s in queue && forall t | t in queue :: Leq(s, t)
    ensures |rest| == |queue| - 1
    ensures forall t | t in queue :: t == s || t in rest
    ensures forall t | t in rest :: t in queue
  {
    var least := 0;
    for i := 1 to |queue|
      invariant least < |queue| && forall j | 0 <= j < i :: Leq(queue[least], queue[j])
    {
      LeqTotal(queue[i], queue[least]);
      if Leq(queue[i], queue[least]) {
        forall j | 0 <= j < i ensures Leq(queue[i], queue[j]) {
          LeqTransitive(queue[i], queue[least], queue[j]);
        }
        least := i;
      }
    }
    s, rest := queue[least], queue[..least] + queue[least + 1..];
  }

  lemma SettleOptimal(adj: Adjacency, claims: Claims, start: nat, best: Settled, queue: seq<State>, s: State)
    requires SettledWell(adj, claims, start, best) && FrontierQueued(adj, claims, start, best, queue)
    requires QueuedWell(adj, claims, start, best, queue)
    requires s in queue && (forall t | t in queue :: Leq(s, t)) && s.path != [] && Last(s.path) !in best
    ensures Optimal(adj, claims, start, s, Last(s.path))
    ensures SettledWell(adj, claims, start, best[Last(s.path) := s])
  {
    var v := Last(s.path);
    forall path | ProofPath(adj, start, path) && Last(path) == v ensures Leq(s, StateOf(claims, path)) {
      var t := FrontierCovers(adj, claims, start, best, queue, path);
      LeqTransitive(s, t, StateOf(claims, path));
    }
    var next := best[v := s];
    forall w | w in next
      ensures w in adj && Optimal(adj, claims, start, next[w], w)
      ensures forall i | 0 <= i < |next[w].path| :: next[w].path[i] in next
    {
      if w != v {
        assert w in best;
      }
    }
  }

  /** The expansion of a settled state in progress: its first `k` neighbours are dealt with. */
  ghost predicate Expanding(adj: Adjacency, claims: Claims, start: nat, best: Settled, queue: seq<State>,
                            v: nat, neighbours: seq<nat>, k: nat)
    requires v in best && k <= |neighbours|
  {
    && start in best
    && (forall u, x {:trigger Extend(claims, best[u], x)} |
          u in best && u != v && u in adj && best[u].hops < MAX_HOPS && x in adj[u] && x !in best ::
          Extend(claims, best[u], x) in queue)
    && (forall i | 0 <= i < k && neighbours[i] !in best :: Extend(claims, best[v], neighbours[i]) in queue)
  }

  lemma PushKeepsQueue(adj: Adjacency, claims: Claims, start: nat, best: Settled, queue: seq<State>, v: nat, x: nat)
    requires SettledWell(adj, claims, start, best) && QueuedWell(adj, claims, start, best, queue)
    requires v in best && v in adj && best[v].hops < MAX_HOPS && x in adj[v] && x in adj && x !in best[v].path
    requires forall w | w in best :: Leq(best[w], best[v])
    ensures QueuedWell(adj, claims, start, best, queue + [Extend(claims, best[v], x)])
  {
    var s := Extend(claims, best[v], x);
    var path := best[v].path;
    StateOfExtended(claims, path, x);
    assert Joined(adj, v, x);
    assert ProofPath(adj, start, s.path) by {
      forall i | 0 <= i < |s.path| - 1 ensures Joined(adj, s.path[i], s.path[i + 1]) {
        if i + 1 < |path| {
          assert Joined(adj, path[i], path[i + 1]);
        }
      }
    }
    forall w | w in best ensures Leq(best[w], s) {
      LeqTransitive(best[w], best[v], s);
    }
  }

  lemma ExpandedKeepsFrontier(adj: Adjacency, claims: Claims, start: nat, best: Settled, queue: seq<State>,
                              v: nat, neighbours: seq<nat>, k: nat)
    requires v in best && v in adj && k <= |neighbours|
    requires Expanding(adj, claims, start, best, queue, v, neighbours, k)
    requires best[v].hops >= MAX_HOPS || (k == |neighbours| && forall x | x in adj[v] :: x in neighbours)
    ensures FrontierQueued(adj, claims, start, best, queue)
  {}

  /** The invariant of the search. */
  ghost predicate Searching(adj: Adjacency, claims: Claims, start: nat, best: Settled, queue: seq<State>) {
    && SettledWell(adj, claims, start, best)
    && QueuedWell(adj, claims, start, best, queue)
    && FrontierQueued(adj, claims, start, best, queue)
  }

  /** The invariant while a newly settled claim is expanded. */
  ghost predicate Opened(adj: Adjacency, claims: Claims, start: nat, best: Settled, queue: seq<State>,
                         v: nat, neighbours: seq<nat>, k: nat) {
    && v in best && v in adj && k <= |neighbours|
    && (forall x | x in adj[v] :: x in neighbours) && (forall i | 0 <= i < |neighbours| :: neighbours[i] in adj[v])
    && SettledWell(adj, claims, start, best)
    && QueuedWell(adj, claims, start, best, queue)
    && (forall w | w in best :: Leq(best[w], best[v]))
    && Expanding(adj, claims, start, best, queue, v, neighbours, k)
  }

  ghost predicate Popped(queue: seq<State>, s: State, rest: seq<State>) {
    && s in queue && s.path != []
    && (forall t | t in queue :: Leq(s, t))
    && (forall t | t in queue :: t == s || t in rest)
    && (forall t | t in rest :: t in queue)
  }

  lemma SkipStep(adj: Adjacency, claims: Claims, start: nat, best: Settled, queue: seq<State>, s: State,
                 rest: seq<State>)
    requires Searching(adj, claims, start, best, queue) && Popped(queue, s, rest) && Last(s.path) in best
    ensures Searching(adj, claims, start, best, rest)
  {}

  lemma SettleStep(adj: Adjacency, claims: Claims, start: nat, best: Settled, queue: seq<State>, s: State,
                   rest: seq<State>)
    requires Searching(adj, claims, start, best, queue) && Popped(queue, s, rest) && Last(s.path) !in best
    ensures Last(s.path) in adj && Optimal(adj, claims, start, s, Last(s.path))
    ensures Opened(adj, claims, start, best[Last(s.path) := s], rest, Last(s.path), Sorted(adj[Last(s.path)]), 0)
  {
    SettleOptimal(adj, claims, start, best, queue, s);
    SettledStaysQueued(adj, claims, start, best, queue, s, rest);
    SettledStartsExpanding(adj, claims, start, best, queue, s, rest, Sorted(adj[Last(s.path)]));
  }

  lemma SettledStaysQueued(adj: Adjacency, claims: Claims, start: nat, best: Settled, queue: seq<State>, s: State,
                           rest: seq<State>)
    requires QueuedWell(adj, claims, start, best, queue) && Popped(queue, s, rest) && Last(s.path) !in best
    ensures QueuedWell(adj, claims, start, best[Last(s.path) := s], rest)
    ensures forall w | w in best :: Leq(best[w], s)
  {}

  lemma SettledStartsExpanding(adj: Adjacency, claims: Claims, start: nat, best: Settled, queue: seq<State>, s: State,
                               rest: seq<State>, neighbours: seq<nat>)
    requires QueuedWell(adj, claims, start, best, queue) && FrontierQueued(adj, claims, start, best, queue)
    requires Popped(queue, s, rest) && Last(s.path) !in best
    ensures Expanding(adj, claims, start, best[Last(s.path) := s], rest, Last(s.path), neighbours, 0)
  {}

  lemma CloseStep(adj: Adjacency, claims: Claims, start: nat, best: Settled, queue: seq<State>,
                  v: nat, neighbours: seq<nat>, k: nat)
    requires Opened(adj, claims, start, best, queue, v, neighbours, k)
    requires k == |neighbours| || best[v].hops >= MAX_HOPS
    ensures Searching(adj, claims, start, best, queue)
  {
    ExpandedKeepsFrontier(adj, claims, start, best, queue, v, neighbours, k);
  }

  lemma PushStep(adj: Adjacency, claims: Claims, start: nat, best: Settled, queue: seq<State>,
                 v: nat, neighbours: seq<nat>, k: nat)
    requires Closed(adj, claims) && Opened(adj, claims, start, best, queue, v, neighbours, k)
    requires k < |neighbours| && best[v].hops < MAX_HOPS
    ensures Opened(adj, claims, start, best,
                   if neighbours[k] in best[v].path then queue else queue + [Extend(claims, best[v], neighbours[k])],
                   v, neighbours, k + 1)
  {
    if neighbours[k] !in best[v].path {
      PushKeepsQueue(adj, claims, start, best, queue, v, neighbours[k]);
    } else {
      var i :| 0 <= i < |best[v].path| && best[v].path[i] == neighbours[k];
      assert neighbours[k] in best;
    }
  }

  lemma SearchFailed(adj: Adjacency, claims: Claims, start: nat, best: Settled, target: nat)
    requires Searching(adj, claims, start, best, []) && target !in best
    ensures forall p | ProofPath(adj, start, p) :: Last(p) != target
  {
    forall p | ProofPath(adj, start, p) ensures Last(p) != target {
      if Last(p) == target {
        var s := FrontierCovers(adj, claims, start, best, [], p);
      }
    }
  }

  lemma SearchBegins(adj: Adjacency, claims: Claims, start: nat)
    requires start in adj
    ensures Searching(adj, claims, start, map[], [State(0, 0, [start])])
  {
    assert ProofPath(adj, start, [start]);
  }

  /** Finds the least key among the simple paths of at most twelve edges; the empty path iff there
      is none. */
  method ShortestClaimPath(start: nat, target: nat, adj: Adjacency, claims: Claims) returns (path: seq<nat>)
    requires Closed(adj, claims) && start in adj
    ensures path == [] <==> forall p | ProofPath(adj, start, p) :: Last(p) != target
    ensures path != [] ==> Optimal(adj, claims, start, StateOf(claims, path), target)
  {
    var queue := [State(0, 0, [start])];
    var best: Settled := map[];
    SearchBegins(adj, claims, start);
    while queue != []
      invariant Searching(adj, claims, start, best, queue)
      invariant target !in best
      decreases adj.Keys - best.Keys, |queue|
    {
      var s, rest := PopLeast(queue);
      assert Popped(queue, s, rest);
      var current := Last(s.path);
      if current in best && Leq(best[current], s) {
        SkipStep(adj, claims, start, best, queue, s, rest);
        queue := rest;
        continue;
      }
      SettleStep(adj, claims, start, best, queue, s, rest);
      queue := rest;
      best := best[current := s];
      if current == target {
        return s.path;
      }
      if s.hops < MAX_HOPS {
        queue := PushNeighbours(adj, claims, start, best, queue, current);
      } else {
        CloseStep(adj, claims, start, best, queue, current, Sorted(adj[current]), 0);
      }
    }
    SearchFailed(adj, claims, start, best, target);
    return [];
  }

  /** Queues the settled path extended by every neighbour not on it. */
  method PushNeighbours(adj: Adjacency, claims: Claims, start: nat, best: Settled, given: seq<State>, current: nat)
    returns (queue: seq<State>)
    requires Closed(adj, claims) && current in adj && current in best && best[current].hops < MAX_HOPS
    requires Opened(adj, claims, start, best, given, current, Sorted(adj[current]), 0)
    ensures Searching(adj, claims, start, best, queue)
  {
    var neighbours := Sorted(adj[current]);
    queue := given;
    for i := 0 to |neighbours|
      invariant Opened(adj, claims, start, best, queue, current, neighbours, i)
    {
      PushStep(adj, claims, start, best, queue, current, neighbours, i);
      if neighbours[i] !in best[current].path {
        queue := queue + [Extend(claims, best[current], neighbours[i])];
      }
    }
    CloseStep(adj, claims, start, best, queue, current, neighbours, |neighbours|);
  }

  // ---- Walks shorten to simple paths ----------------------------------------------------------------

  lemma {:induction false} WalkShortens(adj: Adjacency, start: nat, walk: seq<nat>) returns (path: seq<nat>)
    requires Walk(adj, start, walk)
    ensures Walk(adj, start, path) && NoDuplicates(path) && Last(path) == Last(walk) && |path| <= |walk|
    decreases |walk|
  {
    if NoDuplicates(walk) {
      return walk;
    }
    var i, j :| 0 <= i < j < |walk| && walk[i] == walk[j];
    var cut := walk[..i] + walk[j..];
    forall k | 0 <= k < |cut| - 1 ensures Joined(adj, cut[k], cut[k + 1]) {
      if k + 1 == i {
        assert Joined(adj, walk[i - 1], walk[i]);
      } else if k + 1 < i {
        assert Joined(adj, walk[k], walk[k + 1]);
      } else {
        assert Joined(adj, walk[k + j - i], walk[k + j - i + 1]);
      }
    }
    path := WalkShortens(adj, start, cut);
  }

  /** Nothing within twelve steps, not even with repetitions, when no simple path exists. */
  lemma NoPathMeansNoWalk(adj: Adjacency, start: nat, target: nat, walk: seq<nat>)
    requires forall p | ProofPath(adj, start, p) :: Last(p) != target
    requires Walk(adj, start, walk) && |walk| <= MAX_HOPS + 1
    ensures Last(walk) != target
  {
    var path := WalkShortens(adj, start, walk);
  }
}
