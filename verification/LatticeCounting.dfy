/** Enumerating the segmentations up to a budget, and summarizing them by dynamic programming. */
module LatticeCounting {
  import opened LatticeModel

  // ---- Bounded enumeration -------------------------------------------------------------------------

  function PrefixAll(path: TokenPath, tails: seq<TokenPath>): (r: seq<TokenPath>)
    ensures |r| == |tails|
    ensures forall i | 0 <= i < |r| :: r[i] == path + tails[i]
  {
    seq(|tails|, i requires 0 <= i < |tails| => path + tails[i])
  }

  lemma PrefixOfPrepend(path: TokenPath, t: Token, tails: seq<TokenPath>)
    ensures PrefixAll(path, Prepend(t, tails)) == PrefixAll(path + [t], tails)
  {
    forall i | 0 <= i < |tails| ensures path + ([t] + tails[i]) == path + [t] + tails[i] {}
  }

  lemma PrefixOfSum(path: TokenPath, a: seq<TokenPath>, b: seq<TokenPath>)
    ensures PrefixAll(path, a + b) == PrefixAll(path, a) + PrefixAll(path, b)
  {}

  /** `after` keeps what fits the budget of `before` followed by `more`. */
  ghost predicate Taken(before: seq<TokenPath>, more: seq<TokenPath>, budget: nat,
                        after: seq<TokenPath>, exhausted: bool) {
    && (exhausted <==> |before| + |more| > budget)
    && after == if exhausted then (before + more)[..budget] else before + more
  }

  lemma TakenInTurn(before: seq<TokenPath>, first: seq<TokenPath>, middle: seq<TokenPath>, stopped: bool,
                    second: seq<TokenPath>, after: seq<TokenPath>, exhausted: bool, budget: nat)
    requires |before| <= budget && Taken(before, first, budget, middle, stopped)
    requires if stopped then exhausted && after == middle else Taken(middle, second, budget, after, exhausted)
    ensures Taken(before, first + second, budget, after, exhausted)
  {
    assert before + (first + second) == before + first + second;
    if stopped {
      assert (before + first + second)[..budget] == (before + first)[..budget];
    }
  }

  /** The empty continuation is the path itself: it is taken if it still fits. */
  lemma LeafTaken(before: seq<TokenPath>, path: TokenPath, limit: nat)
    requires |before| <= limit
    ensures |before| >= limit ==> Taken(before, PrefixAll(path, [[]]), limit, before, true)
    ensures |before| < limit ==> Taken(before, PrefixAll(path, [[]]), limit, before + [path], false)
  {
    assert path + [] == path;
    assert PrefixAll(path, [[]]) == [path];
    if |before| == limit {
      assert (before + [path])[..limit] == before;
    }
  }

  lemma NothingTaken(before: seq<TokenPath>, path: TokenPath, limit: nat)
    requires |before| <= limit
    ensures Taken(before, PrefixAll(path, []), limit, before, false)
  {
    assert before + PrefixAll(path, []) == before;
  }

  /** Taking the continuations through one more edge. */
  lemma EdgeTaken(l: Lattice, filter: Filter, position: nat, k: nat, path: TokenPath, before: seq<TokenPath>,
                  middle: seq<TokenPath>, stopped: bool, after: seq<TokenPath>, exhausted: bool, budget: nat)
    requires WellFormed(l) && position < l.length && k < |EdgesAt(l, filter, position)| && |before| <= budget
    requires Taken(before, PrefixAll(path, PathsBy(l, filter, position, k)), budget, middle, stopped)
    requires var t := EdgesAt(l, filter, position)[k];
             && position < t.end <= l.length
             && if stopped then exhausted && after == middle
                else Taken(middle, PrefixAll(path + [t], Paths(l, filter, t.end)), budget, after, exhausted)
    ensures Taken(before, PrefixAll(path, PathsBy(l, filter, position, k + 1)), budget, after, exhausted)
  {
    var t := EdgesAt(l, filter, position)[k];
    var tails := Paths(l, filter, t.end);
    var first, second := PathsBy(l, filter, position, k), Prepend(t, tails);
    PrefixOfPrepend(path, t, tails);
    PrefixOfSum(path, first, second);
    TakenInTurn(before, PrefixAll(path, first), middle, stopped, PrefixAll(path, second), after, exhausted, budget);
  }

  class Enumerator {
    const lattice: Lattice
    const filter: Filter
    const maxPaths: nat
    var paths: seq<TokenPath>
    var explored: nat
    var exhausted: bool

    constructor (lattice: Lattice, filter: Filter, maxPaths: nat)
      ensures this.lattice == lattice && this.filter == filter && this.maxPaths == maxPaths
      ensures paths == [] && !exhausted && explored == 0
    {
      this.lattice, this.filter, this.maxPaths := lattice, filter, maxPaths;
      paths, explored, exhausted := [], 0, false;
    }

    /** Appends the continuations of `path` from `position`, depth first, while the budget lasts. */
    method Visit(position: nat, path: TokenPath)
      requires WellFormed(lattice) && position <= lattice.length && |paths| <= maxPaths
      modifies this`paths, this`explored, this`exhausted
      ensures old(exhausted) ==> exhausted && paths == old(paths)
      ensures !old(exhausted) ==>
                Taken(old(paths), PrefixAll(path, Paths(lattice, filter, position)), maxPaths, paths, exhausted)
      ensures |paths| <= maxPaths
      decreases lattice.length - position
    {
      hide Taken, PrefixAll, WellFormed;
      if exhausted {
        return;
      }
      explored := explored + 1;
      if position == lattice.length {
        LeafTaken(paths, path, maxPaths);
        if |paths| >= maxPaths {
          exhausted := true;
        } else {
          paths := paths + [path];
        }
        return;
      }
      var edges := EdgesAt(lattice, filter, position);
      NothingTaken(paths, path, maxPaths);
      for k := 0 to |edges|
        invariant Taken(old(paths), PrefixAll(path, PathsBy(lattice, filter, position, k)), maxPaths, paths, exhausted)
        invariant |paths| <= maxPaths
      {
        EdgeEnd(lattice, filter, position, k);
        ghost var middle, stopped := paths, exhausted;
        Visit(edges[k].end, path + [edges[k]]);
        EdgeTaken(lattice, filter, position, k, path, old(paths), middle, stopped, paths, exhausted, maxPaths);
      }
    }
  }

  datatype Enumeration = Enumeration(paths: seq<TokenPath>, complete: bool, explored: nat)

  /** The first complete paths in depth-first order, all of them iff the run is complete. */
  method EnumeratePaths(l: Lattice, filter: Filter, maxPaths: nat) returns (r: Enumeration)
    requires WellFormed(l) && maxPaths >= 1
    ensures r.complete <==> |Paths(l, filter, 0)| <= maxPaths
    ensures r.paths == if r.complete then Paths(l, filter, 0) else Paths(l, filter, 0)[..maxPaths]
  {
    var e := new Enumerator(l, filter, maxPaths);
    e.Visit(0, []);
    assert PrefixAll([], Paths(l, filter, 0)) == Paths(l, filter, 0) by {
      forall i | 0 <= i < |Paths(l, filter, 0)| ensures [] + Paths(l, filter, 0)[i] == Paths(l, filter, 0)[i] {}
    }
    assert [] + Paths(l, filter, 0) == Paths(l, filter, 0);
    r := Enumeration(e.paths, !e.exhausted, e.explored);
  }

  // ---- Reachability --------------------------------------------------------------------------------

  lemma {:induction false} HitsAnEdge(edges: seq<Token>, k: nat, q: nat)
    requires k <= |edges|
    ensures Hits(edges, k, q) > 0 <==> exists i :: 0 <= i < k && edges[i].end == q
  {
    if k > 0 {
      HitsAnEdge(edges, k - 1, q);
    }
  }

  lemma LinkIsToken(l: Lattice, filter: Filter, s: nat, q: nat)
    ensures Links(l, filter, s, q) > 0 <==>
            exists t :: t in l.tokens && Allowed(filter, t) && t.start == s && t.end == q
  {
    var edges := EdgesAt(l, filter, s);
    HitsAnEdge(edges, |edges|, q);
    forall t ensures t in edges <==> t in l.tokens && t.start == s && Allowed(filter, t) {
      EdgesAtMembers(l, filter, s, t);
    }
    if t :| t in l.tokens && Allowed(filter, t) && t.start == s && t.end == q {
      assert t in edges;
      var i :| 0 <= i < |edges| && edges[i] == t;
    }
    if Links(l, filter, s, q) > 0 {
      var i :| 0 <= i < |edges| && edges[i].end == q;
      assert edges[i] in edges;
    }
  }

  lemma {:induction false} InflowSource(l: Lattice, filter: Filter, q: nat, p: nat)
    requires p <= q
    ensures Inflow(l, filter, q, p) > 0 <==>
            exists s {:trigger Links(l, filter, s, q)} ::
                  0 <= s < p && Reached(l, filter, s) > 0 && Links(l, filter, s, q) > 0
  {
    if p > 0 {
      InflowSource(l, filter, q, p - 1);
      var r, h := Reached(l, filter, p - 1), Links(l, filter, p - 1, q);
      assert r * h > 0 <==> r > 0 && h > 0;
    }
  }

  lemma {:induction false} ChainJoins(l: Lattice, filter: Filter, a: TokenPath, b: TokenPath, x: nat, y: nat, z: nat)
    requires Chain(l, filter, a, x, y) && Chain(l, filter, b, y, z)
    ensures Chain(l, filter, a + b, x, z)
  {
    if a == [] {
      assert a + b == b;
    } else {
      ChainJoins(l, filter, a[1..], b, a[0].end, y, z);
      assert (a + b)[1..] == a[1..] + b;
    }
  }

  /** A positive forward count is a chain from the beginning. */
  lemma {:induction false} ReachedMeansChain(l: Lattice, filter: Filter, q: nat) returns (path: TokenPath)
    requires Reached(l, filter, q) > 0
    ensures Chain(l, filter, path, 0, q)
  {
    if q == 0 {
      return [];
    }
    InflowSource(l, filter, q, q);
    var s :| 0 <= s < q && Reached(l, filter, s) > 0 && Links(l, filter, s, q) > 0;
    LinkIsToken(l, filter, s, q);
    var t :| t in l.tokens && Allowed(filter, t) && t.start == s && t.end == q;
    var front := ReachedMeansChain(l, filter, s);
    assert [t][1..] == [];
    ChainJoins(l, filter, front, [t], 0, s, q);
    path := front + [t];
  }

  lemma {:induction false} ChainReaches(l: Lattice, filter: Filter, path: TokenPath, x: nat, y: nat)
    requires WellFormed(l) && Reached(l, filter, x) > 0 && Chain(l, filter, path, x, y)
    ensures Reached(l, filter, y) > 0
  {
    if path != [] {
      var t := path[0];
      LinkIsToken(l, filter, x, t.end);
      InflowSource(l, filter, t.end, t.end);
      ChainReaches(l, filter, path[1..], t.end, y);
    }
  }

  lemma OnwardMeansChain(l: Lattice, filter: Filter, pos: nat) returns (path: TokenPath)
    requires WellFormed(l) && pos <= l.length && Onward(l, filter, pos) > 0
    ensures Chain(l, filter, path, pos, l.length)
  {
    OnwardCountsPaths(l, filter, pos);
    path := Paths(l, filter, pos)[0];
    PathsAreChains(l, filter, pos, path);
  }

  lemma ChainMeansOnward(l: Lattice, filter: Filter, pos: nat, path: TokenPath)
    requires WellFormed(l) && pos <= l.length && Chain(l, filter, path, pos, l.length)
    ensures Onward(l, filter, pos) > 0
  {
    OnwardCountsPaths(l, filter, pos);
    PathsAreChains(l, filter, pos, path);
  }

  lemma {:induction false} ChainSplits(l: Lattice, filter: Filter, path: TokenPath, i: nat, x: nat, z: nat)
    requires Chain(l, filter, path, x, z) && i < |path|
    ensures Chain(l, filter, path[..i], x, path[i].start) && Chain(l, filter, path[i + 1..], path[i].end, z)
    ensures path[i] in l.tokens && Allowed(filter, path[i])
  {
    if i > 0 {
      ChainSplits(l, filter, path[1..], i - 1, path[0].end, z);
      assert path[..i][1..] == path[1..][..i - 1] && path[i + 1..] == path[1..][i..];
    }
  }

  ghost predicate OnSomePath(l: Lattice, filter: Filter, t: Token)
    requires WellFormed(l)
  {
    exists path :: path in Paths(l, filter, 0) && t in path
  }

  lemma ConnectedIsOnPath(l: Lattice, filter: Filter, t: Token)
    requires WellFormed(l) && t in l.tokens && Allowed(filter, t)
    requires Reached(l, filter, t.start) > 0 && Onward(l, filter, t.end) > 0
    ensures OnSomePath(l, filter, t)
  {
    var front := ReachedMeansChain(l, filter, t.start);
    var back := OnwardMeansChain(l, filter, t.end);
    var rest := [t] + back;
    assert rest[1..] == back;
    ChainJoins(l, filter, front, rest, 0, t.start, l.length);
    PathsAreChains(l, filter, 0, front + rest);
    assert (front + rest)[|front|] == t;
  }

  lemma OnPathIsConnected(l: Lattice, filter: Filter, t: Token, path: TokenPath)
    requires WellFormed(l) && path in Paths(l, filter, 0) && t in path
    ensures t in l.tokens && Allowed(filter, t)
    ensures Reached(l, filter, t.start) > 0 && Onward(l, filter, t.end) > 0
  {
    PathsAreChains(l, filter, 0, path);
    var i :| 0 <= i < |path| && path[i] == t;
    ChainSplits(l, filter, path, i, 0, l.length);
    ChainReaches(l, filter, path[..i], 0, t.start);
    ChainMeansOnward(l, filter, t.end, path[i + 1..]);
  }

  /** A token lies on a complete path iff something reaches its start and its end leads on. */
  lemma OnCompletePath(l: Lattice, filter: Filter, t: Token)
    requires WellFormed(l) && t in l.tokens && Allowed(filter, t)
    ensures Reached(l, filter, t.start) > 0 && Onward(l, filter, t.end) > 0 <==> OnSomePath(l, filter, t)
  {
    if Reached(l, filter, t.start) > 0 && Onward(l, filter, t.end) > 0 {
      ConnectedIsOnPath(l, filter, t);
    }
    if OnSomePath(l, filter, t) {
      var path :| path in Paths(l, filter, 0) && t in path;
      OnPathIsConnected(l, filter, t, path);
    }
  }

  // ---- The summary -----------------------------------------------------------------------------------

  function Min(a: nat, b: nat): nat {
    if a < b then a else b
  }

  /** A count that stops at one past the budget. */
  function Saturated(budget: nat, count: nat): nat {
    Min(budget + 1, count)
  }

  function Get(m: map<nat, nat>, q: nat): nat {
    if q in m then m[q] else 0
  }

  /** Paths known to reach `q` once all positions before `p` are processed. */
  ghost function Arrived(l: Lattice, filter: Filter, q: nat, p: nat): nat {
    if q == 0 then 1 else Inflow(l, filter, q, Min(p, q))
  }

  ghost predicate ForwardAt(l: Lattice, filter: Filter, budget: nat, forward: map<nat, nat>, p: nat) {
    forall q: nat :: Get(forward, q) == Saturated(budget, Arrived(l, filter, q, p))
  }

  /** In the middle of position `p`, with `k` of its tokens pushed forward. */
  ghost predicate ForwardWithin(l: Lattice, filter: Filter, budget: nat, forward: map<nat, nat>, p: nat, k: nat)
    requires k <= |EdgesAt(l, filter, p)|
  {
    forall q: nat {:trigger Get(forward, q)} :: Get(forward, q) ==
      Saturated(budget, Pushed(Arrived(l, filter, q, p), Reached(l, filter, p), EdgesAt(l, filter, p), k, q))
  }

  ghost function Pushed(arrived: nat, count: nat, edges: seq<Token>, k: nat, q: nat): nat
    requires k <= |edges|
  {
    arrived + count * Hits(edges, k, q)
  }

  lemma {:induction false} NoBackwardHits(l: Lattice, filter: Filter, p: nat, k: nat, q: nat)
    requires WellFormed(l) && k <= |EdgesAt(l, filter, p)| && q <= p
    ensures Hits(EdgesAt(l, filter, p), k, q) == 0
  {
    if k > 0 {
      NoBackwardHits(l, filter, p, k - 1, q);
      EdgeEnd(l, filter, p, k - 1);
    }
  }

  lemma PushOne(l: Lattice, filter: Filter, budget: nat, forward: map<nat, nat>, p: nat, k: nat)
    requires WellFormed(l) && k < |EdgesAt(l, filter, p)| && ForwardWithin(l, filter, budget, forward, p, k)
    ensures var end := EdgesAt(l, filter, p)[k].end;
            var next := forward[end := Saturated(budget, Get(forward, end) + Saturated(budget, Reached(l, filter, p)))];
            ForwardWithin(l, filter, budget, next, p, k + 1)
  {
    var edges, r := EdgesAt(l, filter, p), Reached(l, filter, p);
    var next := forward[edges[k].end := Saturated(budget, Get(forward, edges[k].end) + Saturated(budget, r))];
    forall q: nat ensures Get(next, q) == Saturated(budget, Pushed(Arrived(l, filter, q, p), r, edges, k + 1, q)) {
      PushOneAt(budget, forward, Arrived(l, filter, q, p), r, edges, k, q);
    }
  }

  lemma PushOneAt(budget: nat, forward: map<nat, nat>, arrived: nat, count: nat, edges: seq<Token>, k: nat, q: nat)
    requires k < |edges| && Get(forward, q) == Saturated(budget, Pushed(arrived, count, edges, k, q))
    ensures var end := edges[k].end;
            Get(forward[end := Saturated(budget, Get(forward, end) + Saturated(budget, count))], q)
            == Saturated(budget, Pushed(arrived, count, edges, k + 1, q))
  {
    var h := Hits(edges, k, q);
    assert count * (h + 1) == count * h + count;
  }

  lemma PushEnds(l: Lattice, filter: Filter, budget: nat, forward: map<nat, nat>, p: nat)
    requires WellFormed(l)
    requires ForwardWithin(l, filter, budget, forward, p, |EdgesAt(l, filter, p)|)
    ensures ForwardAt(l, filter, budget, forward, p + 1)
  {
    forall q: nat ensures Get(forward, q) == Saturated(budget, Arrived(l, filter, q, p + 1)) {
      if q <= p {
        NoBackwardHits(l, filter, p, |EdgesAt(l, filter, p)|, q);
        assert Reached(l, filter, p) * 0 == 0;
      }
    }
  }

  /** A position nothing reaches pushes nothing. */
  lemma PushNothing(l: Lattice, filter: Filter, budget: nat, forward: map<nat, nat>, p: nat)
    requires WellFormed(l) && ForwardAt(l, filter, budget, forward, p) && Reached(l, filter, p) == 0
    ensures ForwardAt(l, filter, budget, forward, p + 1)
  {
    var edges := EdgesAt(l, filter, p);
    forall q: nat
      ensures Get(forward, q)
              == Saturated(budget, Pushed(Arrived(l, filter, q, p), Reached(l, filter, p), edges, |edges|, q))
    {
      assert Reached(l, filter, p) * Hits(edges, |edges|, q) == 0;
    }
    PushEnds(l, filter, budget, forward, p);
  }

  /** The forward table: at every position the saturated number of paths from the beginning. */
  method ForwardCounts(l: Lattice, filter: Filter, budget: nat) returns (forward: map<nat, nat>)
    requires WellFormed(l) && budget >= 1
    ensures forall q: nat | q <= l.length :: Get(forward, q) == Saturated(budget, Reached(l, filter, q))
  {
    forward := map[0 := 1];
    for position := 0 to l.length
      invariant ForwardAt(l, filter, budget, forward, position)
    {
      var count := Get(forward, position);
      if count == 0 {
        PushNothing(l, filter, budget, forward, position);
        continue;
      }
      var edges := EdgesAt(l, filter, position);
      for k := 0 to |edges|
        invariant ForwardWithin(l, filter, budget, forward, position, k)
      {
        var end := edges[k].end;
        PushOne(l, filter, budget, forward, position, k);
        forward := forward[end := Min(budget + 1, Get(forward, end) + count)];
      }
      PushEnds(l, filter, budget, forward, position);
    }
    forall q: nat | q <= l.length ensures Get(forward, q) == Saturated(budget, Reached(l, filter, q)) {
      assert Arrived(l, filter, q, l.length) == Reached(l, filter, q);
    }
  }

  lemma {:induction false} OnwardByAnEdge(l: Lattice, filter: Filter, pos: nat, k: nat)
    requires WellFormed(l) && pos < l.length && k <= |EdgesAt(l, filter, pos)|
    ensures OnwardBy(l, filter, pos, k) > 0 <==>
            exists i :: 0 <= i < k && Onward(l, filter, EdgesAt(l, filter, pos)[i].end) > 0
  {
    if k > 0 {
      OnwardByAnEdge(l, filter, pos, k - 1);
    }
  }

  /** The backward table: which positions lead on to the end. */
  method BackwardReach(l: Lattice, filter: Filter) returns (backward: map<nat, bool>)
    requires WellFormed(l)
    ensures forall q: nat | q <= l.length :: q in backward && (backward[q] <==> Onward(l, filter, q) > 0)
  {
    backward := map[l.length := true];
    var position := l.length;
    while position > 0
      invariant position <= l.length
      invariant forall q: nat | position <= q <= l.length ::
              q in backward && (backward[q] <==> Onward(l, filter, q) > 0)
    {
      position := position - 1;
      var edges := EdgesAt(l, filter, position);
      forall i | 0 <= i < |edges| ensures position < edges[i].end <= l.length {
        EdgeEnd(l, filter, position, i);
      }
      OnwardByAnEdge(l, filter, position, |edges|);
      backward := backward[position := exists i :: 0 <= i < |edges| && backward[edges[i].end]];
    }
  }

  ghost predicate Used(l: Lattice, filter: Filter, t: Token)
    requires WellFormed(l)
  {
    Allowed(filter, t) && Reached(l, filter, t.start) > 0 && Onward(l, filter, t.end) > 0
  }

  /** The ids of the marked tokens among the first `k`, ascending. */
  ghost predicate ListsMarked(tokens: seq<Token>, marks: seq<bool>, ids: seq<nat>, k: nat)
    requires |marks| == |tokens| && k <= |tokens|
  {
    && (forall j | 0 <= j < k && marks[j] :: tokens[j].id in ids)
    && (forall a | 0 <= a < |ids| :: Listed(tokens, marks, k, ids[a]))
    && (forall a, b | 0 <= a < b < |ids| :: ids[a] < ids[b])
  }

  ghost predicate Listed(tokens: seq<Token>, marks: seq<bool>, k: nat, id: nat)
    requires |marks| == |tokens| && k <= |tokens|
  {
    exists j :: 0 <= j < k && marks[j] && tokens[j].id == id
  }

  ghost predicate AscendingIds(tokens: seq<Token>) {
    forall i, j | 0 <= i < j < |tokens| :: tokens[i].id < tokens[j].id
  }

  lemma ListsOneMore(tokens: seq<Token>, marks: seq<bool>, ids: seq<nat>, k: nat)
    requires |marks| == |tokens| && k < |tokens| && AscendingIds(tokens) && ListsMarked(tokens, marks, ids, k)
    ensures ListsMarked(tokens, marks, if marks[k] then ids + [tokens[k].id] else ids, k + 1)
  {
    var next := if marks[k] then ids + [tokens[k].id] else ids;
    forall a | 0 <= a < |ids| ensures ids[a] < tokens[k].id && Listed(tokens, marks, k + 1, ids[a]) {
      assert Listed(tokens, marks, k, ids[a]);
      var j :| 0 <= j < k && marks[j] && tokens[j].id == ids[a];
    }
    forall a | 0 <= a < |next| ensures Listed(tokens, marks, k + 1, next[a]) {
      if a == |ids| {
        assert marks[k] && tokens[k].id == next[a];
      }
    }
    forall j | 0 <= j < k + 1 && marks[j] ensures tokens[j].id in next {
      if j == k {
        assert next[|ids|] == tokens[k].id;
      } else {
        assert tokens[j].id in ids;
      }
    }
  }

  ghost predicate MarksUsed(l: Lattice, filter: Filter, marks: seq<bool>)
    requires WellFormed(l)
  {
    |marks| == |l.tokens| && forall j | 0 <= j < |marks| :: marks[j] <==> Used(l, filter, l.tokens[j])
  }

  /** The ids of the used tokens, ascending. */
  ghost predicate ListsUsed(l: Lattice, filter: Filter, ids: seq<nat>)
    requires WellFormed(l)
  {
    exists marks :: MarksUsed(l, filter, marks) && ListsMarked(l.tokens, marks, ids, |l.tokens|)
  }

  lemma ListedMeansOnPath(l: Lattice, filter: Filter, ids: seq<nat>)
    requires WellFormed(l) && ListsUsed(l, filter, ids)
    ensures forall t | t in l.tokens ::
              t.id in ids <==> Allowed(filter, t) && OnSomePath(l, filter, t)
    ensures forall id | id in ids :: exists t :: t in l.tokens && t.id == id
    ensures forall a, b | 0 <= a < b < |ids| :: ids[a] < ids[b]
  {
    var marks :| MarksUsed(l, filter, marks) && ListsMarked(l.tokens, marks, ids, |l.tokens|);
    forall t | t in l.tokens
      ensures t.id in ids <==> Allowed(filter, t) && OnSomePath(l, filter, t)
    {
      var i :| 0 <= i < |l.tokens| && l.tokens[i] == t;
      if t.id in ids {
        var a :| 0 <= a < |ids| && ids[a] == t.id;
        assert Listed(l.tokens, marks, |l.tokens|, ids[a]);
        var j :| 0 <= j < |l.tokens| && marks[j] && l.tokens[j].id == ids[a];
        assert i == j;
      }
      assert marks[i] <==> Used(l, filter, t);
      if Allowed(filter, t) {
        OnCompletePath(l, filter, t);
      }
    }
    forall id | id in ids ensures exists t :: t in l.tokens && t.id == id {
      var a :| 0 <= a < |ids| && ids[a] == id;
      assert Listed(l.tokens, marks, |l.tokens|, ids[a]);
      var j :| 0 <= j < |l.tokens| && marks[j] && l.tokens[j].id == ids[a];
      assert l.tokens[j] in l.tokens;
    }
  }

  /** The forward and backward tables, as the two passes leave them. */
  ghost predicate Tables(l: Lattice, filter: Filter, budget: nat, forward: map<nat, nat>, backward: map<nat, bool>)
    requires WellFormed(l)
  {
    && (forall q: nat | q <= l.length :: Get(forward, q) == Saturated(budget, Reached(l, filter, q)))
    && (forall q: nat | q <= l.length :: q in backward && (backward[q] <==> Onward(l, filter, q) > 0))
  }

  /** Both tables vouch for a token exactly when it is used. */
  predicate Vouched(l: Lattice, filter: Filter, ghost budget: nat, forward: map<nat, nat>, backward: map<nat, bool>,
                    i: nat)
    requires WellFormed(l) && Tables(l, filter, budget, forward, backward) && i < |l.tokens|
    ensures Vouched(l, filter, budget, forward, backward, i) <==> Used(l, filter, l.tokens[i])
  {
    var t := l.tokens[i];
    assert t in l.tokens;
    Allowed(filter, t) && Get(forward, t.start) > 0 && backward[t.end]
  }

  method MarkedIds(tokens: seq<Token>, marks: seq<bool>) returns (ids: seq<nat>)
    requires |marks| == |tokens| && AscendingIds(tokens)
    ensures ListsMarked(tokens, marks, ids, |tokens|)
  {
    ids := [];
    for i := 0 to |tokens|
      invariant ListsMarked(tokens, marks, ids, i)
    {
      ListsOneMore(tokens, marks, ids, i);
      if marks[i] {
        ids := ids + [tokens[i].id];
      }
    }
  }

  /** The ids of the tokens both tables vouch for. */
  method UsedTokens(l: Lattice, filter: Filter, ghost budget: nat, forward: map<nat, nat>, backward: map<nat, bool>)
    returns (reachable: seq<nat>)
    requires WellFormed(l) && Tables(l, filter, budget, forward, backward)
    ensures ListsUsed(l, filter, reachable)
  {
    var marks := seq(|l.tokens|, i requires 0 <= i < |l.tokens| && WellFormed(l)
                                            && Tables(l, filter, budget, forward, backward)
                                 => Vouched(l, filter, budget, forward, backward, i));
    reachable := MarkedIds(l.tokens, marks);
    assert MarksUsed(l, filter, marks);
  }

  datatype Summary = Summary(pathCount: nat, saturated: bool, reachable: seq<nat>)

  /** Counts the complete paths up to a budget without listing them, and finds the tokens they use. */
  method Summarize(l: Lattice, filter: Filter, maxCount: nat) returns (r: Summary)
    requires WellFormed(l) && maxCount >= 1
    ensures r.pathCount == Min(|Paths(l, filter, 0)|, maxCount)
    ensures r.saturated <==> |Paths(l, filter, 0)| > maxCount
    ensures forall i, j | 0 <= i < j < |r.reachable| :: r.reachable[i] < r.reachable[j]
    ensures forall t | t in l.tokens ::
              t.id in r.reachable <==> Allowed(filter, t) && OnSomePath(l, filter, t)
    ensures forall id | id in r.reachable :: exists t :: t in l.tokens && t.id == id
  {
    var forward := ForwardCounts(l, filter, maxCount);
    var backward := BackwardReach(l, filter);
    var reachable := UsedTokens(l, filter, maxCount, forward, backward);
    ListedMeansOnPath(l, filter, reachable);
    var total := Get(forward, l.length);
    ForwardEqualsEnumeration(l, filter);
    r := Summary(Min(total, maxCount), total > maxCount, reachable);
  }

  /** Both forms, run with the same budget and filter, tell the same story. */
  method CompareForms(l: Lattice, filter: Filter, budget: nat) returns (e: Enumeration, s: Summary)
    requires WellFormed(l) && budget >= 1
    ensures s.pathCount == |e.paths|
    ensures s.saturated <==> !e.complete
    ensures e.complete ==> forall t | t in l.tokens ::
              t.id in s.reachable <==> Allowed(filter, t) && exists path :: path in e.paths && t in path
  {
    e := EnumeratePaths(l, filter, budget);
    s := Summarize(l, filter, budget);
  }
}
