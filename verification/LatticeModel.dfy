/** The packed segmentation lattice: its complete paths, and two ways to count them. */
module LatticeModel {
  import opened Options

  datatype Token = Token(id: nat, start: nat, end: nat)
  datatype Lattice = Lattice(length: nat, tokens: seq<Token>)

  /** Tokens lie forward inside the source and are listed by ascending identity. */
  predicate WellFormed(l: Lattice) {
    && l.length >= 1
    && (forall t | t in l.tokens :: t.start < t.end <= l.length)
    && (forall i, j | 0 <= i < j < |l.tokens| :: l.tokens[i].id < l.tokens[j].id)
  }

  type Filter = Option<set<nat>>

  predicate Allowed(filter: Filter, t: Token) {
    filter.None? || t.id in filter.value
  }

  /** The allowed tokens among the first `k` that start at a position, by ascending identity. */
  function EdgesAmong(l: Lattice, filter: Filter, pos: nat, k: nat): seq<Token>
    requires k <= |l.tokens|
  {
    if k == 0 then []
    else if l.tokens[k - 1].start == pos && Allowed(filter, l.tokens[k - 1]) then
      EdgesAmong(l, filter, pos, k - 1) + [l.tokens[k - 1]]
    else EdgesAmong(l, filter, pos, k - 1)
  }

  function EdgesAt(l: Lattice, filter: Filter, pos: nat): seq<Token> {
    EdgesAmong(l, filter, pos, |l.tokens|)
  }

  lemma {:induction false} EdgesAmongMembers(l: Lattice, filter: Filter, pos: nat, k: nat, t: Token)
    requires k <= |l.tokens|
    ensures t in EdgesAmong(l, filter, pos, k) <==>
            (exists i :: 0 <= i < k && l.tokens[i] == t) && t.start == pos && Allowed(filter, t)
  {
    if k > 0 {
      EdgesAmongMembers(l, filter, pos, k - 1, t);
      assert (exists i :: 0 <= i < k && l.tokens[i] == t) <==>
             l.tokens[k - 1] == t || exists i :: 0 <= i < k - 1 && l.tokens[i] == t;
    }
  }

  /** The tokens on offer at a position are the allowed ones that start there. */
  lemma EdgesAtMembers(l: Lattice, filter: Filter, pos: nat, t: Token)
    ensures t in EdgesAt(l, filter, pos) <==> t in l.tokens && t.start == pos && Allowed(filter, t)
  {
    EdgesAmongMembers(l, filter, pos, |l.tokens|, t);
  }

  lemma EdgeEnd(l: Lattice, filter: Filter, pos: nat, i: nat)
    requires WellFormed(l) && i < |EdgesAt(l, filter, pos)|
    ensures pos < EdgesAt(l, filter, pos)[i].end <= l.length
  {
    EdgesAtMembers(l, filter, pos, EdgesAt(l, filter, pos)[i]);
  }

  // ---- Complete paths, depth first -----------------------------------------------------------------

  type TokenPath = seq<Token>

  function Prepend(t: Token, paths: seq<TokenPath>): (r: seq<TokenPath>)
    ensures |r| == |paths|
    ensures forall i | 0 <= i < |r| :: r[i] == [t] + paths[i]
  {
    seq(|paths|, i requires 0 <= i < |paths| => [t] + paths[i])
  }

  /** All token sequences from `pos` to the end of the source, in depth-first order. */
  ghost function Paths(l: Lattice, filter: Filter, pos: nat): seq<TokenPath>
    requires WellFormed(l)
    decreases l.length - pos, |l.tokens| + 1
  {
    if pos >= l.length then (if pos == l.length then [[]] else [])
    else PathsBy(l, filter, pos, |EdgesAt(l, filter, pos)|)
  }

  /** Those that begin with one of the first `k` tokens starting at `pos`. */
  ghost function PathsBy(l: Lattice, filter: Filter, pos: nat, k: nat): seq<TokenPath>
    requires WellFormed(l) && pos < l.length && k <= |EdgesAt(l, filter, pos)|
    decreases l.length - pos, 0, k
  {
    if k == 0 then []
    else
      EdgeEnd(l, filter, pos, k - 1);
      var t := EdgesAt(l, filter, pos)[k - 1];
      PathsBy(l, filter, pos, k - 1) + Prepend(t, Paths(l, filter, t.end))
  }

  /** A gap-free sequence of allowed tokens from one position to another. */
  ghost predicate Chain(l: Lattice, filter: Filter, path: TokenPath, at: nat, goal: nat) {
    if path == [] then at == goal
    else
      && path[0] in l.tokens && Allowed(filter, path[0]) && path[0].start == at
      && Chain(l, filter, path[1..], path[0].end, goal)
  }

  /** The enumerated paths are the gap-free segmentations of the rest of the source. */
  lemma {:induction false} PathsAreChains(l: Lattice, filter: Filter, pos: nat, path: TokenPath)
    requires WellFormed(l) && pos <= l.length
    ensures path in Paths(l, filter, pos) <==> Chain(l, filter, path, pos, l.length)
    decreases l.length - pos, |l.tokens| + 1
  {
    if pos < l.length {
      var edges := EdgesAt(l, filter, pos);
      PathsByAreChains(l, filter, pos, |edges|, path);
      assert edges[..|edges|] == edges;
      if path != [] {
        EdgesAtMembers(l, filter, pos, path[0]);
      }
      if path != [] && path[0] in edges {
        var i :| 0 <= i < |edges| && edges[i] == path[0];
      }
    } else if path != [] && path[0] in l.tokens {
      assert path[0].start < l.length;
    }
  }

  lemma {:induction false} PathsByAreChains(l: Lattice, filter: Filter, pos: nat, k: nat, path: TokenPath)
    requires WellFormed(l) && pos < l.length && k <= |EdgesAt(l, filter, pos)|
    ensures path in PathsBy(l, filter, pos, k) <==>
            path != [] && path[0] in EdgesAt(l, filter, pos)[..k] && Chain(l, filter, path[1..], path[0].end, l.length)
    decreases l.length - pos, 0, k
  {
    if k > 0 {
      var edges := EdgesAt(l, filter, pos);
      EdgeEnd(l, filter, pos, k - 1);
      var t := edges[k - 1];
      PathsByAreChains(l, filter, pos, k - 1, path);
      PrependMember(t, Paths(l, filter, t.end), path);
      if path != [] {
        PathsAreChains(l, filter, t.end, path[1..]);
      }
      assert edges[..k] == edges[..k - 1] + [t];
    }
  }

  lemma PrependMember(t: Token, paths: seq<TokenPath>, path: TokenPath)
    ensures path in Prepend(t, paths) <==> path != [] && path[0] == t && path[1..] in paths
  {
    if path in Prepend(t, paths) {
      var i :| 0 <= i < |paths| && Prepend(t, paths)[i] == path;
      assert path[1..] == paths[i];
    }
    if path != [] && path[0] == t && path[1..] in paths {
      var i :| 0 <= i < |paths| && paths[i] == path[1..];
      assert Prepend(t, paths)[i] == path;
    }
  }

  // ---- Counting --------------------------------------------------------------------------------------

  /** How many paths lead from `pos` to the end. */
  ghost function Onward(l: Lattice, filter: Filter, pos: nat): nat
    requires WellFormed(l)
    decreases l.length - pos, |l.tokens| + 1
  {
    if pos >= l.length then (if pos == l.length then 1 else 0)
    else OnwardBy(l, filter, pos, |EdgesAt(l, filter, pos)|)
  }

  ghost function OnwardBy(l: Lattice, filter: Filter, pos: nat, k: nat): nat
    requires WellFormed(l) && pos < l.length && k <= |EdgesAt(l, filter, pos)|
    decreases l.length - pos, 0, k
  {
    if k == 0 then 0
    else
      EdgeEnd(l, filter, pos, k - 1);
      OnwardBy(l, filter, pos, k - 1) + Onward(l, filter, EdgesAt(l, filter, pos)[k - 1].end)
  }

  lemma {:induction false} OnwardCountsPaths(l: Lattice, filter: Filter, pos: nat)
    requires WellFormed(l)
    ensures Onward(l, filter, pos) == |Paths(l, filter, pos)|
    decreases l.length - pos, |l.tokens| + 1
  {
    if pos < l.length {
      OnwardByCountsPaths(l, filter, pos, |EdgesAt(l, filter, pos)|);
    }
  }

  lemma {:induction false} OnwardByCountsPaths(l: Lattice, filter: Filter, pos: nat, k: nat)
    requires WellFormed(l) && pos < l.length && k <= |EdgesAt(l, filter, pos)|
    ensures OnwardBy(l, filter, pos, k) == |PathsBy(l, filter, pos, k)|
    decreases l.length - pos, 0, k
  {
    if k > 0 {
      EdgeEnd(l, filter, pos, k - 1);
      OnwardByCountsPaths(l, filter, pos, k - 1);
      OnwardCountsPaths(l, filter, EdgesAt(l, filter, pos)[k - 1].end);
    }
  }

  /** How many of the first `k` tokens of a list end at `q`. */
  function Hits(edges: seq<Token>, k: nat, q: nat): nat
    requires k <= |edges|
  {
    if k == 0 then 0 else Hits(edges, k - 1, q) + if edges[k - 1].end == q then 1 else 0
  }

  /** How many allowed tokens span exactly `s..q`. */
  function Links(l: Lattice, filter: Filter, s: nat, q: nat): nat {
    Hits(EdgesAt(l, filter, s), |EdgesAt(l, filter, s)|, q)
  }

  /** Paths from the beginning to `q`. */
  ghost function Reached(l: Lattice, filter: Filter, q: nat): nat
    decreases q, q + 1
  {
    if q == 0 then 1 else Inflow(l, filter, q, q)
  }

  /** Those whose last token starts before `p`. */
  ghost function Inflow(l: Lattice, filter: Filter, q: nat, p: nat): nat
    requires p <= q
    decreases q, p
  {
    if p == 0 then 0
    else Inflow(l, filter, q, p - 1) + Reached(l, filter, p - 1) * Links(l, filter, p - 1, q)
  }

  /** Continuations over the first `k` tokens of position `s` that reach at least to `p`. */
  ghost function Beyond(l: Lattice, filter: Filter, s: nat, p: nat, k: nat): nat
    requires WellFormed(l) && k <= |EdgesAt(l, filter, s)|
  {
    if k == 0 then 0
    else
      var t := EdgesAt(l, filter, s)[k - 1];
      Beyond(l, filter, s, p, k - 1) + if t.end >= p then Onward(l, filter, t.end) else 0
  }

  ghost function AllBeyond(l: Lattice, filter: Filter, s: nat, p: nat): nat
    requires WellFormed(l)
  {
    Beyond(l, filter, s, p, |EdgesAt(l, filter, s)|)
  }

  /** Complete paths by the token that crosses boundary `p` and starts before `k`. */
  ghost function Crossing(l: Lattice, filter: Filter, p: nat, k: nat): nat
    requires WellFormed(l)
  {
    if k == 0 then 0
    else Crossing(l, filter, p, k - 1) + Reached(l, filter, k - 1) * AllBeyond(l, filter, k - 1, p)
  }

  /** The continuations from a position, token by token, are all its paths. */
  lemma {:induction false} BeyondIsOnward(l: Lattice, filter: Filter, pos: nat, k: nat)
    requires WellFormed(l) && pos < l.length && k <= |EdgesAt(l, filter, pos)|
    ensures Beyond(l, filter, pos, pos + 1, k) == OnwardBy(l, filter, pos, k)
  {
    if k > 0 {
      BeyondIsOnward(l, filter, pos, k - 1);
      EdgeEnd(l, filter, pos, k - 1);
    }
  }

  lemma {:induction false} BeyondStep(l: Lattice, filter: Filter, s: nat, p: nat, k: nat)
    requires WellFormed(l) && k <= |EdgesAt(l, filter, s)|
    ensures Beyond(l, filter, s, p, k)
            == Beyond(l, filter, s, p + 1, k) + Hits(EdgesAt(l, filter, s), k, p) * Onward(l, filter, p)
  {
    hide Onward, WellFormed;
    if k > 0 {
      BeyondStep(l, filter, s, p, k - 1);
      var o, h := Onward(l, filter, p), Hits(EdgesAt(l, filter, s), k - 1, p);
      assert (h + 1) * o == h * o + o;
    }
  }

  lemma {:induction false} CrossingStep(l: Lattice, filter: Filter, p: nat, k: nat)
    requires WellFormed(l) && k <= p
    ensures Crossing(l, filter, p, k)
            == Crossing(l, filter, p + 1, k) + Inflow(l, filter, p, k) * Onward(l, filter, p)
  {
    if k > 0 {
      CrossingStep(l, filter, p, k - 1);
      var edges := EdgesAt(l, filter, k - 1);
      BeyondStep(l, filter, k - 1, p, |edges|);
      var r, b, h, o := Reached(l, filter, k - 1), AllBeyond(l, filter, k - 1, p + 1),
        Links(l, filter, k - 1, p), Onward(l, filter, p);
      Regroup(r, b, h, o, Inflow(l, filter, p, k - 1));
    }
  }

  lemma Regroup(r: nat, b: nat, h: nat, o: nat, x: nat)
    ensures r * (b + h * o) + x * o == r * b + (x + r * h) * o
  {
    assert r * (h * o) == (r * h) * o;
  }

  /** Moving the boundary loses the paths that stop there and regains them as they go on. */
  lemma BoundaryMoves(l: Lattice, filter: Filter, p: nat)
    requires WellFormed(l) && 0 < p < l.length
    ensures Crossing(l, filter, p + 1, p + 1) == Crossing(l, filter, p, p)
  {
    CrossingStep(l, filter, p, p);
    BeyondIsOnward(l, filter, p, |EdgesAt(l, filter, p)|);
  }

  lemma {:induction false} EveryBoundaryCountsAll(l: Lattice, filter: Filter, p: nat)
    requires WellFormed(l) && 0 < p <= l.length
    ensures Crossing(l, filter, p, p) == Onward(l, filter, 0)
  {
    if p == 1 {
      BeyondIsOnward(l, filter, 0, |EdgesAt(l, filter, 0)|);
      assert Crossing(l, filter, 1, 0) == 0;
      assert Reached(l, filter, 0) == 1;
    } else {
      EveryBoundaryCountsAll(l, filter, p - 1);
      BoundaryMoves(l, filter, p - 1);
    }
  }

  lemma {:induction false} NothingBeyondEnd(l: Lattice, filter: Filter, s: nat, k: nat)
    requires WellFormed(l) && k <= |EdgesAt(l, filter, s)|
    ensures Beyond(l, filter, s, l.length + 1, k) == 0
  {
    if k > 0 {
      NothingBeyondEnd(l, filter, s, k - 1);
      EdgeEnd(l, filter, s, k - 1);
    }
  }

  lemma {:induction false} NothingCrossesEnd(l: Lattice, filter: Filter, k: nat)
    requires WellFormed(l)
    ensures Crossing(l, filter, l.length + 1, k) == 0
  {
    if k > 0 {
      NothingCrossesEnd(l, filter, k - 1);
      NothingBeyondEnd(l, filter, k - 1, |EdgesAt(l, filter, k - 1)|);
    }
  }

  /** Counting forward from the beginning and enumerating backward from the end agree. */
  lemma ForwardEqualsEnumeration(l: Lattice, filter: Filter)
    requires WellFormed(l)
    ensures Reached(l, filter, l.length) == |Paths(l, filter, 0)|
  {
    EveryBoundaryCountsAll(l, filter, l.length);
    CrossingStep(l, filter, l.length, l.length);
    NothingCrossesEnd(l, filter, l.length);
    assert Onward(l, filter, l.length) == 1;
    OnwardCountsPaths(l, filter, 0);
  }
}
