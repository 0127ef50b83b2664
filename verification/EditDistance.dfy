/** The rolling-row edit distance, its meaning as the cheapest edit script, and the metric laws. */
module EditDistance {

  type Tokens = seq<nat>

  function Min(a: nat, b: nat): nat {
    if a < b then a else b
  }

  function Differ(x: nat, y: nat): nat {
    if x == y then 0 else 1
  }

  /** The distance of the prefixes of lengths `i` and `j`. */
  function Cell(a: Tokens, b: Tokens, i: nat, j: nat): nat
    requires i <= |a| && j <= |b|
  {
    if i == 0 then j
    else if j == 0 then i
    else Min(Min(Cell(a, b, i, j - 1) + 1, Cell(a, b, i - 1, j) + 1),
             Cell(a, b, i - 1, j - 1) + Differ(a[i - 1], b[j - 1]))
  }

  function Distance(a: Tokens, b: Tokens): nat {
    Cell(a, b, |a|, |b|)
  }

  /** The first `k` entries of row `i`. */
  ghost predicate RowIs(a: Tokens, b: Tokens, i: nat, row: seq<nat>, k: nat)
    requires i <= |a|
  {
    |row| == k <= |b| + 1 && forall j | 0 <= j < k :: row[j] == Cell(a, b, i, j)
  }

  lemma RowGrows(a: Tokens, b: Tokens, i: nat, previous: seq<nat>, current: seq<nat>, j: nat)
    requires i < |a| && j < |b| && RowIs(a, b, i, previous, |b| + 1) && RowIs(a, b, i + 1, current, j + 1)
    ensures var cell := Min(Min(current[j] + 1, previous[j + 1] + 1), previous[j] + Differ(a[i], b[j]));
            RowIs(a, b, i + 1, current + [cell], j + 2)
  {}

  /** Two rows of the table are enough. */
  method RollingDistance(left: Tokens, right: Tokens) returns (d: nat)
    ensures d == Distance(left, right)
  {
    var previous: seq<nat> := seq(|right| + 1, j => j);
    for i := 0 to |left|
      invariant RowIs(left, right, i, previous, |right| + 1)
    {
      var current: seq<nat> := [i + 1];
      for j := 0 to |right|
        invariant RowIs(left, right, i + 1, current, j + 1)
      {
        var insertion, deletion := current[j] + 1, previous[j + 1] + 1;
        var substitution := previous[j] + if left[i] != right[j] then 1 else 0;
        RowGrows(left, right, i, previous, current, j);
        current := current + [Min(Min(insertion, deletion), substitution)];
      }
      previous := current;
    }
    return previous[|right|];
  }

  // ---- Edit scripts ----------------------------------------------------------------------------------

  datatype Edit = Insert(token: nat) | Delete(token: nat) | Replace(old_: nat, new_: nat)

  type Script = seq<Edit>

  function Consumed(e: Edit): Tokens {
    match e case Insert(_) => [] case Delete(x) => [x] case Replace(x, _) => [x]
  }

  function Produced(e: Edit): Tokens {
    match e case Insert(y) => [y] case Delete(_) => [] case Replace(_, y) => [y]
  }

  function Source(s: Script): Tokens {
    if s == [] then []
    else Source(s[..|s| - 1]) + Consumed(s[|s| - 1])
  }

  function Target(s: Script): Tokens {
    if s == [] then []
    else Target(s[..|s| - 1]) + Produced(s[|s| - 1])
  }

  function EditCost(e: Edit): nat {
    match e
    case Insert(_) => 1
    case Delete(_) => 1
    case Replace(x, y) => Differ(x, y)
  }

  /** A replacement by the same token is free. */
  function Cost(s: Script): nat {
    if s == [] then 0 else Cost(s[..|s| - 1]) + EditCost(s[|s| - 1])
  }

  lemma Appended(s: Script, e: Edit)
    ensures Cost(s + [e]) == Cost(s) + EditCost(e)
    ensures Source(s + [e]) == Source(s) + Consumed(e)
    ensures Target(s + [e]) == Target(s) + Produced(e)
  {
    assert (s + [e])[..|s|] == s;
  }

  lemma {:induction false} SameStep(a: Tokens, b: Tokens, c: Tokens, d: Tokens, m: nat, n: nat)
    requires m < |a| && n < |b| && m < |c| && n < |d| && a[m] == c[m] && b[n] == d[n]
    requires Cell(a, b, m + 1, n) == Cell(c, d, m + 1, n) && Cell(a, b, m, n + 1) == Cell(c, d, m, n + 1)
    requires Cell(a, b, m, n) == Cell(c, d, m, n)
    ensures Cell(a, b, m + 1, n + 1) == Cell(c, d, m + 1, n + 1)
  {}

  lemma {:induction false} CellOfPrefixes(a: Tokens, b: Tokens, c: Tokens, d: Tokens, i: nat, j: nat)
    requires i <= |a| && j <= |b| && i <= |c| && j <= |d|
    requires (forall m | 0 <= m < i :: a[m] == c[m]) && (forall m | 0 <= m < j :: b[m] == d[m])
    ensures Cell(a, b, i, j) == Cell(c, d, i, j)
  {
    if i == 0 {
      assert Cell(a, b, i, j) == j == Cell(c, d, i, j);
    } else if j == 0 {
      assert Cell(a, b, i, j) == i == Cell(c, d, i, j);
    } else {
      var m, n := i - 1, j - 1;
      CellOfPrefixes(a, b, c, d, i, n);
      CellOfPrefixes(a, b, c, d, m, j);
      CellOfPrefixes(a, b, c, d, m, n);
      SameStep(a, b, c, d, m, n);
    }
  }

  lemma {:induction false} CellNearby(a: Tokens, b: Tokens, i: nat, j: nat)
    requires i <= |a| && j <= |b|
    ensures i > 0 ==> Cell(a, b, i, j) <= Cell(a, b, i - 1, j) + 1
    ensures j > 0 ==> Cell(a, b, i, j) <= Cell(a, b, i, j - 1) + 1
  {}

  lemma {:induction false} CellDiagonal(a: Tokens, b: Tokens, i: nat, j: nat)
    requires i < |a| && j < |b|
    ensures Cell(a, b, i + 1, j + 1) <= Cell(a, b, i, j) + Differ(a[i], b[j])
  {}

  /** One more edit moves the distance by no more than it costs. */
  lemma OneEditNearby(a: Tokens, b: Tokens, e: Edit)
    ensures Distance(a + Consumed(e), b + Produced(e)) <= Distance(a, b) + EditCost(e)
  {
    var c, d := a + Consumed(e), b + Produced(e);
    CellOfPrefixes(a, b, c, d, |a|, |b|);
    match e {
      case Insert(y) =>
        assert |c| == |a|;
        CellNearby(c, d, |a|, |b| + 1);
      case Delete(x) =>
        assert |d| == |b|;
        CellNearby(c, d, |a| + 1, |b|);
      case Replace(x, y) =>
        CellDiagonal(c, d, |a|, |b|);
    }
  }

  /** No script is cheaper than the distance. */
  lemma {:induction false} ScriptCostsAtLeast(s: Script)
    ensures Cost(s) >= Distance(Source(s), Target(s))
    decreases |s|
  {
    if s != [] {
      var rest, e := s[..|s| - 1], s[|s| - 1];
      ScriptCostsAtLeast(rest);
      Appended(rest, e);
      assert s == rest + [e];
      OneEditNearby(Source(rest), Target(rest), e);
    }
  }

  lemma Extended(a: Tokens, b: Tokens, x: nat, y: nat, i: nat, j: nat, rest: Script, e: Edit) returns (s: Script)
    requires x <= i <= |a| && y <= j <= |b|
    requires Source(rest) == a[..x] && Target(rest) == b[..y] && Consumed(e) == a[x..i] && Produced(e) == b[y..j]
    ensures Source(s) == a[..i] && Target(s) == b[..j] && Cost(s) == Cost(rest) + EditCost(e)
  {
    Appended(rest, e);
    s := rest + [e];
    assert a[..i] == a[..x] + a[x..i] && b[..j] == b[..y] + b[y..j];
  }

  /** The last step of a cheapest alignment. */
  lemma LastEdit(a: Tokens, b: Tokens, i: nat, j: nat) returns (x: nat, y: nat, e: Edit)
    requires i <= |a| && j <= |b| && (0 < i || 0 < j)
    ensures x <= i && y <= j && x + y < i + j
    ensures Consumed(e) == a[x..i] && Produced(e) == b[y..j]
    ensures Cell(a, b, i, j) == Cell(a, b, x, y) + EditCost(e)
  {
    if j > 0 && Cell(a, b, i, j) == Cell(a, b, i, j - 1) + 1 {
      x, y, e := i, j - 1, Insert(b[j - 1]);
    } else if i > 0 && Cell(a, b, i, j) == Cell(a, b, i - 1, j) + 1 {
      x, y, e := i - 1, j, Delete(a[i - 1]);
    } else {
      x, y, e := i - 1, j - 1, Replace(a[i - 1], b[j - 1]);
    }
  }

  /** Some script costs exactly the distance. */
  lemma {:induction false} CheapestScript(a: Tokens, b: Tokens, i: nat, j: nat) returns (s: Script)
    requires i <= |a| && j <= |b|
    ensures Source(s) == a[..i] && Target(s) == b[..j] && Cost(s) == Cell(a, b, i, j)
    decreases i + j
  {
    if i == 0 && j == 0 {
      s := [];
    } else {
      var x, y, e := LastEdit(a, b, i, j);
      var rest := CheapestScript(a, b, x, y);
      s := Extended(a, b, x, y, i, j, rest, e);
    }
  }

  // ---- The metric laws -------------------------------------------------------------------------------

  lemma {:induction false} FreeScriptCopies(s: Script)
    requires Cost(s) == 0
    ensures Source(s) == Target(s)
    decreases |s|
  {
    if s != [] {
      FreeScriptCopies(s[..|s| - 1]);
    }
  }

  lemma {:induction false} DistanceToSelf(a: Tokens, i: nat)
    requires i <= |a|
    ensures Cell(a, a, i, i) == 0
  {
    if i > 0 {
      DistanceToSelf(a, i - 1);
    }
  }

  lemma ZeroIffEqual(a: Tokens, b: Tokens)
    ensures Distance(a, b) == 0 <==> a == b
  {
    var s := CheapestScript(a, b, |a|, |b|);
    assert a[..|a|] == a && b[..|b|] == b;
    if Distance(a, b) == 0 {
      FreeScriptCopies(s);
    }
    if a == b {
      DistanceToSelf(a, |a|);
    }
  }

  function Undo(e: Edit): Edit {
    match e case Insert(y) => Delete(y) case Delete(x) => Insert(x) case Replace(x, y) => Replace(y, x)
  }

  /** Undoing a script edit by edit turns it around at the same cost. */
  lemma {:induction false} Undone(s: Script) returns (r: Script)
    ensures Source(r) == Target(s) && Target(r) == Source(s) && Cost(r) == Cost(s)
    decreases |s|
  {
    if s == [] {
      r := [];
    } else {
      var front, e := s[..|s| - 1], s[|s| - 1];
      var back := Undone(front);
      Appended(back, Undo(e));
      r := back + [Undo(e)];
    }
  }

  lemma NoFartherBack(a: Tokens, b: Tokens)
    ensures Distance(b, a) <= Distance(a, b)
  {
    var s := CheapestScript(a, b, |a|, |b|);
    assert a[..|a|] == a && b[..|b|] == b;
    var r := Undone(s);
    ScriptCostsAtLeast(r);
  }

  lemma Symmetric(a: Tokens, b: Tokens)
    ensures Distance(a, b) == Distance(b, a)
  {
    NoFartherBack(a, b);
    NoFartherBack(b, a);
  }

  /** Two edits that meet in the middle become at most one. */
  lemma ComposeLast(s: Script, t: Script, front: Script) returns (r: Script)
    requires s != [] && t != [] && !s[|s| - 1].Delete? && !t[|t| - 1].Insert?
    requires Source(front) == Source(s[..|s| - 1]) && Target(front) == Target(t[..|t| - 1])
    requires Cost(front) <= Cost(s[..|s| - 1]) + Cost(t[..|t| - 1])
    requires (if s[|s| - 1].Insert? then s[|s| - 1].token else s[|s| - 1].new_)
          == (if t[|t| - 1].Delete? then t[|t| - 1].token else t[|t| - 1].old_)
    ensures Source(r) == Source(s) && Target(r) == Target(t) && Cost(r) <= Cost(s) + Cost(t)
  {
    var u, v := s[|s| - 1], t[|t| - 1];
    r := front;
    if u.Insert? && v.Replace? {
      Appended(front, Insert(v.new_));
      r := front + [Insert(v.new_)];
    } else if u.Replace? && v.Delete? {
      Appended(front, Delete(u.old_));
      r := front + [Delete(u.old_)];
    } else if u.Replace? && v.Replace? {
      Appended(front, Replace(u.old_, v.new_));
      r := front + [Replace(u.old_, v.new_)];
    }
  }

  /** Two scripts in a row make one that is no dearer. */
  lemma {:induction false} Compose(s: Script, t: Script) returns (r: Script)
    requires Target(s) == Source(t)
    ensures Source(r) == Source(s) && Target(r) == Target(t) && Cost(r) <= Cost(s) + Cost(t)
    decreases |s| + |t|
  {
    if s != [] && s[|s| - 1].Delete? {
      r := Compose(s[..|s| - 1], t);
      Appended(r, s[|s| - 1]);
      r := r + [s[|s| - 1]];
    } else if t != [] && t[|t| - 1].Insert? {
      r := Compose(s, t[..|t| - 1]);
      Appended(r, t[|t| - 1]);
      r := r + [t[|t| - 1]];
    } else if s == [] || t == [] {
      r := [];
    } else {
      var u, v := s[|s| - 1], t[|t| - 1];
      SharedLast(s, t);
      r := Compose(s[..|s| - 1], t[..|t| - 1]);
      r := ComposeLast(s, t, r);
    }
  }

  /** When the last edits meet in the middle sequence they speak of the same token. */
  lemma SharedLast(s: Script, t: Script)
    requires Target(s) == Source(t) && s != [] && t != []
    requires !s[|s| - 1].Delete? && !t[|t| - 1].Insert?
    ensures Target(s[..|s| - 1]) == Source(t[..|t| - 1])
    ensures (if s[|s| - 1].Insert? then s[|s| - 1].token else s[|s| - 1].new_)
         == (if t[|t| - 1].Delete? then t[|t| - 1].token else t[|t| - 1].old_)
  {
    var x, y := Target(s), Source(t);
    assert x[..|x| - 1] == Target(s[..|s| - 1]);
    assert y[..|y| - 1] == Source(t[..|t| - 1]);
    assert x[|x| - 1] == y[|y| - 1];
  }

  lemma Triangle(a: Tokens, b: Tokens, c: Tokens)
    ensures Distance(a, c) <= Distance(a, b) + Distance(b, c)
  {
    assert a[..|a|] == a && b[..|b|] == b && c[..|c|] == c;
    var s := CheapestScript(a, b, |a|, |b|);
    var t := CheapestScript(b, c, |b|, |c|);
    var r := Compose(s, t);
    ScriptCostsAtLeast(r);
  }

  /** The distance is the least cost of turning one sequence into the other. */
  lemma DistanceIsLeastCost(a: Tokens, b: Tokens)
    ensures exists s :: Source(s) == a && Target(s) == b && Cost(s) == Distance(a, b)
    ensures forall s | Source(s) == a && Target(s) == b :: Cost(s) >= Distance(a, b)
  {
    assert a[..|a|] == a && b[..|b|] == b;
    var s := CheapestScript(a, b, |a|, |b|);
    forall s' | Source(s') == a && Target(s') == b ensures Cost(s') >= Distance(a, b) {
      ScriptCostsAtLeast(s');
    }
  }

  // ---- Mutual unique nearest items -------------------------------------------------------------------

  type Items = seq<Tokens>

  /** `j` is the one differing item nearest to item `i`. */
  ghost predicate UniqueNearest(items: Items, i: nat, j: nat, d: nat) {
    && i < |items| && j < |items| && items[j] != items[i] && Distance(items[i], items[j]) == d
    && forall k | 0 <= k < |items| && k != j && items[k] != items[i] :: Distance(items[i], items[k]) > d
  }

  /** The candidate nearest peer of an item: how near, how many so near, and the first of them. */
  method NearestPeer(items: Items, i: nat) returns (found: bool, peer: nat, d: nat, count: nat)
    requires i < |items|
    ensures found && count == 1 ==> UniqueNearest(items, i, peer, d)
    ensures (exists j, m :: UniqueNearest(items, i, j, m)) ==> found && count == 1
  {
    found, peer, d, count := false, 0, 0, 0;
    for k := 0 to |items|
      invariant found ==> peer < k && items[peer] != items[i] && Distance(items[i], items[peer]) == d && count >= 1
      invariant !found ==> forall m | 0 <= m < k :: items[m] == items[i]
      invariant found ==> forall m | 0 <= m < k && items[m] != items[i] :: Distance(items[i], items[m]) >= d
      invariant found && count == 1 ==>
                  forall m | 0 <= m < k && m != peer && items[m] != items[i] :: Distance(items[i], items[m]) > d
      invariant found && count > 1 ==>
                  exists m :: 0 <= m < k && m != peer && items[m] != items[i] && Distance(items[i], items[m]) == d
    {
      if k != i && items[k] != items[i] {
        var e := RollingDistance(items[i], items[k]);
        if !found || e < d {
          found, peer, d, count := true, k, e, 1;
        } else if e == d {
          count := count + 1;
        }
      }
    }
  }

  type Nearest = map<nat, (nat, nat)>

  predicate Mutual(nearest: Nearest, i: nat, j: nat, d: nat) {
    i in nearest && j in nearest && nearest[i] == (j, d) && nearest[j] == (i, d)
  }

  /** Pairs that are each other's unique nearest differing item. */
  method MutualUniqueNearest(items: Items) returns (edges: set<(nat, nat, nat)>)
    ensures forall i: nat, j: nat, d: nat :: (i, j, d) in edges <==>
              i < j && UniqueNearest(items, i, j, d) && UniqueNearest(items, j, i, d)
  {
    var nearest: Nearest := map[];
    for i := 0 to |items|
      invariant forall k: nat, j: nat, d: nat ::
              k in nearest && nearest[k] == (j, d) <==> k < i && UniqueNearest(items, k, j, d)
    {
      var found, peer, d, count := NearestPeer(items, i);
      if found && count == 1 {
        forall j, m | UniqueNearest(items, i, j, m) ensures j == peer && m == d {
          NearestIsUnique(items, i, j, m, peer, d);
        }
        nearest := nearest[i := (peer, d)];
      }
    }
    edges := set i | i in nearest && nearest[i].0 in nearest && nearest[nearest[i].0] == (i, nearest[i].1) ::
      (if i < nearest[i].0 then i else nearest[i].0, if i < nearest[i].0 then nearest[i].0 else i, nearest[i].1);
    forall i: nat, j: nat, d: nat ensures (i, j, d) in edges <==> i < j && Mutual(nearest, i, j, d) {
      if i < j && Mutual(nearest, i, j, d) {
        assert i in nearest && nearest[i].0 == j;
      }
      if (i, j, d) in edges {
        var k :| k in nearest && nearest[k].0 in nearest && nearest[nearest[k].0] == (k, nearest[k].1)
                     && (i, j, d) == (if k < nearest[k].0 then k else nearest[k].0,
                                      if k < nearest[k].0 then nearest[k].0 else k, nearest[k].1);
        assert UniqueNearest(items, k, nearest[k].0, nearest[k].1);
      }
    }
  }

  lemma NearestIsUnique(items: Items, i: nat, j: nat, d: nat, k: nat, e: nat)
    requires UniqueNearest(items, i, j, d) && UniqueNearest(items, i, k, e)
    ensures j == k && d == e
  {}

  /** The pairs form a matching: no index occurs twice. */
  lemma PairsAreMatching(items: Items, edges: set<(nat, nat, nat)>, p: (nat, nat, nat), q: (nat, nat, nat))
    requires forall i: nat, j: nat, d: nat :: (i, j, d) in edges <==>
               i < j && UniqueNearest(items, i, j, d) && UniqueNearest(items, j, i, d)
    requires p in edges && q in edges && p != q
    ensures p.0 != q.0 && p.0 != q.1 && p.1 != q.0 && p.1 != q.1
  {
    var (i, j, d) := p;
    var (k, l, e) := q;
    assert (i, j, d) in edges && (k, l, e) in edges;
    if i == k { NearestIsUnique(items, i, j, d, l, e); }
    if i == l { NearestIsUnique(items, i, j, d, k, e); }
    if j == k { NearestIsUnique(items, j, i, d, l, e); }
    if j == l { NearestIsUnique(items, j, i, d, k, e); }
  }
}
