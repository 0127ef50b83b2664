/** The composer's promises leave exactly one answer. */
module ClaimDeterminism {
  import opened Options
  import opened Order
  import opened ClaimPath
  import opened ClaimEdges
  import opened ClaimObligations
  import opened ClaimSelection
  import opened ClaimComposer

  /** Claims of one source begin at different places. */
  predicate DistinctSpans(claims: seq<Claim>) {
    forall i, j | 0 <= i < j < |claims| :: claims[i].source != claims[j].source || claims[i].start != claims[j].start
  }

  // ---- The first phase -----------------------------------------------------------------------------

  /** There is one best fitting claim. */
  lemma BestIsOne(o: Obligation, claims: seq<Claim>, used: nat, maxBytes: nat, id: nat, other: nat)
    requires DistinctSpans(claims)
    requires BestFor(o, claims, used, maxBytes, id) && BestFor(o, claims, used, maxBytes, other)
    ensures id == other
  {
    hide Score, MayClose;
    var a :| 0 <= a < |claims| && claims[a].id == id && Row(o, claims[a], used, maxBytes)
             && Unbeaten(o, claims, used, maxBytes, claims[a]);
    var b :| 0 <= b < |claims| && claims[b].id == other && Row(o, claims[b], used, maxBytes)
             && Unbeaten(o, claims, used, maxBytes, claims[b]);
    assert !Beats(o, claims[a], claims[b]) && !Beats(o, claims[b], claims[a]);
    assert claims[a].source == claims[b].source && claims[a].start == claims[b].start;
  }

  lemma SomeBest(o: Obligation, claims: seq<Claim>, used: nat, maxBytes: nat, id: nat)
    requires BestFor(o, claims, used, maxBytes, id)
    ensures SomeRow(o, claims, used, maxBytes)
  {}

  lemma PickDetermined(o: Obligation, claims: seq<Claim>, a: seq<Claim>, b: seq<Claim>, p: nat, q: nat, r: nat,
                       maxClaims: nat, maxBytes: nat, x: Option<nat>, y: Option<nat>)
    requires DistinctSpans(claims) && p <= |a| && p <= |b| && a[..p] == b[..p]
    requires PickAt(o, claims, a, p, q, maxClaims, maxBytes, x) && PickAt(o, claims, b, p, r, maxClaims, maxBytes, y)
    ensures x == y && q == r
    ensures q > p ==> a[p].id == b[p].id
  {
    hide BestFor;
    BytesOfPrefix(a, b, p);
    assert BestBehind(o, claims, a, p, maxBytes, 0) <==> BestFor(o, claims, Bytes(a, p), maxBytes, 0);
    if x.Some? && y.Some? {
      BestIsOne(o, claims, Bytes(a, p), maxBytes, x.value, y.value);
    } else if x.Some? {
      SomeBest(o, claims, Bytes(a, p), maxBytes, x.value);
      var id :| BestBehind(o, claims, b, p, maxBytes, id) && id !in SelectedIds(b[..p]);
      BestIsOne(o, claims, Bytes(a, p), maxBytes, x.value, id);
    } else if y.Some? {
      SomeBest(o, claims, Bytes(a, p), maxBytes, y.value);
      var id :| BestBehind(o, claims, a, p, maxBytes, id) && id !in SelectedIds(a[..p]);
      BestIsOne(o, claims, Bytes(a, p), maxBytes, y.value, id);
    }
  }

  lemma SameClaim(claims: seq<Claim>, c: Claim, d: Claim)
    requires DistinctIds(claims) && c in claims && d in claims && c.id == d.id
    ensures c == d
  {}

  ghost predicate FromPool(claims: seq<Claim>, selected: seq<Claim>) {
    forall i | 0 <= i < |selected| :: selected[i] in claims
  }

  /** The two first phases agree on the first `m` obligations. */
  ghost predicate Alike(a: seq<Claim>, stagesA: seq<nat>, picksA: seq<Option<nat>>, b: seq<Claim>, stagesB: seq<nat>,
                        picksB: seq<Option<nat>>, m: nat) {
    && m < |stagesA| && m < |stagesB| && m <= |picksA| && m <= |picksB|
    && stagesA[m] == stagesB[m] && stagesA[m] <= |a| && stagesA[m] <= |b|
    && a[..stagesA[m]] == b[..stagesA[m]] && picksA[..m] == picksB[..m]
  }

  lemma {:induction false} PicksAgree(claims: seq<Claim>, obligations: seq<Obligation>, a: seq<Claim>,
                                      stagesA: seq<nat>, picksA: seq<Option<nat>>, b: seq<Claim>, stagesB: seq<nat>,
                                      picksB: seq<Option<nat>>, maxClaims: nat, maxBytes: nat, m: nat)
    requires DistinctIds(claims) && DistinctSpans(claims) && FromPool(claims, a) && FromPool(claims, b)
    requires PickedInOrder(claims, obligations, |obligations|, a, stagesA, picksA, maxClaims, maxBytes)
    requires PickedInOrder(claims, obligations, |obligations|, b, stagesB, picksB, maxClaims, maxBytes)
    requires m <= |obligations|
    ensures Alike(a, stagesA, picksA, b, stagesB, picksB, m)
  {
    if m > 0 {
      var k := m - 1;
      PicksAgree(claims, obligations, a, stagesA, picksA, b, stagesB, picksB, maxClaims, maxBytes, k);
      var p := stagesA[k];
      assert PickAt(obligations[k], claims, a, p, stagesA[k + 1], maxClaims, maxBytes, picksA[k]);
      assert PickAt(obligations[k], claims, b, p, stagesB[k + 1], maxClaims, maxBytes, picksB[k]);
      PickDetermined(obligations[k], claims, a, b, p, stagesA[k + 1], stagesB[k + 1], maxClaims, maxBytes, picksA[k],
                     picksB[k]);
      PickSteps(obligations[k], claims, a, p, stagesA[k + 1], maxClaims, maxBytes, picksA[k]);
      if stagesA[m] > p {
        SameClaim(claims, a[p], b[p]);
        PrefixStep(a, p);
        PrefixStep(b, p);
      }
      PrefixStep(picksA, k);
      PrefixStep(picksB, k);
    }
  }

  lemma PickSteps(o: Obligation, claims: seq<Claim>, first: seq<Claim>, p: nat, q: nat, maxClaims: nat,
                  maxBytes: nat, chosen: Option<nat>)
    requires PickAt(o, claims, first, p, q, maxClaims, maxBytes, chosen)
    ensures p <= q <= p + 1
  {}

  lemma FirstPhaseDetermined(claims: seq<Claim>, obligations: seq<Obligation>, seedsA: Seeds, a: seq<Claim>,
                             seedsB: Seeds, b: seq<Claim>, maxClaims: nat, maxBytes: nat)
    requires DistinctIds(claims) && DistinctSpans(claims) && FromPool(claims, a) && FromPool(claims, b)
    requires PickedThrough(claims, obligations, seedsA, a, maxClaims, maxBytes)
    requires PickedThrough(claims, obligations, seedsB, b, maxClaims, maxBytes)
    ensures a == b && seedsA == seedsB
  {
    var n := |obligations|;
    var stagesA, picksA :| PickedInOrder(claims, obligations, n, a, stagesA, picksA, maxClaims, maxBytes)
                           && seedsA == SeedsFrom(obligations, picksA, n);
    var stagesB, picksB :| PickedInOrder(claims, obligations, n, b, stagesB, picksB, maxClaims, maxBytes)
                           && seedsB == SeedsFrom(obligations, picksB, n);
    PicksAgree(claims, obligations, a, stagesA, picksA, b, stagesB, picksB, maxClaims, maxBytes, n);
    assert a[..|a|] == a && b[..|b|] == b;
    assert picksA[..n] == picksA && picksB[..n] == picksB;
  }

  // ---- The second phase ----------------------------------------------------------------------------

  lemma {:induction false} BytesGrow(claims: seq<Claim>, j: nat, k: nat)
    requires j <= k <= |claims|
    ensures Bytes(claims, j) <= Bytes(claims, k)
    decreases k
  {
    if j < k {
      BytesGrow(claims, j, k - 1);
    }
  }

  /** A selected claim was not selected before, and fitted. */
  lemma SelectedFitted(claims: seq<Claim>, selected: seq<Claim>, maxClaims: nat, maxBytes: nat, k: nat)
    requires DistinctIds(claims) && WellSelected(claims, selected, maxClaims, maxBytes) && k < |selected|
    ensures selected[k].id in ById(claims) && ById(claims)[selected[k].id] == selected[k]
    ensures var s := SelectionOf(selected[..k], maxClaims, maxBytes);
            selected[k].id !in s.ids && Fits(s, selected[k].bytes)
  {
    InPool(claims, selected[k]);
    BytesOfPrefix(selected, selected[..k], k);
    BytesGrow(selected, k + 1, |selected|);
  }

  lemma InnerAtIsOne(adj: Adjacency, byId: Claims, order: seq<nat>, place: Place, id: nat, other: nat)
    requires InnerAt(adj, byId, order, place, id) && InnerAt(adj, byId, order, place, other)
    ensures id == other
  {
    var path :| BestPath(adj, byId, order[place.left], order[place.right], path)
                && 0 < place.inner < |path| - 1 && path[place.inner] == id;
    InnerAtIs(adj, byId, order, place, path, other);
  }

  lemma PlacesLinear(a: Place, b: Place)
    ensures a == b || Ahead(a, b) || Ahead(b, a)
  {}

  /** Behind the same claims the next one cannot stand at an earlier place. */
  lemma NextNotAhead(claims: seq<Claim>, adj: Adjacency, order: seq<nat>, n: nat, a: seq<Claim>, placesA: seq<Place>,
                     b: seq<Claim>, maxClaims: nat, maxBytes: nat, k: nat, limit: Place)
    requires DistinctIds(claims) && WellSelected(claims, a, maxClaims, maxBytes)
    requires |a| == n + |placesA| && k < |placesA| && n + k <= |b| && a[..n + k] == b[..n + k]
    requires JoinedAt(adj, ById(claims), order, n, a, placesA, maxClaims, maxBytes, k)
    requires Passed(adj, ById(claims), order, SelectionOf(b[..n + k], maxClaims, maxBytes), limit)
    ensures !Ahead(placesA[k], limit)
  {
    hide InnerAt;
    SelectedFitted(claims, a, maxClaims, maxBytes, n + k);
  }

  lemma AtItsPlace(claims: seq<Claim>, adj: Adjacency, order: seq<nat>, n: nat, a: seq<Claim>, places: seq<Place>,
                   maxClaims: nat, maxBytes: nat, k: nat)
    requires DistinctIds(claims) && JoinedToEnd(adj, ById(claims), order, n, a, places, maxClaims, maxBytes)
    requires k < |places|
    ensures |a| == n + |places| && JoinedAt(adj, ById(claims), order, n, a, places, maxClaims, maxBytes, k)
    ensures InnerAt(adj, ById(claims), order, places[k], a[n + k].id)
    ensures Passed(adj, ById(claims), order, SelectionOf(a[..n + k], maxClaims, maxBytes), places[k])
    ensures Ahead(places[k], Place(|order|, |order| + 1, 0))
  {
    hide Passed, InnerAt, SelectionOf;
    assert JoinedAt(adj, ById(claims), order, n, a, places, maxClaims, maxBytes, k);
  }

  lemma {:induction false} JoinsAgree(claims: seq<Claim>, adj: Adjacency, order: seq<nat>, n: nat, a: seq<Claim>,
                                      placesA: seq<Place>, b: seq<Claim>, placesB: seq<Place>, maxClaims: nat,
                                      maxBytes: nat, k: nat)
    requires DistinctIds(claims) && n <= |a| && n <= |b| && a[..n] == b[..n]
    requires WellSelected(claims, a, maxClaims, maxBytes) && WellSelected(claims, b, maxClaims, maxBytes)
    requires JoinedToEnd(adj, ById(claims), order, n, a, placesA, maxClaims, maxBytes)
    requires JoinedToEnd(adj, ById(claims), order, n, b, placesB, maxClaims, maxBytes)
    requires k <= |placesA| && k <= |placesB| && |a| == n + |placesA| && |b| == n + |placesB|
    ensures a[..n + k] == b[..n + k]
  {
    hide JoinedToEnd, JoinedAt, Passed, InnerAt, SelectionOf, Ahead;
    if k > 0 {
      var j := k - 1;
      JoinsAgree(claims, adj, order, n, a, placesA, b, placesB, maxClaims, maxBytes, j);
      AtItsPlace(claims, adj, order, n, a, placesA, maxClaims, maxBytes, j);
      AtItsPlace(claims, adj, order, n, b, placesB, maxClaims, maxBytes, j);
      NextNotAhead(claims, adj, order, n, a, placesA, b, maxClaims, maxBytes, j, placesB[j]);
      NextNotAhead(claims, adj, order, n, b, placesB, a, maxClaims, maxBytes, j, placesA[j]);
      PlacesLinear(placesA[j], placesB[j]);
      InnerAtIsOne(adj, ById(claims), order, placesA[j], a[n + j].id, b[n + j].id);
      assert a[n + j] in claims && b[n + j] in claims;
      SameClaim(claims, a[n + j], b[n + j]);
      PrefixStep(a, n + j);
      PrefixStep(b, n + j);
    }
  }

  lemma NotLonger(claims: seq<Claim>, adj: Adjacency, order: seq<nat>, n: nat, a: seq<Claim>, placesA: seq<Place>,
                  b: seq<Claim>, placesB: seq<Place>, maxClaims: nat, maxBytes: nat)
    requires DistinctIds(claims) && n <= |a| && n <= |b| && a[..n] == b[..n]
    requires WellSelected(claims, a, maxClaims, maxBytes) && WellSelected(claims, b, maxClaims, maxBytes)
    requires JoinedToEnd(adj, ById(claims), order, n, a, placesA, maxClaims, maxBytes)
    requires JoinedToEnd(adj, ById(claims), order, n, b, placesB, maxClaims, maxBytes)
    ensures |a| <= |b|
  {
    if |b| < |a| {
      var k, end := |placesB|, Place(|order|, |order| + 1, 0);
      JoinsAgree(claims, adj, order, n, a, placesA, b, placesB, maxClaims, maxBytes, k);
      assert b[..n + k] == b;
      AtItsPlace(claims, adj, order, n, a, placesA, maxClaims, maxBytes, k);
      NextNotAhead(claims, adj, order, n, a, placesA, b, maxClaims, maxBytes, k, end);
    }
  }

  lemma SecondPhaseDetermined(claims: seq<Claim>, adj: Adjacency, order: seq<nat>, first: seq<Claim>, a: seq<Claim>,
                              b: seq<Claim>, maxClaims: nat, maxBytes: nat)
    requires DistinctIds(claims)
    requires WellSelected(claims, a, maxClaims, maxBytes) && WellSelected(claims, b, maxClaims, maxBytes)
    requires JoinedThrough(adj, ById(claims), order, first, a, maxClaims, maxBytes)
    requires JoinedThrough(adj, ById(claims), order, first, b, maxClaims, maxBytes)
    ensures a == b
  {
    var n := |first|;
    var placesA :| JoinedToEnd(adj, ById(claims), order, n, a, placesA, maxClaims, maxBytes);
    var placesB :| JoinedToEnd(adj, ById(claims), order, n, b, placesB, maxClaims, maxBytes);
    NotLonger(claims, adj, order, n, a, placesA, b, placesB, maxClaims, maxBytes);
    NotLonger(claims, adj, order, n, b, placesB, a, placesA, maxClaims, maxBytes);
    JoinsAgree(claims, adj, order, n, a, placesA, b, placesB, maxClaims, maxBytes, |placesA|);
    assert a[..|a|] == a && b[..|b|] == b;
  }

  // ---- The whole run -------------------------------------------------------------------------------

  lemma OneGraph(claims: seq<Claim>, adj: Adjacency, other: Adjacency)
    requires DistinctIds(claims) && GraphOf(claims, adj) && GraphOf(claims, other)
    ensures adj == other
  {
    forall u | u in adj ensures u in other && adj[u] == other[u] {
      forall v ensures v in adj[u] <==> v in other[u] {
        assert Joined(adj, u, v) <==> Joined(other, u, v);
      }
    }
    forall u | u in other ensures u in adj {}
  }

  /** One question, one set of intents, claims and budgets: one answer. */
  lemma ComposeIsDetermined(question: seq<Clause>, intents: seq<Intent>, claims: seq<Claim>, maxClaims: nat,
                            maxBytes: nat, run: Run, other: Run)
    requires DistinctIds(claims) && DistinctSpans(claims)
    requires Composed(question, intents, claims, maxClaims, maxBytes, run)
    requires Composed(question, intents, claims, maxClaims, maxBytes, other)
    ensures run == other
  {
    hide PickedThrough, JoinedThrough, PairsAsFit, PairsInside, GraphOf, SomeFits, SeedsBest, AllPicked, OpenOutOfRoom;
    var obligations, finals := Effective(ObligationsOf(question, intents)), QuestionPart(question);
    OneGraph(claims, run.adj, other.adj);
    FirstOfPool(claims, run.first, run.answer.claims);
    FirstOfPool(claims, other.first, other.answer.claims);
    FirstPhaseDetermined(claims, obligations, run.seeds, run.first, other.seeds, other.first, maxClaims, maxBytes);
    SecondPhaseDetermined(claims, run.adj, SeedOrder(finals, run.seeds, |finals|), run.first, run.answer.claims,
                          other.answer.claims, maxClaims, maxBytes);
  }

  lemma FirstOfPool(claims: seq<Claim>, first: seq<Claim>, selected: seq<Claim>)
    requires first <= selected && FromPool(claims, selected)
    ensures FromPool(claims, first)
  {
    forall i | 0 <= i < |first| ensures first[i] in claims {
      assert selected[i] in claims;
    }
  }
}
