/** The budgeted claim composer and what its "resolved" verdict guarantees. */
module ClaimComposer {
  import opened Options
  import opened ClaimPath
  import opened ClaimEdges
  import opened ClaimObligations
  import opened ClaimSelection

  datatype Status = Resolved | Partial | Abstained

  datatype Unresolved = Open(id: ObligationId) | Connectivity

  datatype Answer = Answer(status: Status, claims: seq<Claim>, closed: set<ObligationId>, unresolved: seq<Unresolved>)

  class Composer {
    const claims: seq<Claim>
    const maxClaims: nat
    const maxBytes: nat
    var selected: seq<Claim>
    var selectedIds: set<nat>
    var used: nat
    var seeds: Seeds
    // The first phase obligation by obligation, and the places of the claims selected in the second.
    ghost var stages: seq<nat>
    ghost var picks: seq<Option<nat>>
    ghost var places: seq<Place>

    ghost predicate Valid()
      reads this
    {
      DistinctIds(claims) && WithinBudget(claims, selected, selectedIds, used, maxClaims, maxBytes)
    }

    ghost function Now(): Selection
      reads this
    {
      Selection(selectedIds, maxClaims - |selected|, maxBytes - used)
    }

    /** Nothing is selected yet. */
    ghost predicate Unused()
      reads this
    {
      selected == [] && seeds == map[] && used == 0 && stages == [0] && picks == [] && places == []
    }

    constructor (claims: seq<Claim>, maxClaims: nat, maxBytes: nat)
      requires DistinctIds(claims)
      ensures Valid() && this.claims == claims && this.maxClaims == maxClaims && this.maxBytes == maxBytes
      ensures Unused()
    {
      this.claims, this.maxClaims, this.maxBytes := claims, maxClaims, maxBytes;
      selected, selectedIds, used, seeds := [], {}, 0, map[];
      stages, picks, places := [0], [], [];
    }

    /** Adds a claim not yet selected. */
    method Select(c: Claim)
      requires Valid() && c in claims && c.id !in selectedIds && |selected| < maxClaims && used + c.bytes <= maxBytes
      modifies this`selected, this`selectedIds, this`used
      ensures Valid() && selected == old(selected) + [c] && selectedIds == old(selectedIds) + {c.id}
      ensures used == old(used) + c.bytes && Grew(ById(claims), old(Now()), Now())
    {
      SelectOne(claims, selected, selectedIds, used, maxClaims, maxBytes, c);
      InPool(claims, c);
      selected := selected + [c];
      selectedIds := selectedIds + {c.id};
      used := used + c.bytes;
    }

    /** One best witness for every obligation, in order. Every seed was a best fitting claim for an obligation
        of its identity, every selected claim was one for some obligation, and an identity stays open only for
        want of room for all of its obligations. */
    method ChooseWitnesses(obligations: seq<Obligation>)
      requires Valid() && Unused()
      modifies this
      ensures places == []
      ensures Valid() && Choosing(obligations, |obligations|)
    {
      for k := 0 to |obligations|
        invariant Valid() && Choosing(obligations, k) && places == []
      {
        ChooseNext(obligations, k);
      }
    }

    /** The first `k` obligations are dealt with. */
    ghost predicate Choosing(obligations: seq<Obligation>, k: nat)
      requires k <= |obligations|
      reads this
    {
      && Chosen(claims, obligations, k, seeds, Now())
      && SeedsBest(claims, obligations, k, seeds, selected, maxBytes)
      && AllPicked(claims, obligations, k, selected, maxBytes)
      && (selected != [] ==> SomeFits(claims, obligations, maxClaims, maxBytes))
      && PickedInOrder(claims, obligations, k, selected, stages, picks, maxClaims, maxBytes)
      && seeds == SeedsFrom(obligations, picks, k)
    }

    method ChooseNext(obligations: seq<Obligation>, k: nat)
      requires Valid() && k < |obligations| && Choosing(obligations, k)
      modifies this`selected, this`selectedIds, this`used, this`seeds, this`stages, this`picks
      ensures Valid() && Choosing(obligations, k + 1)
    {
      hide SeedsBest, AllPicked, Chosen, ChoiceStep, PickAt, PickedInOrder, WithinBudget, SomeFits, Closable;
      var chosen := ChooseWitness(obligations[k]);
      ghost var before := old(selected);
      StepGrows(obligations[k], claims, before, selected, maxBytes, chosen);
      PickedStep(claims, obligations, k, before, selected, stages, picks, maxClaims, maxBytes, chosen);
      SeedsFromStep(obligations, picks, chosen);
      SeedsBestNames(claims, obligations, k, seeds, before, maxBytes);
      ChosenStep(claims, obligations, k, seeds, old(Now()), Now(), chosen);
      SeedsBestStep(claims, obligations, k, seeds, before, selected, maxBytes, chosen);
      AllPickedStep(claims, obligations, k, before, selected, maxBytes, chosen);
      if selected != old(selected) {
        FitsFromStart(claims, obligations, k, old(Now()), maxClaims, maxBytes);
      }
      stages, picks := stages + [|selected|], picks + [chosen];
      Close(obligations[k], chosen);
    }

    /** Records the seed of an obligation. */
    method Close(o: Obligation, chosen: Option<nat>)
      requires Valid()
      modifies this`seeds
      ensures Valid() && seeds == Seeded(old(seeds), o, chosen) && Now() == old(Now())
    {
      if chosen.Some? {
        seeds := seeds[o.id := chosen.value];
      }
    }

    /** The witness of one obligation: its best fitting claim, if that is or can be selected. */
    method ChooseWitness(o: Obligation) returns (chosen: Option<nat>)
      requires Valid()
      modifies this`selected, this`selectedIds, this`used
      ensures Valid() && Grew(ById(claims), old(Now()), Now())
      ensures ChoiceStep(o, claims, old(selected), selected, maxBytes, chosen)
      ensures PickAt(o, claims, selected, |old(selected)|, |selected|, maxClaims, maxBytes, chosen)
      ensures chosen.None? ==> Now() == old(Now()) && !Closable(o, claims, Now())
      ensures chosen.Some? ==> selectedIds == old(selectedIds) + {chosen.value}
      ensures selected != old(selected) ==> Closable(o, claims, old(Now()))
    {
      hide MayClose, Beats, PickAt, ChoiceStep, Unbeaten;
      SelectionNow(this);
      var found, best := BestRow(o, claims, used, maxBytes);
      if !found {
        NothingFits(o, claims, used, maxBytes, Now());
        PickNone(o, claims, selected, maxClaims, maxBytes);
        return None;
      }
      var candidate := claims[best];
      BestRowIsBest(o, claims, used, maxBytes, best);
      if candidate.id !in selectedIds && |selected| < maxClaims {
        assert Closable(o, claims, Now()) by {
          assert candidate in claims && MayClose(o, candidate) && Fits(Now(), candidate.bytes);
        }
        PickNew(o, claims, selected, candidate, maxClaims, maxBytes);
        Select(candidate);
        return Some(candidate.id);
      }
      PickOld(o, claims, selected, candidate.id, maxClaims, maxBytes);
      if candidate.id in selectedIds {
        return Some(candidate.id);
      }
      return None;
    }

    /** The claims after the first `n` are joined in order up to the place `now`. */
    ghost predicate Joining(adj: Adjacency, order: seq<nat>, n: nat, now: Place)
      requires DistinctIds(claims)
      reads this
    {
      JoinedInOrder(adj, ById(claims), order, n, selected, places, maxClaims, maxBytes, now)
    }

    /** Selects the inner claims of the best proof path between two seeds as far as the budgets allow; fails
        unless all are selected. */
    method ClosePath(path: seq<nat>, byId: Claims, ghost adj: Adjacency, ghost order: seq<nat>, ghost n: nat,
                     ghost left: nat, ghost right: nat)
      returns (failed: bool)
      requires Valid() && byId == ById(claims) && |path| >= 1
      requires forall i | 0 <= i < |path| :: path[i] in byId
      requires left < right < |order| && BestPath(adj, byId, order[left], order[right], path)
      requires Joining(adj, order, n, Place(left, right, 0))
      modifies this`selected, this`selectedIds, this`used, this`places
      ensures Valid() && old(selected) <= selected && Grew(byId, old(Now()), Now())
      ensures failed <==> !InnerInside(path, selectedIds)
      ensures ClosedAsFits(byId, path, Now()) && Joining(adj, order, n, Place(left, right + 1, 0))
    {
      hide JoinedInOrder, BestPath, WithinBudget;
      failed := false;
      var i := 1;
      NextPlace(adj, byId, order, n, selected, places, maxClaims, maxBytes, Place(left, right, 0),
                Place(left, right, 1));
      while i < |path| - 1
        invariant Valid() && old(selected) <= selected && Grew(byId, old(Now()), Now())
        invariant 1 <= i && (i < |path| || |path| == 1)
        invariant ClosedUpTo(byId, path, i, Now())
        invariant failed <==> !InsideUpTo(path, i, selectedIds)
        invariant Joining(adj, order, n, Place(left, right, i))
      {
        ghost var before := Now();
        var short := CloseNext(path[i], byId, adj, order, n, Place(left, right, i), path);
        ClosedStep(byId, path, i, before, Now());
        GrewTransitive(byId, old(Now()), before, Now());
        failed := failed || short;
        i := i + 1;
      }
      PathEnds(adj, byId, order, n, selected, places, maxClaims, maxBytes, Place(left, right, i), path);
    }

    /** Selects the claim at one place of the path if it is not selected and fits. */
    method CloseNext(id: nat, byId: Claims, ghost adj: Adjacency, ghost order: seq<nat>, ghost n: nat,
                     ghost now: Place, ghost path: seq<nat>)
      returns (short: bool)
      requires Valid() && byId == ById(claims) && id in byId
      requires now.left < now.right < |order| && BestPath(adj, byId, order[now.left], order[now.right], path)
      requires 0 < now.inner < |path| - 1 && path[now.inner] == id && Joining(adj, order, n, now)
      modifies this`selected, this`selectedIds, this`used, this`places
      ensures Valid() && old(selected) <= selected && Grew(byId, old(Now()), Now())
      ensures short <==> id !in selectedIds
      ensures short ==> !Fits(Now(), byId[id].bytes)
      ensures Joining(adj, order, n, now.(inner := now.inner + 1))
    {
      hide JoinedInOrder, BestPath;
      SelectionNow(this);
      short := false;
      if id !in selectedIds {
        var claim := byId[id];
        if |selected| >= maxClaims || used + claim.bytes > maxBytes {
          short := true;
        } else {
          Select(claim);
          SelectionNow(this);
          JoinOne(adj, byId, order, n, old(selected), places, maxClaims, maxBytes, now, path, claim);
          places := places + [now];
          return;
        }
      }
      PassOne(adj, byId, order, n, selected, places, maxClaims, maxBytes, now, path);
    }
  }

  /** Closes the best proof path between two seeds, if there is one. */
  method ConnectPair(composer: Composer, order: seq<nat>, i: nat, j: nat, adj: Adjacency, byId: Claims, ghost n: nat)
    returns (found: bool, short: bool)
    requires composer.Valid() && byId == ById(composer.claims) && Closed(adj, byId)
    requires i < j < |order| && order[i] in adj
    requires composer.Joining(adj, order, n, Place(i, j, 0))
    modifies composer`selected, composer`selectedIds, composer`used, composer`places
    ensures composer.Valid() && old(composer.selected) <= composer.selected
    ensures Grew(byId, old(composer.Now()), composer.Now())
    ensures BestAsFits(adj, byId, composer.Now(), order[i], order[j])
    ensures found && !short <==> BestInside(adj, byId, composer.selectedIds, order[i], order[j])
    ensures composer.Joining(adj, order, n, Place(i, j + 1, 0))
  {
    hide JoinedInOrder, WithinBudget;
    var left, right := order[i], order[j];
    var path := ShortestClaimPath(left, right, adj, byId);
    if path == [] {
      NoPathEnds(adj, byId, order, n, composer.selected, composer.places, composer.maxClaims, composer.maxBytes, i, j);
      return false, false;
    }
    PathIsKnown(adj, byId, left, path);
    short := composer.ClosePath(path, byId, adj, order, n, i, j);
    forall p | BestPath(adj, byId, left, right, p) ensures p == path {
      BestPathUnique(adj, byId, left, right, p, path);
    }
    assert BestPath(adj, byId, left, right, path);
    found := true;
  }

  /** Closes the best proof paths between all pairs of seeds. Without context intents it reports whether
      some pair's best path is missing or not wholly selected; inner claims are left out only for want
      of room. */
  method Connect(composer: Composer, order: seq<nat>, adj: Adjacency, byId: Claims, intents: bool)
    returns (failed: bool)
    requires composer.Valid() && byId == ById(composer.claims) && Closed(adj, byId) && composer.places == []
    requires forall i | 0 <= i < |order| :: order[i] in adj
    modifies composer`selected, composer`selectedIds, composer`used, composer`places
    ensures composer.Valid() && old(composer.selected) <= composer.selected
    ensures old(composer.selectedIds) <= composer.selectedIds
    ensures order == [] ==> composer.selected == old(composer.selected)
    ensures PairsAsFit(adj, byId, composer.Now(), order, |order|, 0)
    ensures !intents ==> (failed <==> !PairsInside(adj, byId, composer.selectedIds, order, |order|, 0))
    ensures JoinedToEnd(adj, byId, order, |old(composer.selected)|, composer.selected, composer.places,
                        composer.maxClaims, composer.maxBytes)
  {
    hide JoinedInOrder, WithinBudget;
    failed := false;
    ghost var n := |composer.selected|;
    JoiningBegins(adj, byId, order, composer.selected, composer.maxClaims, composer.maxBytes);
    for i := 0 to |order|
      invariant composer.Valid() && old(composer.selected) <= composer.selected
      invariant old(composer.selectedIds) <= composer.selectedIds
      invariant PairsAsFit(adj, byId, composer.Now(), order, i, i + 1)
      invariant !intents ==> (failed <==> !PairsInside(adj, byId, composer.selectedIds, order, i, i + 1))
      invariant i == 0 ==> composer.selected == old(composer.selected)
      invariant composer.Joining(adj, order, n, Place(i, i + 1, 0))
    {
      for j := i + 1 to |order|
        invariant composer.Valid() && old(composer.selected) <= composer.selected
        invariant old(composer.selectedIds) <= composer.selectedIds
        invariant PairsAsFit(adj, byId, composer.Now(), order, i, j)
        invariant !intents ==> (failed <==> !PairsInside(adj, byId, composer.selectedIds, order, i, j))
        invariant composer.Joining(adj, order, n, Place(i, j, 0))
      {
        ghost var before := composer.Now();
        var found, short := ConnectPair(composer, order, i, j, adj, byId, n);
        failed := failed || short || (!found && !intents);
        PairStep(adj, byId, order, i, j, before, composer.Now());
      }
      SeedEnds(adj, byId, order, n, composer.selected, composer.places, composer.maxClaims, composer.maxBytes, i);
    }
  }

  lemma PathIsKnown(adj: Adjacency, claims: Claims, start: nat, path: seq<nat>)
    requires Closed(adj, claims) && ProofPath(adj, start, path)
    ensures forall i | 0 <= i < |path| :: path[i] in claims
  {
    forall i | 0 <= i < |path| ensures path[i] in claims {
      if i > 0 {
        assert Joined(adj, path[i - 1], path[i]);
      }
    }
  }

  // ---- Token authority -----------------------------------------------------------------------------

  function AllTokens(selected: seq<Claim>, tokens: Claim -> multiset<nat>, k: nat): multiset<nat>
    requires k <= |selected|
  {
    if k == 0 then multiset{} else AllTokens(selected, tokens, k - 1) + tokens(selected[k - 1])
  }

  /** Every claim's words are among the authorized words of all selected claims. */
  predicate FactualAuthority(selected: seq<Claim>, tokens: Claim -> multiset<nat>) {
    && (forall i | 0 <= i < |selected| :: tokens(selected[i]) <= AllTokens(selected, tokens, |selected|))
    && selected != []
  }

  lemma {:induction false} ClaimTokensAuthorized(selected: seq<Claim>, tokens: Claim -> multiset<nat>, k: nat)
    requires k <= |selected|
    ensures forall i | 0 <= i < k :: tokens(selected[i]) <= AllTokens(selected, tokens, k)
  {
    if k > 0 {
      ClaimTokensAuthorized(selected, tokens, k - 1);
    }
  }

  /** Verbatim selections authorize themselves: the check fails only on the empty selection. */
  lemma AuthorityIffSelected(selected: seq<Claim>, tokens: Claim -> multiset<nat>)
    ensures FactualAuthority(selected, tokens) <==> selected != []
  {
    ClaimTokensAuthorized(selected, tokens, |selected|);
  }

  // ---- The answer ----------------------------------------------------------------------------------

  /** The obligations were met in order, each with its best fitting claim. */
  ghost predicate PickedThrough(claims: seq<Claim>, obligations: seq<Obligation>, seeds: Seeds, first: seq<Claim>,
                                maxClaims: nat, maxBytes: nat) {
    exists stages, picks ::
      && PickedInOrder(claims, obligations, |obligations|, first, stages, picks, maxClaims, maxBytes)
      && seeds == SeedsFrom(obligations, picks, |obligations|)
  }

  /** The question's seeds were joined in order along their best proof paths, from the first claims on. */
  ghost predicate JoinedThrough(adj: Adjacency, byId: Claims, order: seq<nat>, first: seq<Claim>,
                                selected: seq<Claim>, maxClaims: nat, maxBytes: nat) {
    first <= selected && exists places :: JoinedToEnd(adj, byId, order, |first|, selected, places, maxClaims, maxBytes)
  }

  /** What the first phase leaves: every seed was a best fitting claim for an obligation of its identity
      behind some of the first claims, every first claim was one for some obligation when it was selected,
      and an identity stays open only for want of room behind them. */
  ghost predicate Witnessed(claims: seq<Claim>, obligations: seq<Obligation>, seeds: Seeds, first: seq<Claim>,
                            maxClaims: nat, maxBytes: nat) {
    && PickedThrough(claims, obligations, seeds, first, maxClaims, maxBytes)
    && seeds.Values <= SelectedIds(first)
    && (DistinctObligations(obligations) ==> SelectedIds(first) == seeds.Values)
    && SeedsBest(claims, obligations, |obligations|, seeds, first, maxBytes)
    && AllPicked(claims, obligations, |obligations|, first, maxBytes)
    && OpenOutOfRoom(claims, obligations, |obligations|, seeds, SelectionOf(first, maxClaims, maxBytes))
    && (first != [] <==> SomeFits(claims, obligations, maxClaims, maxBytes))
  }

  function OpenObligations(obligations: seq<Obligation>, seeds: Seeds, k: nat): (r: seq<Unresolved>)
    requires k <= |obligations|
    ensures r == [] <==> forall i | 0 <= i < k :: obligations[i].id in seeds
    ensures forall u ::
            u in r <==> exists i :: 0 <= i < k && obligations[i].id !in seeds && u == Open(obligations[i].id)
  {
    if k == 0 then []
    else
      OpenObligations(obligations, seeds, k - 1) +
      if obligations[k - 1].id in seeds then [] else [Open(obligations[k - 1].id)]
  }

  /** The unresolved list names the obligations without a seed, in order, and then the connection if it fails. */
  ghost predicate Names(unresolved: seq<Unresolved>, obligations: seq<Obligation>, seeds: Seeds, apart: bool) {
    && unresolved == OpenObligations(obligations, seeds, |obligations|) + (if apart then [Connectivity] else [])
    && (forall id :: Open(id) in unresolved <==>
          exists i :: 0 <= i < |obligations| && obligations[i].id == id && id !in seeds)
    && (Connectivity in unresolved <==> apart)
  }

  // ---- Paths run both ways --------------------------------------------------------------------------

  function Reversed(path: seq<nat>): (r: seq<nat>)
    ensures |r| == |path| && forall i | 0 <= i < |r| :: r[i] == path[|path| - 1 - i]
  {
    seq(|path|, i requires 0 <= i < |path| => path[|path| - 1 - i])
  }

  ghost predicate Symmetric(adj: Adjacency) {
    forall u, v | Joined(adj, u, v) :: Joined(adj, v, u)
  }

  lemma JoinedBothWays(adj: Adjacency, ids: set<nat>, left: nat, right: nat)
    requires Symmetric(adj) && JoinedWithin(adj, ids, left, right)
    ensures JoinedWithin(adj, ids, right, left)
  {
    var path :| ProofPath(adj, left, path) && Last(path) == right && forall i | 0 <= i < |path| :: path[i] in ids;
    var back := Reversed(path);
    forall i | 0 <= i < |back| - 1 ensures Joined(adj, back[i], back[i + 1]) {
      assert Joined(adj, path[|path| - 2 - i], path[|path| - 2 - i + 1]);
    }
    assert right in adj by {
      if |path| > 1 {
        assert Joined(adj, path[|path| - 2], path[|path| - 2 + 1]);
      }
    }
    assert ProofPath(adj, right, back) && Last(back) == left;
  }

  /** Any two witnesses are joined by a proof path inside the selection. */
  ghost predicate WitnessesJoined(adj: Adjacency, ids: set<nat>, obligations: seq<Obligation>, seeds: Seeds) {
    forall i, j | 0 <= i < |obligations| && 0 <= j < |obligations| && obligations[i].id in seeds
                  && obligations[j].id in seeds && seeds[obligations[i].id] != seeds[obligations[j].id] ::
      JoinedWithin(adj, ids, seeds[obligations[i].id], seeds[obligations[j].id])
  }

  lemma InsideIsJoined(adj: Adjacency, byId: Claims, ids: set<nat>, left: nat, right: nat)
    requires BestInside(adj, byId, ids, left, right) && left in ids && right in ids
    ensures JoinedWithin(adj, ids, left, right)
  {
    var path :| BestPath(adj, byId, left, right, path) && InnerInside(path, ids);
    assert ProofPath(adj, left, path) && Last(path) == right;
  }

  /** Joining the seeds in one direction joins the witnesses of all obligations in both. */
  lemma SeedsAllJoined(adj: Adjacency, byId: Claims, ids: set<nat>, obligations: seq<Obligation>, seeds: Seeds,
                       order: seq<nat>)
    requires Symmetric(adj) && order == SeedOrder(obligations, seeds, |obligations|)
    requires PairsInside(adj, byId, ids, order, |order|, 0) && forall x | x in order :: x in ids
    ensures WitnessesJoined(adj, ids, obligations, seeds)
  {
    forall i, j | 0 <= i < |obligations| && 0 <= j < |obligations| && obligations[i].id in seeds
                  && obligations[j].id in seeds && seeds[obligations[i].id] != seeds[obligations[j].id]
      ensures JoinedWithin(adj, ids, seeds[obligations[i].id], seeds[obligations[j].id])
    {
      var left, right := seeds[obligations[i].id], seeds[obligations[j].id];
      assert left in order && right in order;
      var a :| 0 <= a < |order| && order[a] == left;
      var b :| 0 <= b < |order| && order[b] == right;
      if a < b {
        InsideIsJoined(adj, byId, ids, left, right);
      } else {
        InsideIsJoined(adj, byId, ids, right, left);
        JoinedBothWays(adj, ids, right, left);
      }
    }
  }

  // ---- Composing -----------------------------------------------------------------------------------

  /** The recorded seed of every obligation is a selected claim that may close it. */
  ghost predicate AllWitnessed(obligations: seq<Obligation>, selected: seq<Claim>, seeds: Seeds) {
    forall i | 0 <= i < |obligations| ::
      obligations[i].id in seeds && Witnesses(selected, obligations[i], seeds[obligations[i].id])
  }

  lemma BestIsWitness(o: Obligation, claims: seq<Claim>, used: nat, maxBytes: nat, id: nat)
    requires BestFor(o, claims, used, maxBytes, id)
    ensures Witnesses(claims, o, id)
  {
    var b :| 0 <= b < |claims| && claims[b].id == id && Row(o, claims[b], used, maxBytes)
             && Unbeaten(o, claims, used, maxBytes, claims[b]);
    assert claims[b] in claims && MayClose(o, claims[b]);
  }

  /** Some obligation of the identity is closed by the seed. */
  lemma SeedWitnesses(claims: seq<Claim>, obligations: seq<Obligation>, seeds: Seeds, first: seq<Claim>, maxBytes: nat,
                      name: ObligationId) returns (m: nat)
    requires SeedsBest(claims, obligations, |obligations|, seeds, first, maxBytes) && name in seeds
    ensures m < |obligations| && obligations[m].id == name && Witnesses(claims, obligations[m], seeds[name])
  {
    assert SeedOf(claims, obligations, |obligations|, first, maxBytes, name, seeds[name]);
    var k, p: nat :| 0 <= k < |obligations| && obligations[k].id == name
                     && BestBehind(obligations[k], claims, first, p, maxBytes, seeds[name]);
    BestIsWitness(obligations[k], claims, Bytes(first, p), maxBytes, seeds[name]);
    m := k;
  }

  lemma WitnessSelected(claims: seq<Claim>, o: Obligation, selected: seq<Claim>, id: nat)
    requires DistinctIds(claims) && Witnesses(claims, o, id) && id in SelectedIds(selected)
    requires forall i | 0 <= i < |selected| :: selected[i] in claims
    ensures Witnesses(selected, o, id)
  {
    var c :| c in claims && c.id == id && MayClose(o, c);
    var k :| 0 <= k < |selected| && selected[k].id == id;
    assert selected[k] in claims;
    assert selected[k] == c && c in selected;
  }

  lemma FirstPhase(claims: seq<Claim>, obligations: seq<Obligation>, seeds: Seeds, first: seq<Claim>, s: Selection,
                   maxClaims: nat, maxBytes: nat)
    requires Chosen(claims, obligations, |obligations|, seeds, s) && s == SelectionOf(first, maxClaims, maxBytes)
    requires SeedsBest(claims, obligations, |obligations|, seeds, first, maxBytes)
    requires AllPicked(claims, obligations, |obligations|, first, maxBytes)
    requires first != [] ==> SomeFits(claims, obligations, maxClaims, maxBytes)
    requires PickedThrough(claims, obligations, seeds, first, maxClaims, maxBytes)
    ensures Witnessed(claims, obligations, seeds, first, maxClaims, maxBytes)
  {
    hide PickedThrough;
    if DistinctObligations(obligations) {
      OnlySeedsAreValues(seeds, s.ids);
    }
    if first == [] {
      assert s == Selection({}, maxClaims, maxBytes);
      NoSeedNoneFits(claims, obligations, seeds, maxClaims, maxBytes);
    }
  }

  lemma NoSeedNoneFits(claims: seq<Claim>, obligations: seq<Obligation>, seeds: Seeds, maxClaims: nat, maxBytes: nat)
    requires forall id :: id !in seeds
    requires OpenOutOfRoom(claims, obligations, |obligations|, seeds, Selection({}, maxClaims, maxBytes))
    ensures !SomeFits(claims, obligations, maxClaims, maxBytes)
  {}

  lemma OnlySeedsAreValues(seeds: Seeds, ids: set<nat>)
    requires OnlySeeds(seeds, ids) && forall id | id in seeds :: seeds[id] in ids
    ensures ids == seeds.Values
  {}

  /** Without shared identities every closed obligation is witnessed by its own seed. */
  lemma SeedsWitnessOwn(claims: seq<Claim>, obligations: seq<Obligation>, seeds: Seeds, first: seq<Claim>,
                        selected: seq<Claim>, maxClaims: nat, maxBytes: nat)
    requires DistinctIds(claims) && DistinctObligations(obligations) && first <= selected
    requires Witnessed(claims, obligations, seeds, first, maxClaims, maxBytes)
    requires forall i | 0 <= i < |selected| :: selected[i] in claims
    requires forall i | 0 <= i < |obligations| :: obligations[i].id in seeds
    ensures AllWitnessed(obligations, selected, seeds)
  {
    forall i | 0 <= i < |obligations| ensures Witnesses(selected, obligations[i], seeds[obligations[i].id]) {
      var m := SeedWitnesses(claims, obligations, seeds, first, maxBytes, obligations[i].id);
      assert m == i;
      SelectedGrows(first, selected);
      assert seeds[obligations[i].id] in seeds.Values;
      WitnessSelected(claims, obligations[i], selected, seeds[obligations[i].id]);
    }
  }

  lemma SelectedGrows(first: seq<Claim>, selected: seq<Claim>)
    requires first <= selected
    ensures SelectedIds(first) <= SelectedIds(selected)
  {
    forall id | id in SelectedIds(first) ensures id in SelectedIds(selected) {
      var i :| 0 <= i < |first| && first[i].id == id;
      assert selected[i].id == id;
    }
  }

  /** Chooses the witnesses of all obligations. */
  method ChooseAll(composer: Composer, obligations: seq<Obligation>)
    requires composer.Valid() && composer.Unused()
    modifies composer
    ensures composer.places == []
    ensures composer.Valid() && forall id | id in composer.seeds :: composer.seeds[id] in composer.selectedIds
    ensures Witnessed(composer.claims, obligations, composer.seeds, composer.selected, composer.maxClaims,
                      composer.maxBytes)
  {
    hide PickedInOrder, SeedsFrom, SeedsBest, AllPicked, OpenOutOfRoom, SomeFits, WithinBudget;
    composer.ChooseWitnesses(obligations);
    SelectionNow(composer);
    FirstPhase(composer.claims, obligations, composer.seeds, composer.selected, composer.Now(), composer.maxClaims,
               composer.maxBytes);
  }

  lemma SeedsInReach(composer: Composer, finals: seq<Obligation>, adj: Adjacency, order: seq<nat>)
    requires composer.Valid() && forall id | id in composer.seeds :: composer.seeds[id] in composer.selectedIds
    requires forall id :: id in adj <==> id in ById(composer.claims)
    requires order == SeedOrder(finals, composer.seeds, |finals|)
    ensures forall i | 0 <= i < |order| :: order[i] in composer.selectedIds && order[i] in adj
    ensures composer.selected == [] ==> order == []
  {
    forall i | 0 <= i < |order| ensures order[i] in composer.selectedIds && order[i] in adj {
      assert order[i] in order;
      SelectedIsKnown(composer, order[i]);
    }
    assert order != [] ==> order[0] in composer.selectedIds;
  }

  /** Chooses the witnesses and then closes the paths between those of the question's own obligations. */
  method Gather(composer: Composer, finals: seq<Obligation>, obligations: seq<Obligation>, intents: bool,
                adj: Adjacency, byId: Claims)
    returns (order: seq<nat>, failed: bool, ghost first: seq<Claim>)
    requires composer.Valid() && composer.Unused()
    requires byId == ById(composer.claims) && Closed(adj, byId) && forall id :: id in adj <==> id in byId
    modifies composer
    ensures composer.Valid() && first <= composer.selected && (first == [] ==> composer.selected == [])
    ensures Witnessed(composer.claims, obligations, composer.seeds, first, composer.maxClaims, composer.maxBytes)
    ensures order == SeedOrder(finals, composer.seeds, |finals|) && forall x | x in order :: x in composer.selectedIds
    ensures PairsAsFit(adj, byId, composer.Now(), order, |order|, 0)
    ensures !intents ==> (failed <==> !PairsInside(adj, byId, composer.selectedIds, order, |order|, 0))
    ensures JoinedThrough(adj, byId, order, first, composer.selected, composer.maxClaims, composer.maxBytes)
  {
    hide Witnessed, JoinedInOrder, WithinBudget, PairsAsFit, PairsInside;
    ChooseAll(composer, obligations);
    first := composer.selected;
    order := SeedOrder(finals, composer.seeds, |finals|);
    SeedsInReach(composer, finals, adj, order);
    failed := Connect(composer, order, adj, byId, intents);
  }

  /** A finished composition: the answer, the graph, the recorded seeds, and the claims chosen as witnesses. */
  datatype Run = Run(answer: Answer, adj: Adjacency, seeds: Seeds, first: seq<Claim>)

  /** The selection keeps both budgets and starts with the witnesses. */
  ghost predicate WellSelected(claims: seq<Claim>, selected: seq<Claim>, maxClaims: nat, maxBytes: nat) {
    && |selected| <= maxClaims && Bytes(selected, |selected|) <= maxBytes && DistinctIds(selected)
    && forall i | 0 <= i < |selected| :: selected[i] in claims
  }

  /** The unresolved list is exact; behind the first claims only inner claims of best paths between seeds of the
      question are selected, in the order of the paths, and left out only for want of room. */
  ghost predicate Connected(finals: seq<Obligation>, obligations: seq<Obligation>, intents: bool, claims: seq<Claim>,
                            maxClaims: nat, maxBytes: nat, run: Run)
    requires DistinctIds(claims)
  {
    var order, selected := SeedOrder(finals, run.seeds, |finals|), run.answer.claims;
    && PairsAsFit(run.adj, ById(claims), SelectionOf(selected, maxClaims, maxBytes), order, |order|, 0)
    && JoinedThrough(run.adj, ById(claims), order, run.first, selected, maxClaims, maxBytes)
    && Names(run.answer.unresolved, obligations, run.seeds,
             !intents && !PairsInside(run.adj, ById(claims), SelectedIds(selected), order, |order|, 0))
  }

  /** The neighbour sets are those of the claims. */
  ghost predicate GraphOf(claims: seq<Claim>, adj: Adjacency)
    requires DistinctIds(claims)
  {
    && Closed(adj, ById(claims)) && (forall id :: id in adj <==> id in ById(claims))
    && forall u, v :: Joined(adj, u, v) <==> Neighbours(claims, u, v)
  }

  /** What the composer promises of every run, whatever the identities of the obligations. */
  ghost predicate Composed(question: seq<Clause>, intents: seq<Intent>, claims: seq<Claim>, maxClaims: nat,
                           maxBytes: nat, run: Run)
    requires DistinctIds(claims)
  {
    var r, obligations := run.answer, Effective(ObligationsOf(question, intents));
    && WellSelected(claims, r.claims, maxClaims, maxBytes)
    && GraphOf(claims, run.adj)
    && r.closed == run.seeds.Keys
    && run.first <= r.claims && Witnessed(claims, obligations, run.seeds, run.first, maxClaims, maxBytes)
    && Connected(QuestionPart(question), obligations, intents != [], claims, maxClaims, maxBytes, run)
    && (r.status == Resolved <==> r.claims != [] && r.unresolved == [])
    && (r.status == Abstained <==> r.claims == [])
    && (r.status == Abstained <==> !SomeFits(claims, obligations, maxClaims, maxBytes))
  }

  /** A claim beyond the first ones stands between two seeds of the question on their best proof path. */
  lemma ExtrasOnPaths(question: seq<Clause>, intents: seq<Intent>, claims: seq<Claim>, maxClaims: nat, maxBytes: nat,
                      run: Run, k: nat)
    requires DistinctIds(claims) && Composed(question, intents, claims, maxClaims, maxBytes, run)
    requires |run.first| <= k < |run.answer.claims|
    ensures OnBestPath(run.adj, ById(claims), SeedOrder(QuestionPart(question), run.seeds, |QuestionPart(question)|),
                       run.answer.claims[k].id)
  {
    hide JoinedThrough, GraphOf, Witnessed, PairsAsFit, Names, SomeFits, OnBestPath, WellSelected;
    var order := SeedOrder(QuestionPart(question), run.seeds, |QuestionPart(question)|);
    JoinedOnPath(run.adj, ById(claims), order, run.first, run.answer.claims, maxClaims, maxBytes, k);
  }

  lemma JoinedOnPath(adj: Adjacency, byId: Claims, order: seq<nat>, first: seq<Claim>, selected: seq<Claim>,
                     maxClaims: nat, maxBytes: nat, k: nat)
    requires JoinedThrough(adj, byId, order, first, selected, maxClaims, maxBytes) && |first| <= k < |selected|
    ensures OnBestPath(adj, byId, order, selected[k].id)
  {
    hide BestPath, Passed, SelectionOf;
    var n := |first|;
    var places :| JoinedToEnd(adj, byId, order, n, selected, places, maxClaims, maxBytes);
    assert JoinedAt(adj, byId, order, n, selected, places, maxClaims, maxBytes, k - n);
  }

  /** Without two seeds the answer is exactly the witnesses. */
  lemma FewSeedsNoExtras(question: seq<Clause>, intents: seq<Intent>, claims: seq<Claim>, maxClaims: nat,
                         maxBytes: nat, run: Run)
    requires DistinctIds(claims) && Composed(question, intents, claims, maxClaims, maxBytes, run)
    requires |SeedOrder(QuestionPart(question), run.seeds, |QuestionPart(question)|)| < 2
    ensures run.answer.claims == run.first
  {
    if |run.first| < |run.answer.claims| {
      ExtrasOnPaths(question, intents, claims, maxClaims, maxBytes, run, |run.first|);
    }
  }

  /** A resolved run has closed every identity and, without context intents, joined every pair of seeds. */
  lemma ResolvedIsClosed(question: seq<Clause>, intents: seq<Intent>, claims: seq<Claim>, maxClaims: nat, maxBytes: nat,
                         run: Run)
    requires DistinctIds(claims) && Composed(question, intents, claims, maxClaims, maxBytes, run)
    requires run.answer.status == Resolved
    ensures var obligations := ObligationsOf(question, intents);
            forall i | 0 <= i < |obligations| :: obligations[i].id in run.seeds
    ensures intents == [] ==>
              var order := SeedOrder(QuestionPart(question), run.seeds, |QuestionPart(question)|);
              PairsInside(run.adj, ById(claims), SelectedIds(run.answer.claims), order, |order|, 0)
  {
    var obligations := ObligationsOf(question, intents);
    forall i | 0 <= i < |obligations| ensures obligations[i].id in run.seeds {
      assert Effective(obligations)[i].id == obligations[i].id;
      assert Open(obligations[i].id) !in run.answer.unresolved;
    }
    assert Connectivity !in run.answer.unresolved;
  }

  /** A resolved run without shared identities has for every obligation a selected seed that may close it. */
  lemma ResolvedIsWitnessed(question: seq<Clause>, intents: seq<Intent>, claims: seq<Claim>, maxClaims: nat,
                            maxBytes: nat, run: Run)
    requires DistinctIds(claims) && Composed(question, intents, claims, maxClaims, maxBytes, run)
    requires run.answer.status == Resolved && DistinctObligations(ObligationsOf(question, intents))
    ensures AllWitnessed(ObligationsOf(question, intents), run.answer.claims, run.seeds)
  {
    ResolvedIsClosed(question, intents, claims, maxClaims, maxBytes, run);
    EffectiveIsOwn(ObligationsOf(question, intents));
    SeedsWitnessOwn(claims, ObligationsOf(question, intents), run.seeds, run.first, run.answer.claims, maxClaims,
                    maxBytes);
  }

  lemma NeighboursBothWays(claims: seq<Claim>, adj: Adjacency)
    requires forall u, v :: Joined(adj, u, v) <==> Neighbours(claims, u, v)
    ensures Symmetric(adj)
  {
    forall u, v | Joined(adj, u, v) ensures Joined(adj, v, u) {
      var anchor :| Shares(claims, u, v, anchor);
      assert Shares(claims, v, u, anchor);
    }
  }

  /** In a resolved run without context intents every obligation has its witness, and any two seeds are
      joined by a proof path of at most twelve edges wholly inside the selection. */
  lemma ResolvedIsJoined(question: seq<Clause>, claims: seq<Claim>, maxClaims: nat, maxBytes: nat, run: Run)
    requires DistinctIds(claims) && Composed(question, [], claims, maxClaims, maxBytes, run)
    requires run.answer.status == Resolved && CompiledText(question)
    ensures AllWitnessed(QuestionPart(question), run.answer.claims, run.seeds)
    ensures WitnessesJoined(run.adj, SelectedIds(run.answer.claims), QuestionPart(question), run.seeds)
  {
    DistinctIntentsSuffice(question, [], 0);
    ResolvedIsWitnessed(question, [], claims, maxClaims, maxBytes, run);
    var finals, ids := QuestionPart(question), SelectedIds(run.answer.claims);
    var order := SeedOrder(finals, run.seeds, |finals|);
    ResolvedIsClosed(question, [], claims, maxClaims, maxBytes, run);
    NeighboursBothWays(claims, run.adj);
    SelectedGrows(run.first, run.answer.claims);
    forall x | x in order ensures x in ids {
      assert x in run.seeds.Values;
    }
    SeedsAllJoined(run.adj, ById(claims), ids, finals, run.seeds, order);
  }

  /** The verdict on a finished selection. */
  method Conclude(composer: Composer, tokens: Claim -> multiset<nat>, obligations: seq<Obligation>, failed: bool,
                  order: seq<nat>, intents: bool)
    returns (r: Answer)
    requires composer.Valid()
    ensures r.claims == composer.selected && r.closed == composer.seeds.Keys
    ensures Names(r.unresolved, obligations, composer.seeds, failed && |order| > 1 && !intents)
    ensures r.status == Resolved <==> r.claims != [] && r.unresolved == []
    ensures r.status == Abstained <==> r.claims == []
  {
    var unresolved := UnresolvedOf(obligations, composer.seeds, failed, order, intents);
    UnresolvedNames(obligations, composer.seeds, failed, order, intents);
    AuthorityIffSelected(composer.selected, tokens);
    var authority := FactualAuthority(composer.selected, tokens);
    var status := if composer.selected != [] && unresolved == [] && authority then Resolved
                  else if composer.selected != [] && authority then Partial else Abstained;
    r := Answer(status, composer.selected, composer.seeds.Keys, unresolved);
  }

  /** Composes the answer. Beside what every run promises, a resolved answer without shared identities has
      for every obligation a selected seed that may close it, and without context intents any two seeds of
      the question are joined by a proof path of at most twelve edges wholly inside the selection. */
  method Compose(tokens: Claim -> multiset<nat>, question: seq<Clause>, intents: seq<Intent>, claims: seq<Claim>,
                 maxClaims: nat, maxBytes: nat)
    returns (r: Answer, adj: Adjacency, seeds: Seeds, ghost first: seq<Claim>)
    requires maxClaims >= 1 && maxBytes >= 256
    requires CompiledText(question) && SealedIntents(intents) && DistinctIds(claims)
    ensures Composed(question, intents, claims, maxClaims, maxBytes, Run(r, adj, seeds, first))
    ensures r.status == Resolved && DistinctObligations(ObligationsOf(question, intents)) ==>
              AllWitnessed(ObligationsOf(question, intents), r.claims, seeds)
    ensures r.status == Resolved && intents == [] ==>
              && AllWitnessed(QuestionPart(question), r.claims, seeds)
              && WitnessesJoined(adj, SelectedIds(r.claims), QuestionPart(question), seeds)
  {
    var all, fibers := CompileAll(question, intents);
    FibersKnown(all, |all|);
    var obligations := WithFibers(all, fibers);
    adj := ClaimGraph(claims);
    var composer := new Composer(claims, maxClaims, maxBytes);
    var order, failed;
    order, failed, first := Gather(composer, QuestionPart(question), obligations, intents != [], adj, ById(claims));
    r := Conclude(composer, tokens, obligations, failed, order, intents != []);
    seeds := composer.seeds;
    SelectionNow(composer);
    ghost var run := Run(r, adj, seeds, first);
    if r.status == Resolved && DistinctObligations(all) {
      ResolvedIsWitnessed(question, intents, claims, maxClaims, maxBytes, run);
    }
    if r.status == Resolved && intents == [] {
      ResolvedIsJoined(question, claims, maxClaims, maxBytes, run);
    }
  }

  /** The neighbour sets of the claims. */
  method ClaimGraph(claims: seq<Claim>) returns (adj: Adjacency)
    requires DistinctIds(claims)
    ensures GraphOf(claims, adj)
  {
    var pairs := BuildClaimEdges(claims);
    adj := AdjacencyOf(claims, pairs);
    AdjacencyIsClosed(claims, pairs);
    JoinedIffShared(claims, pairs);
  }

  function UnresolvedOf(obligations: seq<Obligation>, seeds: Seeds, failed: bool, order: seq<nat>,
                        intents: bool): seq<Unresolved> {
    OpenObligations(obligations, seeds, |obligations|)
      + if failed && |order| > 1 && !intents then [Connectivity] else []
  }

  lemma UnresolvedNames(obligations: seq<Obligation>, seeds: Seeds, failed: bool, order: seq<nat>, intents: bool)
    ensures Names(UnresolvedOf(obligations, seeds, failed, order, intents), obligations, seeds,
                  failed && |order| > 1 && !intents)
    ensures UnresolvedOf(obligations, seeds, failed, order, intents) == [] ==>
              !(failed && |order| > 1 && !intents) && forall i | 0 <= i < |obligations| :: obligations[i].id in seeds
  {}

  lemma SelectionNow(composer: Composer)
    requires composer.Valid()
    ensures composer.Now() == SelectionOf(composer.selected, composer.maxClaims, composer.maxBytes)
  {
    assert SelectedIds(composer.selected) == composer.selectedIds;
  }

  lemma SelectedIsKnown(composer: Composer, id: nat)
    requires composer.Valid() && id in composer.selectedIds
    ensures id in ById(composer.claims)
  {
    var i :| 0 <= i < |composer.selected| && composer.selected[i].id == id;
    assert composer.selected[i] in composer.claims;
    InPool(composer.claims, composer.selected[i]);
  }
}
