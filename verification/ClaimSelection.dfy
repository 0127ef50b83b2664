/** Budgets, best choices and proof paths: what the composer's two phases may select, and in which order. */
module ClaimSelection {
  import opened Options
  import opened Order
  import opened ClaimPath
  import opened ClaimEdges
  import opened ClaimObligations

  function Bytes(claims: seq<Claim>, k: nat): nat
    requires k <= |claims|
  {
    if k == 0 then 0 else Bytes(claims, k - 1) + claims[k - 1].bytes
  }

  lemma {:induction false} BytesOfPrefix(a: seq<Claim>, b: seq<Claim>, k: nat)
    requires k <= |a| && k <= |b| && forall i | 0 <= i < k :: a[i] == b[i]
    ensures Bytes(a, k) == Bytes(b, k)
  {
    if k > 0 {
      BytesOfPrefix(a, b, k - 1);
    }
  }

  lemma BytesOfAppended(claims: seq<Claim>, c: Claim)
    ensures Bytes(claims + [c], |claims| + 1) == Bytes(claims, |claims|) + c.bytes
  {
    BytesOfPrefix(claims + [c], claims, |claims|);
  }

  // ---- Choosing a witness --------------------------------------------------------------------------

  /** A claim an obligation could take, given the bytes already used. */
  predicate Row(o: Obligation, c: Claim, used: nat, maxBytes: nat) {
    MayClose(o, c) && used + c.bytes <= maxBytes
  }

  /** Rows are compared by score, assertion, brevity, source and span. */
  predicate Beats(o: Obligation, a: Claim, b: Claim) {
    if Score(o.ask, a) != Score(o.ask, b) then Score(o.ask, a) > Score(o.ask, b)
    else if (a.modality == Asserted) != (b.modality == Asserted) then a.modality == Asserted
    else if a.bytes != b.bytes then a.bytes < b.bytes
    else if a.source != b.source then a.source > b.source
    else if a.start != b.start then a.start > b.start
    else a.end > b.end
  }

  /** The row as the tuple that is compared: points, assertion, brevity, source and span. */
  function RowKey(o: Obligation, c: Claim, maxBytes: nat): seq<nat>
    requires c.bytes <= maxBytes
  {
    [Points(o.ask, c), if c.modality == Asserted then 1 else 0, maxBytes - c.bytes, c.source, c.start, c.end]
  }

  /** Of two rows the one with the greater tuple wins. */
  lemma GreaterTupleBeats(o: Obligation, a: Claim, b: Claim, maxBytes: nat)
    requires a.bytes <= maxBytes && b.bytes <= maxBytes
    ensures Beats(o, a, b) <==> LexLess(RowKey(o, b, maxBytes), RowKey(o, a, maxBytes))
  {
    var x, y := RowKey(o, a, maxBytes), RowKey(o, b, maxBytes);
    ScoreByPoints(o.ask, a, b);
    ScoreByPoints(o.ask, b, a);
    hide Score, Points;
    if x == y {
      LexIrreflexive(x);
    } else {
      var d := FirstDifference(x, y, 0);
      LexDecided(x, y, d);
      assert d == 0 || d == 1 || d == 2 || d == 3 || d == 4 || d == 5;
      assert d > 0 ==> x[0] == y[0];
      assert d > 1 ==> x[1] == y[1];
      assert d > 2 ==> x[2] == y[2];
      assert d > 3 ==> x[3] == y[3];
      assert d > 4 ==> x[4] == y[4];
    }
  }

  /** Where two tuples of one length first differ. */
  function FirstDifference(x: seq<nat>, y: seq<nat>, i: nat): (d: nat)
    requires |x| == |y| && i <= |x| && x != y && forall j | 0 <= j < i :: x[j] == y[j]
    ensures i <= d < |x| && x[d] != y[d] && forall j | 0 <= j < d :: x[j] == y[j]
    decreases |x| - i
  {
    if i < |x| && x[i] != y[i] then i
    else
      assert i < |x| by {
        assert i == |x| ==> x == y;
      }
      FirstDifference(x, y, i + 1)
  }

  lemma {:induction false} LexDecided(x: seq<nat>, y: seq<nat>, d: nat)
    requires d < |x| && d < |y| && x[d] != y[d] && forall j | 0 <= j < d :: x[j] == y[j]
    ensures LexLess(x, y) <==> x[d] < y[d]
    ensures LexLess(y, x) <==> y[d] < x[d]
  {
    if d > 0 {
      LexDecided(x[1..], y[1..], d - 1);
    }
  }

  method BestRow(o: Obligation, claims: seq<Claim>, used: nat, maxBytes: nat)
    returns (found: bool, best: nat)
    ensures found <==> exists i :: 0 <= i < |claims| && Row(o, claims[i], used, maxBytes)
    ensures found ==> best < |claims| && Row(o, claims[best], used, maxBytes)
    ensures found ==> forall i | 0 <= i < |claims| && Row(o, claims[i], used, maxBytes) ::
              !Beats(o, claims[i], claims[best])
  {
    found, best := false, 0;
    for k := 0 to |claims|
      invariant found <==> exists i :: 0 <= i < k && Row(o, claims[i], used, maxBytes)
      invariant found ==> best < k && Row(o, claims[best], used, maxBytes)
      invariant found ==> forall i | 0 <= i < k && Row(o, claims[i], used, maxBytes) ::
                  !Beats(o, claims[i], claims[best])
    {
      if Row(o, claims[k], used, maxBytes) && (!found || Beats(o, claims[k], claims[best])) {
        found, best := true, k;
      }
    }
  }

  // ---- The selection -------------------------------------------------------------------------------

  /** Selected claims are different claims of the pool, within both budgets. */
  ghost predicate WithinBudget(claims: seq<Claim>, selected: seq<Claim>, ids: set<nat>, used: nat,
                               maxClaims: nat, maxBytes: nat) {
    && |selected| <= maxClaims && used == Bytes(selected, |selected|) <= maxBytes
    && DistinctIds(selected)
    && (forall i | 0 <= i < |selected| :: selected[i] in claims)
    && (forall id :: id in ids <==> exists i :: 0 <= i < |selected| && selected[i].id == id)
  }

  lemma SelectOne(claims: seq<Claim>, selected: seq<Claim>, ids: set<nat>, used: nat, maxClaims: nat, maxBytes: nat,
                  c: Claim)
    requires WithinBudget(claims, selected, ids, used, maxClaims, maxBytes)
    requires c in claims && c.id !in ids && |selected| < maxClaims && used + c.bytes <= maxBytes
    ensures WithinBudget(claims, selected + [c], ids + {c.id}, used + c.bytes, maxClaims, maxBytes)
  {
    BytesOfAppended(selected, c);
    forall id ensures id in ids + {c.id} <==> exists i :: 0 <= i < |selected + [c]| && (selected + [c])[i].id == id {
      if id == c.id {
        assert (selected + [c])[|selected|].id == id;
      }
      if i :| 0 <= i < |selected| && selected[i].id == id {
        assert (selected + [c])[i].id == id;
      }
    }
  }

  /** The selected identities and what is left free of the two budgets. */
  datatype Selection = Selection(ids: set<nat>, freeClaims: int, freeBytes: int)

  ghost function SelectionOf(claims: seq<Claim>, maxClaims: nat, maxBytes: nat): Selection {
    Selection(SelectedIds(claims), maxClaims - |claims|, maxBytes - Bytes(claims, |claims|))
  }

  ghost function SelectedIds(selected: seq<Claim>): set<nat> {
    set i | 0 <= i < |selected| :: selected[i].id
  }

  predicate Fits(s: Selection, bytes: nat) {
    s.freeClaims > 0 && bytes <= s.freeBytes
  }

  /** The selection grew, and only by claims that fitted. */
  ghost predicate Grew(byId: Claims, before: Selection, after: Selection) {
    && before.ids <= after.ids && after.freeClaims <= before.freeClaims && after.freeBytes <= before.freeBytes
    && forall id | id in after.ids && id !in before.ids :: id in byId && Fits(before, byId[id].bytes)
  }

  lemma GrewTransitive(byId: Claims, a: Selection, b: Selection, c: Selection)
    requires Grew(byId, a, b) && Grew(byId, b, c)
    ensures Grew(byId, a, c)
  {}

  /** Some claim that may close the obligation fits what is left of the budgets. */
  ghost predicate Closable(o: Obligation, claims: seq<Claim>, s: Selection) {
    exists c :: c in claims && MayClose(o, c) && Fits(s, c.bytes)
  }

  /** Obligations left open among the first `k` were out of room. */
  ghost predicate OpenOutOfRoom(claims: seq<Claim>, obligations: seq<Obligation>, k: nat,
                                seeds: Seeds, s: Selection)
    requires k <= |obligations|
  {
    forall i | 0 <= i < k && obligations[i].id !in seeds :: !Closable(obligations[i], claims, s)
  }

  type Seeds = map<ObligationId, nat>

  /** `id` names a claim that may close the obligation. */
  ghost predicate Witnesses(claims: seq<Claim>, o: Obligation, id: nat) {
    exists c :: c in claims && c.id == id && MayClose(o, c)
  }

  // ---- Best choices --------------------------------------------------------------------------------

  /** No claim that fits behind the used bytes beats `c`. */
  ghost predicate Unbeaten(o: Obligation, claims: seq<Claim>, used: nat, maxBytes: nat, c: Claim) {
    forall i | 0 <= i < |claims| && Row(o, claims[i], used, maxBytes) :: !Beats(o, claims[i], c)
  }

  /** `id` names a best fitting claim for the obligation. */
  ghost predicate BestFor(o: Obligation, claims: seq<Claim>, used: nat, maxBytes: nat, id: nat) {
    exists b :: 0 <= b < |claims| && claims[b].id == id && Row(o, claims[b], used, maxBytes)
      && Unbeaten(o, claims, used, maxBytes, claims[b])
  }

  ghost predicate BestBehind(o: Obligation, claims: seq<Claim>, first: seq<Claim>, p: nat, maxBytes: nat, id: nat) {
    p <= |first| && BestFor(o, claims, Bytes(first, p), maxBytes, id)
  }

  /** `id` was a best fitting claim for an obligation with the identity behind some first claims. */
  ghost predicate SeedOf(claims: seq<Claim>, obligations: seq<Obligation>, k: nat, first: seq<Claim>, maxBytes: nat,
                         name: ObligationId, id: nat)
    requires k <= |obligations|
  {
    exists m, p: nat ::
      0 <= m < k && obligations[m].id == name && BestBehind(obligations[m], claims, first, p, maxBytes, id)
  }

  ghost predicate SeedsBest(claims: seq<Claim>, obligations: seq<Obligation>, k: nat, seeds: Seeds, first: seq<Claim>,
                            maxBytes: nat)
    requires k <= |obligations|
  {
    forall name | name in seeds :: SeedOf(claims, obligations, k, first, maxBytes, name, seeds[name])
  }

  /** The claim at `q` was a best fitting one for some obligation when it was selected. */
  ghost predicate PickedFor(claims: seq<Claim>, obligations: seq<Obligation>, k: nat, first: seq<Claim>, q: nat,
                            maxBytes: nat)
    requires k <= |obligations| && q < |first|
  {
    exists m :: 0 <= m < k && BestBehind(obligations[m], claims, first, q, maxBytes, first[q].id)
  }

  ghost predicate AllPicked(claims: seq<Claim>, obligations: seq<Obligation>, k: nat, first: seq<Claim>, maxBytes: nat)
    requires k <= |obligations|
  {
    forall q | 0 <= q < |first| :: PickedFor(claims, obligations, k, first, q, maxBytes)
  }

  /** What one choice does to the selection. */
  ghost predicate ChoiceStep(o: Obligation, claims: seq<Claim>, before: seq<Claim>, after: seq<Claim>, maxBytes: nat,
                             chosen: Option<nat>) {
    && before <= after && |after| <= |before| + 1
    && (chosen.Some? ==> BestBehind(o, claims, before, |before|, maxBytes, chosen.value))
    && (|after| > |before| ==> chosen.Some? && after[|before|].id == chosen.value)
  }

  lemma BestBehindStays(o: Obligation, claims: seq<Claim>, before: seq<Claim>, after: seq<Claim>, p: nat, maxBytes: nat,
                        id: nat)
    requires before <= after && BestBehind(o, claims, before, p, maxBytes, id)
    ensures BestBehind(o, claims, after, p, maxBytes, id)
  {
    BytesOfPrefix(before, after, p);
  }

  lemma SeedOfStays(claims: seq<Claim>, obligations: seq<Obligation>, k: nat, before: seq<Claim>, after: seq<Claim>,
                    maxBytes: nat, name: ObligationId, id: nat)
    requires k < |obligations| && before <= after && SeedOf(claims, obligations, k, before, maxBytes, name, id)
    ensures SeedOf(claims, obligations, k + 1, after, maxBytes, name, id)
  {
    var m, p: nat :| 0 <= m < k && obligations[m].id == name
                     && BestBehind(obligations[m], claims, before, p, maxBytes, id);
    BestBehindStays(obligations[m], claims, before, after, p, maxBytes, id);
  }

  lemma SeedsBestStep(claims: seq<Claim>, obligations: seq<Obligation>, k: nat, seeds: Seeds, before: seq<Claim>,
                      after: seq<Claim>, maxBytes: nat, chosen: Option<nat>)
    requires k < |obligations| && SeedsBest(claims, obligations, k, seeds, before, maxBytes)
    requires ChoiceStep(obligations[k], claims, before, after, maxBytes, chosen)
    ensures SeedsBest(claims, obligations, k + 1, Seeded(seeds, obligations[k], chosen), after, maxBytes)
  {
    var later := Seeded(seeds, obligations[k], chosen);
    forall name | name in later ensures SeedOf(claims, obligations, k + 1, after, maxBytes, name, later[name]) {
      if chosen.Some? && name == obligations[k].id {
        BestBehindStays(obligations[k], claims, before, after, |before|, maxBytes, chosen.value);
      } else {
        SeedOfStays(claims, obligations, k, before, after, maxBytes, name, seeds[name]);
      }
    }
  }

  lemma AllPickedStep(claims: seq<Claim>, obligations: seq<Obligation>, k: nat, before: seq<Claim>, after: seq<Claim>,
                      maxBytes: nat, chosen: Option<nat>)
    requires k < |obligations| && AllPicked(claims, obligations, k, before, maxBytes)
    requires ChoiceStep(obligations[k], claims, before, after, maxBytes, chosen)
    ensures AllPicked(claims, obligations, k + 1, after, maxBytes)
  {
    var n := k + 1;
    forall q | 0 <= q < |after| ensures PickedFor(claims, obligations, n, after, q, maxBytes) {
      if q < |before| {
        assert PickedFor(claims, obligations, k, before, q, maxBytes);
        var m :| 0 <= m < k && BestBehind(obligations[m], claims, before, q, maxBytes, before[q].id);
        BestBehindStays(obligations[m], claims, before, after, q, maxBytes, before[q].id);
      } else {
        BestBehindStays(obligations[k], claims, before, after, q, maxBytes, chosen.value);
      }
    }
  }

  // ---- The first phase, in order -------------------------------------------------------------------

  ghost predicate SomeRow(o: Obligation, claims: seq<Claim>, used: nat, maxBytes: nat) {
    exists i :: 0 <= i < |claims| && Row(o, claims[i], used, maxBytes)
  }

  /** One obligation, met with `p` claims selected: its best fitting claim is its witness, selected now unless it
      is already; there is none only if nothing fits or the number of claims is used up. */
  ghost predicate PickAt(o: Obligation, claims: seq<Claim>, first: seq<Claim>, p: nat, q: nat, maxClaims: nat,
                         maxBytes: nat, chosen: Option<nat>) {
    && p <= q <= |first|
    && match chosen
       case Some(id) =>
         && BestBehind(o, claims, first, p, maxBytes, id)
         && if id in SelectedIds(first[..p]) then q == p
            else q == p + 1 && first[p].id == id && p < maxClaims
       case None =>
         && q == p
         && (SomeRow(o, claims, Bytes(first, p), maxBytes) ==>
               p >= maxClaims
               && exists id :: BestBehind(o, claims, first, p, maxBytes, id) && id !in SelectedIds(first[..p]))
  }

  /** The witnesses of the first `k` obligations, and how many claims were selected before and after each. */
  ghost predicate PickedInOrder(claims: seq<Claim>, obligations: seq<Obligation>, k: nat, first: seq<Claim>,
                                stages: seq<nat>, picks: seq<Option<nat>>, maxClaims: nat, maxBytes: nat)
    requires k <= |obligations|
  {
    && |stages| == k + 1 && |picks| == k && stages[0] == 0 && stages[k] == |first|
    && forall m | 0 <= m < k ::
         PickAt(obligations[m], claims, first, stages[m], stages[m + 1], maxClaims, maxBytes, picks[m])
  }

  /** The seeds recorded for the first `k` obligations: a later one of the same identity overwrites. */
  ghost function SeedsFrom(obligations: seq<Obligation>, picks: seq<Option<nat>>, k: nat): Seeds
    requires k <= |obligations| && k <= |picks|
  {
    if k == 0 then map[] else Seeded(SeedsFrom(obligations, picks, k - 1), obligations[k - 1], picks[k - 1])
  }

  lemma {:induction false} SeedsFromPrefix(obligations: seq<Obligation>, a: seq<Option<nat>>, b: seq<Option<nat>>,
                                           k: nat)
    requires k <= |obligations| && k <= |a| && k <= |b| && forall i | 0 <= i < k :: a[i] == b[i]
    ensures SeedsFrom(obligations, a, k) == SeedsFrom(obligations, b, k)
  {
    if k > 0 {
      SeedsFromPrefix(obligations, a, b, k - 1);
    }
  }

  lemma SeedsFromStep(obligations: seq<Obligation>, picks: seq<Option<nat>>, chosen: Option<nat>)
    requires |picks| < |obligations|
    ensures SeedsFrom(obligations, picks + [chosen], |picks| + 1)
            == Seeded(SeedsFrom(obligations, picks, |picks|), obligations[|picks|], chosen)
  {
    SeedsFromPrefix(obligations, picks, picks + [chosen], |picks|);
  }

  lemma StepGrows(o: Obligation, claims: seq<Claim>, before: seq<Claim>, after: seq<Claim>, maxBytes: nat,
                  chosen: Option<nat>)
    requires ChoiceStep(o, claims, before, after, maxBytes, chosen)
    ensures before <= after
  {}

  lemma BestRowIsBest(o: Obligation, claims: seq<Claim>, used: nat, maxBytes: nat, best: nat)
    requires best < |claims| && Row(o, claims[best], used, maxBytes)
    requires forall i | 0 <= i < |claims| && Row(o, claims[i], used, maxBytes) :: !Beats(o, claims[i], claims[best])
    ensures BestFor(o, claims, used, maxBytes, claims[best].id)
  {}

  /** Nothing fits. */
  lemma PickNone(o: Obligation, claims: seq<Claim>, before: seq<Claim>, maxClaims: nat, maxBytes: nat)
    requires !SomeRow(o, claims, Bytes(before, |before|), maxBytes)
    ensures PickAt(o, claims, before, |before|, |before|, maxClaims, maxBytes, None)
    ensures ChoiceStep(o, claims, before, before, maxBytes, None)
  {}

  /** The best fitting claim is selected now. */
  lemma PickNew(o: Obligation, claims: seq<Claim>, before: seq<Claim>, c: Claim, maxClaims: nat, maxBytes: nat)
    requires BestFor(o, claims, Bytes(before, |before|), maxBytes, c.id) && c.id !in SelectedIds(before)
    requires |before| < maxClaims
    ensures PickAt(o, claims, before + [c], |before|, |before| + 1, maxClaims, maxBytes, Some(c.id))
    ensures ChoiceStep(o, claims, before, before + [c], maxBytes, Some(c.id))
  {
    hide BestFor;
    assert (before + [c])[..|before|] == before;
    BytesOfPrefix(before, before + [c], |before|);
  }

  /** The best fitting claim is selected already, or cannot be. */
  lemma PickOld(o: Obligation, claims: seq<Claim>, before: seq<Claim>, id: nat, maxClaims: nat, maxBytes: nat)
    requires BestFor(o, claims, Bytes(before, |before|), maxBytes, id)
    requires id in SelectedIds(before) || |before| >= maxClaims
    ensures var chosen := if id in SelectedIds(before) then Some(id) else None;
            && PickAt(o, claims, before, |before|, |before|, maxClaims, maxBytes, chosen)
            && ChoiceStep(o, claims, before, before, maxBytes, chosen)
  {
    hide BestFor;
    assert before[..|before|] == before;
    assert BestBehind(o, claims, before, |before|, maxBytes, id);
  }

  lemma PickStays(o: Obligation, claims: seq<Claim>, before: seq<Claim>, after: seq<Claim>, p: nat, q: nat,
                  maxClaims: nat, maxBytes: nat, chosen: Option<nat>)
    requires before <= after && PickAt(o, claims, before, p, q, maxClaims, maxBytes, chosen)
    ensures PickAt(o, claims, after, p, q, maxClaims, maxBytes, chosen)
  {
    hide BestFor, Row;
    BytesOfPrefix(before, after, p);
    assert before[..p] == after[..p];
    if chosen.None? && SomeRow(o, claims, Bytes(after, p), maxBytes) {
      var id :| BestBehind(o, claims, before, p, maxBytes, id) && id !in SelectedIds(before[..p]);
      BestBehindStays(o, claims, before, after, p, maxBytes, id);
    }
  }

  lemma PickedStep(claims: seq<Claim>, obligations: seq<Obligation>, k: nat, before: seq<Claim>, after: seq<Claim>,
                   stages: seq<nat>, picks: seq<Option<nat>>, maxClaims: nat, maxBytes: nat, chosen: Option<nat>)
    requires k < |obligations| && before <= after
    requires PickedInOrder(claims, obligations, k, before, stages, picks, maxClaims, maxBytes)
    requires PickAt(obligations[k], claims, after, |before|, |after|, maxClaims, maxBytes, chosen)
    ensures PickedInOrder(claims, obligations, k + 1, after, stages + [|after|], picks + [chosen], maxClaims, maxBytes)
    ensures |picks| == k
  {
    hide PickAt;
    var later, more := stages + [|after|], picks + [chosen];
    forall m | 0 <= m < k + 1
      ensures PickAt(obligations[m], claims, after, later[m], later[m + 1], maxClaims, maxBytes, more[m])
    {
      if m < k {
        PickStays(obligations[m], claims, before, after, stages[m], stages[m + 1], maxClaims, maxBytes, picks[m]);
      }
    }
  }

  lemma InPool(claims: seq<Claim>, c: Claim)
    requires DistinctIds(claims) && c in claims
    ensures c.id in ById(claims) && ById(claims)[c.id] == c
  {
    var i :| 0 <= i < |claims| && claims[i] == c;
    assert ById(claims)[claims[i].id] == c;
  }

  /** Every selected claim is somebody's seed. */
  ghost predicate OnlySeeds(seeds: Seeds, ids: set<nat>) {
    forall id | id in ids :: exists o :: o in seeds && seeds[o] == id
  }

  /** Some obligation has a claim that may close it and fits the whole budgets. */
  ghost predicate SomeFits(claims: seq<Claim>, obligations: seq<Obligation>, maxClaims: nat,
                           maxBytes: nat) {
    exists i :: 0 <= i < |obligations|
      && Closable(obligations[i], claims, Selection({}, maxClaims, maxBytes))
  }

  lemma NothingFits(o: Obligation, claims: seq<Claim>, used: nat, maxBytes: nat, s: Selection)
    requires !exists i :: 0 <= i < |claims| && Row(o, claims[i], used, maxBytes)
    requires s.freeBytes == maxBytes - used
    ensures !Closable(o, claims, s)
  {
    forall c | c in claims && MayClose(o, c) ensures !Fits(s, c.bytes) {
      var i :| 0 <= i < |claims| && claims[i] == c;
      assert Row(o, claims[i], used, maxBytes) <==> used + c.bytes <= maxBytes;
    }
  }

  lemma ClosableBefore(o: Obligation, claims: seq<Claim>, before: Selection, after: Selection)
    requires Closable(o, claims, after)
    requires after.freeClaims <= before.freeClaims && after.freeBytes <= before.freeBytes
    ensures Closable(o, claims, before)
  {
    var c :| c in claims && MayClose(o, c) && Fits(after, c.bytes);
    assert Fits(before, c.bytes);
  }

  lemma FitsFromStart(claims: seq<Claim>, obligations: seq<Obligation>, k: nat, s: Selection,
                      maxClaims: nat, maxBytes: nat)
    requires k < |obligations| && Closable(obligations[k], claims, s)
    requires s.freeClaims <= maxClaims && s.freeBytes <= maxBytes
    ensures SomeFits(claims, obligations, maxClaims, maxBytes)
  {
    ClosableBefore(obligations[k], claims, Selection({}, maxClaims, maxBytes), s);
  }

  /** The first `k` obligations have their seeds among the selected claims or are out of room. */
  ghost predicate Chosen(claims: seq<Claim>, obligations: seq<Obligation>, k: nat, seeds: Seeds, s: Selection)
    requires k <= |obligations|
  {
    && (forall name | name in seeds :: seeds[name] in s.ids)
    && (DistinctObligations(obligations) ==> OnlySeeds(seeds, s.ids))
    && OpenOutOfRoom(claims, obligations, k, seeds, s)
  }

  ghost predicate SeedsNamed(obligations: seq<Obligation>, k: nat, seeds: Seeds)
    requires k <= |obligations|
  {
    forall name | name in seeds :: exists i :: 0 <= i < k && obligations[i].id == name
  }

  lemma SeedsBestNames(claims: seq<Claim>, obligations: seq<Obligation>, k: nat, seeds: Seeds, first: seq<Claim>,
                       maxBytes: nat)
    requires k <= |obligations| && SeedsBest(claims, obligations, k, seeds, first, maxBytes)
    ensures SeedsNamed(obligations, k, seeds)
  {
    forall name | name in seeds ensures exists i :: 0 <= i < k && obligations[i].id == name {
      assert SeedOf(claims, obligations, k, first, maxBytes, name, seeds[name]);
      var m, p: nat :| 0 <= m < k && obligations[m].id == name
                       && BestBehind(obligations[m], claims, first, p, maxBytes, seeds[name]);
    }
  }

  lemma ChosenStep(claims: seq<Claim>, obligations: seq<Obligation>, k: nat, seeds: Seeds, before: Selection,
                   after: Selection, chosen: Option<nat>)
    requires k < |obligations| && Chosen(claims, obligations, k, seeds, before) && SeedsNamed(obligations, k, seeds)
    requires after.freeClaims <= before.freeClaims && after.freeBytes <= before.freeBytes
    requires chosen.None? ==> after.ids == before.ids && !Closable(obligations[k], claims, after)
    requires chosen.Some? ==> after.ids == before.ids + {chosen.value}
    ensures Chosen(claims, obligations, k + 1, Seeded(seeds, obligations[k], chosen), after)
  {
    if DistinctObligations(obligations) {
      OnlySeedsStep(obligations, k, seeds, before.ids, after.ids, chosen);
    }
    OpenStep(claims, obligations, k, seeds, before, after, chosen);
  }

  ghost function Seeded(seeds: Seeds, o: Obligation, chosen: Option<nat>): Seeds {
    if chosen.Some? then seeds[o.id := chosen.value] else seeds
  }

  lemma OnlySeedsStep(obligations: seq<Obligation>, k: nat, seeds: Seeds, before: set<nat>, after: set<nat>,
                      chosen: Option<nat>)
    requires DistinctObligations(obligations) && k < |obligations|
    requires SeedsNamed(obligations, k, seeds) && OnlySeeds(seeds, before)
    requires after == if chosen.Some? then before + {chosen.value} else before
    ensures OnlySeeds(Seeded(seeds, obligations[k], chosen), after)
  {
    var later := Seeded(seeds, obligations[k], chosen);
    assert obligations[k].id !in seeds;
    forall id | id in after ensures exists o :: o in later && later[o] == id {
      if id in before {
        var o :| o in seeds && seeds[o] == id;
        assert o in later && later[o] == id;
      } else {
        assert obligations[k].id in later && later[obligations[k].id] == id;
      }
    }
  }

  lemma OpenStep(claims: seq<Claim>, obligations: seq<Obligation>, k: nat, seeds: Seeds,
                 before: Selection, after: Selection, chosen: Option<nat>)
    requires k < |obligations| && OpenOutOfRoom(claims, obligations, k, seeds, before)
    requires after.freeClaims <= before.freeClaims && after.freeBytes <= before.freeBytes
    requires chosen.None? ==> !Closable(obligations[k], claims, after)
    ensures OpenOutOfRoom(claims, obligations, k + 1, Seeded(seeds, obligations[k], chosen), after)
  {
    forall i | 0 <= i < k && obligations[i].id !in seeds ensures !Closable(obligations[i], claims, after) {
      if Closable(obligations[i], claims, after) {
        ClosableBefore(obligations[i], claims, before, after);
      }
    }
  }

  // ---- Closing paths -------------------------------------------------------------------------------

  ghost predicate InnerInside(path: seq<nat>, ids: set<nat>) {
    forall i | 0 < i < |path| - 1 :: path[i] in ids
  }

  ghost predicate InsideUpTo(path: seq<nat>, k: nat, ids: set<nat>) {
    forall i | 0 < i < k && i < |path| :: path[i] in ids
  }

  /** Among the first `k` claims of the path, inner ones left out do not fit. */
  ghost predicate ClosedUpTo(byId: Claims, path: seq<nat>, k: nat, s: Selection) {
    forall i | 0 < i < k && i < |path| - 1 && path[i] !in s.ids :: path[i] in byId && !Fits(s, byId[path[i]].bytes)
  }

  ghost predicate ClosedAsFits(byId: Claims, path: seq<nat>, s: Selection) {
    ClosedUpTo(byId, path, |path|, s)
  }

  lemma ClosedStep(byId: Claims, path: seq<nat>, k: nat, before: Selection, after: Selection)
    requires 0 < k < |path| - 1 && ClosedUpTo(byId, path, k, before) && Grew(byId, before, after)
    requires path[k] in after.ids || (path[k] in byId && !Fits(after, byId[path[k]].bytes))
    ensures ClosedUpTo(byId, path, k + 1, after)
    ensures InsideUpTo(path, k + 1, after.ids) <==> InsideUpTo(path, k, before.ids) && path[k] in after.ids
  {
    forall j | 0 < j < k ensures path[j] in after.ids <==> path[j] in before.ids {}
  }

  /** The distinct seeds in obligation order. */
  function SeedOrder(obligations: seq<Obligation>, seeds: Seeds, k: nat): (r: seq<nat>)
    requires k <= |obligations|
    ensures NoDuplicates(r)
    ensures forall x ::
            x in r <==> exists i :: 0 <= i < k && obligations[i].id in seeds && seeds[obligations[i].id] == x
  {
    if k == 0 then []
    else
      var before := SeedOrder(obligations, seeds, k - 1);
      var id := obligations[k - 1].id;
      if id in seeds && seeds[id] !in before then before + [seeds[id]] else before
  }

  /** A proof path between two claims that stays inside the selected ones. */
  ghost predicate JoinedWithin(adj: Adjacency, ids: set<nat>, left: nat, right: nat) {
    exists path :: ProofPath(adj, left, path) && Last(path) == right && forall i | 0 <= i < |path| :: path[i] in ids
  }

  ghost predicate BestPath(adj: Adjacency, byId: Claims, left: nat, right: nat, path: seq<nat>) {
    path != [] && Optimal(adj, byId, left, StateOf(byId, path), right)
  }

  /** There is a best proof path, and its inner claims are selected. */
  ghost predicate BestInside(adj: Adjacency, byId: Claims, ids: set<nat>, left: nat, right: nat) {
    exists path :: BestPath(adj, byId, left, right, path) && InnerInside(path, ids)
  }

  /** An inner claim of a best path is left out only if it does not fit. */
  ghost predicate BestAsFits(adj: Adjacency, byId: Claims, s: Selection, left: nat, right: nat) {
    forall path | BestPath(adj, byId, left, right, path) :: ClosedAsFits(byId, path, s)
  }

  lemma BestPathUnique(adj: Adjacency, byId: Claims, left: nat, right: nat, p: seq<nat>, q: seq<nat>)
    requires BestPath(adj, byId, left, right, p) && BestPath(adj, byId, left, right, q)
    ensures p == q
  {
    var a, b := StateOf(byId, p), StateOf(byId, q);
    assert Leq(a, b) && Leq(b, a);
    if LexLess(p, q) {
      LexAsymmetric(p, q);
    }
  }

  /** The pairs of seeds before the pair `i`, `j`. */
  ghost predicate PairsInside(adj: Adjacency, byId: Claims, ids: set<nat>, order: seq<nat>, i: nat, j: nat) {
    forall a, b | 0 <= a < b < |order| && (a < i || (a == i && b < j)) :: BestInside(adj, byId, ids, order[a], order[b])
  }

  ghost predicate PairsAsFit(adj: Adjacency, byId: Claims, s: Selection, order: seq<nat>, i: nat, j: nat) {
    forall a, b | 0 <= a < b < |order| && (a < i || (a == i && b < j)) :: BestAsFits(adj, byId, s, order[a], order[b])
  }

  lemma InsideStays(adj: Adjacency, byId: Claims, before: Selection, after: Selection, left: nat, right: nat)
    requires Grew(byId, before, after) && BestAsFits(adj, byId, before, left, right)
    ensures BestAsFits(adj, byId, after, left, right)
    ensures BestInside(adj, byId, after.ids, left, right) <==> BestInside(adj, byId, before.ids, left, right)
  {
    forall path | BestPath(adj, byId, left, right, path)
      ensures ClosedAsFits(byId, path, after) && (InnerInside(path, after.ids) <==> InnerInside(path, before.ids))
    {
      LeftOutStays(byId, path, before, after);
    }
  }

  lemma LeftOutStays(byId: Claims, path: seq<nat>, before: Selection, after: Selection)
    requires Grew(byId, before, after) && ClosedAsFits(byId, path, before)
    ensures ClosedAsFits(byId, path, after)
    ensures InnerInside(path, after.ids) <==> InnerInside(path, before.ids)
  {
    forall i | 0 < i < |path| - 1 ensures path[i] in after.ids <==> path[i] in before.ids {}
  }

  lemma PairStep(adj: Adjacency, byId: Claims, order: seq<nat>, i: nat, j: nat, before: Selection, after: Selection)
    requires i < j < |order| && Grew(byId, before, after) && PairsAsFit(adj, byId, before, order, i, j)
    requires BestAsFits(adj, byId, after, order[i], order[j])
    ensures PairsAsFit(adj, byId, after, order, i, j + 1)
    ensures PairsInside(adj, byId, after.ids, order, i, j + 1) <==>
            PairsInside(adj, byId, before.ids, order, i, j) && BestInside(adj, byId, after.ids, order[i], order[j])
  {
    forall a, b | 0 <= a < b < |order| && (a < i || (a == i && b < j))
      ensures BestAsFits(adj, byId, after, order[a], order[b])
      ensures BestInside(adj, byId, after.ids, order[a], order[b])
          <==> BestInside(adj, byId, before.ids, order[a], order[b])
    {
      InsideStays(adj, byId, before, after, order[a], order[b]);
    }
  }

  // ---- The second phase, in order ------------------------------------------------------------------

  /** A claim's place on the proof paths: the two seeds and the position between them. */
  datatype Place = Place(left: nat, right: nat, inner: nat)

  predicate Ahead(a: Place, b: Place) {
    || a.left < b.left
    || (a.left == b.left && (a.right < b.right || (a.right == b.right && a.inner < b.inner)))
  }

  /** The claim stands at this place of the best proof path between its two seeds. */
  ghost predicate InnerAt(adj: Adjacency, byId: Claims, order: seq<nat>, place: Place, id: nat) {
    && place.left < place.right < |order|
    && exists path :: BestPath(adj, byId, order[place.left], order[place.right], path)
         && 0 < place.inner < |path| - 1 && path[place.inner] == id
  }

  /** Claims at the places before `now` are selected or do not fit. */
  ghost predicate Passed(adj: Adjacency, byId: Claims, order: seq<nat>, s: Selection, now: Place) {
    forall place, id | Ahead(place, now) && InnerAt(adj, byId, order, place, id) ::
      id in s.ids || (id in byId && !Fits(s, byId[id].bytes))
  }

  ghost predicate JoinedAt(adj: Adjacency, byId: Claims, order: seq<nat>, n: nat, selected: seq<Claim>,
                           places: seq<Place>, maxClaims: nat, maxBytes: nat, k: nat)
    requires k < |places| && |selected| == n + |places|
  {
    && InnerAt(adj, byId, order, places[k], selected[n + k].id)
    && (forall m | 0 <= m < k :: Ahead(places[m], places[k]))
    && Passed(adj, byId, order, SelectionOf(selected[..n + k], maxClaims, maxBytes), places[k])
  }

  /** Each claim after the first `n` stands on the best proof path between two seeds, was selected at its place,
      and every claim at an earlier place was selected before it or did not fit. */
  ghost predicate JoinedInOrder(adj: Adjacency, byId: Claims, order: seq<nat>, n: nat, selected: seq<Claim>,
                                places: seq<Place>, maxClaims: nat, maxBytes: nat, now: Place) {
    && |selected| == n + |places|
    && (forall k | 0 <= k < |places| ::
          JoinedAt(adj, byId, order, n, selected, places, maxClaims, maxBytes, k) && Ahead(places[k], now))
    && Passed(adj, byId, order, SelectionOf(selected, maxClaims, maxBytes), now)
  }

  ghost predicate JoinedToEnd(adj: Adjacency, byId: Claims, order: seq<nat>, n: nat, selected: seq<Claim>,
                              places: seq<Place>, maxClaims: nat, maxBytes: nat) {
    JoinedInOrder(adj, byId, order, n, selected, places, maxClaims, maxBytes, Place(|order|, |order| + 1, 0))
  }

  lemma JoiningBegins(adj: Adjacency, byId: Claims, order: seq<nat>, selected: seq<Claim>, maxClaims: nat,
                      maxBytes: nat)
    ensures JoinedInOrder(adj, byId, order, |selected|, selected, [], maxClaims, maxBytes, Place(0, 1, 0))
  {}

  lemma InnerAtIs(adj: Adjacency, byId: Claims, order: seq<nat>, place: Place, path: seq<nat>, id: nat)
    requires place.left < place.right < |order|
    requires BestPath(adj, byId, order[place.left], order[place.right], path)
    requires InnerAt(adj, byId, order, place, id)
    ensures 0 < place.inner < |path| - 1 && path[place.inner] == id
  {
    var other :| BestPath(adj, byId, order[place.left], order[place.right], other)
                 && 0 < place.inner < |other| - 1 && other[place.inner] == id;
    BestPathUnique(adj, byId, order[place.left], order[place.right], path, other);
  }

  /** Passing one more place at which the claim is selected or does not fit. */
  lemma PassPlace(adj: Adjacency, byId: Claims, order: seq<nat>, s: Selection, now: Place, path: seq<nat>)
    requires Passed(adj, byId, order, s, now) && now.left < now.right < |order|
    requires BestPath(adj, byId, order[now.left], order[now.right], path) && 0 < now.inner < |path| - 1
    requires path[now.inner] in s.ids || (path[now.inner] in byId && !Fits(s, byId[path[now.inner]].bytes))
    ensures Passed(adj, byId, order, s, now.(inner := now.inner + 1))
  {
    hide BestPath, Fits;
    forall place, id | Ahead(place, now.(inner := now.inner + 1)) && InnerAt(adj, byId, order, place, id)
      ensures id in s.ids || (id in byId && !Fits(s, byId[id].bytes))
    {
      if !Ahead(place, now) {
        assert place == now;
        InnerAtIs(adj, byId, order, place, path, id);
      }
    }
  }

  lemma PassedStays(adj: Adjacency, byId: Claims, order: seq<nat>, before: Selection, after: Selection, now: Place)
    requires Passed(adj, byId, order, before, now) && Grew(byId, before, after)
    ensures Passed(adj, byId, order, after, now)
  {
    hide InnerAt;
  }

  /** Between two pairs of seeds, and past the end of a path, there is nothing to select. */
  lemma PassPair(adj: Adjacency, byId: Claims, order: seq<nat>, s: Selection, now: Place, next: Place)
    requires Passed(adj, byId, order, s, now)
    requires forall place, id | Ahead(place, next) && !Ahead(place, now) :: !InnerAt(adj, byId, order, place, id)
    ensures Passed(adj, byId, order, s, next)
  {
    hide InnerAt;
  }

  lemma JoinedAtStays(adj: Adjacency, byId: Claims, order: seq<nat>, n: nat, before: seq<Claim>, places: seq<Place>,
                      after: seq<Claim>, more: seq<Place>, maxClaims: nat, maxBytes: nat, k: nat)
    requires k < |places| && |before| == n + |places| && |after| == n + |more| && before <= after && places <= more
    requires JoinedAt(adj, byId, order, n, before, places, maxClaims, maxBytes, k)
    ensures JoinedAt(adj, byId, order, n, after, more, maxClaims, maxBytes, k)
  {
    hide InnerAt, Passed;
    assert before[..n + k] == after[..n + k];
  }

  /** A claim selected at its place. */
  lemma JoinOne(adj: Adjacency, byId: Claims, order: seq<nat>, n: nat, selected: seq<Claim>, places: seq<Place>,
                maxClaims: nat, maxBytes: nat, now: Place, path: seq<nat>, c: Claim)
    requires JoinedInOrder(adj, byId, order, n, selected, places, maxClaims, maxBytes, now)
    requires now.left < now.right < |order|
    requires BestPath(adj, byId, order[now.left], order[now.right], path) && 0 < now.inner < |path| - 1
    requires path[now.inner] == c.id
    requires Grew(byId, SelectionOf(selected, maxClaims, maxBytes), SelectionOf(selected + [c], maxClaims, maxBytes))
    ensures JoinedInOrder(adj, byId, order, n, selected + [c], places + [now], maxClaims, maxBytes,
                          now.(inner := now.inner + 1))
  {
    var more, later, next := selected + [c], places + [now], now.(inner := now.inner + 1);
    var s := SelectionOf(more, maxClaims, maxBytes);
    assert InnerAt(adj, byId, order, now, c.id);
    PassedStays(adj, byId, order, SelectionOf(selected, maxClaims, maxBytes), s, now);
    assert c.id in s.ids by {
      assert more[|selected|].id == c.id;
    }
    PassPlace(adj, byId, order, s, now, path);
    hide InnerAt, Passed, BestPath, SelectionOf;
    forall k | 0 <= k < |later|
      ensures JoinedAt(adj, byId, order, n, more, later, maxClaims, maxBytes, k) && Ahead(later[k], next)
    {
      if k < |places| {
        JoinedAtStays(adj, byId, order, n, selected, places, more, later, maxClaims, maxBytes, k);
      } else {
        assert more[..n + k] == selected;
      }
    }
  }

  /** A claim passed over at its place. */
  lemma PassOne(adj: Adjacency, byId: Claims, order: seq<nat>, n: nat, selected: seq<Claim>, places: seq<Place>,
                maxClaims: nat, maxBytes: nat, now: Place, path: seq<nat>)
    requires JoinedInOrder(adj, byId, order, n, selected, places, maxClaims, maxBytes, now)
    requires now.left < now.right < |order|
    requires BestPath(adj, byId, order[now.left], order[now.right], path) && 0 < now.inner < |path| - 1
    requires var s, id := SelectionOf(selected, maxClaims, maxBytes), path[now.inner];
             id in s.ids || (id in byId && !Fits(s, byId[id].bytes))
    ensures JoinedInOrder(adj, byId, order, n, selected, places, maxClaims, maxBytes, now.(inner := now.inner + 1))
  {
    PassPlace(adj, byId, order, SelectionOf(selected, maxClaims, maxBytes), now, path);
    hide InnerAt, Passed, BestPath, SelectionOf, JoinedAt;
  }

  lemma NextPlace(adj: Adjacency, byId: Claims, order: seq<nat>, n: nat, selected: seq<Claim>, places: seq<Place>,
                  maxClaims: nat, maxBytes: nat, now: Place, next: Place)
    requires JoinedInOrder(adj, byId, order, n, selected, places, maxClaims, maxBytes, now)
    requires now == next || Ahead(now, next)
    requires forall place, id | Ahead(place, next) && !Ahead(place, now) :: !InnerAt(adj, byId, order, place, id)
    ensures JoinedInOrder(adj, byId, order, n, selected, places, maxClaims, maxBytes, next)
  {
    PassPair(adj, byId, order, SelectionOf(selected, maxClaims, maxBytes), now, next);
    hide InnerAt, Passed, SelectionOf, JoinedAt;
  }

  /** The path between two seeds is dealt with. */
  lemma PathEnds(adj: Adjacency, byId: Claims, order: seq<nat>, n: nat, selected: seq<Claim>, places: seq<Place>,
                 maxClaims: nat, maxBytes: nat, now: Place, path: seq<nat>)
    requires JoinedInOrder(adj, byId, order, n, selected, places, maxClaims, maxBytes, now)
    requires now.left < now.right < |order| && BestPath(adj, byId, order[now.left], order[now.right], path)
    requires now.inner >= |path| - 1
    ensures JoinedInOrder(adj, byId, order, n, selected, places, maxClaims, maxBytes, Place(now.left, now.right + 1, 0))
  {
    var next := Place(now.left, now.right + 1, 0);
    forall place, id | Ahead(place, next) && !Ahead(place, now) ensures !InnerAt(adj, byId, order, place, id) {
      if InnerAt(adj, byId, order, place, id) {
        assert place.left == now.left && place.right == now.right;
        InnerAtIs(adj, byId, order, place, path, id);
      }
    }
    NextPlace(adj, byId, order, n, selected, places, maxClaims, maxBytes, now, next);
  }

  /** There is no path between two seeds. */
  lemma NoPathEnds(adj: Adjacency, byId: Claims, order: seq<nat>, n: nat, selected: seq<Claim>, places: seq<Place>,
                   maxClaims: nat, maxBytes: nat, left: nat, right: nat)
    requires JoinedInOrder(adj, byId, order, n, selected, places, maxClaims, maxBytes, Place(left, right, 0))
    requires left < right < |order| && forall path :: !BestPath(adj, byId, order[left], order[right], path)
    ensures JoinedInOrder(adj, byId, order, n, selected, places, maxClaims, maxBytes, Place(left, right + 1, 0))
  {
    NextPlace(adj, byId, order, n, selected, places, maxClaims, maxBytes, Place(left, right, 0),
              Place(left, right + 1, 0));
  }

  /** All pairs of one seed with the later ones are dealt with. */
  lemma SeedEnds(adj: Adjacency, byId: Claims, order: seq<nat>, n: nat, selected: seq<Claim>, places: seq<Place>,
                 maxClaims: nat, maxBytes: nat, left: nat)
    requires left < |order|
    requires JoinedInOrder(adj, byId, order, n, selected, places, maxClaims, maxBytes, Place(left, |order|, 0))
    ensures JoinedInOrder(adj, byId, order, n, selected, places, maxClaims, maxBytes, Place(left + 1, left + 2, 0))
  {
    NextPlace(adj, byId, order, n, selected, places, maxClaims, maxBytes, Place(left, |order|, 0),
              Place(left + 1, left + 2, 0));
  }

  /** The claim stands between two seeds on a best proof path. */
  ghost predicate OnBestPath(adj: Adjacency, byId: Claims, order: seq<nat>, id: nat) {
    exists place :: InnerAt(adj, byId, order, place, id)
  }
}
