/** Leaving out some ids of a list, in order. */
module Filtering {
  import opened Order

  function Kept(ids: seq<nat>, dropped: set<nat>, k: nat): seq<nat>
    requires k <= |ids|
  {
    if k == 0 then []
    else Kept(ids, dropped, k - 1) + if ids[k - 1] in dropped then [] else [ids[k - 1]]
  }

  /** The ids of a list outside a set, in order. */
  function Without(ids: seq<nat>, dropped: set<nat>): seq<nat> {
    Kept(ids, dropped, |ids|)
  }

  lemma {:induction false} KeptMembers(ids: seq<nat>, dropped: set<nat>, k: nat, f: nat)
    requires k <= |ids|
    ensures f in Kept(ids, dropped, k) <==> f in ids[..k] && f !in dropped
  {
    if k > 0 {
      KeptMembers(ids, dropped, k - 1, f);
      assert ids[..k] == ids[..k - 1] + [ids[k - 1]];
    }
  }

  lemma WithoutMembers(ids: seq<nat>, dropped: set<nat>)
    ensures forall f :: f in Without(ids, dropped) <==> f in ids && f !in dropped
  {
    assert ids[..|ids|] == ids;
    forall f ensures f in Without(ids, dropped) <==> f in ids && f !in dropped {
      KeptMembers(ids, dropped, |ids|, f);
    }
  }

  /** `places` lists, in order, the places below `k` whose ids stay. */
  ghost predicate StayingPlaces(ids: seq<nat>, dropped: set<nat>, k: nat, places: seq<nat>) {
    && k <= |ids| && StrictlyAscending(places)
    && forall i :: i in places <==> 0 <= i < k && ids[i] !in dropped
  }

  /** The ids at these places, in order. */
  ghost predicate ListedAt(ids: seq<nat>, places: seq<nat>, r: seq<nat>) {
    |r| == |places| && forall j | 0 <= j < |places| :: places[j] < |ids| && r[j] == ids[places[j]]
  }

  lemma PlaceAdded(ids: seq<nat>, dropped: set<nat>, k: nat, places: seq<nat>)
    requires k < |ids| && StayingPlaces(ids, dropped, k, places) && ids[k] !in dropped
    ensures StayingPlaces(ids, dropped, k + 1, places + [k])
  {
    forall j | 0 <= j < |places| ensures places[j] < k {
      assert places[j] in places;
    }
    forall i ensures i in places + [k] <==> 0 <= i < k + 1 && ids[i] !in dropped {
      assert i in places + [k] <==> i in places || i == k;
    }
  }

  lemma PlacePassed(ids: seq<nat>, dropped: set<nat>, k: nat, places: seq<nat>)
    requires k < |ids| && StayingPlaces(ids, dropped, k, places) && ids[k] in dropped
    ensures StayingPlaces(ids, dropped, k + 1, places)
  {}

  lemma {:induction false} KeptInOrder(ids: seq<nat>, dropped: set<nat>, k: nat) returns (places: seq<nat>)
    requires k <= |ids|
    ensures StayingPlaces(ids, dropped, k, places) && ListedAt(ids, places, Kept(ids, dropped, k))
  {
    hide StayingPlaces;
    if k == 0 {
      places := [];
      NoPlaces(ids, dropped);
    } else {
      places := KeptInOrder(ids, dropped, k - 1);
      if ids[k - 1] in dropped {
        PlacePassed(ids, dropped, k - 1, places);
      } else {
        PlaceAdded(ids, dropped, k - 1, places);
        places := places + [k - 1];
      }
    }
  }

  lemma NoPlaces(ids: seq<nat>, dropped: set<nat>)
    ensures StayingPlaces(ids, dropped, 0, [])
  {}

  /** Every id outside the set stays, at its turn, and as often as the list has it. */
  lemma WithoutInOrder(ids: seq<nat>, dropped: set<nat>) returns (places: seq<nat>)
    ensures StayingPlaces(ids, dropped, |ids|, places) && ListedAt(ids, places, Without(ids, dropped))
  {
    places := KeptInOrder(ids, dropped, |ids|);
  }

  lemma {:induction false} KeptDistinct(ids: seq<nat>, dropped: set<nat>, k: nat)
    requires k <= |ids| && NoDuplicates(ids)
    ensures NoDuplicates(Kept(ids, dropped, k))
  {
    if k > 0 {
      KeptDistinct(ids, dropped, k - 1);
      KeptMembers(ids, dropped, k - 1, ids[k - 1]);
      assert ids[k - 1] !in ids[..k - 1];
    }
  }

  /** Filtering more of a list only adds at the end. */
  lemma {:induction false} KeptPrefix(ids: seq<nat>, dropped: set<nat>, i: nat, j: nat)
    requires i <= j <= |ids|
    ensures Kept(ids, dropped, i) <= Kept(ids, dropped, j)
    decreases j
  {
    if i < j {
      KeptPrefix(ids, dropped, i, j - 1);
    }
  }

  lemma {:induction false} KeptNone(ids: seq<nat>, k: nat)
    requires k <= |ids|
    ensures Kept(ids, {}, k) == ids[..k]
  {
    if k > 0 {
      KeptNone(ids, k - 1);
      PrefixStep(ids, k - 1);
    }
  }

  /** Dropping nothing keeps the list. */
  lemma KeptAll(ids: seq<nat>)
    ensures Without(ids, {}) == ids
  {
    KeptNone(ids, |ids|);
  }
}
