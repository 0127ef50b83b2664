/** The error-correcting semantic decoder: evidence is counted by conserved groups, and a codeword is
    returned only inside a ball that no other codeword can reach. */
module ErrorCorrection {
  import opened Options
  import opened Order

  type Field = nat
  type Value = nat
  type Group = nat
  type Id = nat

  /** Canonically sorted unique pairs are a map. */
  datatype Codeword = Codeword(id: Id, charges: map<Field, Value>)

  datatype Observation = Observation(field: Field, value: Value, group: Group)

  type Groups = map<Group, seq<Observation>>

  datatype State = Resolved | Open | Conflict
  datatype Reason = OutsideCodebook | RadiusTooLarge | OutsideEveryBall | Tied | UniqueCodeword

  datatype Decoding =
    | Rejected
    | Decoding(state: State, hypothesis: Option<Id>, distance: Option<nat>, minimum: nat, correctable: nat,
               contenders: seq<Id>, reason: Reason)

  // ---------------------------------------------------------------- grouping

  /** The observations of one group among the first n, in their order. */
  function OfGroup(observations: seq<Observation>, g: Group, n: nat): seq<Observation>
    requires n <= |observations|
  {
    if n == 0 then []
    else OfGroup(observations, g, n - 1) + if observations[n - 1].group == g then [observations[n - 1]] else []
  }

  ghost predicate IsGrouping(observations: seq<Observation>, groups: Groups, n: nat)
    requires n <= |observations|
  {
    && (forall g :: g in groups <==> exists i :: 0 <= i < n && observations[i].group == g)
    && (forall g | g in groups :: groups[g] == OfGroup(observations, g, n))
  }

  lemma {:induction false} OfGroupMembers(observations: seq<Observation>, g: Group, n: nat, o: Observation)
    requires n <= |observations|
    ensures o in OfGroup(observations, g, n) <==> o.group == g && o in observations[..n]
  {
    if n > 0 {
      OfGroupMembers(observations, g, n - 1, o);
      PrefixStep(observations, n - 1);
    }
  }

  lemma {:induction false} AbsentGroupEmpty(observations: seq<Observation>, g: Group, n: nat)
    requires n <= |observations|
    requires forall i | 0 <= i < n :: observations[i].group != g
    ensures OfGroup(observations, g, n) == []
  {
    if n > 0 {
      AbsentGroupEmpty(observations, g, n - 1);
    }
  }

  method GroupObservations(observations: seq<Observation>) returns (groups: Groups)
    ensures IsGrouping(observations, groups, |observations|)
  {
    groups := map[];
    for k := 0 to |observations|
      invariant IsGrouping(observations, groups, k)
    {
      GroupStep(observations, groups, k);
      var item := observations[k];
      groups := groups[item.group := (if item.group in groups then groups[item.group] else []) + [item]];
    }
  }

  lemma GroupStep(observations: seq<Observation>, groups: Groups, k: nat)
    requires k < |observations| && IsGrouping(observations, groups, k)
    ensures var item := observations[k];
            IsGrouping(observations, groups[item.group :=
              (if item.group in groups then groups[item.group] else []) + [item]], k + 1)
  {
    var item := observations[k];
    var more := groups[item.group := (if item.group in groups then groups[item.group] else []) + [item]];
    if item.group !in groups {
      AbsentGroupEmpty(observations, item.group, k);
    }
    forall g ensures g in more <==> exists i :: 0 <= i < k + 1 && observations[i].group == g {
      if g in groups {
        var i :| 0 <= i < k && observations[i].group == g;
      } else if g == item.group {
        assert observations[k].group == g;
      }
    }
  }

  // ---------------------------------------------------------------- distances

  function Charge(codeword: Codeword, field: Field): Option<Value> {
    if field in codeword.charges then Some(codeword.charges[field]) else None
  }

  predicate Contradicts(codeword: Codeword, observations: seq<Observation>) {
    exists o | o in observations :: Charge(codeword, o.field) != Some(o.value)
  }

  predicate Separates(left: Codeword, right: Codeword, observations: seq<Observation>) {
    exists o | o in observations :: Charge(left, o.field) != Charge(right, o.field)
  }

  function WrongGroups(codeword: Codeword, groups: Groups): set<Group> {
    set g | g in groups && Contradicts(codeword, groups[g])
  }

  function SeparatingGroups(left: Codeword, right: Codeword, groups: Groups): set<Group> {
    set g | g in groups && Separates(left, right, groups[g])
  }

  function CandidateDistance(codeword: Codeword, groups: Groups): nat {
    |WrongGroups(codeword, groups)|
  }

  function PairDistance(left: Codeword, right: Codeword, groups: Groups): nat {
    |SeparatingGroups(left, right, groups)|
  }

  lemma SubsetSize<T>(a: set<T>, b: set<T>)
    requires a <= b
    ensures |a| <= |b|
  {
    assert b == a + (b - a);
  }

  /** Two codewords differ on a group only where at least one of them contradicts the evidence. */
  lemma DistanceTriangle(left: Codeword, right: Codeword, groups: Groups)
    ensures PairDistance(left, right, groups) <= CandidateDistance(left, groups) + CandidateDistance(right, groups)
  {
    var l, r := WrongGroups(left, groups), WrongGroups(right, groups);
    forall g | g in SeparatingGroups(left, right, groups) ensures g in l + r {
      var o :| o in groups[g] && Charge(left, o.field) != Charge(right, o.field);
      assert Charge(left, o.field) != Some(o.value) || Charge(right, o.field) != Some(o.value);
    }
    SubsetSize(SeparatingGroups(left, right, groups), l + r);
  }

  lemma GroupHasItsOwn(observations: seq<Observation>, groups: Groups, g: Group, o: Observation)
    requires IsGrouping(observations, groups, |observations|)
    ensures g in groups && o in groups[g] <==> o in observations && o.group == g
  {
    OfGroupMembers(observations, g, |observations|, o);
    assert observations[..|observations|] == observations;
  }

  /** The groups of the observations that separate two codewords. */
  function Apart(observations: seq<Observation>, left: Codeword, right: Codeword): set<Group> {
    set o | o in observations && Charge(left, o.field) != Charge(right, o.field) :: o.group
  }

  /** The groups of the observations that a codeword contradicts. */
  function Wrong(observations: seq<Observation>, codeword: Codeword): set<Group> {
    set o | o in observations && Charge(codeword, o.field) != Some(o.value) :: o.group
  }

  /** The distances count the groups of the observations that separate or contradict, each group once. */
  lemma DistancesCount(observations: seq<Observation>, groups: Groups, left: Codeword, right: Codeword)
    requires IsGrouping(observations, groups, |observations|)
    ensures WrongGroups(left, groups) == Wrong(observations, left)
    ensures SeparatingGroups(left, right, groups) == Apart(observations, left, right)
  {
    forall g, o ensures g in groups && o in groups[g] <==> o in observations && o.group == g {
      GroupHasItsOwn(observations, groups, g, o);
    }
  }

  /** Two codewords are at distance zero iff they agree on every observed field. */
  lemma ZeroIffAgree(observations: seq<Observation>, groups: Groups, left: Codeword, right: Codeword)
    requires IsGrouping(observations, groups, |observations|)
    ensures PairDistance(left, right, groups) == 0
            <==> forall o | o in observations :: Charge(left, o.field) == Charge(right, o.field)
  {
    DistancesCount(observations, groups, left, right);
    if o :| o in observations && Charge(left, o.field) != Charge(right, o.field) {
      assert o.group in Apart(observations, left, right);
    }
  }

  lemma ApartGrows(observations: seq<Observation>, o: Observation, left: Codeword, right: Codeword)
    ensures Apart(observations + [o], left, right)
            == Apart(observations, left, right)
               + if Charge(left, o.field) != Charge(right, o.field) then {o.group} else {}
  {
    assert forall x :: x in observations + [o] <==> x in observations || x == o;
    assert o in observations + [o];
  }

  /** An observation that separates adds one to the distance if its group did not separate before; any other
      adds nothing. */
  lemma OneMoreObservation(observations: seq<Observation>, groups: Groups, o: Observation, more: Groups,
                           left: Codeword, right: Codeword)
    requires IsGrouping(observations, groups, |observations|)
    requires IsGrouping(observations + [o], more, |observations + [o]|)
    ensures PairDistance(left, right, more) == PairDistance(left, right, groups)
            + if Charge(left, o.field) != Charge(right, o.field) && o.group !in SeparatingGroups(left, right, groups)
              then 1 else 0
  {
    DistancesCount(observations, groups, left, right);
    DistancesCount(observations + [o], more, left, right);
    ApartGrows(observations, o, left, right);
    hide Apart, SeparatingGroups, WrongGroups, IsGrouping;
    var known := Apart(observations, left, right);
    assert o.group in known ==> known + {o.group} == known;
  }

  /** If the evidence reads exactly as one codeword does, every codeword is as far from the evidence as from
      that codeword. */
  lemma EvidenceAsCodeword(groups: Groups, sent: Codeword, other: Codeword)
    requires WrongGroups(sent, groups) == {}
    ensures CandidateDistance(other, groups) == PairDistance(other, sent, groups)
  {
    forall g | g in groups ensures Contradicts(other, groups[g]) <==> Separates(other, sent, groups[g]) {
      assert g !in WrongGroups(sent, groups);
      forall o | o in groups[g] ensures Charge(sent, o.field) == Some(o.value) {}
    }
    assert WrongGroups(other, groups) == SeparatingGroups(other, sent, groups);
  }

  lemma PairSymmetric(left: Codeword, right: Codeword, groups: Groups)
    ensures PairDistance(left, right, groups) == PairDistance(right, left, groups)
  {
    assert SeparatingGroups(left, right, groups) == SeparatingGroups(right, left, groups);
  }

  // ---------------------------------------------------------------- decoding

  predicate DistinctIds(codewords: seq<Codeword>) {
    forall i, j | 0 <= i < j < |codewords| :: codewords[i].id != codewords[j].id
  }

  predicate SameFields(codewords: seq<Codeword>)
    requires codewords != []
  {
    forall i | 0 <= i < |codewords| :: codewords[i].charges.Keys == codewords[0].charges.Keys
  }

  predicate FieldsKnown(codewords: seq<Codeword>, observations: seq<Observation>)
    requires codewords != []
  {
    forall i | 0 <= i < |observations| :: observations[i].field in codewords[0].charges
  }

  predicate FieldsOnce(observations: seq<Observation>) {
    forall i, j | 0 <= i < j < |observations| :: observations[i].field != observations[j].field
  }

  predicate ValidCodebook(codewords: seq<Codeword>, observations: seq<Observation>, budget: int) {
    && 2 <= |codewords| && DistinctIds(codewords)
    && observations != [] && 0 <= budget
    && SameFields(codewords)
  }

  function Ids(codewords: seq<Codeword>): set<Id> {
    set c | c in codewords :: c.id
  }

  function PairDistances(codewords: seq<Codeword>, groups: Groups): set<nat> {
    set i, j | 0 <= i < j < |codewords| :: PairDistance(codewords[i], codewords[j], groups)
  }

  function Distances(codewords: seq<Codeword>, groups: Groups): set<nat> {
    set c | c in codewords :: CandidateDistance(c, groups)
  }

  function Nearest(codewords: seq<Codeword>, groups: Groups, best: nat): set<Id> {
    set c | c in codewords && CandidateDistance(c, groups) == best :: c.id
  }

  function Correctable(minimum: nat): nat {
    if minimum == 0 then 0 else (minimum - 1) / 2
  }

  /** The reported radius is the largest one the separation supports. */
  lemma CorrectableIsLargest(minimum: nat, budget: nat)
    ensures minimum >= 2 * budget + 1 <==> 0 < minimum && budget <= Correctable(minimum)
  {}

  lemma PairAtLeastMinimum(codewords: seq<Codeword>, groups: Groups, left: Codeword, right: Codeword)
    requires 2 <= |codewords| && left in codewords && right in codewords && left != right
    ensures PairDistances(codewords, groups) != {}
    ensures Least(PairDistances(codewords, groups)) <= PairDistance(left, right, groups)
  {
    var i :| 0 <= i < |codewords| && codewords[i] == left;
    var j :| 0 <= j < |codewords| && codewords[j] == right;
    if i < j {
      assert PairDistance(codewords[i], codewords[j], groups) in PairDistances(codewords, groups);
    } else {
      PairSymmetric(left, right, groups);
      assert PairDistance(codewords[j], codewords[i], groups) in PairDistances(codewords, groups);
    }
  }

  /** The unique decoding radius: when one codeword is wrong in at most t groups and t is within the
      supported radius, every other codeword is wrong in more groups than that whole radius. */
  lemma OthersAreFarther(codewords: seq<Codeword>, groups: Groups, near: Codeword, far: Codeword, t: nat)
    requires 2 <= |codewords| && near in codewords && far in codewords && near != far
    requires PairDistances(codewords, groups) != {}
    requires Least(PairDistances(codewords, groups)) >= 2 * t + 1
    requires CandidateDistance(near, groups) <= t
    ensures t <= Correctable(Least(PairDistances(codewords, groups))) < CandidateDistance(far, groups)
  {
    PairAtLeastMinimum(codewords, groups, near, far);
    DistanceTriangle(near, far, groups);
  }

  /** What the decoder promises once the codebook is valid, every field is known and observed once. */
  ghost predicate Decodes(codewords: seq<Codeword>, groups: Groups, budget: nat, result: Decoding)
    requires 2 <= |codewords|
  {
    && result.Decoding?
    && (forall i, j | 0 <= i < j < |codewords| ::
          result.minimum <= PairDistance(codewords[i], codewords[j], groups))
    && (exists i, j :: 0 <= i < j < |codewords| &&
          result.minimum == PairDistance(codewords[i], codewords[j], groups))
    && result.correctable == Correctable(result.minimum)
    && result.reason != Tied
    && (result.state == Open <==> result.minimum < 2 * budget + 1)
    && (result.state == Resolved <==>
          result.minimum >= 2 * budget + 1 &&
          exists c :: c in codewords && CandidateDistance(c, groups) <= budget)
    && (result.hypothesis.Some? <==> result.state == Resolved)
    && (result.state == Resolved ==>
          && budget <= result.correctable
          && result.contenders == [result.hypothesis.value]
          && (forall c | c in codewords && c.id == result.hypothesis.value ::
                result.distance == Some(CandidateDistance(c, groups)) && CandidateDistance(c, groups) <= budget)
          && (forall c | c in codewords && CandidateDistance(c, groups) <= result.correctable ::
                c.id == result.hypothesis.value))
    && (result.state == Open ==> result.contenders == Sorted(Ids(codewords)) && result.distance == None)
    && (result.state == Conflict ==>
          && result.distance.Some? && budget < result.distance.value
          && (forall c | c in codewords :: result.distance.value <= CandidateDistance(c, groups))
          && (forall id :: id in result.contenders <==>
                exists c :: c in codewords && c.id == id && CandidateDistance(c, groups) == result.distance.value))
  }

  lemma SortedSingleton(x: nat)
    ensures Sorted({x}) == [x]
  {
    var r := Sorted({x});
    assert x in r;
    var i :| 0 <= i < |r| && r[i] == x;
    assert r[0] in r && r[|r| - 1] in r;
    assert r[0] == r[|r| - 1];
  }

  lemma SameIdSame(codewords: seq<Codeword>, c: Codeword, d: Codeword)
    requires DistinctIds(codewords) && c in codewords && d in codewords && c.id == d.id
    ensures c == d
  {
    var i :| 0 <= i < |codewords| && codewords[i] == c;
    var j :| 0 <= j < |codewords| && codewords[j] == d;
    assert i == j;
  }

  /** Inside the supported radius the nearest codeword is alone, so the tie branch is dead. */
  lemma NearestIsAlone(codewords: seq<Codeword>, groups: Groups, c: Codeword, t: nat)
    requires 2 <= |codewords| && c in codewords
    requires PairDistances(codewords, groups) != {}
    requires Least(PairDistances(codewords, groups)) >= 2 * t + 1
    requires CandidateDistance(c, groups) <= t
    requires forall d | d in codewords :: CandidateDistance(c, groups) <= CandidateDistance(d, groups)
    ensures Nearest(codewords, groups, CandidateDistance(c, groups)) == {c.id}
  {
    forall d | d in codewords && CandidateDistance(d, groups) == CandidateDistance(c, groups) ensures d == c {
      if d != c {
        OthersAreFarther(codewords, groups, c, d, t);
      }
    }
  }

  lemma SomePair(codewords: seq<Codeword>, groups: Groups)
    requires 2 <= |codewords|
    ensures PairDistances(codewords, groups) != {}
    ensures exists i, j :: 0 <= i < j < |codewords| &&
              Least(PairDistances(codewords, groups)) == PairDistance(codewords[i], codewords[j], groups)
    ensures forall i, j | 0 <= i < j < |codewords| ::
              Least(PairDistances(codewords, groups)) <= PairDistance(codewords[i], codewords[j], groups)
  {
    assert PairDistance(codewords[0], codewords[1], groups) in PairDistances(codewords, groups);
    assert Least(PairDistances(codewords, groups)) in PairDistances(codewords, groups);
    forall i, j | 0 <= i < j < |codewords|
      ensures Least(PairDistances(codewords, groups)) <= PairDistance(codewords[i], codewords[j], groups)
    {
      assert PairDistance(codewords[i], codewords[j], groups) in PairDistances(codewords, groups);
    }
  }

  lemma ResolvedDecodes(codewords: seq<Codeword>, groups: Groups, budget: nat, c: Codeword)
    requires 2 <= |codewords| && DistinctIds(codewords) && c in codewords
    requires PairDistances(codewords, groups) != {}
    requires Least(PairDistances(codewords, groups)) >= 2 * budget + 1
    requires CandidateDistance(c, groups) <= budget
    ensures var minimum := Least(PairDistances(codewords, groups));
            Decodes(codewords, groups, budget,
                    Decoding(Resolved, Some(c.id), Some(CandidateDistance(c, groups)), minimum,
                             Correctable(minimum), [c.id], UniqueCodeword))
  {
    SomePair(codewords, groups);
    forall d | d in codewords && d.id == c.id ensures d == c {
      SameIdSame(codewords, c, d);
    }
    forall d | d in codewords && CandidateDistance(d, groups) <= Correctable(Least(PairDistances(codewords, groups)))
      ensures d == c
    {
      if d != c {
        OthersAreFarther(codewords, groups, c, d, budget);
      }
    }
  }

  method Decode(codewords: seq<Codeword>, observations: seq<Observation>, budget: int) returns (result: Decoding)
    ensures !ValidCodebook(codewords, observations, budget) ==> result == Rejected
    ensures ValidCodebook(codewords, observations, budget) && !FieldsKnown(codewords, observations) ==>
              result == Decoding(Conflict, None, None, 0, 0, Sorted(Ids(codewords)), OutsideCodebook)
    ensures ValidCodebook(codewords, observations, budget) && FieldsKnown(codewords, observations) ==>
              if !FieldsOnce(observations) then result == Rejected
              else DecodesObservations(codewords, observations, budget, result)
  {
    if !ValidCodebook(codewords, observations, budget) {
      return Rejected;
    }
    if !FieldsKnown(codewords, observations) {
      return Decoding(Conflict, None, None, 0, 0, Sorted(Ids(codewords)), OutsideCodebook);
    }
    if !FieldsOnce(observations) {
      return Rejected;
    }
    result := DecodeObservations(codewords, observations, budget);
  }

  method DecodeObservations(codewords: seq<Codeword>, observations: seq<Observation>, budget: nat)
    returns (result: Decoding)
    requires 2 <= |codewords| && DistinctIds(codewords)
    ensures DecodesObservations(codewords, observations, budget, result)
  {
    var groups := GroupObservations(observations);
    result := DecodeGroups(codewords, groups, budget);
    forall other | IsGrouping(observations, other, |observations|) ensures other == groups {
      GroupingUnique(observations, groups, other, |observations|);
    }
  }

  lemma GroupingUnique(observations: seq<Observation>, a: Groups, b: Groups, n: nat)
    requires n <= |observations| && IsGrouping(observations, a, n) && IsGrouping(observations, b, n)
    ensures a == b
  {}

  /** The decoder's promise for the groups the observations form. */
  ghost predicate DecodesObservations(codewords: seq<Codeword>, observations: seq<Observation>, budget: nat,
                                      result: Decoding)
    requires 2 <= |codewords|
  {
    forall groups | IsGrouping(observations, groups, |observations|) :: Decodes(codewords, groups, budget, result)
  }

  method DecodeGroups(codewords: seq<Codeword>, groups: Groups, budget: nat) returns (result: Decoding)
    requires 2 <= |codewords| && DistinctIds(codewords)
    ensures Decodes(codewords, groups, budget, result)
  {
    SomePair(codewords, groups);
    var minimum := Least(PairDistances(codewords, groups));
    var correctable := Correctable(minimum);
    if minimum < 2 * budget + 1 {
      return Decoding(Open, None, None, minimum, correctable, Sorted(Ids(codewords)), RadiusTooLarge);
    }
    assert CandidateDistance(codewords[0], groups) in Distances(codewords, groups);
    var bestDistance := Least(Distances(codewords, groups));
    var best := Sorted(Nearest(codewords, groups, bestDistance));
    forall c | c in codewords ensures bestDistance <= CandidateDistance(c, groups) {
      assert CandidateDistance(c, groups) in Distances(codewords, groups);
    }
    if bestDistance > budget {
      return Decoding(Conflict, None, Some(bestDistance), minimum, correctable, best, OutsideEveryBall);
    }
    ghost var c :| c in codewords && CandidateDistance(c, groups) == bestDistance;
    NearestIsAlone(codewords, groups, c, budget);
    SortedSingleton(c.id);
    if |best| != 1 {
      // Two nearest codewords inside the supported radius: impossible.
      assert false;
    }
    ResolvedDecodes(codewords, groups, budget, c);
    result := Decoding(Resolved, Some(best[0]), Some(bestDistance), minimum, correctable, best, UniqueCodeword);
  }

  /** A codeword sent through evidence that is wrong in at most t groups is the one that comes back. */
  lemma SentIsRecovered(codewords: seq<Codeword>, groups: Groups, budget: nat, result: Decoding, sent: Codeword)
    requires 2 <= |codewords| && DistinctIds(codewords) && Decodes(codewords, groups, budget, result)
    requires sent in codewords && CandidateDistance(sent, groups) <= budget
    requires forall i, j | 0 <= i < j < |codewords| ::
               2 * budget + 1 <= PairDistance(codewords[i], codewords[j], groups)
    ensures result.state == Resolved && result.hypothesis == Some(sent.id)
    ensures result.distance == Some(CandidateDistance(sent, groups))
  {
    var i, j :| 0 <= i < j < |codewords| && result.minimum == PairDistance(codewords[i], codewords[j], groups);
  }

  // ---------------------------------------------------------------- merging evidence

  /** Declaring several sources to be one: every group is renamed. */
  function Merged(observations: seq<Observation>, merge: Group -> Group): seq<Observation> {
    seq(|observations|, i requires 0 <= i < |observations| =>
      observations[i].(group := merge(observations[i].group)))
  }

  lemma {:induction false} ImageNoLarger(s: set<Group>, merge: Group -> Group)
    ensures |set g | g in s :: merge(g)| <= |s|
  {
    if s != {} {
      var x :| x in s;
      ImageNoLarger(s - {x}, merge);
      assert (set g | g in s :: merge(g)) == (set g | g in s - {x} :: merge(g)) + {merge(x)};
    }
  }

  /** An observation of a merged group comes from one of the groups merged into it. */
  lemma MergedOrigin(observations: seq<Observation>, merge: Group -> Group, groups: Groups, merged: Groups,
                     h: Group, o: Observation) returns (g: Group, source: Observation)
    requires IsGrouping(observations, groups, |observations|)
    requires IsGrouping(Merged(observations, merge), merged, |observations|)
    requires h in merged && o in merged[h]
    ensures g in groups && merge(g) == h && source in groups[g]
    ensures source.field == o.field && source.value == o.value
  {
    var all := Merged(observations, merge);
    OfGroupMembers(all, h, |all|, o);
    var i :| 0 <= i < |all| && all[i] == o;
    source := observations[i];
    g := source.group;
    OfGroupMembers(observations, g, |observations|, source);
  }

  /** Counting dependent evidence once never moves a codeword away from the evidence, nor two codewords
      away from each other. */
  lemma MergingNeverSeparates(observations: seq<Observation>, merge: Group -> Group, groups: Groups, merged: Groups,
                              left: Codeword, right: Codeword)
    requires IsGrouping(observations, groups, |observations|)
    requires IsGrouping(Merged(observations, merge), merged, |observations|)
    ensures CandidateDistance(left, merged) <= CandidateDistance(left, groups)
    ensures PairDistance(left, right, merged) <= PairDistance(left, right, groups)
  {
    var wrong := WrongGroups(left, groups);
    forall h | h in WrongGroups(left, merged) ensures h in set g | g in wrong :: merge(g) {
      var o :| o in merged[h] && Charge(left, o.field) != Some(o.value);
      var g, source := MergedOrigin(observations, merge, groups, merged, h, o);
      assert g in wrong;
    }
    ImageNoLarger(wrong, merge);
    SubsetSize(WrongGroups(left, merged), set g | g in wrong :: merge(g));
    var apart := SeparatingGroups(left, right, groups);
    forall h | h in SeparatingGroups(left, right, merged) ensures h in set g | g in apart :: merge(g) {
      var o :| o in merged[h] && Charge(left, o.field) != Charge(right, o.field);
      var g, source := MergedOrigin(observations, merge, groups, merged, h, o);
      assert g in apart;
    }
    ImageNoLarger(apart, merge);
    SubsetSize(SeparatingGroups(left, right, merged), set g | g in apart :: merge(g));
  }
}
