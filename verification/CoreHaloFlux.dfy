/** A protected core prefix, then the conserved halo over what is left. */
module CoreHaloFlux {
  import opened Order
  import opened ConservedFlux
  import opened Filtering

  /** The protected core: the first facts of the core mode that are not excluded. */
  function Core(modes: Modes, coreMode: Name, width: nat, limit: nat, excluded: set<Fact>): seq<Fact>
    requires coreMode in modes
  {
    var kept := Without(modes[coreMode], excluded);
    var n := if width < limit then width else limit;
    if |kept| <= n then kept else kept[..n]
  }

  function HaloModes(modes: Modes, core: seq<Fact>): (halo: Modes)
    ensures forall name :: name in halo <==> name in modes
    ensures forall name | name in modes :: halo[name] == Without(modes[name], set f | f in core)
  {
    map name | name in modes :: Without(modes[name], set f | f in core)
  }

  /** The laws of the whole selection: it begins with the core, doubles and admits nothing forbidden,
      and when it stays below the limit no scheduled mode holds anything more. */
  ghost predicate CoreFirst(modes: Modes, schedule: seq<Name>, core: seq<Fact>, limit: nat, excluded: set<Fact>,
                            facts: seq<Fact>) {
    && |core| <= |facts| <= limit && facts[..|core|] == core
    && NoDuplicates(facts)
    && (forall i | 0 <= i < |facts| :: facts[i] !in excluded)
    && (|facts| < limit ==> forall i | 0 <= i < |schedule| :: !Available(modes, excluded, facts, schedule[i]))
  }

  lemma CoreIsClean(modes: Modes, coreMode: Name, width: nat, limit: nat, excluded: set<Fact>)
    requires coreMode in modes
    ensures var core := Core(modes, coreMode, width, limit, excluded);
            && |core| <= limit
            && (forall i | 0 <= i < |core| :: core[i] !in excluded && core[i] in modes[coreMode])
            && (NoDuplicates(modes[coreMode]) ==> NoDuplicates(core))
  {
    var kept := Without(modes[coreMode], excluded);
    WithoutMembers(modes[coreMode], excluded);
    forall i | 0 <= i < |kept| ensures kept[i] !in excluded && kept[i] in modes[coreMode] {
      assert kept[i] in kept;
    }
    if NoDuplicates(modes[coreMode]) {
      KeptDistinct(modes[coreMode], excluded, |modes[coreMode]|);
    }
  }

  /** The core takes the facts of the core mode that are not excluded from the front: its places are the first
      ones of such facts, as many as the width and the limit allow. */
  lemma CoreFromFront(modes: Modes, coreMode: Name, width: nat, limit: nat, excluded: set<Fact>)
    returns (places: seq<nat>)
    requires coreMode in modes
    ensures var core, list := Core(modes, coreMode, width, limit, excluded), modes[coreMode];
            && |core| == |places| && |core| <= width && |core| <= limit && StrictlyAscending(places)
            && (forall j | 0 <= j < |core| ::
                  places[j] < |list| && list[places[j]] == core[j] && core[j] !in excluded)
            && forall i | 0 <= i < |list| && list[i] !in excluded && i !in places ::
                 (|core| == width || |core| == limit) && forall j | 0 <= j < |core| :: places[j] < i
  {
    var list, core := modes[coreMode], Core(modes, coreMode, width, limit, excluded);
    var all := WithoutInOrder(list, excluded);
    places := all[..|core|];
    forall j | 0 <= j < |core| ensures list[places[j]] !in excluded {
      assert all[j] in all;
    }
    forall i | 0 <= i < |list| && list[i] !in excluded && i !in places
      ensures (|core| == width || |core| == limit) && forall j | 0 <= j < |core| :: places[j] < i
    {
      assert i in all;
      var m :| 0 <= m < |all| && all[m] == i;
    }
  }

  /** Every fact is charged to one mode that lists it, and the admissions are those charges. */
  ghost predicate Charged(modes: Modes, facts: seq<Fact>, admissions: Counts, owners: seq<Name>) {
    && |owners| == |facts|
    && (forall i | 0 <= i < |facts| :: owners[i] in admissions && owners[i] in modes && facts[i] in modes[owners[i]])
    && (forall name {:trigger admissions[name]} | name in admissions :: admissions[name] == Slots(owners, name))
  }

  lemma {:induction false} OccurrencesJoined(a: seq<Name>, b: seq<Name>, k: nat, name: Name)
    requires k <= |b|
    ensures Occurrences(a + b, |a| + k, name) == Occurrences(a, |a|, name) + Occurrences(b, k, name)
  {
    if k == 0 {
      OccurrencesOfPrefix(a + b, a, |a|, name);
    } else {
      OccurrencesJoined(a, b, k - 1, name);
    }
  }

  lemma {:induction false} OccurrencesConstant(names: seq<Name>, k: nat, only: Name, name: Name)
    requires k <= |names| && forall i | 0 <= i < k :: names[i] == only
    ensures Occurrences(names, k, name) == if name == only then k else 0
  {
    if k > 0 {
      OccurrencesConstant(names, k - 1, only, name);
    }
  }

  /** The core's facts are charged to the core mode, on top of the halo's charges. */
  lemma ChargesJoin(modes: Modes, coreMode: Name, core: seq<Fact>, halo: seq<Fact>, admitted: Counts, owners: seq<Name>)
    returns (all: seq<Name>)
    requires coreMode in modes && forall i | 0 <= i < |core| :: core[i] in modes[coreMode]
    requires Charged(modes, halo, admitted, owners) && coreMode in admitted
    ensures Charged(modes, core + halo, WithCore(admitted, coreMode, |core|), all)
  {
    var front := seq(|core|, i => coreMode);
    all := front + owners;
    var more := admitted[coreMode := admitted[coreMode] + |core|];
    forall name | name in more ensures more[name] == Slots(all, name) {
      OccurrencesJoined(front, owners, |owners|, name);
      OccurrencesConstant(front, |front|, coreMode, name);
    }
  }

  lemma HaloCharged(modes: Modes, core: seq<Fact>, excluded: set<Fact>, halo: seq<Fact>, admitted: Counts,
                    owners: seq<Name>)
    requires Attributed(HaloModes(modes, core), excluded, halo, owners, admitted)
    ensures Charged(modes, halo, admitted, owners)
  {
    forall i | 0 <= i < |halo| ensures halo[i] in modes[owners[i]] {
      WithoutMembers(modes[owners[i]], set f | f in core);
    }
  }

  lemma HaloJoins(modes: Modes, schedule: seq<Name>, core: seq<Fact>, limit: nat, excluded: set<Fact>,
                  halo: seq<Fact>, admitted: Counts, owners: seq<Name>, turns: seq<Turn>, rounds: nat)
    requires NoDuplicates(core) && |core| < limit && (forall i | 0 <= i < |core| :: core[i] !in excluded)
    requires forall i | 0 <= i < |schedule| :: schedule[i] in modes
    requires Conserved(schedule, HaloModes(modes, core), limit - |core|, excluded, halo, admitted, owners,
                       turns, rounds)
    ensures CoreFirst(modes, schedule, core, limit, excluded, core + halo)
  {
    var halos, coreSet := HaloModes(modes, core), set f | f in core;
    forall i | 0 <= i < |halo| ensures halo[i] !in core {
      WithoutMembers(modes[owners[i]], coreSet);
      assert halo[i] in halos[owners[i]];
    }
    if |core + halo| < limit {
      forall i | 0 <= i < |schedule| ensures !Available(modes, excluded, core + halo, schedule[i]) {
        NothingMore(modes, core, excluded, halo, schedule[i]);
      }
    }
  }

  lemma NothingMore(modes: Modes, core: seq<Fact>, excluded: set<Fact>, halo: seq<Fact>, name: Name)
    requires name in modes && !Available(HaloModes(modes, core), excluded, halo, name)
    ensures !Available(modes, excluded, core + halo, name)
  {
    var coreSet := set f | f in core;
    WithoutMembers(modes[name], coreSet);
    forall j | 0 <= j < |modes[name]| ensures Gone(core + halo, excluded, modes[name][j]) {
      var f := modes[name][j];
      if f !in core {
        assert f in modes[name];
        assert f in HaloModes(modes, core)[name];
        var m :| 0 <= m < |HaloModes(modes, core)[name]| && HaloModes(modes, core)[name][m] == f;
        assert Gone(halo, excluded, HaloModes(modes, core)[name][m]);
      }
    }
  }

  /** The core fills the limit alone, or the halo accepts what is left of the modes. */
  predicate CoreAccepts(coreMode: Name, width: nat, schedule: seq<Name>, modes: Modes, limit: nat,
                        excluded: set<Fact>) {
    && coreMode in modes && limit >= 1
    && var core := Core(modes, coreMode, width, limit, excluded);
       |core| == limit || Accepts(schedule, HaloModes(modes, core), limit - |core|)
  }

  /** The halo's own selection: what it chose, which mode each fact came from, and the rounds it started. */
  datatype Halo = Halo(facts: seq<Fact>, admissions: Counts, owners: seq<Name>, turns: seq<Turn>, rounds: nat)

  /** The halo's admissions with the core's facts charged to the core mode. */
  function WithCore(admissions: Counts, coreMode: Name, n: nat): Counts {
    admissions[coreMode := (if coreMode in admissions then admissions[coreMode] else 0) + n]
  }

  /** What the halo adds to the core: the conserved selection over the core-free modes, fair in both
      directions, with the core's facts charged on top to the core mode. */
  ghost predicate CorePlusHalo(schedule: seq<Name>, modes: Modes, coreMode: Name, core: seq<Fact>, limit: nat,
                               excluded: set<Fact>, facts: seq<Fact>, admissions: Counts, halo: Halo)
    requires |core| < limit
  {
    && halo.rounds >= 1
    && Conserved(schedule, HaloModes(modes, core), limit - |core|, excluded, halo.facts, halo.admissions,
                 halo.owners, halo.turns, halo.rounds)
    && facts == core + halo.facts
    && admissions == WithCore(halo.admissions, coreMode, |core|)
  }

  /** The laws of an accepted selection. They hold in full exactly when the core lists no fact twice. */
  ghost predicate Lawful(schedule: seq<Name>, modes: Modes, coreMode: Name, core: seq<Fact>, limit: nat,
                         excluded: set<Fact>, facts: seq<Fact>, admissions: Counts, owners: seq<Name>, halo: Halo) {
    && |core| <= limit
    && (CoreFirst(modes, schedule, core, limit, excluded, facts) <==> NoDuplicates(core))
    && Charged(modes, facts, admissions, owners)
    && if |core| == limit then facts == core
       else CorePlusHalo(schedule, modes, coreMode, core, limit, excluded, facts, admissions, halo)
  }

  /** A deduplicated core mode is enough for every law. */
  lemma DeduplicatedCoreFirst(schedule: seq<Name>, modes: Modes, coreMode: Name, width: nat, limit: nat,
                              excluded: set<Fact>, facts: seq<Fact>, admissions: Counts, owners: seq<Name>, halo: Halo)
    requires coreMode in modes && NoDuplicates(modes[coreMode])
    requires Lawful(schedule, modes, coreMode, Core(modes, coreMode, width, limit, excluded), limit, excluded,
                    facts, admissions, owners, halo)
    ensures CoreFirst(modes, schedule, Core(modes, coreMode, width, limit, excluded), limit, excluded, facts)
  {
    CoreIsClean(modes, coreMode, width, limit, excluded);
  }

  lemma CoreAlone(schedule: seq<Name>, modes: Modes, coreMode: Name, width: nat, limit: nat, excluded: set<Fact>,
                  halo: Halo) returns (owners: seq<Name>)
    requires coreMode in modes && |Core(modes, coreMode, width, limit, excluded)| == limit
    ensures var core := Core(modes, coreMode, width, limit, excluded);
            Lawful(schedule, modes, coreMode, core, limit, excluded, core, map[coreMode := |core|], owners, halo)
  {
    var core := Core(modes, coreMode, width, limit, excluded);
    CoreIsClean(modes, coreMode, width, limit, excluded);
    owners := ChargesJoin(modes, coreMode, core, [], map[coreMode := 0], []);
    assert core + [] == core;
  }

  lemma CoreAndHalo(schedule: seq<Name>, modes: Modes, coreMode: Name, width: nat, limit: nat, excluded: set<Fact>,
                    halo: Halo) returns (owners: seq<Name>)
    requires coreMode in modes && |Core(modes, coreMode, width, limit, excluded)| < limit
    requires forall i | 0 <= i < |schedule| :: schedule[i] in modes
    requires var core := Core(modes, coreMode, width, limit, excluded);
             && halo.rounds >= 1
             && Conserved(schedule, HaloModes(modes, core), limit - |core|, excluded, halo.facts, halo.admissions,
                          halo.owners, halo.turns, halo.rounds)
    ensures var core := Core(modes, coreMode, width, limit, excluded);
            Lawful(schedule, modes, coreMode, core, limit, excluded, core + halo.facts,
                   WithCore(halo.admissions, coreMode, |core|), owners, halo)
  {
    var core := Core(modes, coreMode, width, limit, excluded);
    CoreIsClean(modes, coreMode, width, limit, excluded);
    HaloCharged(modes, core, excluded, halo.facts, halo.admissions, halo.owners);
    owners := ChargesJoin(modes, coreMode, core, halo.facts, halo.admissions, halo.owners);
    if NoDuplicates(core) {
      HaloJoins(modes, schedule, core, limit, excluded, halo.facts, halo.admissions, halo.owners, halo.turns,
                halo.rounds);
    }
  }

  /** The halo branch: a selection over the core-free modes for what the limit leaves. */
  method AddHalo(coreMode: Name, width: nat, schedule: seq<Name>, modes: Modes, limit: nat, excluded: set<Fact>,
                 core: seq<Fact>)
    returns (r: Selection, ghost owners: seq<Name>, ghost halo: Halo)
    requires schedule != [] && coreMode in modes && core == Core(modes, coreMode, width, limit, excluded)
    requires |core| < limit
    ensures r.Selection? <==> Accepts(schedule, HaloModes(modes, core), limit - |core|)
    ensures r.Selection? ==>
              Lawful(schedule, modes, coreMode, core, limit, excluded, r.facts, r.admissions, owners, halo)
  {
    r, owners, halo := Rejected, [], Halo([], map[], [], [], 0);
    var rest, haloOwners, turns, rounds := Select(schedule, HaloModes(modes, core), limit - |core|, excluded);
    if rest.Rejected? {
      return;
    }
    halo := Halo(rest.facts, rest.admissions, haloOwners, turns, rounds);
    owners := CoreAndHalo(schedule, modes, coreMode, width, limit, excluded, halo);
    r := Selection(core + rest.facts, WithCore(rest.admissions, coreMode, |core|));
  }

  /** Core first, then halo. The modes are checked only when the halo runs, and then without the core's facts,
      so a core mode that lists a fact twice can double it; that is the only way the laws can fail. */
  method SelectCoreHalo(coreMode: Name, width: nat, schedule: seq<Name>, modes: Modes, limit: nat, excluded: set<Fact>)
    returns (r: Selection, ghost owners: seq<Name>, ghost halo: Halo)
    requires width >= 1 && schedule != []
    ensures r.Selection? <==> CoreAccepts(coreMode, width, schedule, modes, limit, excluded)
    ensures r.Selection? ==>
              Lawful(schedule, modes, coreMode, Core(modes, coreMode, width, limit, excluded), limit, excluded,
                     r.facts, r.admissions, owners, halo)
  {
    r, owners, halo := Rejected, [], Halo([], map[], [], [], 0);
    if coreMode !in modes || limit < 1 {
      return;
    }
    var core := Core(modes, coreMode, width, limit, excluded);
    CoreIsClean(modes, coreMode, width, limit, excluded);
    if |core| == limit {
      owners := CoreAlone(schedule, modes, coreMode, width, limit, excluded, halo);
      r := Selection(core, map[coreMode := |core|]);
      return;
    }
    r, owners, halo := AddHalo(coreMode, width, schedule, modes, limit, excluded, core);
  }

  /** Both ways of doubling: the core fills the limit, so no check runs; or the check runs over a halo from
      which the doubled core fact is already gone. Either way the input is accepted with a doubled core. */
  lemma DoubledFact()
    ensures CoreAccepts(0, 2, [0], map[0 := [7, 7]], 2, {})
    ensures Core(map[0 := [7, 7]], 0, 2, 2, {}) == [7, 7]
    ensures CoreAccepts(0, 2, [0], map[0 := [7, 7, 8]], 5, {})
    ensures Core(map[0 := [7, 7, 8]], 0, 2, 5, {}) == [7, 7]
    ensures !NoDuplicates([7, 7])
  {
    var full, longer: Modes := map[0 := [7, 7]], map[0 := [7, 7, 8]];
    KeptAll(full[0]);
    KeptAll(longer[0]);
    var core := set f | f in [7, 7];
    assert 7 in core && 8 !in core;
    assert Kept(longer[0], core, 0) == [];
    assert Kept(longer[0], core, 1) == [];
    assert Kept(longer[0], core, 2) == [];
    assert Kept(longer[0], core, 3) == [8];
    assert HaloModes(longer, [7, 7])[0] == [8];
    assert Accepts([0], HaloModes(longer, [7, 7]), 3);
    assert [7, 7][0] == [7, 7][1];
  }
}
