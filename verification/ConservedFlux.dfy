/** Interleaved selection from causal modes: nothing is lost, doubled or starved. */
module ConservedFlux {
  import opened Order

  type Name = nat
  type Fact = nat
  type Modes = map<Name, seq<Fact>>
  type Counts = map<Name, nat>

  // ---- Slots and ownership ---------------------------------------------------------------------------

  /** How many of the first `k` entries are `name`. */
  function Occurrences(names: seq<Name>, k: nat, name: Name): nat
    requires k <= |names|
  {
    if k == 0 then 0 else Occurrences(names, k - 1, name) + if names[k - 1] == name then 1 else 0
  }

  function Slots(schedule: seq<Name>, name: Name): nat {
    Occurrences(schedule, |schedule|, name)
  }

  lemma {:induction false} OccurrencesOfPrefix(a: seq<Name>, b: seq<Name>, k: nat, name: Name)
    requires k <= |a| && k <= |b| && forall i | 0 <= i < k :: a[i] == b[i]
    ensures Occurrences(a, k, name) == Occurrences(b, k, name)
  {
    if k > 0 {
      OccurrencesOfPrefix(a, b, k - 1, name);
    }
  }

  lemma OccurrencesAppended(names: seq<Name>, x: Name, name: Name)
    ensures Slots(names + [x], name) == Slots(names, name) + if x == name then 1 else 0
  {
    OccurrencesOfPrefix(names + [x], names, |names|, name);
  }

  function SumSlots(names: seq<Name>, owners: seq<Name>, k: nat): nat
    requires k <= |names|
  {
    if k == 0 then 0 else SumSlots(names, owners, k - 1) + Slots(owners, names[k - 1])
  }

  lemma {:induction false} SumGrows(names: seq<Name>, owners: seq<Name>, x: Name, k: nat)
    requires k <= |names| && NoDuplicates(names)
    ensures SumSlots(names, owners + [x], k) == SumSlots(names, owners, k) + if x in names[..k] then 1 else 0
  {
    if k > 0 {
      SumGrows(names, owners, x, k - 1);
      OccurrencesAppended(owners, x, names[k - 1]);
      assert names[..k] == names[..k - 1] + [names[k - 1]];
    }
  }

  /** Ownership counts over all modes add up to the selection. */
  lemma {:induction false} CountsAddUp(names: seq<Name>, owners: seq<Name>)
    requires NoDuplicates(names) && forall i | 0 <= i < |owners| :: owners[i] in names
    ensures SumSlots(names, owners, |names|) == |owners|
    decreases |owners|
  {
    if owners == [] {
      SumOfNone(names, |names|);
    } else {
      var front, x := owners[..|owners| - 1], owners[|owners| - 1];
      CountsAddUp(names, front);
      SumGrows(names, front, x, |names|);
      assert front + [x] == owners && names[..|names|] == names;
    }
  }

  lemma {:induction false} SumOfNone(names: seq<Name>, k: nat)
    requires k <= |names|
    ensures SumSlots(names, [], k) == 0
  {
    if k > 0 {
      SumOfNone(names, k - 1);
    }
  }

  // ---- The laws --------------------------------------------------------------------------------------

  predicate Gone(selected: seq<Fact>, excluded: set<Fact>, f: Fact) {
    f in excluded || f in selected
  }

  /** The mode still holds a fact that is neither excluded nor selected. */
  ghost predicate Available(modes: Modes, excluded: set<Fact>, selected: seq<Fact>, name: Name) {
    name in modes && exists i :: 0 <= i < |modes[name]| && !Gone(selected, excluded, modes[name][i])
  }

  /** Selected facts are distinct, not excluded, and each was admitted by a mode that lists it; a
      mode's count is the number of facts it admitted. */
  ghost predicate Attributed(modes: Modes, excluded: set<Fact>, selected: seq<Fact>, owners: seq<Name>,
                             admitted: Counts) {
    && |owners| == |selected| && NoDuplicates(selected)
    && (forall i | 0 <= i < |selected| ::
          selected[i] !in excluded && owners[i] in modes && selected[i] in modes[owners[i]])
    && (forall name :: name in admitted <==> name in modes)
    && (forall name {:trigger admitted[name]} | name in modes :: admitted[name] == Slots(owners, name))
  }

  /** Consumed candidates are selected or excluded: nothing disappears. */
  ghost predicate PrefixesGone(modes: Modes, excluded: set<Fact>, selected: seq<Fact>, positions: Counts) {
    forall name {:trigger positions[name]} {:trigger name in positions} | name in modes ::
      name in positions && positions[name] <= |modes[name]|
      && forall i | 0 <= i < positions[name] :: Gone(selected, excluded, modes[name][i])
  }

  /** After `rounds` full rounds and `s` slots of the next, no mode exceeded its share, and a mode
      that still has something to give got all of it. */
  ghost predicate Fair(modes: Modes, schedule: seq<Name>, excluded: set<Fact>, selected: seq<Fact>, admitted: Counts,
                       rounds: nat, s: nat)
    requires s <= |schedule|
  {
    forall name {:trigger admitted[name]} | name in modes && name in admitted ::
      && admitted[name] <= Share(schedule, rounds, s, name)
      && (Available(modes, excluded, selected, name) ==> admitted[name] == Share(schedule, rounds, s, name))
  }

  /** The slots a mode had in `rounds` full rounds and `s` further slots. */
  function Share(schedule: seq<Name>, rounds: nat, s: nat, name: Name): nat
    requires s <= |schedule|
  {
    rounds * Slots(schedule, name) + Occurrences(schedule, s, name)
  }

  lemma RoundCompletes(modes: Modes, schedule: seq<Name>, excluded: set<Fact>, selected: seq<Fact>, admitted: Counts,
                       rounds: nat)
    requires Fair(modes, schedule, excluded, selected, admitted, rounds, |schedule|)
    ensures Fair(modes, schedule, excluded, selected, admitted, rounds + 1, 0)
  {
    forall name ensures Share(schedule, rounds, |schedule|, name) == Share(schedule, rounds + 1, 0, name) {
      assert (rounds + 1) * Slots(schedule, name) == rounds * Slots(schedule, name) + Slots(schedule, name);
    }
  }

  /** A slot that admits a fact. */
  lemma SlotAdmits(modes: Modes, schedule: seq<Name>, excluded: set<Fact>, selected: seq<Fact>, owners: seq<Name>,
                   admitted: Counts, rounds: nat, s: nat, f: Fact)
    requires s < |schedule| && schedule[s] in modes && f in modes[schedule[s]] && !Gone(selected, excluded, f)
    requires Attributed(modes, excluded, selected, owners, admitted)
    requires Fair(modes, schedule, excluded, selected, admitted, rounds, s)
    ensures var name := schedule[s]; var next := admitted[name := admitted[name] + 1];
            && Attributed(modes, excluded, selected + [f], owners + [name], next)
            && Fair(modes, schedule, excluded, selected + [f], next, rounds, s + 1)
  {
    var name := schedule[s];
    var next := admitted[name := admitted[name] + 1];
    forall x | x in modes ensures next[x] == Slots(owners + [name], x) {
      OccurrencesAppended(owners, name, x);
    }
    forall x | x in modes && x in next
      ensures Available(modes, excluded, selected + [f], x) ==> Available(modes, excluded, selected, x)
    {}
  }

  /** A slot whose mode has nothing left. */
  lemma SlotPasses(modes: Modes, schedule: seq<Name>, excluded: set<Fact>, selected: seq<Fact>, admitted: Counts,
                   rounds: nat, s: nat)
    requires s < |schedule| && !Available(modes, excluded, selected, schedule[s])
    requires Fair(modes, schedule, excluded, selected, admitted, rounds, s)
    ensures Fair(modes, schedule, excluded, selected, admitted, rounds, s + 1)
  {}

  // ---- The order of the admissions -------------------------------------------------------------------

  /** A slot of a round. */
  datatype Turn = Turn(round: nat, slot: nat)

  predicate Earlier(a: Turn, b: Turn) {
    a.round < b.round || (a.round == b.round && a.slot < b.slot)
  }

  /** The fact is the first one the mode still has: everything ahead of it is excluded or selected. */
  ghost predicate FirstFresh(modes: Modes, excluded: set<Fact>, selected: seq<Fact>, name: Name, f: Fact) {
    && name in modes
    && exists i :: 0 <= i < |modes[name]| && modes[name][i] == f && !Gone(selected, excluded, f)
         && forall k | 0 <= k < i :: Gone(selected, excluded, modes[name][k])
  }

  /** The modes of the turns before `now` that admitted nothing have nothing left. */
  ghost predicate Spent(modes: Modes, schedule: seq<Name>, excluded: set<Fact>, selected: seq<Fact>,
                        turns: seq<Turn>, now: Turn) {
    forall u: Turn | u.slot < |schedule| && Earlier(u, now) && u !in turns ::
      !Available(modes, excluded, selected, schedule[u.slot])
  }

  /** Fact `j` is the first fresh one of the mode whose turn it is; the turns since the last admission found
      their modes with nothing left. */
  ghost predicate InTurn(modes: Modes, schedule: seq<Name>, excluded: set<Fact>, facts: seq<Fact>,
                         owners: seq<Name>, turns: seq<Turn>, j: nat)
    requires j < |facts| == |owners| == |turns|
  {
    && turns[j].slot < |schedule| && owners[j] == schedule[turns[j].slot]
    && FirstFresh(modes, excluded, facts[..j], owners[j], facts[j])
    && (forall i | 0 <= i < j :: Earlier(turns[i], turns[j]))
    && Spent(modes, schedule, excluded, facts[..j], turns[..j], turns[j])
  }

  /** Every fact was admitted in its turn. */
  ghost predicate Ordered(modes: Modes, schedule: seq<Name>, excluded: set<Fact>, facts: seq<Fact>,
                          owners: seq<Name>, turns: seq<Turn>) {
    && |facts| == |owners| == |turns|
    && forall j | 0 <= j < |facts| :: InTurn(modes, schedule, excluded, facts, owners, turns, j)
  }

  /** The order so far, when it is the turn `now`. */
  ghost predicate OrderedUntil(modes: Modes, schedule: seq<Name>, excluded: set<Fact>, facts: seq<Fact>,
                               owners: seq<Name>, turns: seq<Turn>, now: Turn) {
    && Ordered(modes, schedule, excluded, facts, owners, turns)
    && (forall j | 0 <= j < |turns| :: Earlier(turns[j], now))
    && Spent(modes, schedule, excluded, facts, turns, now)
  }

  lemma InTurnStays(modes: Modes, schedule: seq<Name>, excluded: set<Fact>, facts: seq<Fact>, owners: seq<Name>,
                    turns: seq<Turn>, j: nat, f: Fact, name: Name, turn: Turn)
    requires j < |facts| == |owners| == |turns| && InTurn(modes, schedule, excluded, facts, owners, turns, j)
    ensures InTurn(modes, schedule, excluded, facts + [f], owners + [name], turns + [turn], j)
  {
    assert (facts + [f])[..j] == facts[..j] && (turns + [turn])[..j] == turns[..j];
  }

  lemma NoMoreAvailable(modes: Modes, excluded: set<Fact>, selected: seq<Fact>, f: Fact, name: Name)
    requires Available(modes, excluded, selected + [f], name)
    ensures Available(modes, excluded, selected, name)
  {}

  /** A turn that admits the first fresh fact of its mode. */
  lemma TurnAdmits(modes: Modes, schedule: seq<Name>, excluded: set<Fact>, facts: seq<Fact>, owners: seq<Name>,
                   turns: seq<Turn>, now: Turn, f: Fact)
    requires OrderedUntil(modes, schedule, excluded, facts, owners, turns, now)
    requires now.slot < |schedule| && FirstFresh(modes, excluded, facts, schedule[now.slot], f)
    ensures OrderedUntil(modes, schedule, excluded, facts + [f], owners + [schedule[now.slot]], turns + [now],
                         Turn(now.round, now.slot + 1))
  {
    var more, later, next := facts + [f], turns + [now], Turn(now.round, now.slot + 1);
    forall j | 0 <= j < |more|
      ensures InTurn(modes, schedule, excluded, more, owners + [schedule[now.slot]], later, j)
    {
      if j < |facts| {
        InTurnStays(modes, schedule, excluded, facts, owners, turns, j, f, schedule[now.slot], now);
      } else {
        assert more[..j] == facts && later[..j] == turns;
      }
    }
    forall u: Turn | u.slot < |schedule| && Earlier(u, next) && u !in later
      ensures !Available(modes, excluded, more, schedule[u.slot])
    {
      assert later[|turns|] == now;
      assert u !in turns;
      if Available(modes, excluded, more, schedule[u.slot]) {
        NoMoreAvailable(modes, excluded, facts, f, schedule[u.slot]);
      }
    }
  }

  /** A turn whose mode has nothing left. */
  lemma TurnPasses(modes: Modes, schedule: seq<Name>, excluded: set<Fact>, facts: seq<Fact>, owners: seq<Name>,
                   turns: seq<Turn>, now: Turn)
    requires OrderedUntil(modes, schedule, excluded, facts, owners, turns, now)
    requires now.slot < |schedule| && !Available(modes, excluded, facts, schedule[now.slot])
    ensures OrderedUntil(modes, schedule, excluded, facts, owners, turns, Turn(now.round, now.slot + 1))
  {}

  lemma TurnWraps(modes: Modes, schedule: seq<Name>, excluded: set<Fact>, facts: seq<Fact>, owners: seq<Name>,
                  turns: seq<Turn>, round: nat)
    requires OrderedUntil(modes, schedule, excluded, facts, owners, turns, Turn(round, |schedule|))
    ensures OrderedUntil(modes, schedule, excluded, facts, owners, turns, Turn(round + 1, 0))
  {
    assert Spent(modes, schedule, excluded, facts, turns, Turn(round + 1, 0)) by {
      forall u: Turn | u.slot < |schedule| && Earlier(u, Turn(round + 1, 0))
        ensures Earlier(u, Turn(round, |schedule|)) {}
    }
  }

  // ---- One slot, one round -----------------------------------------------------------------------------

  lemma FreshAt(modes: Modes, excluded: set<Fact>, selected: seq<Fact>, name: Name, i: nat)
    requires name in modes && i < |modes[name]| && !Gone(selected, excluded, modes[name][i])
    requires forall k | 0 <= k < i :: Gone(selected, excluded, modes[name][k])
    ensures FirstFresh(modes, excluded, selected, name, modes[name][i])
  {}

  lemma NothingFresh(modes: Modes, excluded: set<Fact>, selected: seq<Fact>, name: Name)
    requires name in modes && forall i | 0 <= i < |modes[name]| :: Gone(selected, excluded, modes[name][i])
    ensures !Available(modes, excluded, selected, name)
  {}

  lemma ScheduledMode(schedule: seq<Name>, modes: Modes, limit: nat, excluded: set<Fact>, selected: seq<Fact>,
                      owners: seq<Name>, admitted: Counts, s: nat)
    requires Accepts(schedule, modes, limit) && Attributed(modes, excluded, selected, owners, admitted)
    requires s < |schedule|
    ensures schedule[s] in modes && schedule[s] in admitted
  {}

  /** Advances past excluded and selected candidates to the next fresh one. */
  method NextFresh(candidates: seq<Fact>, from: nat, excluded: set<Fact>, selected: seq<Fact>)
    returns (position: nat, found: bool)
    requires from <= |candidates| && forall i | 0 <= i < from :: Gone(selected, excluded, candidates[i])
    ensures from <= position <= |candidates|
    ensures found ==> position > 0 && !Gone(selected, excluded, candidates[position - 1])
    ensures found ==> forall i | 0 <= i < position - 1 :: Gone(selected, excluded, candidates[i])
    ensures !found ==> position == |candidates| && forall i | 0 <= i < position ::
            Gone(selected, excluded, candidates[i])
  {
    position, found := from, false;
    while position < |candidates|
      invariant from <= position <= |candidates|
      invariant forall i | 0 <= i < position :: Gone(selected, excluded, candidates[i])
    {
      var f := candidates[position];
      position := position + 1;
      if f in excluded || f in selected {
        continue;
      }
      found := true;
      return;
    }
  }

  predicate Deduplicated(modes: Modes) {
    forall name | name in modes :: NoDuplicates(modes[name])
  }

  predicate Accepts(schedule: seq<Name>, modes: Modes, limit: nat) {
    limit >= 1 && (forall i | 0 <= i < |schedule| :: schedule[i] in modes) && Deduplicated(modes)
  }

  datatype Selection = Rejected | Selection(facts: seq<Fact>, admissions: Counts)

  /** What one selection guarantees, after `rounds` started rounds. */
  ghost predicate Conserved(schedule: seq<Name>, modes: Modes, limit: nat, excluded: set<Fact>, facts: seq<Fact>,
                            admitted: Counts, owners: seq<Name>, turns: seq<Turn>, rounds: nat) {
    && |facts| <= limit
    && Ordered(modes, schedule, excluded, facts, owners, turns)
    && Attributed(modes, excluded, facts, owners, admitted)
    && (|facts| < limit ==> NoneLeft(modes, schedule, excluded, facts, |schedule|))
    && forall name {:trigger admitted[name]} | name in modes && name in admitted ::
         && admitted[name] <= rounds * Slots(schedule, name)
         && (rounds >= 1 && Available(modes, excluded, facts, name) ==>
             admitted[name] >= (rounds - 1) * Slots(schedule, name))
  }

  lemma FairIsConserved(modes: Modes, schedule: seq<Name>, excluded: set<Fact>, selected: seq<Fact>, admitted: Counts,
                        rounds: nat, s: nat)
    requires s <= |schedule| && Fair(modes, schedule, excluded, selected, admitted, rounds, s)
    ensures forall name | name in modes && name in admitted ::
         && admitted[name] <= (rounds + 1) * Slots(schedule, name)
         && (Available(modes, excluded, selected, name) ==> admitted[name] >= rounds * Slots(schedule, name))
  {
    forall name | name in modes && name in admitted
      ensures admitted[name] <= (rounds + 1) * Slots(schedule, name)
    {
      OccurrencesMonotone(schedule, s, |schedule|, name);
      assert admitted[name] <= Share(schedule, rounds, s, name);
      assert (rounds + 1) * Slots(schedule, name) == rounds * Slots(schedule, name) + Slots(schedule, name);
    }
  }

  lemma {:induction false} OccurrencesMonotone(names: seq<Name>, j: nat, k: nat, name: Name)
    requires j <= k <= |names|
    ensures Occurrences(names, j, name) <= Occurrences(names, k, name)
    decreases k - j
  {
    if j < k {
      OccurrencesMonotone(names, j, k - 1, name);
    }
  }

  class FluxRun {
    const schedule: seq<Name>
    const modes: Modes
    const excluded: set<Fact>
    const limit: nat
    var positions: Counts
    var admitted: Counts
    var selected: seq<Fact>
    ghost var owners: seq<Name>
    ghost var turns: seq<Turn>

    ghost predicate Valid()
      reads this
    {
      && Accepts(schedule, modes, limit) && |selected| <= limit
      && Attributed(modes, excluded, selected, owners, admitted)
      && PrefixesGone(modes, excluded, selected, positions)
    }

    constructor (schedule: seq<Name>, modes: Modes, limit: nat, excluded: set<Fact>)
      requires Accepts(schedule, modes, limit)
      ensures Valid() && this.schedule == schedule && this.modes == modes && this.limit == limit
          && this.excluded == excluded
      ensures selected == [] && At(0, 0)
    {
      this.schedule, this.modes, this.limit, this.excluded := schedule, modes, limit, excluded;
      positions := map name | name in modes :: 0;
      admitted := map name | name in modes :: 0;
      selected, owners, turns := [], [], [];
    }

    /** Every mode had its share and every admission its turn, when slot `s` of the next round comes. */
    ghost predicate At(rounds: nat, s: nat)
      requires s <= |schedule|
      reads this
    {
      && Fair(modes, schedule, excluded, selected, admitted, rounds, s)
      && OrderedUntil(modes, schedule, excluded, selected, owners, turns, Turn(rounds, s))
    }

    /** One slot of the schedule: the mode admits its next fresh candidate, if it has one. */
    method Slot(s: nat, ghost rounds: nat) returns (progress: bool)
      requires Valid() && s < |schedule| && |selected| < limit && At(rounds, s)
      modifies this
      ensures Valid() && At(rounds, s + 1)
      ensures if progress then |selected| == old(|selected|) + 1
              else selected == old(selected) && !Available(modes, excluded, selected, schedule[s])
    {
      hide Fair, OrderedUntil, Ordered, Attributed, Available, FirstFresh, Accepts;
      var name := schedule[s];
      ScheduledMode(schedule, modes, limit, excluded, selected, owners, admitted, s);
      var position, found := NextFresh(modes[name], positions[name], excluded, selected);
      if found {
        var f := modes[name][position - 1];
        FreshAt(modes, excluded, selected, name, position - 1);
        SlotAdmits(modes, schedule, excluded, selected, owners, admitted, rounds, s, f);
        TurnAdmits(modes, schedule, excluded, selected, owners, turns, Turn(rounds, s), f);
        PrefixesAdvance(modes, excluded, selected, positions, name, position, f);
        selected := selected + [f];
        owners := owners + [name];
        turns := turns + [Turn(rounds, s)];
        admitted := admitted[name := admitted[name] + 1];
      } else {
        NothingFresh(modes, excluded, selected, name);
        SlotPasses(modes, schedule, excluded, selected, admitted, rounds, s);
        TurnPasses(modes, schedule, excluded, selected, owners, turns, Turn(rounds, s));
      }
      positions := positions[name := position];
      return found;
    }

    /** The state of a round after k slots. */
    ghost predicate InRound(full: nat, before: seq<Fact>, k: nat, progress: bool)
      reads this
    {
      && Valid() && k <= |schedule| && At(full, k)
      && RoundSoFar(modes, schedule, excluded, before, selected, k, progress)
    }

    /** The next slot of a round. */
    method SlotInRound(ghost full: nat, ghost before: seq<Fact>, k: nat, progress: bool) returns (found: bool)
      requires InRound(full, before, k, progress) && k < |schedule| && |selected| < limit
      modifies this
      ensures InRound(full, before, k + 1, progress || found)
    {
      ghost var middle := selected;
      found := Slot(k, full);
      RoundStep(modes, schedule, excluded, before, middle, selected, k, progress, found);
    }

    /** One round over the schedule, cut short when the limit is met. */
    method Round(ghost full: nat) returns (progress: bool, ghost s: nat)
      requires Valid() && |selected| < limit && At(full, 0)
      modifies this
      ensures Valid() && s <= |schedule| && At(full, s)
      ensures |selected| < limit ==> s == |schedule|
      ensures if progress then |selected| > old(|selected|)
              else selected == old(selected) && NoneLeft(modes, schedule, excluded, selected, |schedule|)
    {
      hide Fair, OrderedUntil, Attributed, PrefixesGone, Accepts;
      progress := false;
      var k := 0;
      ghost var before := selected;
      while k < |schedule| && |selected| < limit
        invariant InRound(full, before, k, progress)
        decreases |schedule| - k
      {
        var found := SlotInRound(full, before, k, progress);
        progress := progress || found;
        k := k + 1;
      }
      s := k;
    }
  }

  /** A round that admitted nothing so far found nothing in the modes it asked. */
  ghost predicate RoundSoFar(modes: Modes, schedule: seq<Name>, excluded: set<Fact>, before: seq<Fact>,
                             selected: seq<Fact>, k: nat, progress: bool)
    requires k <= |schedule|
  {
    if progress then |selected| > |before|
    else selected == before && NoneLeft(modes, schedule, excluded, selected, k)
  }

  lemma RoundStep(modes: Modes, schedule: seq<Name>, excluded: set<Fact>, before: seq<Fact>, middle: seq<Fact>,
                  selected: seq<Fact>, k: nat, progress: bool, found: bool)
    requires k < |schedule| && RoundSoFar(modes, schedule, excluded, before, middle, k, progress)
    requires if found then |selected| == |middle| + 1
             else selected == middle && !Available(modes, excluded, selected, schedule[k])
    ensures RoundSoFar(modes, schedule, excluded, before, selected, k + 1, progress || found)
  {}

  /** None of the first `k` scheduled modes has anything left. */
  ghost predicate NoneLeft(modes: Modes, schedule: seq<Name>, excluded: set<Fact>, selected: seq<Fact>, k: nat)
    requires k <= |schedule|
  {
    forall i | 0 <= i < k :: !Available(modes, excluded, selected, schedule[i])
  }

  lemma PrefixesAdvance(modes: Modes, excluded: set<Fact>, selected: seq<Fact>, positions: Counts, name: Name,
                        position: nat, f: Fact)
    requires PrefixesGone(modes, excluded, selected, positions) && name in modes && 0 < position <= |modes[name]|
    requires f == modes[name][position - 1]
    requires forall i | 0 <= i < position - 1 :: Gone(selected, excluded, modes[name][i])
    ensures PrefixesGone(modes, excluded, selected + [f], positions[name := position])
  {
    forall x, i | x in modes && 0 <= i < |modes[x]| && Gone(selected, excluded, modes[x][i])
      ensures Gone(selected + [f], excluded, modes[x][i]) {}
    assert Gone(selected + [f], excluded, f);
  }

  /** Rounds over the schedule until the limit is met or a round admits nothing. */
  method Select(schedule: seq<Name>, modes: Modes, limit: nat, excluded: set<Fact>)
    returns (r: Selection, ghost owners: seq<Name>, ghost turns: seq<Turn>, ghost rounds: nat)
    requires schedule != []
    ensures r.Rejected? <==> !Accepts(schedule, modes, limit)
    ensures r.Selection? ==> Conserved(schedule, modes, limit, excluded, r.facts, r.admissions, owners, turns, rounds)
    ensures r.Selection? ==> rounds >= 1
  {
    owners, turns, rounds := [], [], 0;
    if !Accepts(schedule, modes, limit) {
      return Rejected, owners, turns, rounds;
    }
    var run := new FluxRun(schedule, modes, limit, excluded);
    ghost var full: nat, s: nat := 0, 0;
    var exhausted := false;
    while |run.selected| < limit && !exhausted
      invariant fresh(run) && run.Valid() && run.schedule == schedule && run.modes == modes
      invariant run.limit == limit && run.excluded == excluded
      invariant s <= |schedule| && run.At(full, s)
      invariant exhausted ==> NoneLeft(modes, schedule, excluded, run.selected, |schedule|)
      invariant if |run.selected| < limit && !exhausted then s == 0 && rounds == full else rounds == full + 1
      decreases limit - |run.selected|, !exhausted
    {
      rounds := rounds + 1;
      var progress;
      progress, s := run.Round(full);
      if !progress {
        exhausted := true;
      } else if |run.selected| < limit {
        RoundCompletes(modes, schedule, excluded, run.selected, run.admitted, full);
        TurnWraps(modes, schedule, excluded, run.selected, run.owners, run.turns, full);
        full, s := full + 1, 0;
      }
    }
    owners, turns := run.owners, run.turns;
    FairIsConserved(modes, schedule, excluded, run.selected, run.admitted, full, s);
    r := Selection(run.selected, run.admitted);
  }

  // ---- Only one selection ------------------------------------------------------------------------------

  lemma FreshIsAvailable(modes: Modes, excluded: set<Fact>, selected: seq<Fact>, name: Name, f: Fact)
    requires FirstFresh(modes, excluded, selected, name, f)
    ensures Available(modes, excluded, selected, name)
  {}

  lemma FreshIsOne(modes: Modes, excluded: set<Fact>, selected: seq<Fact>, name: Name, f: Fact, g: Fact)
    requires FirstFresh(modes, excluded, selected, name, f) && FirstFresh(modes, excluded, selected, name, g)
    ensures f == g
  {
    var i :| 0 <= i < |modes[name]| && modes[name][i] == f && !Gone(selected, excluded, f)
             && forall k | 0 <= k < i :: Gone(selected, excluded, modes[name][k]);
    var j :| 0 <= j < |modes[name]| && modes[name][j] == g && !Gone(selected, excluded, g)
             && forall k | 0 <= k < j :: Gone(selected, excluded, modes[name][k]);
  }

  /** After the same admissions the next one cannot come later than in another order. */
  lemma NextTurnNotLater(modes: Modes, schedule: seq<Name>, excluded: set<Fact>, facts: seq<Fact>,
                         owners: seq<Name>, turns: seq<Turn>, others: seq<Fact>, theirs: seq<Name>,
                         moments: seq<Turn>, j: nat)
    requires Ordered(modes, schedule, excluded, facts, owners, turns)
    requires Ordered(modes, schedule, excluded, others, theirs, moments)
    requires j < |facts| && j < |others| && facts[..j] == others[..j] && turns[..j] == moments[..j]
    ensures !Earlier(turns[j], moments[j])
  {
    assert InTurn(modes, schedule, excluded, facts, owners, turns, j);
    assert InTurn(modes, schedule, excluded, others, theirs, moments, j);
    FreshIsAvailable(modes, excluded, facts[..j], owners[j], facts[j]);
    forall i | 0 <= i < j ensures turns[i] != turns[j] {
      assert Earlier(turns[i], turns[j]);
    }
    assert turns[j] !in turns[..j];
  }

  /** Two orders agree as far as both go. */
  lemma {:induction false} OrdersAgree(modes: Modes, schedule: seq<Name>, excluded: set<Fact>, facts: seq<Fact>,
                                       owners: seq<Name>, turns: seq<Turn>, others: seq<Fact>, theirs: seq<Name>,
                                       moments: seq<Turn>, k: nat)
    requires Ordered(modes, schedule, excluded, facts, owners, turns)
    requires Ordered(modes, schedule, excluded, others, theirs, moments)
    requires k <= |facts| && k <= |others|
    ensures facts[..k] == others[..k] && owners[..k] == theirs[..k] && turns[..k] == moments[..k]
  {
    if k > 0 {
      var j := k - 1;
      OrdersAgree(modes, schedule, excluded, facts, owners, turns, others, theirs, moments, j);
      NextTurnNotLater(modes, schedule, excluded, facts, owners, turns, others, theirs, moments, j);
      NextTurnNotLater(modes, schedule, excluded, others, theirs, moments, facts, owners, turns, j);
      assert InTurn(modes, schedule, excluded, facts, owners, turns, j);
      assert InTurn(modes, schedule, excluded, others, theirs, moments, j);
      assert turns[j] == moments[j];
      FreshIsOne(modes, excluded, facts[..j], owners[j], facts[j], others[j]);
      PrefixStep(facts, j);
      PrefixStep(others, j);
      PrefixStep(owners, j);
      PrefixStep(theirs, j);
      PrefixStep(turns, j);
      PrefixStep(moments, j);
    }
  }

  lemma NotShorter(modes: Modes, schedule: seq<Name>, limit: nat, excluded: set<Fact>, facts: seq<Fact>,
                   admitted: Counts, owners: seq<Name>, turns: seq<Turn>, rounds: nat, others: seq<Fact>,
                   theirs: seq<Name>, moments: seq<Turn>)
    requires Conserved(schedule, modes, limit, excluded, facts, admitted, owners, turns, rounds)
    requires Ordered(modes, schedule, excluded, others, theirs, moments) && |others| <= limit
    ensures |facts| >= |others|
  {
    var n := |facts|;
    if n < |others| {
      OrdersAgree(modes, schedule, excluded, facts, owners, turns, others, theirs, moments, n);
      assert InTurn(modes, schedule, excluded, others, theirs, moments, n);
      assert facts[..n] == facts;
      FreshIsAvailable(modes, excluded, facts, theirs[n], others[n]);
      assert false;
    }
  }

  /** The laws leave exactly one selection. */
  lemma SelectionIsDetermined(modes: Modes, schedule: seq<Name>, limit: nat, excluded: set<Fact>, facts: seq<Fact>,
                              admitted: Counts, owners: seq<Name>, turns: seq<Turn>, rounds: nat, others: seq<Fact>,
                              counts: Counts, theirs: seq<Name>, moments: seq<Turn>, count: nat)
    requires Conserved(schedule, modes, limit, excluded, facts, admitted, owners, turns, rounds)
    requires Conserved(schedule, modes, limit, excluded, others, counts, theirs, moments, count)
    ensures facts == others && admitted == counts
  {
    NotShorter(modes, schedule, limit, excluded, facts, admitted, owners, turns, rounds, others, theirs, moments);
    NotShorter(modes, schedule, limit, excluded, others, counts, theirs, moments, count, facts, owners, turns);
    OrdersAgree(modes, schedule, excluded, facts, owners, turns, others, theirs, moments, |facts|);
    assert facts[..|facts|] == facts && others[..|facts|] == others;
    assert owners[..|facts|] == owners && theirs[..|facts|] == theirs;
    forall name | name in admitted ensures name in counts && admitted[name] == counts[name] {
      assert name in modes;
    }
    forall name | name in counts ensures name in admitted {}
  }

  /** The first admission is the first candidate that is not excluded of the first scheduled mode with one. */
  lemma FirstAdmission(modes: Modes, schedule: seq<Name>, excluded: set<Fact>, facts: seq<Fact>, owners: seq<Name>,
                       turns: seq<Turn>, s: nat)
    requires Ordered(modes, schedule, excluded, facts, owners, turns) && facts != []
    requires s < |schedule| && Available(modes, excluded, [], schedule[s])
    requires forall i | 0 <= i < s :: !Available(modes, excluded, [], schedule[i])
    ensures turns[0] == Turn(0, s) && owners[0] == schedule[s]
    ensures FirstFresh(modes, excluded, [], schedule[s], facts[0])
  {
    assert InTurn(modes, schedule, excluded, facts, owners, turns, 0);
    FreshIsAvailable(modes, excluded, facts[..0], owners[0], facts[0]);
    assert turns[..0] == [] && facts[..0] == [];
    assert Turn(0, s) !in turns[..0] && !Earlier(Turn(0, s), turns[0]);
  }

  /** A mode's candidates are admitted in the order in which it lists them. */
  lemma ModeKeepsOrder(modes: Modes, schedule: seq<Name>, excluded: set<Fact>, facts: seq<Fact>, owners: seq<Name>,
                       turns: seq<Turn>, i: nat, j: nat, a: nat, b: nat)
    requires Ordered(modes, schedule, excluded, facts, owners, turns) && i < |facts| && j < |facts|
    requires owners[i] in modes && owners[j] == owners[i] && NoDuplicates(modes[owners[i]])
    requires a < |modes[owners[i]]| && b < |modes[owners[i]]|
    requires modes[owners[i]][a] == facts[i] && modes[owners[i]][b] == facts[j]
    ensures i < j ==> a < b
  {
    if i < j {
      var list := modes[owners[i]];
      assert InTurn(modes, schedule, excluded, facts, owners, turns, i);
      assert InTurn(modes, schedule, excluded, facts, owners, turns, j);
      var x :| 0 <= x < |list| && list[x] == facts[i] && forall k | 0 <= k < x :: Gone(facts[..i], excluded, list[k]);
      forall k | 0 <= k < x ensures Gone(facts[..j], excluded, list[k]) {
        GoneStays(facts, i, j, excluded, list[k]);
      }
      assert facts[..j][i] == facts[i];
    }
  }

  lemma GoneStays(facts: seq<Fact>, i: nat, j: nat, excluded: set<Fact>, f: Fact)
    requires i <= j <= |facts| && Gone(facts[..i], excluded, f)
    ensures Gone(facts[..j], excluded, f)
  {
    if f in facts[..i] {
      var k :| 0 <= k < i && facts[k] == f;
      assert facts[..j][k] == f;
    }
  }
}
