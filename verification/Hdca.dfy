/** The edge solver: bitmask arc consistency on networks certified to be forests. */
module Hdca {
  import opened Options
  import opened Order
  import opened HdemModel
  import opened HdemPropagation
  import opened HdemPacked
  import opened HdemRefinement
  import opened BinaryForest

  datatype Outcome = CyclicContext | RevisionBudget | NoAssignment | UniqueAnswer | ManyAnswers

  datatype HdcaResult = HdcaResult(
    state: Verdict, answer: Option<seq<Val>>, domains: Domains, proof: set<FactId>,
    certified: bool, revisions: nat, outcome: Outcome)

  // ---- Bitmasks ------------------------------------------------------------------------------

  /** For every variable the positions of the set bits: bit `i` stands for its `i`-th value. */
  type Masks = seq<set<nat>>

  predicate MasksFit(p: Problem, masks: Masks) {
    && |masks| == |p.variables|
    && forall n, i | 0 <= n < |masks| && i in masks[n] :: i < |p.variables[n].domain|
  }

  function Decoded(v: Variable, mask: set<nat>): set<Val> {
    set i | i in mask && i < |v.domain| :: v.domain[i].text
  }

  /** The domains a vector of bitmasks stands for. */
  function Decode(p: Problem, masks: Masks): (d: Domains)
    requires |masks| == |p.variables|
    ensures |d| == |masks| && forall n | 0 <= n < |d| :: d[n] == Decoded(p.variables[n], masks[n])
  {
    seq(|masks|, n requires 0 <= n < |masks| && |masks| == |p.variables| => Decoded(p.variables[n], masks[n]))
  }

  /** `(1 << k) - 1`. */
  function LowBits(k: nat): (bits: set<nat>)
    ensures forall i: nat :: i in bits <==> i < k
  {
    if k == 0 then {} else LowBits(k - 1) + {k - 1}
  }

  function FullMasks(p: Problem): (masks: Masks)
    ensures |masks| == |p.variables|
    ensures forall n | 0 <= n < |masks| :: masks[n] == LowBits(|p.variables[n].domain|)
  {
    seq(|p.variables|, n requires 0 <= n < |p.variables| => LowBits(|p.variables[n].domain|))
  }

  lemma FullMasksDecode(p: Problem)
    ensures MasksFit(p, FullMasks(p)) && Decode(p, FullMasks(p)) == InitialDomains(p)
  {
    forall n | 0 <= n < |p.variables| ensures Decoded(p.variables[n], FullMasks(p)[n]) == Texts(p.variables[n]) {
      var v := p.variables[n];
      forall x | x in Texts(v) ensures x in Decoded(v, FullMasks(p)[n]) {
        var y :| y in v.domain && y.text == x;
        var i :| 0 <= i < |v.domain| && v.domain[i] == y;
        assert i in FullMasks(p)[n];
      }
    }
  }

  /** The position of a text in its variable's domain. */
  function BitOf(v: Variable, x: Val): (i: nat)
    requires WellFormedVariable(v) && x in Texts(v)
    ensures i < |v.domain| && v.domain[i].text == x
  {
    var y :| y in v.domain && y.text == x;
    assert exists i :: 0 <= i < |v.domain| && v.domain[i] == y;
    var i :| 0 <= i < |v.domain| && v.domain[i].text == x;
    i
  }

  lemma BitMeansValue(v: Variable, mask: set<nat>, x: Val)
    requires WellFormedVariable(v) && x in Texts(v)
    ensures BitOf(v, x) in mask <==> x in Decoded(v, mask)
  {
    if x in Decoded(v, mask) {
      var i :| i in mask && i < |v.domain| && v.domain[i].text == x;
      assert i == BitOf(v, x);
    }
  }

  /** Constraint `c` speaks about known variables and values of `p`. */
  ghost predicate Fits(p: Problem, c: Constraint) {
    && (forall v | v in p.variables :: WellFormedVariable(v))
    && WellFormedConstraint(c, InitialDomains(p))
  }

  function RowBit(p: Problem, c: Constraint, row: seq<Val>, i: nat): nat
    requires Fits(p, c) && row in c.allowed && i < |c.scope|
  {
    BitOf(p.variables[c.scope[i]], row[i])
  }

  ghost predicate LiveBits(p: Problem, c: Constraint, masks: Masks, row: seq<Val>)
    requires Fits(p, c) && row in c.allowed && |masks| == |p.variables|
  {
    forall i | 0 <= i < |c.scope| :: RowBit(p, c, row, i) in masks[c.scope[i]]
  }

  lemma LiveBitsMeanLive(p: Problem, c: Constraint, masks: Masks, row: seq<Val>)
    requires Fits(p, c) && row in c.allowed && |masks| == |p.variables|
    ensures LiveBits(p, c, masks, row) <==> Live(c, Decode(p, masks), row)
  {
    forall i | 0 <= i < |c.scope|
      ensures RowBit(p, c, row, i) in masks[c.scope[i]] <==> row[i] in Decode(p, masks)[c.scope[i]]
    {
      BitMeansValue(p.variables[c.scope[i]], masks[c.scope[i]], row[i]);
    }
  }

  /** The bits some live row supports at a position. */
  ghost function SupportedBits(p: Problem, c: Constraint, masks: Masks, pos: nat, rows: seq<seq<Val>>): set<nat>
    requires Fits(p, c) && |masks| == |p.variables| && pos < |c.scope|
    requires forall row | row in rows :: row in c.allowed
  {
    set row | row in rows && LiveBits(p, c, masks, row) :: RowBit(p, c, row, pos)
  }

  /** Decoding the supported bits gives the supported values. */
  lemma SupportedBitsDecode(p: Problem, c: Constraint, masks: Masks, pos: nat)
    requires Fits(p, c) && |masks| == |p.variables| && pos < |c.scope|
    ensures Decoded(p.variables[c.scope[pos]], SupportedBits(p, c, masks, pos, c.allowed))
            == Supported(c, Decode(p, masks), pos)
  {
    var v, bits := p.variables[c.scope[pos]], SupportedBits(p, c, masks, pos, c.allowed);
    forall row | row in c.allowed ensures LiveBits(p, c, masks, row) <==> Live(c, Decode(p, masks), row) {
      LiveBitsMeanLive(p, c, masks, row);
    }
    forall x | x in Supported(c, Decode(p, masks), pos) ensures x in Decoded(v, bits) {
      var row :| row in c.allowed && Live(c, Decode(p, masks), row) && row[pos] == x;
      assert RowBit(p, c, row, pos) in bits;
    }
    forall x | x in Decoded(v, bits) ensures x in Supported(c, Decode(p, masks), pos) {
      var i :| i in bits && i < |v.domain| && v.domain[i].text == x;
      var row :| row in c.allowed && LiveBits(p, c, masks, row) && RowBit(p, c, row, pos) == i;
      assert row[pos] == x;
    }
  }

  lemma DecodedIntersection(v: Variable, a: set<nat>, b: set<nat>)
    requires WellFormedVariable(v)
    ensures Decoded(v, a * b) == Decoded(v, a) * Decoded(v, b)
  {
    forall x | x in Decoded(v, a) && x in Decoded(v, b) ensures x in Decoded(v, a * b) {
      var i :| i in a && i < |v.domain| && v.domain[i].text == x;
      var j :| j in b && j < |v.domain| && v.domain[j].text == x;
      assert i == j;
    }
  }

  lemma {:induction false} DecodedSize(v: Variable, mask: set<nat>)
    requires WellFormedVariable(v) && forall i | i in mask :: i < |v.domain|
    ensures |Decoded(v, mask)| == |mask|
    decreases |mask|
  {
    if mask == {} {
      assert Decoded(v, mask) == {};
    } else {
      var i :| i in mask;
      var rest := mask - {i};
      DecodedSize(v, rest);
      assert v.domain[i].text !in Decoded(v, rest);
      assert Decoded(v, mask) == Decoded(v, rest) + {v.domain[i].text};
    }
  }

  /** The set bits are as many as the values they stand for. */
  lemma {:induction false} DecodeSizeFrom(p: Problem, masks: Masks, k: nat)
    requires MasksFit(p, masks) && forall v | v in p.variables :: WellFormedVariable(v)
    ensures SizeFrom(Decode(p, masks), k) == SizeFrom(masks, k)
    decreases |masks| - k
  {
    if k < |masks| {
      assert p.variables[k] in p.variables;
      DecodedSize(p.variables[k], masks[k]);
      DecodeSizeFrom(p, masks, k + 1);
    }
  }

  lemma {:induction false} SmallerSizeFrom(e: Domains, d: Domains, k: nat)
    requires SubDomains(e, d)
    ensures SizeFrom(e, k) <= SizeFrom(d, k)
    decreases |d| - k
  {
    if k < |d| {
      assert d[k] == e[k] + (d[k] - e[k]);
      SmallerSizeFrom(e, d, k + 1);
    }
  }

  // ---- The revision loop ---------------------------------------------------------------------

  /** What every revision keeps. */
  ghost predicate Progress(p: Problem, masks: Masks, revisions: nat) {
    && MasksFit(p, masks)
    && SubDomains(Decode(p, masks), InitialDomains(p))
    && AboveConsistent(p, InitialDomains(p), Decode(p, masks))
    && Size(InitialDomains(p)) == Size(masks) + revisions
  }

  ghost predicate AllFit(p: Problem) {
    forall k {:trigger p.constraints[k]} | 0 <= k < |p.constraints| :: Fits(p, p.constraints[k])
  }

  lemma MaskRevision(p: Problem, k: nat, pos: nat, masks: Masks, supported: set<nat>, revisions: nat)
    requires k < |p.constraints| && Fits(p, p.constraints[k]) && pos < |p.constraints[k].scope|
    requires Progress(p, masks, revisions)
    requires supported == SupportedBits(p, p.constraints[k], masks, pos, p.constraints[k].allowed)
    ensures var n := p.constraints[k].scope[pos];
            var removed := |(masks[n] - supported)|;
            && Progress(p, masks[n := masks[n] * supported], revisions + removed)
            && (masks[n] * supported != {} && NoneEmpty(masks) ==> NoneEmpty(masks[n := masks[n] * supported]))
            && (masks[n] <= supported && ConsistentUpTo(p.constraints[k], Decode(p, masks), pos)
                ==> ConsistentUpTo(p.constraints[k], Decode(p, masks), pos + 1))
  {
    RevisionProgress(p, k, pos, masks, supported, revisions);
    RevisedDecode(p, p.constraints[k], pos, masks, supported);
    var c, d := p.constraints[k], Decode(p, masks);
    if masks[c.scope[pos]] <= supported && ConsistentUpTo(c, d, pos) {
      StillConsistent(c, d, pos);
    }
  }

  lemma StillConsistent(c: Constraint, d: Domains, pos: nat)
    requires pos < |c.scope| && c.scope[pos] < |d| && ConsistentUpTo(c, d, pos)
    requires d[c.scope[pos]] <= Supported(c, d, pos)
    ensures ConsistentUpTo(c, d, pos + 1)
  {}

  lemma RevisionProgress(p: Problem, k: nat, pos: nat, masks: Masks, supported: set<nat>, revisions: nat)
    requires k < |p.constraints| && Fits(p, p.constraints[k]) && pos < |p.constraints[k].scope|
    requires Progress(p, masks, revisions)
    requires supported == SupportedBits(p, p.constraints[k], masks, pos, p.constraints[k].allowed)
    ensures var n := p.constraints[k].scope[pos];
            Progress(p, masks[n := masks[n] * supported], revisions + |masks[n] - supported|)
  {
    hide SupportedBits, Supported;
    var c := p.constraints[k];
    RevisedDecode(p, c, pos, masks, supported);
    RevisedSize(masks, c.scope[pos], supported);
    RevisionStaysAbove(p, Decode(p, masks), k, pos);
  }

  /** Revising the mask is revising the domain it stands for. */
  lemma RevisedDecode(p: Problem, c: Constraint, pos: nat, masks: Masks, supported: set<nat>)
    requires Fits(p, c) && |masks| == |p.variables| && pos < |c.scope|
    requires supported == SupportedBits(p, c, masks, pos, c.allowed)
    ensures var n, d := c.scope[pos], Decode(p, masks);
            && Decode(p, masks[n := masks[n] * supported]) == d[n := d[n] * Supported(c, d, pos)]
            && (masks[n] <= supported ==> d[n] <= Supported(c, d, pos))
  {
    var n := c.scope[pos];
    SupportedBitsDecode(p, c, masks, pos);
    DecodedIntersection(p.variables[n], masks[n], supported);
    if masks[n] <= supported {
      assert masks[n] * supported == masks[n];
    }
  }

  lemma RevisedSize(masks: Masks, n: nat, supported: set<nat>)
    requires n < |masks|
    ensures Size(masks) == Size(masks[n := masks[n] * supported]) + |masks[n] - supported|
  {
    var kept := masks[n] * supported;
    assert masks[n] == (masks[n] - supported) + kept;
    SizeUpdate(masks, n, kept);
  }

  lemma RevisionStaysAbove(p: Problem, d: Domains, k: nat, pos: nat)
    requires k < |p.constraints| && pos < |p.constraints[k].scope| && p.constraints[k].scope[pos] < |d|
    requires AboveConsistent(p, InitialDomains(p), d)
    ensures var c := p.constraints[k];
            AboveConsistent(p, InitialDomains(p), d[c.scope[pos] := d[c.scope[pos]] * Supported(c, d, pos)])
  {
    var c := p.constraints[k];
    forall e | SubDomains(e, InitialDomains(p)) && ArcConsistent(p, e)
      ensures SubDomains(e, d[c.scope[pos] := d[c.scope[pos]] * Supported(c, d, pos)])
    {
      assert ConsistentFor(p.constraints[k], e);
      RevisionKeepsConsistent(c, d, pos, e);
    }
  }

  /** The bits of position `pos` supported by the rows whose bits are all still set. */
  method SupportedMask(p: Problem, c: Constraint, masks: Masks, pos: nat) returns (supportedMask: set<nat>)
    requires Fits(p, c) && |masks| == |p.variables| && pos < |c.scope|
    ensures supportedMask == SupportedBits(p, c, masks, pos, c.allowed)
  {
    supportedMask := {};
    for r := 0 to |c.allowed|
      invariant supportedMask == SupportedBits(p, c, masks, pos, c.allowed[..r])
    {
      var row := c.allowed[r];
      var supported := true;
      for other := 0 to |c.scope|
        invariant supported ==> forall i | 0 <= i < other :: RowBit(p, c, row, i) in masks[c.scope[i]]
        invariant !supported ==> !LiveBits(p, c, masks, row)
      {
        if RowBit(p, c, row, other) !in masks[c.scope[other]] {
          supported := false;
          break;
        }
      }
      PrefixStep(c.allowed, r);
      if supported {
        supportedMask := supportedMask + {RowBit(p, c, row, pos)};
      }
    }
  }

  // ---- What a run owes its caller ------------------------------------------------------------

  function AnswerFacts(p: Problem, d: Domains): set<FactId> {
    (set c, f | c in p.constraints && f in c.witnesses :: f)
    + (set n, x, f | n in p.answerVars && n < |p.variables| && n < |d| && x in p.variables[n].domain
                     && x.text in d[n] && f in x.facts :: f)
  }

  ghost predicate AnswerIs(p: Problem, d: Domains, answer: seq<Val>) {
    && |answer| == |p.answerVars|
    && forall i | 0 <= i < |answer| :: p.answerVars[i] < |d| && d[p.answerVars[i]] == {answer[i]}
  }

  /** Every consistent sub-domain vector lost more values than the budget allows. */
  ghost predicate Overrun(p: Problem, maxRevisions: nat) {
    forall e | SubDomains(e, InitialDomains(p)) && ArcConsistent(p, e) ::
      Size(e) + maxRevisions < Size(InitialDomains(p))
  }

  /** The outcome of a run: which branch it left by and what the reported domains are then. Revisions count
      the values lost, and the budget outcome means that no fixed point lies within the budget. */
  ghost predicate Outcomes(p: Problem, maxRevisions: nat, r: HdcaResult) {
    && (r.certified <==> Forest(p))
    && (r.outcome == CyclicContext <==> !r.certified)
    && SubDomains(r.domains, InitialDomains(p))
    && AboveConsistent(p, InitialDomains(p), r.domains)
    && (r.state == Resolved <==> r.outcome == UniqueAnswer)
    && (r.state == Contested <==> r.outcome == ManyAnswers)
    && (r.answer.Some? <==> r.outcome == UniqueAnswer)
    && r.revisions <= maxRevisions
    && r.revisions + Size(r.domains) == Size(InitialDomains(p))
    && match r.outcome {
         case CyclicContext => r.domains == InitialDomains(p) && r.proof == {}
         case RevisionBudget => r.proof == {} && Overrun(p, maxRevisions)
         case NoAssignment => r.proof == {} && exists n :: 0 <= n < |r.domains| && r.domains[n] == {}
         case UniqueAnswer =>
           && ArcConsistent(p, r.domains) && NoneEmpty(r.domains) && r.proof == AnswerFacts(p, r.domains)
           && AnswerIs(p, r.domains, r.answer.value)
         case ManyAnswers =>
           && ArcConsistent(p, r.domains) && NoneEmpty(r.domains) && r.proof == AnswerFacts(p, r.domains)
           && exists n :: n in p.answerVars && n < |r.domains| && |r.domains[n]| > 1
       }
  }

  /** A run in progress within its budget. */
  ghost predicate Running(p: Problem, masks: Masks, revisions: nat, maxRevisions: nat) {
    Progress(p, masks, revisions) && NoneEmpty(masks) && revisions <= maxRevisions
  }

  lemma RunBegins(p: Problem, maxRevisions: nat)
    requires WellFormed(p)
    ensures Running(p, FullMasks(p), 0, maxRevisions)
  {
    FullMasksDecode(p);
    InitialDomainsInhabited(p);
    DecodeSizeFrom(p, FullMasks(p), 0);
    forall n | 0 <= n < |p.variables| ensures FullMasks(p)[n] != {} {
      assert InitialDomains(p)[n] == Decoded(p.variables[n], FullMasks(p)[n]);
    }
  }

  /** One revision more than the budget allows: no fixed point is within the budget. */
  lemma BudgetStop(p: Problem, masks: Masks, revisions: nat, next: Masks, removed: nat, maxRevisions: nat)
    requires WellFormed(p) && Forest(p) && Running(p, masks, revisions, maxRevisions)
    requires Progress(p, next, revisions + removed) && revisions + removed > maxRevisions
    ensures Outcomes(p, maxRevisions,
                     HdcaResult(Abstain, None, Decode(p, masks), {}, true, revisions, RevisionBudget))
  {
    DecodeSizeFrom(p, masks, 0);
    DecodeSizeFrom(p, next, 0);
    forall e | SubDomains(e, InitialDomains(p)) && ArcConsistent(p, e)
      ensures Size(e) + maxRevisions < Size(InitialDomains(p))
    {
      SmallerSizeFrom(e, Decode(p, next), 0);
    }
  }

  lemma EmptyStop(p: Problem, masks: Masks, n: Name, revisions: nat, maxRevisions: nat)
    requires WellFormed(p) && Forest(p) && Progress(p, masks, revisions) && revisions <= maxRevisions
    requires n < |masks| && masks[n] == {}
    ensures Outcomes(p, maxRevisions,
                     HdcaResult(Abstain, None, Decode(p, masks), {}, true, revisions, NoAssignment))
  {
    DecodeSizeFrom(p, masks, 0);
    assert Decode(p, masks)[n] == {};
  }

  lemma CyclicStop(p: Problem, maxRevisions: nat)
    requires !Forest(p)
    ensures Outcomes(p, maxRevisions, HdcaResult(Abstain, None, InitialDomains(p), {}, false, 0, CyclicContext))
  {}

  /** One position of one constraint: its mask loses the unsupported bits, or the run stops. */
  method RevisePosition(p: Problem, k: nat, pos: nat, masks: Masks, revisions: nat, maxRevisions: nat)
    returns (next: Masks, total: nat, stop: Option<HdcaResult>)
    requires WellFormed(p) && AllFit(p) && Forest(p) && k < |p.constraints| && pos < |p.constraints[k].scope|
    requires Running(p, masks, revisions, maxRevisions)
    ensures stop.Some? ==> Outcomes(p, maxRevisions, stop.value)
    ensures stop.None? ==> Running(p, next, total, maxRevisions) && revisions <= total
    ensures stop.None? && total == revisions ==> next == masks
    ensures stop.None? && total == revisions && ConsistentUpTo(p.constraints[k], Decode(p, masks), pos) ==>
              ConsistentUpTo(p.constraints[k], Decode(p, masks), pos + 1)
  {
    var c := p.constraints[k];
    var name := c.scope[pos];
    var current := masks[name];
    var supportedMask := SupportedMask(p, c, masks, pos);
    MaskRevision(p, k, pos, masks, supportedMask, revisions);
    var revised := current * supportedMask;
    MaskDifference(current, supportedMask);
    var removed := |(current - revised) + (revised - current)|;
    next, total, stop := masks, revisions, None;
    if removed != 0 {
      next, total := masks[name := revised], revisions + removed;
      if total > maxRevisions {
        BudgetStop(p, masks, revisions, next, removed, maxRevisions);
        stop := Some(HdcaResult(Abstain, None, Decode(p, masks), {}, true, total - removed, RevisionBudget));
      } else if revised == {} {
        EmptyStop(p, next, name, total, maxRevisions);
        stop := Some(HdcaResult(Abstain, None, Decode(p, next), {}, true, total, NoAssignment));
      }
    }
  }

  lemma MaskDifference(current: set<nat>, supported: set<nat>)
    ensures var revised := current * supported;
            && (current - revised) + (revised - current) == current - supported
            && (|current - supported| == 0 ==> current <= supported && revised == current)
  {}

  /** All positions of one constraint in order. */
  method ReviseConstraint(p: Problem, k: nat, masks: Masks, revisions: nat, maxRevisions: nat)
    returns (next: Masks, total: nat, stop: Option<HdcaResult>)
    requires WellFormed(p) && AllFit(p) && Forest(p) && k < |p.constraints|
    requires Running(p, masks, revisions, maxRevisions)
    ensures stop.Some? ==> Outcomes(p, maxRevisions, stop.value)
    ensures stop.None? ==> Running(p, next, total, maxRevisions) && revisions <= total
    ensures stop.None? && total == revisions ==> next == masks && ConsistentFor(p.constraints[k], Decode(p, masks))
  {
    var c := p.constraints[k];
    next, total, stop := masks, revisions, None;
    for pos := 0 to |c.scope|
      invariant stop.None? && Running(p, next, total, maxRevisions) && revisions <= total
      invariant total == revisions ==> next == masks && ConsistentUpTo(c, Decode(p, masks), pos)
    {
      next, total, stop := RevisePosition(p, k, pos, next, total, maxRevisions);
      if stop.Some? {
        return;
      }
    }
  }

  /** One sweep over the constraints; it changes something or proves the domains consistent. */
  method Sweep(p: Problem, masks: Masks, revisions: nat, maxRevisions: nat)
    returns (next: Masks, total: nat, stop: Option<HdcaResult>)
    requires WellFormed(p) && AllFit(p) && Forest(p) && Running(p, masks, revisions, maxRevisions)
    ensures stop.Some? ==> Outcomes(p, maxRevisions, stop.value)
    ensures stop.None? ==> Running(p, next, total, maxRevisions) && revisions <= total
    ensures stop.None? && total == revisions ==> next == masks && FirstConsistent(p, Decode(p, masks), |p.constraints|)
  {
    hide Forest, WellFormed, Outcomes, Decode, ConsistentFor, AboveConsistent;
    next, total, stop := masks, revisions, None;
    for k := 0 to |p.constraints|
      invariant stop.None? && Running(p, next, total, maxRevisions) && revisions <= total
      invariant total == revisions ==> next == masks && FirstConsistent(p, Decode(p, masks), k)
    {
      next, total, stop := ReviseConstraint(p, k, next, total, maxRevisions);
      if stop.Some? {
        return;
      }
    }
  }

  method SolveHdca(p: Problem, maxRevisions: nat) returns (r: HdcaResult)
    requires WellFormed(p) && maxRevisions >= 1
    ensures Outcomes(p, maxRevisions, r)
  {
    var masks := FullMasks(p);
    RunBegins(p, maxRevisions);
    var acyclic := IsBinaryForest(p);
    if !acyclic {
      CyclicStop(p, maxRevisions);
      return HdcaResult(Abstain, None, InitialDomains(p), {}, false, 0, CyclicContext);
    }
    WellFormedFits(p);
    var revisions: nat := 0;
    var changed := true;
    while changed
      invariant Running(p, masks, revisions, maxRevisions)
      invariant !changed ==> FirstConsistent(p, Decode(p, masks), |p.constraints|)
      decreases maxRevisions - revisions + if changed then 1 else 0
    {
      var next, total, stop := Sweep(p, masks, revisions, maxRevisions);
      if stop.Some? {
        return stop.value;
      }
      changed := total != revisions;
      masks, revisions := next, total;
    }
    r := ReadOut(p, masks, maxRevisions, revisions);
  }

  lemma WellFormedFits(p: Problem)
    requires WellFormed(p)
    ensures AllFit(p)
  {
    forall k | 0 <= k < |p.constraints| ensures Fits(p, p.constraints[k]) {
      assert p.constraints[k] in p.constraints;
    }
  }

  lemma NonEmptyMasksDecode(p: Problem, masks: Masks)
    requires MasksFit(p, masks) && NoneEmpty(masks)
    ensures NoneEmpty(Decode(p, masks))
  {
    forall n | 0 <= n < |masks| ensures Decode(p, masks)[n] != {} {
      var i :| i in masks[n];
      assert p.variables[n].domain[i].text in Decode(p, masks)[n];
    }
  }

  lemma OneValue(d: set<Val>)
    requires |d| == 1
    ensures d != {} && d == {TheValue(d)}
  {
    assert |d - {TheValue(d)}| == 0;
  }

  /** The values of one-element sets. */
  function OnlyValues(ds: seq<set<Val>>, k: nat): (values: seq<Val>)
    requires k <= |ds| && forall i | 0 <= i < k :: |ds[i]| == 1
    ensures |values| == k && forall i | 0 <= i < k :: ds[i] == {values[i]}
  {
    if k == 0 then []
    else
      OneValue(ds[k - 1]);
      OnlyValues(ds, k - 1) + [TheValue(ds[k - 1])]
  }

  /** At the fixed point of a run, either verdict is an outcome. */
  lemma FixpointOutcome(p: Problem, masks: Masks, maxRevisions: nat, r: HdcaResult)
    requires WellFormed(p) && Forest(p) && Running(p, masks, r.revisions, maxRevisions)
    requires FirstConsistent(p, Decode(p, masks), |p.constraints|)
    requires r.domains == Decode(p, masks) && r.proof == AnswerFacts(p, r.domains) && r.certified
    requires if r.answer.Some? then
               r.state == Resolved && r.outcome == UniqueAnswer && AnswerIs(p, r.domains, r.answer.value)
             else
               r.state == Contested && r.outcome == ManyAnswers
               && exists n :: n in p.answerVars && n < |r.domains| && |r.domains[n]| > 1
    ensures Outcomes(p, maxRevisions, r)
  {
    hide Forest, ConsistentFor, AnswerIs;
    NonEmptyMasksDecode(p, masks);
    DecodeSizeFrom(p, masks, 0);
  }

  /** Reads the verdict off the fixed point. */
  method ReadOut(p: Problem, masks: Masks, maxRevisions: nat, revisions: nat) returns (r: HdcaResult)
    requires WellFormed(p) && Forest(p) && Running(p, masks, revisions, maxRevisions)
    requires FirstConsistent(p, Decode(p, masks), |p.constraints|)
    ensures Outcomes(p, maxRevisions, r)
  {
    hide Forest, FirstConsistent, Outcomes;
    var domains := Decode(p, masks);
    NonEmptyMasksDecode(p, masks);
    var proof := AnswerFacts(p, domains);
    forall i | 0 <= i < |p.answerVars| ensures p.answerVars[i] < |domains| {
      assert p.answerVars[i] in p.answerVars;
    }
    if forall n | n in p.answerVars :: |domains[n]| == 1 {
      var answerDomains := seq(|p.answerVars|, i requires 0 <= i < |p.answerVars|
                                                            && p.answerVars[i] < |domains| => domains[p.answerVars[i]]);
      forall i | 0 <= i < |answerDomains| ensures |answerDomains[i]| == 1 {
        assert p.answerVars[i] in p.answerVars;
      }
      var answer := OnlyValues(answerDomains, |answerDomains|);
      r := HdcaResult(Resolved, Some(answer), domains, proof, true, revisions, UniqueAnswer);
    } else {
      r := HdcaResult(Contested, None, domains, proof, true, revisions, ManyAnswers);
    }
    FixpointOutcome(p, masks, maxRevisions, r);
  }
}
