/** What a claim must do for a question: obligations, their identities and source fibers, and the score. */
module ClaimObligations {
  import opened Order
  import opened ClaimPath

  /** The content of an obligation, as observed from its text. */
  datatype Ask = Ask(lexical: set<nat>, anchors: set<nat>, relations: set<nat>, polarity: Polarity)

  /** Where a witness may come from: the obligations of a context intent are bound to its sources. */
  datatype Scope = Anywhere | Within(sources: set<nat>)

  /** The authority that compiled the obligation and the number of its clause. */
  datatype ObligationId = ObligationId(authority: nat, clause: nat)

  datatype Obligation = Obligation(id: ObligationId, ask: Ask, scope: Scope)

  // ---- Which claims close an ask -------------------------------------------------------------------

  function Size(s: set<nat>): real {
    |s| as real
  }

  function LexicalShare(a: Ask, c: Claim): real {
    Size(a.lexical * c.lexical) / if a.lexical == {} then 1.0 else Size(a.lexical)
  }

  /** How well a claim covers an ask. */
  function Score(a: Ask, c: Claim): real {
    LexicalShare(a, c) + 0.35 * Size(a.anchors * c.anchors) + 0.15 * Size(a.relations * c.relations)
    + (if c.modality == Asserted then 0.15 else 0.0) + (if a.polarity == c.polarity then 0.1 else 0.0)
  }

  predicate Compatible(a: Ask, c: Claim) {
    a.polarity == Negative ==> c.polarity == Negative
  }

  predicate Closes(a: Ask, c: Claim) {
    Compatible(a, c) && Score(a, c) > 0.0
  }

  predicate Overlaps(a: Ask, c: Claim) {
    a.lexical * c.lexical != {} || a.anchors * c.anchors != {} || a.relations * c.relations != {}
  }

  lemma SharePositive(a: Ask, c: Claim)
    ensures LexicalShare(a, c) >= 0.0
    ensures LexicalShare(a, c) > 0.0 <==> a.lexical * c.lexical != {}
  {
    if a.lexical != {} {
      assert Size(a.lexical) > 0.0;
      Quotient(Size(a.lexical * c.lexical), Size(a.lexical));
    } else {
      assert a.lexical * c.lexical == {};
    }
  }

  lemma Quotient(x: real, y: real)
    requires x >= 0.0 && y > 0.0
    ensures x / y >= 0.0 && (x / y > 0.0 <==> x > 0.0)
  {
    assert x == (x / y) * y;
  }

  /** A score is positive iff something overlaps, the claim is asserted, or the polarities agree. */
  lemma ScorePositive(a: Ask, c: Claim)
    ensures Score(a, c) > 0.0 <==> Overlaps(a, c) || c.modality == Asserted || a.polarity == c.polarity
  {
    SharePositive(a, c);
  }

  /** The number of words a claim may cover, at least one. */
  function Words(a: Ask): nat {
    if a.lexical == {} then 1 else |a.lexical|
  }

  /** What anchors, relations, assertion and polarity count, in points. */
  function WholePoints(a: Ask, c: Claim): nat {
    7 * |a.anchors * c.anchors| + 3 * |a.relations * c.relations|
    + (if c.modality == Asserted then 3 else 0) + if a.polarity == c.polarity then 2 else 0
  }

  function Times(m: nat, n: nat): nat {
    m * n
  }

  /** The score in points, twenty for covering every word: an anchor counts seven, a relation and an assertion
      three each, an agreeing polarity two, and a word its share of twenty. */
  function Points(a: Ask, c: Claim): nat {
    20 * |a.lexical * c.lexical| + Times(Words(a), WholePoints(a, c))
  }

  lemma PointsAreScore(a: Ask, c: Claim)
    ensures Points(a, c) as real == 20.0 * (Words(a) as real * Score(a, c))
  {
    var w, shared, whole := Words(a) as real, Size(a.lexical * c.lexical), WholePoints(a, c);
    assert LexicalShare(a, c) == shared / w;
    assert 20.0 * (Score(a, c) - LexicalShare(a, c)) == whole as real;
    assert LexicalShare(a, c) * w == shared;
    ProductOfWhole(Words(a), whole);
    Scaled(w, Score(a, c), LexicalShare(a, c), whole as real);
  }

  lemma ProductOfWhole(m: nat, n: nat)
    ensures Times(m, n) as real == m as real * n as real
  {}

  lemma Scaled(w: real, score: real, share: real, whole: real)
    requires 20.0 * (score - share) == whole
    ensures 20.0 * (w * score) == 20.0 * (share * w) + w * whole
  {
    assert w * (20.0 * (score - share)) == 20.0 * (w * score) - 20.0 * (share * w);
  }

  /** Claims rank by points. */
  lemma ScoreByPoints(a: Ask, c: Claim, d: Claim)
    ensures Score(a, c) > Score(a, d) <==> Points(a, c) > Points(a, d)
    ensures Score(a, c) == Score(a, d) <==> Points(a, c) == Points(a, d)
  {
    PointsAreScore(a, c);
    PointsAreScore(a, d);
    hide Points, Score;
    ScaledOrder(Words(a) as real, Score(a, c), Score(a, d));
  }

  /** `d` counts for at least as much as `c` on every channel. */
  predicate SharesAsMuch(a: Ask, c: Claim, d: Claim) {
    && |a.lexical * d.lexical| >= |a.lexical * c.lexical| && |a.anchors * d.anchors| >= |a.anchors * c.anchors|
    && |a.relations * d.relations| >= |a.relations * c.relations|
    && (c.modality == Asserted ==> d.modality == Asserted) && (a.polarity == c.polarity ==> a.polarity == d.polarity)
  }

  /** A claim that counts for as much on every channel ranks no lower, and higher as soon as one channel counts
      for more; and an anchor more outweighs two relations, or the assertion and the polarity together. */
  lemma SharingMoreWins(a: Ask, c: Claim, d: Claim)
    ensures SharesAsMuch(a, c, d) ==> Score(a, d) >= Score(a, c)
    ensures SharesAsMuch(a, c, d) && !SharesAsMuch(a, d, c) ==> Score(a, d) > Score(a, c)
    ensures |a.lexical * d.lexical| == |a.lexical * c.lexical| && |a.anchors * d.anchors| == |a.anchors * c.anchors| + 1
            && (|a.relations * d.relations| == |a.relations * c.relations|
                || (|a.relations * d.relations| + 2 == |a.relations * c.relations| && d.modality == c.modality
                    && d.polarity == c.polarity)) ==>
              Score(a, d) > Score(a, c)
  {
    ScoreByPoints(a, d, c);
    ScoreByPoints(a, c, d);
    TimesOrder(Words(a), WholePoints(a, c), WholePoints(a, d));
    TimesOrder(Words(a), WholePoints(a, d), WholePoints(a, c));
    hide Score, Times;
  }

  lemma TimesOrder(w: nat, m: nat, n: nat)
    requires w > 0
    ensures m < n ==> Times(w, m) < Times(w, n)
    ensures m == n ==> Times(w, m) == Times(w, n)
  {
    if m < n {
      assert w * n == w * m + w * (n - m);
    }
  }

  lemma ScaledOrder(w: real, x: real, y: real)
    requires w > 0.0
    ensures x > y <==> 20.0 * (w * x) > 20.0 * (w * y)
    ensures x == y <==> 20.0 * (w * x) == 20.0 * (w * y)
  {
    assert 20.0 * (w * x) - 20.0 * (w * y) == 20.0 * (w * (x - y));
  }

  /** Every claim that closes `a` closes `b`. */
  predicate Entails(a: Ask, b: Ask) {
    if b.polarity == Negative then a.polarity == Negative
    else a.polarity == Positive && a.lexical <= b.lexical && a.anchors <= b.anchors && a.relations <= b.relations
  }

  lemma EntailsCloses(a: Ask, b: Ask, c: Claim)
    requires Entails(a, b) && Closes(a, c)
    ensures Closes(b, c)
  {
    ScorePositive(a, c);
    ScorePositive(b, c);
    if b.polarity == Positive && Overlaps(a, c) {
      OverlapStays(a, b, c);
    }
  }

  lemma OverlapStays(a: Ask, b: Ask, c: Claim)
    requires a.lexical <= b.lexical && a.anchors <= b.anchors && a.relations <= b.relations && Overlaps(a, c)
    ensures Overlaps(b, c)
  {
    if x :| x in a.lexical * c.lexical {
      assert x in b.lexical * c.lexical;
    } else if x :| x in a.anchors * c.anchors {
      assert x in b.anchors * c.anchors;
    } else if x :| x in a.relations * c.relations {
      assert x in b.relations * c.relations;
    }
  }

  /** Some number outside a finite set. */
  function Fresh(s: set<nat>): (x: nat)
    ensures x !in s
  {
    if s == {} then 0 else
      var r := Sorted(s);
      assert forall y | y in s :: y in r;
      r[|r| - 1] + 1
  }

  /** A claim with nothing in common with `b`, and what `a` asks beyond it. */
  function Telling(id: nat, source: nat, a: Ask, b: Ask): Claim {
    Claim(id, source, 16 * id, 16 * id + 12, 12,
          a.lexical - b.lexical + {Fresh(b.lexical)}, a.anchors - b.anchors, a.relations - b.relations,
          if b.polarity == Negative then Positive else Negative, Unmarked)
  }

  /** The telling claim closes `a` unless `a` entails `b`, and never closes `b`. */
  lemma TellingTells(id: nat, source: nat, a: Ask, b: Ask)
    ensures !Closes(b, Telling(id, source, a, b))
    ensures !Entails(a, b) ==> Closes(a, Telling(id, source, a, b))
  {
    var c := Telling(id, source, a, b);
    ScorePositive(a, c);
    ScorePositive(b, c);
    assert b.lexical * c.lexical == {} && b.anchors * c.anchors == {} && b.relations * c.relations == {};
    if !Entails(a, b) && a.polarity == b.polarity {
      TellingOverlaps(id, source, a, b);
    }
  }

  lemma TellingOverlaps(id: nat, source: nat, a: Ask, b: Ask)
    requires !(a.lexical <= b.lexical && a.anchors <= b.anchors && a.relations <= b.relations)
    ensures Overlaps(a, Telling(id, source, a, b))
  {
    var c := Telling(id, source, a, b);
    if x :| x in a.lexical && x !in b.lexical {
      assert x in a.lexical * c.lexical;
    } else if x :| x in a.anchors && x !in b.anchors {
      assert x in a.anchors * c.anchors;
    } else if x :| x in a.relations && x !in b.relations {
      assert x in a.relations * c.relations;
    }
  }

  // ---- Scopes --------------------------------------------------------------------------------------

  predicate Allows(s: Scope, source: nat) {
    s.Anywhere? || source in s.sources
  }

  /** Every source the first scope allows the second allows too. */
  predicate Inside(f: Scope, s: Scope) {
    s.Anywhere? || (f.Within? && f.sources <= s.sources)
  }

  /** An obligation's witness must close its ask and come from its scope. */
  predicate MayClose(o: Obligation, c: Claim) {
    Closes(o.ask, c) && Allows(o.scope, c.source)
  }

  /** A source the first scope allows, outside the second one if possible. */
  function OuterSource(f: Scope, s: Scope): (source: nat)
    requires f.Within? ==> f.sources != {}
    ensures Allows(f, source)
    ensures !Inside(f, s) ==> !Allows(s, source)
  {
    if Inside(f, s) then (if f.Within? then Least(f.sources) else 0)
    else if f.Anywhere? then Fresh(s.sources)
    else
      assert f.sources - s.sources != {} by {
        var x :| x in f.sources && x !in s.sources;
        assert x in f.sources - s.sources;
      }
      Least(f.sources - s.sources)
  }

  // ---- Compiled texts ------------------------------------------------------------------------------

  datatype Clause = Clause(index: nat, ask: Ask)

  datatype Intent = Intent(id: nat, sources: set<nat>, clauses: seq<Clause>)

  // The authority of the question itself.
  const FINAL_QUESTION := 0

  /** Compiling a text numbers its clauses in order and yields at least one. */
  predicate CompiledText(clauses: seq<Clause>) {
    clauses != [] && forall i, j | 0 <= i < j < |clauses| :: clauses[i].index < clauses[j].index
  }

  /** Sealed intents: compiled texts with a source fiber. Their identities are the caller's. */
  predicate SealedIntents(intents: seq<Intent>) {
    forall k | 0 <= k < |intents| :: intents[k].sources != {} && CompiledText(intents[k].clauses)
  }

  function Compiled(authority: nat, clauses: seq<Clause>, scope: Scope): (r: seq<Obligation>)
    ensures |r| == |clauses|
    ensures forall i | 0 <= i < |r| ::
              r[i] == Obligation(ObligationId(authority, clauses[i].index), clauses[i].ask, scope)
  {
    seq(|clauses|, i requires 0 <= i < |clauses| =>
      Obligation(ObligationId(authority, clauses[i].index), clauses[i].ask, scope))
  }

  function QuestionPart(question: seq<Clause>): seq<Obligation> {
    Compiled(FINAL_QUESTION, question, Anywhere)
  }

  function IntentPart(intent: Intent): seq<Obligation> {
    Compiled(intent.id, intent.clauses, Within(intent.sources))
  }

  /** The obligations of the question and of the first `k` intents. */
  function ObligationsUpTo(question: seq<Clause>, intents: seq<Intent>, k: nat): seq<Obligation>
    requires k <= |intents|
  {
    if k == 0 then QuestionPart(question)
    else ObligationsUpTo(question, intents, k - 1) + IntentPart(intents[k - 1])
  }

  function ObligationsOf(question: seq<Clause>, intents: seq<Intent>): seq<Obligation> {
    ObligationsUpTo(question, intents, |intents|)
  }

  /** The question's obligations come first. */
  lemma {:induction false} QuestionFirst(question: seq<Clause>, intents: seq<Intent>, k: nat)
    requires k <= |intents|
    ensures QuestionPart(question) <= ObligationsUpTo(question, intents, k)
  {
    if k > 0 {
      QuestionFirst(question, intents, k - 1);
    }
  }

  /** The source fiber kept for each identity. */
  type Fibers = map<ObligationId, Scope>

  /** A later obligation of the same identity overwrites the fiber. */
  function FibersOf(obligations: seq<Obligation>, k: nat): Fibers
    requires k <= |obligations|
  {
    if k == 0 then map[] else FibersOf(obligations, k - 1)[obligations[k - 1].id := obligations[k - 1].scope]
  }

  lemma {:induction false} FibersKnown(obligations: seq<Obligation>, k: nat)
    requires k <= |obligations|
    ensures forall i | 0 <= i < k :: obligations[i].id in FibersOf(obligations, k)
    ensures forall id | id in FibersOf(obligations, k) ::
              exists i :: 0 <= i < k && obligations[i].id == id && FibersOf(obligations, k)[id] == obligations[i].scope
  {
    if k > 0 {
      var m := k - 1;
      FibersKnown(obligations, m);
      var before, after := FibersOf(obligations, m), FibersOf(obligations, k);
      forall id | id in after
        ensures exists i :: 0 <= i < k && obligations[i].id == id && after[id] == obligations[i].scope
      {
        if id == obligations[m].id {
          assert after[id] == obligations[m].scope;
        } else {
          var i :| 0 <= i < m && obligations[i].id == id && before[id] == obligations[i].scope;
          assert after[id] == obligations[i].scope;
        }
      }
    }
  }

  function AllFibers(obligations: seq<Obligation>): Fibers {
    FibersOf(obligations, |obligations|)
  }

  /** Every obligation with the fiber kept for its identity. */
  function WithFibers(obligations: seq<Obligation>, fibers: Fibers): (r: seq<Obligation>)
    requires forall i | 0 <= i < |obligations| :: obligations[i].id in fibers
    ensures |r| == |obligations|
    ensures forall i | 0 <= i < |r| ::
              r[i] == Obligation(obligations[i].id, obligations[i].ask, fibers[obligations[i].id])
  {
    seq(|obligations|, i requires 0 <= i < |obligations| && obligations[i].id in fibers =>
      Obligation(obligations[i].id, obligations[i].ask, fibers[obligations[i].id]))
  }

  /** The obligations as the composer meets them. */
  function Effective(obligations: seq<Obligation>): (r: seq<Obligation>)
    ensures |r| == |obligations|
    ensures forall i | 0 <= i < |r| :: r[i].id == obligations[i].id && r[i].ask == obligations[i].ask
  {
    FibersKnown(obligations, |obligations|);
    WithFibers(obligations, AllFibers(obligations))
  }

  /** Compiles the context and keeps one fiber for every identity. */
  method CompileAll(question: seq<Clause>, intents: seq<Intent>) returns (obligations: seq<Obligation>, fibers: Fibers)
    ensures obligations == ObligationsOf(question, intents)
    ensures fibers == AllFibers(obligations)
  {
    obligations := QuestionPart(question);
    fibers := Update(map[], [], obligations);
    assert [] + obligations == obligations;
    for k := 0 to |intents|
      invariant obligations == ObligationsUpTo(question, intents, k)
      invariant fibers == AllFibers(obligations)
    {
      fibers := Update(fibers, obligations, IntentPart(intents[k]));
      obligations := obligations + IntentPart(intents[k]);
    }
  }

  method Update(fibers: Fibers, before: seq<Obligation>, more: seq<Obligation>) returns (r: Fibers)
    requires fibers == AllFibers(before)
    ensures r == AllFibers(before + more)
  {
    r := fibers;
    FibersOfPrefix(before, before + more, |before|);
    for i := 0 to |more|
      invariant r == FibersOf(before + more, |before| + i)
    {
      r := r[more[i].id := more[i].scope];
    }
  }

  lemma {:induction false} FibersOfPrefix(a: seq<Obligation>, b: seq<Obligation>, k: nat)
    requires k <= |a| && k <= |b| && forall i | 0 <= i < k :: a[i] == b[i]
    ensures FibersOf(a, k) == FibersOf(b, k)
  {
    if k > 0 {
      FibersOfPrefix(a, b, k - 1);
    }
  }

  // ---- Identities ----------------------------------------------------------------------------------

  predicate DistinctObligations(obligations: seq<Obligation>) {
    forall i, j | 0 <= i < j < |obligations| :: obligations[i].id != obligations[j].id
  }

  /** Without shared identities every obligation keeps its own fiber. */
  lemma EffectiveIsOwn(obligations: seq<Obligation>)
    requires DistinctObligations(obligations)
    ensures Effective(obligations) == obligations
  {
    var n := |obligations|;
    FibersKnown(obligations, n);
    forall i | 0 <= i < n ensures Effective(obligations)[i] == obligations[i] {
      var j :| 0 <= j < n && obligations[j].id == obligations[i].id
               && FibersOf(obligations, n)[obligations[i].id] == obligations[j].scope;
      assert j == i;
    }
  }

  /** The identities of the intents are distinct and none is that of the question. */
  predicate DistinctIntents(intents: seq<Intent>) {
    && (forall k | 0 <= k < |intents| :: intents[k].id != FINAL_QUESTION)
    && (forall j, k | 0 <= j < k < |intents| :: intents[j].id != intents[k].id)
  }

  lemma CompiledDistinct(authority: nat, clauses: seq<Clause>, scope: Scope)
    requires CompiledText(clauses)
    ensures DistinctObligations(Compiled(authority, clauses, scope))
  {}

  ghost predicate KnownAuthority(intents: seq<Intent>, k: nat, authority: nat)
    requires k <= |intents|
  {
    authority == FINAL_QUESTION || exists m :: 0 <= m < k && authority == intents[m].id
  }

  lemma {:induction false} AuthoritiesKnown(question: seq<Clause>, intents: seq<Intent>, k: nat)
    requires k <= |intents|
    ensures forall o | o in ObligationsUpTo(question, intents, k) :: KnownAuthority(intents, k, o.id.authority)
  {
    if k > 0 {
      var m := k - 1;
      AuthoritiesKnown(question, intents, m);
      forall o | o in ObligationsUpTo(question, intents, k) ensures KnownAuthority(intents, k, o.id.authority) {
        if o in ObligationsUpTo(question, intents, m) {
          assert KnownAuthority(intents, m, o.id.authority);
        } else {
          assert o.id.authority == intents[m].id;
        }
      }
    }
  }

  lemma Disjoint(a: seq<Obligation>, b: seq<Obligation>)
    requires DistinctObligations(a) && DistinctObligations(b)
    requires forall i, j | 0 <= i < |a| && 0 <= j < |b| :: a[i].id != b[j].id
    ensures DistinctObligations(a + b)
  {}

  /** Distinct intents make distinct obligations; so does a question alone. */
  lemma {:induction false} DistinctIntentsSuffice(question: seq<Clause>, intents: seq<Intent>, k: nat)
    requires CompiledText(question) && SealedIntents(intents) && DistinctIntents(intents) && k <= |intents|
    ensures DistinctObligations(ObligationsUpTo(question, intents, k))
  {
    if k == 0 {
      CompiledDistinct(FINAL_QUESTION, question, Anywhere);
    } else {
      var m := k - 1;
      var before, last := ObligationsUpTo(question, intents, m), IntentPart(intents[m]);
      DistinctIntentsSuffice(question, intents, m);
      CompiledDistinct(intents[m].id, intents[m].clauses, Within(intents[m].sources));
      AuthoritiesKnown(question, intents, m);
      forall i, j | 0 <= i < |before| && 0 <= j < |last| ensures before[i].id != last[j].id {
        assert before[i] in before && KnownAuthority(intents, m, before[i].id.authority);
      }
      Disjoint(before, last);
    }
  }

  ghost predicate Sourced(o: Obligation) {
    o.scope.Within? ==> o.scope.sources != {}
  }

  /** No fiber is empty. */
  lemma {:induction false} ScopesOpen(question: seq<Clause>, intents: seq<Intent>, k: nat)
    requires k <= |intents| && SealedIntents(intents)
    ensures forall o | o in ObligationsUpTo(question, intents, k) :: Sourced(o)
  {
    if k > 0 {
      ScopesOpen(question, intents, k - 1);
    }
  }

  /** Whoever closes the identity of obligation `k` within its kept fiber serves obligation `i` too. */
  predicate Vouches(obligations: seq<Obligation>, k: nat, i: nat)
    requires k < |obligations| && i < |obligations|
  {
    && Inside(Effective(obligations)[k].scope, obligations[i].scope)
    && forall m | 0 <= m < |obligations| && obligations[m].id == obligations[k].id ::
         Entails(obligations[m].ask, obligations[i].ask)
  }

  predicate Vouched(obligations: seq<Obligation>, i: nat)
    requires i < |obligations|
  {
    exists k :: 0 <= k < |obligations| && Vouches(obligations, k, i)
  }

  /** For every obligation there is an identity whose closing serves it. */
  predicate Unambiguous(obligations: seq<Obligation>) {
    forall i | 0 <= i < |obligations| :: Vouched(obligations, i)
  }

  lemma EntailsItself(a: Ask)
    ensures Entails(a, a)
  {}

  lemma DistinctIsUnambiguous(obligations: seq<Obligation>)
    requires DistinctObligations(obligations)
    ensures Unambiguous(obligations)
  {
    EffectiveIsOwn(obligations);
    forall i | 0 <= i < |obligations| ensures Vouched(obligations, i) {
      EntailsItself(obligations[i].ask);
      assert Vouches(obligations, i, i);
    }
  }
}
