/** When a resolved answer serves every obligation, whatever the claims: the exact condition on identities. */
module ClaimReliability {
  import opened ClaimPath
  import opened ClaimEdges
  import opened ClaimObligations
  import opened ClaimSelection
  import opened ClaimComposer

  /** A selected claim may close the obligation, within the obligation's own scope. */
  ghost predicate ServedBy(o: Obligation, selected: seq<Claim>) {
    exists c :: c in selected && MayClose(o, c)
  }

  ghost predicate Served(obligations: seq<Obligation>, selected: seq<Claim>) {
    forall i | 0 <= i < |obligations| :: ServedBy(obligations[i], selected)
  }

  // ---- Unambiguous identities suffice --------------------------------------------------------------

  lemma SameIdSameScope(obligations: seq<Obligation>, k: nat, m: nat)
    requires k < |obligations| && m < |obligations| && obligations[k].id == obligations[m].id
    ensures Effective(obligations)[k].scope == Effective(obligations)[m].scope
  {
    FibersKnown(obligations, |obligations|);
  }

  lemma InsideAllows(f: Scope, s: Scope, source: nat)
    requires Inside(f, s) && Allows(f, source)
    ensures Allows(s, source)
  {}

  /** Whatever closes the vouching identity serves the obligation. */
  lemma VouchedIsServed(question: seq<Clause>, intents: seq<Intent>, claims: seq<Claim>, maxClaims: nat, maxBytes: nat,
                        run: Run, i: nat)
    requires DistinctIds(claims) && Composed(question, intents, claims, maxClaims, maxBytes, run)
    requires run.answer.status == Resolved
    requires i < |ObligationsOf(question, intents)| && Vouched(ObligationsOf(question, intents), i)
    ensures ServedBy(ObligationsOf(question, intents)[i], run.answer.claims)
  {
    hide JoinedThrough, PickedThrough, GraphOf, PairsAsFit, AllPicked, OpenOutOfRoom, SomeFits, SeedsBest, Names;
    var obligations, selected := ObligationsOf(question, intents), run.answer.claims;
    var effective := Effective(obligations);
    var k :| 0 <= k < |obligations| && Vouches(obligations, k, i);
    ResolvedIsClosed(question, intents, claims, maxClaims, maxBytes, run);
    var seed := run.seeds[obligations[k].id];
    var m := SeedWitnesses(claims, effective, run.seeds, run.first, maxBytes, obligations[k].id);
    assert seed in run.seeds.Values;
    SelectedGrows(run.first, selected);
    WitnessSelected(claims, effective[m], selected, seed);
    var c :| c in selected && c.id == seed && MayClose(effective[m], c);
    assert obligations[m].id == obligations[k].id;
    SameIdSameScope(obligations, k, m);
    EntailsCloses(obligations[m].ask, obligations[i].ask, c);
    InsideAllows(effective[k].scope, obligations[i].scope, c.source);
  }

  // ---- Nothing less does ---------------------------------------------------------------------------

  /** A claim that closes the obligation's ask and nothing more than its polarity asks for. */
  function Plain(id: nat, source: nat, a: Ask): Claim {
    Claim(id, source, 16 * id, 16 * id + 12, 12, {0}, {}, {}, a.polarity, Unmarked)
  }

  /** A claim for the obligation `e` that does not serve `o`. */
  function Decoy(e: Obligation, o: Obligation, k: nat): Claim
    requires Sourced(e)
  {
    var source := OuterSource(e.scope, o.scope);
    if Inside(e.scope, o.scope) then Telling(k, source, e.ask, o.ask) else Plain(k, source, e.ask)
  }

  /** A decoy never serves `o`, and closes `e` unless `e` is no wider in scope and no weaker in ask. */
  lemma DecoyMisleads(e: Obligation, o: Obligation, k: nat)
    requires Sourced(e)
    ensures !MayClose(o, Decoy(e, o, k))
    ensures !Inside(e.scope, o.scope) || !Entails(e.ask, o.ask) ==> MayClose(e, Decoy(e, o, k))
  {
    TellingTells(k, OuterSource(e.scope, o.scope), e.ask, o.ask);
    ScorePositive(e.ask, Plain(k, OuterSource(e.scope, o.scope), e.ask));
  }

  function Decoys(effective: seq<Obligation>, o: Obligation): (claims: seq<Claim>)
    requires forall k | 0 <= k < |effective| :: Sourced(effective[k])
    ensures |claims| == |effective| && forall k | 0 <= k < |claims| :: claims[k] == Decoy(effective[k], o, k)
  {
    seq(|effective|, k requires 0 <= k < |effective| && Sourced(effective[k]) => Decoy(effective[k], o, k))
  }

  lemma EffectiveSourced(question: seq<Clause>, intents: seq<Intent>)
    requires SealedIntents(intents)
    ensures var effective := Effective(ObligationsOf(question, intents));
            forall k | 0 <= k < |effective| :: Sourced(effective[k])
  {
    var obligations := ObligationsOf(question, intents);
    var n := |obligations|;
    FibersKnown(obligations, n);
    ScopesOpen(question, intents, |intents|);
    forall k | 0 <= k < n ensures Sourced(Effective(obligations)[k]) {
      var j :| 0 <= j < n && obligations[j].id == obligations[k].id
               && FibersOf(obligations, n)[obligations[k].id] == obligations[j].scope;
      assert obligations[j] in obligations && Sourced(obligations[j]);
    }
  }

  /** Claims of one size, numbered in order. */
  ghost predicate Uniform(claims: seq<Claim>) {
    forall k | 0 <= k < |claims| :: claims[k].id == k && claims[k].bytes == 12
  }

  lemma {:induction false} UniformBytes(first: seq<Claim>, k: nat)
    requires k <= |first| && forall i | 0 <= i < |first| :: first[i].bytes == 12
    ensures Bytes(first, k) == 12 * k
  {
    if k > 0 {
      UniformBytes(first, k - 1);
    }
  }

  lemma {:induction false} AtMost(ids: set<nat>, n: nat)
    requires forall id | id in ids :: id < n
    ensures |ids| <= n
    decreases n
  {
    if n == 0 {
      assert ids == {};
    } else {
      AtMost(ids - {n - 1}, n - 1);
    }
  }

  lemma {:induction false} IdsCount(first: seq<Claim>)
    requires DistinctIds(first)
    ensures |SelectedIds(first)| == |first|
  {
    if first == [] {
      assert SelectedIds(first) == {};
    } else {
      var n := |first| - 1;
      var front, last := first[..n], first[n].id;
      IdsCount(front);
      assert SelectedIds(first) == SelectedIds(front) + {last} by {
        forall id ensures id in SelectedIds(first) <==> id in SelectedIds(front) || id == last {
          if id in SelectedIds(first) {
            var i :| 0 <= i < |first| && first[i].id == id;
            assert i < n ==> front[i].id == id;
          }
          if id in SelectedIds(front) {
            var i :| 0 <= i < |front| && front[i].id == id;
            assert first[i].id == id;
          }
        }
      }
      assert last !in SelectedIds(front) by {
        forall i | 0 <= i < |front| ensures front[i].id != last {
          assert first[i].id != first[n].id;
        }
      }
    }
  }

  /** Budgets for all uniform claims, with room to spare. */
  ghost predicate Ample(claims: seq<Claim>, maxClaims: nat, maxBytes: nat) {
    maxClaims == |claims| + 1 && maxBytes == 256 + 12 * |claims|
  }

  lemma RoomLeft(claims: seq<Claim>, first: seq<Claim>, maxClaims: nat, maxBytes: nat)
    requires Uniform(claims) && DistinctIds(first) && forall i | 0 <= i < |first| :: first[i] in claims
    requires Ample(claims, maxClaims, maxBytes)
    ensures Fits(SelectionOf(first, maxClaims, maxBytes), 12)
  {
    forall id | id in SelectedIds(first) ensures id < |claims| {
      var i :| 0 <= i < |first| && first[i].id == id;
      assert first[i] in claims;
    }
    AtMost(SelectedIds(first), |claims|);
    IdsCount(first);
    UniformBytes(first, |first|);
  }

  /** The identity of obligation `k` can be closed by a claim of the pool. */
  ghost predicate CanCloseId(effective: seq<Obligation>, claims: seq<Claim>, k: nat)
    requires k < |effective|
  {
    exists m, c ::
      0 <= m < |effective| && effective[m].id == effective[k].id && c in claims && MayClose(effective[m], c)
  }

  lemma OpenIsClosed(claims: seq<Claim>, effective: seq<Obligation>, seeds: Seeds, first: seq<Claim>, k: nat,
                     maxClaims: nat, maxBytes: nat)
    requires Ample(claims, maxClaims, maxBytes)
    requires Uniform(claims) && DistinctIds(first) && forall i | 0 <= i < |first| :: first[i] in claims
    requires OpenOutOfRoom(claims, effective, |effective|, seeds, SelectionOf(first, maxClaims, maxBytes))
    requires k < |effective| && CanCloseId(effective, claims, k)
    ensures effective[k].id in seeds
  {
    var m, c :| 0 <= m < |effective| && effective[m].id == effective[k].id && c in claims && MayClose(effective[m], c);
    RoomLeft(claims, first, maxClaims, maxBytes);
    assert c.bytes == 12;
    assert Closable(effective[m], claims, SelectionOf(first, maxClaims, maxBytes));
  }

  /** With ample budgets and context intents, closing every identity is all that resolving takes. */
  lemma AmpleResolves(question: seq<Clause>, intents: seq<Intent>, claims: seq<Claim>, maxClaims: nat, maxBytes: nat,
                      run: Run)
    requires CompiledText(question) && intents != [] && Uniform(claims) && DistinctIds(claims)
    requires Ample(claims, maxClaims, maxBytes) && Composed(question, intents, claims, maxClaims, maxBytes, run)
    requires var effective := Effective(ObligationsOf(question, intents));
             forall k | 0 <= k < |effective| :: CanCloseId(effective, claims, k)
    ensures run.answer.status == Resolved
  {
    hide PickedThrough, JoinedThrough, GraphOf, PairsAsFit, SeedsBest, AllPicked, Uniform, Ample, CanCloseId;
    hide OpenOutOfRoom, SomeFits, Effective, SelectedIds, Names;
    var effective := Effective(ObligationsOf(question, intents));
    FirstInPool(claims, run.first, run.answer.claims);
    forall k | 0 <= k < |effective| ensures effective[k].id in run.seeds {
      OpenIsClosed(claims, effective, run.seeds, run.first, k, maxClaims, maxBytes);
    }
    QuestionFirst(question, intents, |intents|);
    SeedMeansFirst(run.seeds, run.first, effective[0].id);
    NoneUnresolved(run.answer.unresolved, effective, run.seeds);
  }

  lemma FirstInPool(claims: seq<Claim>, first: seq<Claim>, selected: seq<Claim>)
    requires first <= selected && DistinctIds(selected) && forall i | 0 <= i < |selected| :: selected[i] in claims
    ensures DistinctIds(first) && forall i | 0 <= i < |first| :: first[i] in claims
  {
    forall i | 0 <= i < |first| ensures first[i] in claims {
      assert selected[i] in claims;
    }
  }

  lemma SeedMeansFirst(seeds: Seeds, first: seq<Claim>, name: ObligationId)
    requires name in seeds && seeds.Values <= SelectedIds(first)
    ensures first != []
  {
    assert seeds[name] in seeds.Values;
  }

  lemma NoneUnresolved(unresolved: seq<Unresolved>, obligations: seq<Obligation>, seeds: Seeds)
    requires Names(unresolved, obligations, seeds, false)
    requires forall k | 0 <= k < |obligations| :: obligations[k].id in seeds
    ensures unresolved == []
  {}

  lemma AmbiguousHasIntents(question: seq<Clause>, intents: seq<Intent>)
    requires CompiledText(question) && SealedIntents(intents) && !Unambiguous(ObligationsOf(question, intents))
    ensures intents != []
  {
    if intents == [] {
      DistinctIntentsSuffice(question, intents, 0);
      DistinctIsUnambiguous(ObligationsOf(question, intents));
    }
  }

  /** Without a vouching identity every identity has an obligation that a decoy closes. */
  lemma DecoysCloseAll(obligations: seq<Obligation>, i: nat, k: nat)
    requires i < |obligations| && !Vouched(obligations, i) && k < |obligations|
    requires forall m | 0 <= m < |obligations| :: Sourced(Effective(obligations)[m])
    ensures CanCloseId(Effective(obligations), Decoys(Effective(obligations), obligations[i]), k)
  {
    var effective, o := Effective(obligations), obligations[i];
    var decoys := Decoys(effective, o);
    assert !Vouches(obligations, k, i);
    hide Vouches, Vouched, Entails, Inside, MayClose;
    var m := UsefulMember(obligations, i, k);
    DecoyMisleads(effective[m], o, m);
    assert decoys[m] in decoys && MayClose(effective[m], decoys[m]);
  }

  /** An identity that does not vouch has an obligation wider in scope or weaker in ask. */
  lemma UsefulMember(obligations: seq<Obligation>, i: nat, k: nat) returns (m: nat)
    requires i < |obligations| && k < |obligations| && !Vouches(obligations, k, i)
    ensures m < |obligations| && obligations[m].id == obligations[k].id
    ensures !Inside(Effective(obligations)[m].scope, obligations[i].scope)
            || !Entails(obligations[m].ask, obligations[i].ask)
  {
    hide Entails, Inside;
    m := k;
    if Inside(Effective(obligations)[k].scope, obligations[i].scope) {
      m :| 0 <= m < |obligations| && obligations[m].id == obligations[k].id
           && !Entails(obligations[m].ask, obligations[i].ask);
    }
  }

  lemma DecoysUniform(effective: seq<Obligation>, o: Obligation)
    requires forall k | 0 <= k < |effective| :: Sourced(effective[k])
    ensures Uniform(Decoys(effective, o)) && DistinctIds(Decoys(effective, o))
  {
    var claims := Decoys(effective, o);
    assert forall k | 0 <= k < |claims| :: claims[k] == Decoy(effective[k], o, k);
  }

  /** The decoys against obligation `i`. */
  function Pool(question: seq<Clause>, intents: seq<Intent>, i: nat): seq<Claim>
    requires SealedIntents(intents) && i < |ObligationsOf(question, intents)|
  {
    EffectiveSourced(question, intents);
    Decoys(Effective(ObligationsOf(question, intents)), ObligationsOf(question, intents)[i])
  }

  lemma PoolUniform(question: seq<Clause>, intents: seq<Intent>, i: nat)
    requires SealedIntents(intents) && i < |ObligationsOf(question, intents)|
    ensures Uniform(Pool(question, intents, i)) && DistinctIds(Pool(question, intents, i))
  {
    EffectiveSourced(question, intents);
    DecoysUniform(Effective(ObligationsOf(question, intents)), ObligationsOf(question, intents)[i]);
  }

  lemma PoolServesNone(question: seq<Clause>, intents: seq<Intent>, i: nat, selected: seq<Claim>)
    requires SealedIntents(intents) && i < |ObligationsOf(question, intents)|
    requires forall j | 0 <= j < |selected| :: selected[j] in Pool(question, intents, i)
    ensures !ServedBy(ObligationsOf(question, intents)[i], selected)
  {
    var obligations, pool := ObligationsOf(question, intents), Pool(question, intents, i);
    EffectiveSourced(question, intents);
    forall c | c in selected ensures !MayClose(obligations[i], c) {
      assert c in pool;
      var k :| 0 <= k < |pool| && pool[k] == c;
      DecoyMisleads(Effective(obligations)[k], obligations[i], k);
    }
  }

  lemma PoolClosesAll(question: seq<Clause>, intents: seq<Intent>, i: nat)
    requires SealedIntents(intents) && i < |ObligationsOf(question, intents)|
    requires !Vouched(ObligationsOf(question, intents), i)
    ensures var effective := Effective(ObligationsOf(question, intents));
            forall k | 0 <= k < |effective| :: CanCloseId(effective, Pool(question, intents, i), k)
  {
    var obligations := ObligationsOf(question, intents);
    EffectiveSourced(question, intents);
    forall k | 0 <= k < |obligations| ensures CanCloseId(Effective(obligations), Pool(question, intents, i), k) {
      DecoysCloseAll(obligations, i, k);
    }
  }

  /** Every run on the decoys is resolved and leaves the obligation without a claim that may close it. */
  lemma PoolFails(question: seq<Clause>, intents: seq<Intent>, i: nat, claims: seq<Claim>, maxClaims: nat,
                  maxBytes: nat, run: Run)
    requires CompiledText(question) && SealedIntents(intents) && intents != []
    requires i < |ObligationsOf(question, intents)| && !Vouched(ObligationsOf(question, intents), i)
    requires claims == Pool(question, intents, i) && DistinctIds(claims) && Ample(claims, maxClaims, maxBytes)
    requires Composed(question, intents, claims, maxClaims, maxBytes, run)
    ensures run.answer.status == Resolved && !Served(ObligationsOf(question, intents), run.answer.claims)
  {
    PoolUniform(question, intents, i);
    PoolClosesAll(question, intents, i);
    AmpleResolves(question, intents, claims, maxClaims, maxBytes, run);
    PoolServesNone(question, intents, i, run.answer.claims);
    NotServed(ObligationsOf(question, intents), run.answer.claims, i);
  }

  lemma NotServed(obligations: seq<Obligation>, selected: seq<Claim>, i: nat)
    requires i < |obligations| && !ServedBy(obligations[i], selected)
    ensures !Served(obligations, selected)
  {}

  /** On these claims and budgets every run is resolved and some obligation is not served. */
  ghost predicate Misleads(question: seq<Clause>, intents: seq<Intent>, claims: seq<Claim>, maxClaims: nat,
                           maxBytes: nat)
    requires DistinctIds(claims)
  {
    && maxClaims >= 1 && maxBytes >= 256
    && forall run | Composed(question, intents, claims, maxClaims, maxBytes, run) ::
         run.answer.status == Resolved && !Served(ObligationsOf(question, intents), run.answer.claims)
  }

  /** Every resolved run, over any claims and budgets, serves every obligation. */
  ghost predicate AlwaysServes(question: seq<Clause>, intents: seq<Intent>) {
    forall claims, maxClaims: nat, maxBytes: nat, run |
      DistinctIds(claims) && Composed(question, intents, claims, maxClaims, maxBytes, run)
      && run.answer.status == Resolved ::
      Served(ObligationsOf(question, intents), run.answer.claims)
  }

  ghost predicate CanMislead(question: seq<Clause>, intents: seq<Intent>) {
    exists claims, maxClaims: nat, maxBytes: nat ::
      DistinctIds(claims) && Misleads(question, intents, claims, maxClaims, maxBytes)
  }

  /** The exact condition: with unambiguous identities every resolved run serves every obligation; without,
      there are claims and budgets on which every run is resolved and leaves an obligation unserved. */
  lemma ResolvedServesIffUnambiguous(question: seq<Clause>, intents: seq<Intent>)
    requires CompiledText(question) && SealedIntents(intents)
    ensures Unambiguous(ObligationsOf(question, intents)) ==> AlwaysServes(question, intents)
    ensures !Unambiguous(ObligationsOf(question, intents)) ==> CanMislead(question, intents)
  {
    if Unambiguous(ObligationsOf(question, intents)) {
      UnambiguousServes(question, intents);
    } else {
      AmbiguousHasIntents(question, intents);
      var i :| 0 <= i < |ObligationsOf(question, intents)| && !Vouched(ObligationsOf(question, intents), i);
      PoolMisleads(question, intents, i);
    }
  }

  lemma UnambiguousServes(question: seq<Clause>, intents: seq<Intent>)
    requires Unambiguous(ObligationsOf(question, intents))
    ensures AlwaysServes(question, intents)
  {
    var obligations := ObligationsOf(question, intents);
    forall claims, maxClaims: nat, maxBytes: nat, run |
      DistinctIds(claims) && Composed(question, intents, claims, maxClaims, maxBytes, run)
      && run.answer.status == Resolved
      ensures Served(obligations, run.answer.claims)
    {
      forall i | 0 <= i < |obligations| ensures ServedBy(obligations[i], run.answer.claims) {
        VouchedIsServed(question, intents, claims, maxClaims, maxBytes, run, i);
      }
    }
  }

  lemma PoolMisleads(question: seq<Clause>, intents: seq<Intent>, i: nat)
    requires CompiledText(question) && SealedIntents(intents) && intents != []
    requires i < |ObligationsOf(question, intents)| && !Vouched(ObligationsOf(question, intents), i)
    ensures CanMislead(question, intents)
  {
    var claims := Pool(question, intents, i);
    var maxClaims: nat, maxBytes: nat := |claims| + 1, 256 + 12 * |claims|;
    PoolUniform(question, intents, i);
    forall run | Composed(question, intents, claims, maxClaims, maxBytes, run)
      ensures run.answer.status == Resolved && !Served(ObligationsOf(question, intents), run.answer.claims)
    {
      PoolFails(question, intents, i, claims, maxClaims, maxBytes, run);
    }
    assert Misleads(question, intents, claims, maxClaims, maxBytes);
  }

  /** Such a run exists: composing on the decoys is one. */
  method MisleadingRun(tokens: Claim -> multiset<nat>, question: seq<Clause>, intents: seq<Intent>)
    returns (claims: seq<Claim>, r: Answer)
    requires CompiledText(question) && SealedIntents(intents) && !Unambiguous(ObligationsOf(question, intents))
    ensures r.status == Resolved && !Served(ObligationsOf(question, intents), r.claims)
    ensures forall i | 0 <= i < |r.claims| :: r.claims[i] in claims
  {
    AmbiguousHasIntents(question, intents);
    var i := FirstUnvouched(ObligationsOf(question, intents));
    claims := Pool(question, intents, i);
    PoolUniform(question, intents, i);
    var adj, seeds;
    ghost var first;
    var maxClaims, maxBytes := |claims| + 1, 256 + 12 * |claims|;
    r, adj, seeds, first := Compose(tokens, question, intents, claims, maxClaims, maxBytes);
    PoolFails(question, intents, i, claims, maxClaims, maxBytes, Run(r, adj, seeds, first));
  }

  method FirstUnvouched(obligations: seq<Obligation>) returns (i: nat)
    requires !Unambiguous(obligations)
    ensures i < |obligations| && !Vouched(obligations, i)
  {
    i := 0;
    while Vouched(obligations, i)
      invariant i < |obligations| && forall j | 0 <= j < i :: Vouched(obligations, j)
      decreases |obligations| - i
    {
      i := i + 1;
    }
  }

  /** Callers that give every intent its own identity, and none the question's, are safe. */
  lemma DistinctIntentsAreSafe(question: seq<Clause>, intents: seq<Intent>, claims: seq<Claim>, maxClaims: nat,
                               maxBytes: nat, run: Run)
    requires CompiledText(question) && SealedIntents(intents) && DistinctIntents(intents)
    requires DistinctIds(claims) && Composed(question, intents, claims, maxClaims, maxBytes, run)
    requires run.answer.status == Resolved
    ensures Served(ObligationsOf(question, intents), run.answer.claims)
  {
    DistinctIntentsSuffice(question, intents, |intents|);
    DistinctIsUnambiguous(ObligationsOf(question, intents));
    ResolvedServesIffUnambiguous(question, intents);
  }

  // ---- An input ------------------------------------------------------------------------------------

  function OneWord(word: nat, polarity: Polarity): Ask {
    Ask({word}, {}, {}, polarity)
  }

  function OneQuestion(): seq<Clause> {
    [Clause(0, OneWord(1, Positive))]
  }

  /** Two intents that carry the same identity. */
  function SameIntents(): seq<Intent> {
    [Intent(1, {0}, [Clause(0, OneWord(2, Positive))]), Intent(1, {1}, [Clause(0, OneWord(3, Negative))])]
  }

  /** One positive claim, from the source of the second intent. */
  function OneClaim(): Claim {
    Claim(0, 1, 0, 12, 12, {7}, {}, {}, Positive, Unmarked)
  }

  lemma SameObligations()
    ensures ObligationsOf(OneQuestion(), SameIntents())
            == [Obligation(ObligationId(0, 0), OneWord(1, Positive), Anywhere),
                Obligation(ObligationId(1, 0), OneWord(2, Positive), Within({0})),
                Obligation(ObligationId(1, 0), OneWord(3, Negative), Within({1}))]
  {
    var q, intents := OneQuestion(), SameIntents();
    assert ObligationsUpTo(q, intents, 0) == [Obligation(ObligationId(0, 0), OneWord(1, Positive), Anywhere)];
    assert IntentPart(intents[0]) == [Obligation(ObligationId(1, 0), OneWord(2, Positive), Within({0}))];
    assert IntentPart(intents[1]) == [Obligation(ObligationId(1, 0), OneWord(3, Negative), Within({1}))];
    assert ObligationsUpTo(q, intents, 1) == ObligationsUpTo(q, intents, 0) + IntentPart(intents[0]);
    assert ObligationsUpTo(q, intents, 2) == ObligationsUpTo(q, intents, 1) + IntentPart(intents[1]);
  }

  lemma SameFibers()
    ensures var effective := Effective(ObligationsOf(OneQuestion(), SameIntents()));
            && |effective| == 3 && effective[0].scope == Anywhere
            && effective[1].scope == effective[2].scope == Within({1})
  {
    SameObligations();
    var o := ObligationsOf(OneQuestion(), SameIntents());
    var f := FibersOf(o, 0);
    assert FibersOf(o, 1) == f[o[0].id := o[0].scope];
    assert FibersOf(o, 2) == FibersOf(o, 1)[o[1].id := o[1].scope];
    assert FibersOf(o, 3) == FibersOf(o, 2)[o[2].id := o[2].scope];
  }

  lemma OneClaimCloses()
    ensures var effective := Effective(ObligationsOf(OneQuestion(), SameIntents()));
            forall k | 0 <= k < |effective| :: CanCloseId(effective, [OneClaim()], k)
  {
    SameObligations();
    SameFibers();
    var c, claims := OneClaim(), [OneClaim()];
    var effective := Effective(ObligationsOf(OneQuestion(), SameIntents()));
    ScorePositive(OneWord(1, Positive), c);
    ScorePositive(OneWord(2, Positive), c);
    assert c in claims && MayClose(effective[0], c) && MayClose(effective[1], c);
    forall k | 0 <= k < 3 ensures CanCloseId(effective, claims, k) {
      if k == 0 {
        assert effective[0].id == effective[k].id;
      } else {
        assert effective[1].id == effective[k].id;
      }
    }
  }

  /** The claim may close neither obligation of the intents: the positive one is bound to another source,
      and the claim is not negative. */
  lemma OneClaimServesNeither(selected: seq<Claim>)
    requires forall j | 0 <= j < |selected| :: selected[j] in [OneClaim()]
    ensures !ServedBy(ObligationsOf(OneQuestion(), SameIntents())[1], selected)
    ensures !ServedBy(ObligationsOf(OneQuestion(), SameIntents())[2], selected)
  {
    SameObligations();
  }

  /** Every run on the one claim is resolved and serves neither intent. */
  lemma SharedIntentId(run: Run)
    requires Composed(OneQuestion(), SameIntents(), [OneClaim()], 2, 268, run)
    ensures run.answer.status == Resolved
    ensures !ServedBy(ObligationsOf(OneQuestion(), SameIntents())[1], run.answer.claims)
    ensures !ServedBy(ObligationsOf(OneQuestion(), SameIntents())[2], run.answer.claims)
  {
    SharedIntentResolves([OneClaim()], run);
    OneClaimServesNeither(run.answer.claims);
  }

  lemma SharedIntentResolves(claims: seq<Claim>, run: Run)
    requires claims == [OneClaim()] && Composed(OneQuestion(), SameIntents(), claims, 2, 268, run)
    ensures run.answer.status == Resolved
    ensures forall j | 0 <= j < |run.answer.claims| :: run.answer.claims[j] in claims
  {
    hide Witnessed, Connected, GraphOf, CanCloseId;
    OneClaimCloses();
    AmpleResolves(OneQuestion(), SameIntents(), claims, 2, 268, run);
  }
}
