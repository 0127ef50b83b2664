# ProofRay kernels, modelled and proved

ProofRay answers questions from authorized evidence. Around its readers and servers sit small deterministic
solvers and selectors that decide what may be asserted, and this project models those in Dafny and proves
what they promise. Each module follows one component; paths below are relative to the repository root.

* **Finite constraint kernel.** `HdemModel`, `HdemEnumerative`, `HdemPropagation`, `HdemPacked` and
  `HdemRefinement` model the possible-world problems, the exhaustive oracle and the pruning, splitting solver,
  and prove that the fast solver refines the oracle. `BinaryForest`, `ForestExactness`, `Hdca` and
  `HdcaExactness` model the union-find forest certificate and the bitmask edge solver and prove it globally
  exact on forests.
* **Segmentation lattice and chart parser.** `LatticeModel` and `LatticeCounting` relate the saturating
  path-count tables to depth-first enumeration; `LatticeBuilder` builds the lattice from a lexicon and proves
  it lossless; `ChartModel` and `ChartParser` relate the mutable chart to derivability, and `TextParser` puts
  them together on a text with the fixed rule tables.
* **Claim paths and composed answers.** `ClaimPath`, `ClaimEdges`, `ClaimSelection` and `ClaimComposer` model the
  twelve-hop best-first search, the anchor graph and the two phases of the budgeted composer; `ClaimObligations`
  models what closes an obligation, its score, its identity and its source fiber. `ClaimDeterminism` proves that
  the composer's promises leave exactly one answer, and `ClaimReliability` exactly when a resolved answer serves
  every obligation.
* **Content-addressed hypergraph.** `TermModel`, `TermTrees`, `Hypergraph` and `HypergraphContract` model the
  memoized reference computation, event resolution, orphan rejection and readout; `EventIdentity` proves which
  events share a reference.
* **Constellations.** `Constellation` models arc consistency over questions and generators as a greatest
  fixed point.
* **Smaller kernels.** `EditDistance`, `ConservedFlux`, `CoreHaloFlux`, `ErrorCorrection`,
  `SimpleMrsScanner`, `GreedyMatching`, `ConformalRouting`, `RateLimit`, `RateLimitRuns` and `RankMerging`.
  `Options`, `Order` and `Filtering` hold what the modules share.

## How the code is rendered

* Strings used as identities (names, values, ids, anchors, tokens) are naturals with their order; the
  variables of a constraint problem are numbered in ascending name order, so an assignment is a sequence.
* Integer bitmasks are sets of bit positions, canonical tuples of fact ids are sets, a canonical tuple of
  pairs with unique keys is a map.
* Digests are one injective function of the hashed payload. Isomorphism of readings, the words of a claim that
  the authority check counts, the meaning of characters and the clock are parameters.
* Scores and times are exact reals; a p-value is kept as its two counts.
* Long functions are split into methods with the branches of the original, in its order: `visit` of the
  constraint solver (`Visit`, `Record`, `SplitAll`), its propagation (`Propagate`, `ReviseConstraint`), the
  forest certificate (`IsBinaryForest`, `TakeIn`, `JoinPair`), the edge solver (`RevisePosition`,
  `ReviseConstraint`, `Sweep`, `ReadOut`), the binary chart pass (`RowPass`, `Combine`), `compute_node`
  (`ComputeNode`, `ComputeChildren`, `CheckedRef`, `Store`), the loops of `from_contract` (`ComputeNext`,
  `ResolveEvent` and the methods it calls, `FindOrphan`), the chart's seeding (`ParseRoot`, `SeedTokens`,
  `SeedHole`) and the composer (`CompileAll`, `ChooseWitnesses`, `ChooseNext`, `ChooseWitness`, `Connect`,
  `Gather`, `Conclude`). The heap of the path search is a queue from which a least state is taken.
* Checks that raise on constructor data (sorted domains, distinct ids of declared terms and claims, known scopes,
  compiled texts that are not empty, intents with a source fiber) are predicates like `WellFormed` or map and set
  types. The composer does not check the identities of context intents, and neither does the model: only
  `src/horizon_memory/answer_engine.py:397-399` does, for its own callers. Guards that raise on a non-positive
  budget are preconditions. Errors that depend on the input otherwise are result values.

## Where the code and its documentation differ

`src/horizon_memory/hdem_hdca_kernel.py:3-12` and
`src/horizon_memory/portuguese_atomic_relations.py:1638-1644` promise that every answer the edge solver resolves
is the certain answer of the constraint problem. The certificate skips a variable pair it has seen before
(`src/horizon_memory/cjk_covariant_span_readout.py:1012-1014`), so two contradictory constraints on one pair pass
it, and arc consistency does not notice. `HdcaExactness.ResolvedWithoutSolution` is such a network, resolved by
every run although it has no solution. `HdcaExactness.ExactIffNoParallel` gives the exact condition on network
shapes, no unordered pair with two constraints: on every other accepted shape some relations make every run
wrong, whatever its budget. `ForestExactness.ExtensibleIffJoint` gives the exact condition on a single fixed
point. All other exactness results of the edge solver carry the hypothesis that no pair is doubled.

The composer promises that an obligation closes only on evidence that is in the answer
(`src/horizon_memory/_eop_claims.py:374-382`). It keeps what is closed and the allowed sources by obligation
identity (lines 330-337, 381-382 and 411-412), and neither it nor `ContextIntent.verify` (lines 86-88) checks
that the identities of context intents differ from each other and from the question's. Obligations that share
an identity close each other, and the last one's sources replace the others'. `ClaimReliability.SharedIntentId`
is an input on which every run is resolved and two obligations have no evidence at all.
`ClaimReliability.ResolvedServesIffUnambiguous` gives the exact condition, which can be checked on the compiled
question and intents before the call: for every obligation there is an identity all of whose obligations entail
it (both are negative, or both are positive and everything the one asks for the other asks for too) and whose
kept sources it allows. `ClaimReliability.DistinctIntentsAreSafe` proves the simple check enough: intent
identities that are distinct and none the question's. A question without context intents needs no check.

The core and halo selector (`src/horizon_memory/conserved_flux.py:83-95`) can double a fact that the core mode
lists twice, in two ways. When the core fills the limit it is returned alone, before the modes are checked for
repeated facts (lines 86-87). When it does not, the core's facts are filtered out of the halo modes first (lines
88-90), so the check of the halo selector never sees them. `CoreHaloFlux.DoubledFact` has an input for each way;
`CoreHaloFlux.SelectCoreHalo` proves that the laws hold exactly when the core lists no fact twice, and
`CoreHaloFlux.DeduplicatedCoreFirst` that a core mode without repetitions is enough.

## Model

| member | source | states |
|---|---|---|
| `HdemModel.BuildResult` | src/horizon_memory/cjk_covariant_span_readout.py:877-893 | groups worlds by answer, keeps for each answer the provenances of its worlds, and settles resolved, contested or abstain; an incomplete result always abstains with no answer |
| `HdemModel.ExactWorldsUnique` | src/horizon_memory/cjk_covariant_span_readout.py:863-893 | the canonical list of the worlds of all solutions is determined by the problem: two exact lists are the same list |
| `HdemModel.VerdictIsCertainty` | src/horizon_memory/cjk_covariant_span_readout.py:877-893 | over exact worlds, resolved means exactly that solutions exist and all give one answer (which is the reported one), contested that two solutions differ, abstain that there is no solution |
| `HdemModel.ProvenanceIsLeast` | src/horizon_memory/cjk_covariant_span_readout.py:863-875 | the provenance of a world is the least set of facts that licenses every value its assignment takes and witnesses every constraint: it is within a set exactly when that set does both |
| `HdemModel.ProofsAreExact` | src/horizon_memory/cjk_covariant_span_readout.py:863-893 | over exact worlds, a set of facts holds some proof of an answer exactly when it justifies some solution with that answer |
| `HdemEnumerative.ProductMembers` | src/horizon_memory/cjk_covariant_span_readout.py:902-911 | the enumerated product holds exactly the tuples that choose one value from every domain |
| `HdemEnumerative.ProductSorted` | src/horizon_memory/cjk_covariant_span_readout.py:902-911 | ascending domains are enumerated in ascending tuple order, so the oracle lists its worlds canonically |
| `HdemEnumerative.SolveEnumerative` | src/horizon_memory/cjk_covariant_span_readout.py:896-918 | the oracle is complete iff the whole product fits the budget; complete means exactly the worlds of all solutions, incomplete means exactly the worlds of the solutions among the tuples tried |
| `HdemPropagation.RevisionKeepsConsistent` | src/horizon_memory/cjk_covariant_span_readout.py:921-941 | removing the values no live row supports keeps every arc-consistent sub-domain vector |
| `HdemPropagation.ReviseConstraint` | src/horizon_memory/cjk_covariant_span_readout.py:928-940 | revising one constraint at all its positions keeps every arc-consistent sub-domain and the count of removed values, leaves early only on an emptied domain, and, if it removes nothing, leaves the constraint arc consistent |
| `HdemPropagation.Propagate` | src/horizon_memory/cjk_covariant_span_readout.py:921-941 | propagation reaches the greatest arc-consistent sub-domains, or empties a domain; the count of pruned values is the loss in size |
| `HdemPropagation.SolutionSurvives` | src/horizon_memory/cjk_covariant_span_readout.py:921-941 | no solution within the starting domains is ever pruned |
| `HdemPropagation.SingletonFixpointIsSolution` | src/horizon_memory/cjk_covariant_span_readout.py:970-977 | an all-singleton fixed point satisfies every constraint, so the leaf needs no further test |
| `HdemPacked.PickOpen` | src/horizon_memory/cjk_covariant_span_readout.py:981 | the split variable is an open one with fewest values, the least name among equals |
| `HdemPacked.SplitsCover` | src/horizon_memory/cjk_covariant_span_readout.py:978-985 | covering each single-value child of a split covers every solution of the parent state |
| `HdemPacked.LeafCovers` | src/horizon_memory/cjk_covariant_span_readout.py:970-977 | the world recorded at a settled consistent state is genuine and covers all solutions of that state |
| `HdemPacked.PackedSearch.Visit` | src/horizon_memory/cjk_covariant_span_readout.py:956-985 | unless a budget ran out, every solution inside the state has its world recorded, and the visited memo never loses one: everything remembered during the visit is covered |
| `HdemPacked.PackedSearch.SplitAll` | src/horizon_memory/cjk_covariant_span_readout.py:978-985 | the loop over the values of the chosen variable covers the whole state when no budget runs out |
| `HdemPacked.PackedSearch.Record` | src/horizon_memory/cjk_covariant_span_readout.py:970-977 | the leaf records a genuine world covering its state, or marks the world budget exhausted |
| `HdemRefinement.SolvePacked` | src/horizon_memory/cjk_covariant_span_readout.py:944-994 | a complete run has exactly the worlds of all solutions in canonical order; an incomplete one has only genuine worlds, abstains, and really exhausted a budget: it stops on worlds only when there are more genuine ones than the budget allows |
| `HdemRefinement.CompleteResultsAgree` | src/horizon_memory/cjk_covariant_span_readout.py:944-994 | two complete results agree on worlds, proofs, state and answer |
| `HdemRefinement.SolveBoth` | src/horizon_memory/cjk_covariant_span_readout.py:896-994 | with any budgets, if both solvers report complete their results are equal; against a complete oracle every packed world is one of its worlds |
| `BinaryForest.UnionFind.Root` | src/horizon_memory/cjk_covariant_span_readout.py:1000-1004 | following parents with path halving ends at the root of the element's component, changes no element's component and unroots nothing |
| `BinaryForest.UnionFind.Link` | src/horizon_memory/cjk_covariant_span_readout.py:1018-1020 | hanging one root under another merges exactly their two components |
| `BinaryForest.RelatedShareLabel` | src/horizon_memory/cjk_covariant_span_readout.py:1012-1020 | two variables related by a processed constraint are in one component |
| `BinaryForest.Connect` | src/horizon_memory/cjk_covariant_span_readout.py:1012-1020 | two variables in one component are joined by a simple path of related pairs |
| `BinaryForest.InsideMeansCycle` | src/horizon_memory/cjk_covariant_span_readout.py:1016-1019 | a new pair found inside one component closes a cycle |
| `BinaryForest.CrossingPairInNoCycle` | src/horizon_memory/cjk_covariant_span_readout.py:1016-1020 | a pair that joined two components lies on no cycle of the processed pairs |
| `BinaryForest.AcyclicIffCrossing` | src/horizon_memory/cjk_covariant_span_readout.py:1012-1020 | the graph of related pairs is acyclic iff every new pair joined two different components |
| `BinaryForest.TakeIn` | src/horizon_memory/cjk_covariant_span_readout.py:1007-1020 | one constraint passes iff it has at most two variables and its pair, if it has one, was seen before or joins two components; then the union-find components and the seen pairs are those of all constraints so far |
| `BinaryForest.IsBinaryForest` | src/horizon_memory/cjk_covariant_span_readout.py:997-1021 | the certificate is given iff no constraint has arity above two and the simple graph of related variable pairs has no cycle |
| `ForestExactness.SingleConstraintsSupport` | src/horizon_memory/cjk_covariant_span_readout.py:1041-1069 | with at most one constraint on a pair, arc consistency gives every value one partner at each neighbour meeting all constraints between them |
| `ForestExactness.Extend` | src/horizon_memory/cjk_covariant_span_readout.py:1012-1068 | on a forest with joint support any value of any variable extends to an assignment within the domains that meets all related pairs |
| `ForestExactness.SupportExtends` | src/horizon_memory/cjk_covariant_span_readout.py:1041-1069 | on a certified forest, jointly supported arc-consistent domains extend every value to a full solution |
| `ForestExactness.ExtensibleIffJoint` | src/horizon_memory/cjk_covariant_span_readout.py:1041-1069 | at an arc-consistent point of a certified forest, every value extends to a solution if and only if the values are jointly supported |
| `Hdca.SupportedBitsDecode` | src/horizon_memory/cjk_covariant_span_readout.py:1047-1056 | the bits set by the row loop stand for exactly the values that live rows support |
| `Hdca.SupportedMask` | src/horizon_memory/cjk_covariant_span_readout.py:1047-1056 | the row loop computes the mask of all positions supported by rows whose bits are all set |
| `Hdca.MaskRevision` | src/horizon_memory/cjk_covariant_span_readout.py:1044-1069 | masking by the supported bits loses no arc-consistent sub-domain and lowers the total by exactly the removed bits |
| `Hdca.RevisePosition` | src/horizon_memory/cjk_covariant_span_readout.py:1044-1069 | revising one scope position keeps every arc-consistent sub-domain, counts the values it removes, and leaves early only on an emptied domain or when every consistent sub-domain exceeds the revision budget |
| `Hdca.Sweep` | src/horizon_memory/cjk_covariant_span_readout.py:1041-1069 | a sweep over all constraints that changes nothing ends at an arc-consistent point |
| `Hdca.ReadOut` | src/horizon_memory/cjk_covariant_span_readout.py:1078-1093 | at the fixed point the verdict is resolved iff every answer variable holds one value, and then the answer consists of those values |
| `Hdca.SolveHdca` | src/horizon_memory/cjk_covariant_span_readout.py:1024-1093 | every run ends in one of five outcomes: refused network, exhausted revisions, emptied domain, one answer or several; revisions count the values lost, the reported domains are above every arc-consistent sub-domain and arc consistent in the last two, and the budget outcome means that every arc-consistent sub-domain lost more values than the budget allows |
| `HdcaExactness.EmptiedMeansUnsatisfiable` | src/horizon_memory/cjk_covariant_span_readout.py:1070-1076 | an emptied domain means the problem has no solution, with or without parallel constraints |
| `HdcaExactness.SurvivorsAreExtensible` | src/horizon_memory/cjk_covariant_span_readout.py:1024-1093 | without parallel constraints a value survives at the fixed point iff some solution uses it |
| `HdcaExactness.FinishedVerdict` | src/horizon_memory/cjk_covariant_span_readout.py:1070-1093 | without parallel constraints a finished run's resolved, contested or abstain verdict is the certain answer, a real dispute, or unsatisfiability |
| `HdcaExactness.VerdictMatchesOracle` | src/horizon_memory/cjk_covariant_span_readout.py:1024-1093 | a finished run's verdict and answer are those of any complete exact result |
| `HdcaExactness.ProofInEveryWorld` | src/horizon_memory/cjk_covariant_span_readout.py:1081-1091 | the facts a resolved answer cites belong to the provenance of every solution's world |
| `HdcaExactness.ProofIsLeast` | src/horizon_memory/cjk_covariant_span_readout.py:1081-1093 | the facts the edge solver cites are the least set that witnesses every constraint and licenses every value left to an answer variable |
| `HdcaExactness.BudgetSuffices` | src/horizon_memory/cjk_covariant_span_readout.py:1058-1066 | a budget that covers the loss down to some arc-consistent sub-domain is never reported exhausted |
| `HdcaExactness.ClashAlwaysWrong` | src/horizon_memory/cjk_covariant_span_readout.py:1012-1014 | contradictory relations on a doubled pair of an accepted network make every run, with any budget, finish with a verdict the oracle refutes |
| `HdcaExactness.ExactIffNoParallel` | src/horizon_memory/cjk_covariant_span_readout.py:1012-1014 | among accepted networks, every run of the edge solver agrees with the oracle for all relations of that shape if and only if no unordered pair carries two constraints; on any other accepted shape some relations make every run, with any budget, finish with a wrong verdict |
| `HdcaExactness.ResolvedWithoutSolution` | src/horizon_memory/cjk_covariant_span_readout.py:1012-1014 | a concrete network the certificate accepts, with an equality and an inequality on one pair, is resolved to an answer by every run with any budget although it has no solution |
| `HdcaExactness.AgreesWithHdem` | src/horizon_memory/portuguese_atomic_relations.py:1637-1654 | packed solver and oracle agree whenever both or neither ran out of budget, so the assertion between them can fail only when exactly one did; the differential contract holds whenever no pair is doubled and the packed solver is complete, and then a finished edge run has the same state and answer |
| `ChartModel.DerivationTiles` | src/horizon_memory/cjk_covariant_span_readout.py:446-473 | a derivation covers its span by a gap-free sequence of admitted lexical leaves |
| `ChartModel.ClosedContains` | src/horizon_memory/cjk_covariant_span_readout.py:555-585 | a seeded chart closed under the unary and binary rules contains the root of every derivation |
| `ChartModel.FixpointIsExact` | src/horizon_memory/cjk_covariant_span_readout.py:555-593 | a sound, seeded, closed chart holds a category over a span iff some derivation gives it |
| `ChartModel.VerbalLeaf` | src/horizon_memory/cjk_covariant_span_readout.py:446-473 | the rules make no clause or verb category from parts without one: under every such category of a derivation by tables of this kind, which the fixed ones are, there is a leaf with a verbal category |
| `ChartModel.TablesMake` | src/horizon_memory/cjk_covariant_span_readout.py:452-473 | the rule tables make each category in exactly the listed ways, by what is made: no other pair or single category makes it |
| `ChartModel.SentencesRead` | src/horizon_memory/cjk_covariant_span_readout.py:452-473 | a noun phrase followed by a verb phrase, by a copula and a noun phrase, by a passive mark with or without an agent and a verb phrase, or by a ba-phrase and a verb phrase reads as a clause |
| `ChartParser.StepShrinksRest` | src/horizon_memory/cjk_covariant_span_readout.py:536-585 | a pass that reports a change strictly shrinks the finite set of bits still missing, so the closure loop ends |
| `ChartParser.Chart.Add` | src/horizon_memory/cjk_covariant_span_readout.py:536-540 | sets one bit, keeps every cell sound, and tells whether the bit was new |
| `ChartParser.Chart.UnaryPass` | src/horizon_memory/cjk_covariant_span_readout.py:559-564 | only adds derivable categories; reporting no change means the chart is closed under the unary rules |
| `ChartParser.Chart.RowPass` | src/horizon_memory/cjk_covariant_span_readout.py:569-585 | combines one snapshot cell with all cells that start where it ends, adding only derivable categories, and all of those unless a budget breaks |
| `ChartParser.Chart.BinaryPass` | src/horizon_memory/cjk_covariant_span_readout.py:565-585 | only adds derivable categories; no change and no budget exit means the chart is closed under the binary rules |
| `ChartParser.Chart.Close` | src/horizon_memory/cjk_covariant_span_readout.py:555-585 | ends with a closed chart unless a budget is exceeded, and never holds an underivable category |
| `ChartParser.RootSpan` | src/horizon_memory/cjk_covariant_span_readout.py:528-533 | the root is the tightest span around all meaningful characters |
| `ChartParser.ParseChart` | src/horizon_memory/cjk_covariant_span_readout.py:523-593 | complete: every cell and the root categories are exactly the derivable ones; the updates are the categories found beyond the leaves; on a budget exit every cell is still sound, no root category is reported and a budget really was exceeded; a hole outside the root is the error case |
| `ChartParser.BudgetSuffices` | src/horizon_memory/cjk_covariant_span_readout.py:555-585 | budgets that cover all derivable categories beyond the leaves and all their spans are never reported exhausted |
| `TextParser.TokensOfferText` | src/horizon_memory/cjk_covariant_span_readout.py:542-549 | the leaves of the parse are exactly the candidate words of the text itself inside the root, not separators and clear of the hole, under their categories |
| `TextParser.ParseText` | src/horizon_memory/cjk_covariant_span_readout.py:523-593 | refuses exactly the bad inputs and lattices over the cell budget; otherwise the root is the tightest span of meaningful characters and the chart by the fixed tables is sound, and exact when complete, for the words the text offers |
| `TextParser.ClauseHasVerb` | src/horizon_memory/cjk_covariant_span_readout.py:446-593 | a text read as a clause or verb phrase offers a verb or a copula inside the root and clear of the hole |
| `TextParser.PlainTextsRead` | src/horizon_memory/cjk_covariant_span_readout.py:523-593 | a complete parse of a text that offers a noun and then a verb, or a noun, a copula and a noun, reports the clause at the root |
| `LatticeModel.PathsAreChains` | src/horizon_memory/cjk_covariant_span_readout.py:799-835 | the enumerated paths are exactly the gap-free token sequences to the end of the source |
| `LatticeModel.BoundaryMoves` | src/horizon_memory/cjk_covariant_span_readout.py:844-851 | moving a boundary through the source conserves the number of complete paths crossing it |
| `LatticeModel.ForwardEqualsEnumeration` | src/horizon_memory/cjk_covariant_span_readout.py:810-860 | counting forward over positions gives the number of paths that backtracking enumerates |
| `LatticeCounting.Enumerator.Visit` | src/horizon_memory/cjk_covariant_span_readout.py:820-832 | appends the continuations of a path in depth-first order as far as the budget lasts, and records whether some were dropped |
| `LatticeCounting.EnumeratePaths` | src/horizon_memory/cjk_covariant_span_readout.py:810-835 | complete iff all paths fit the budget; otherwise exactly the first ones in depth-first order |
| `LatticeCounting.ForwardCounts` | src/horizon_memory/cjk_covariant_span_readout.py:844-851 | at every position the table holds the smaller of the true path count and one past the budget |
| `LatticeCounting.BackwardReach` | src/horizon_memory/cjk_covariant_span_readout.py:852-855 | a position is marked iff at least one path leads from it to the end |
| `LatticeCounting.OnCompletePath` | src/horizon_memory/cjk_covariant_span_readout.py:856-858 | a token has a reachable start and a live end iff it lies on a complete path |
| `LatticeCounting.Summarize` | src/horizon_memory/cjk_covariant_span_readout.py:838-860 | path count is the true count capped at the budget, saturated iff it was exceeded, reachable ids are exactly the allowed tokens on complete paths, ascending |
| `LatticeCounting.CompareForms` | src/horizon_memory/cjk_covariant_span_readout.py:810-860 | for one budget and filter, the count is the number of enumerated paths, saturation is the negation of completeness, and on complete enumerations the reachable tokens are those the paths use |
| `LatticeBuilder.OfferedEnds` | src/horizon_memory/cjk_covariant_span_readout.py:775-788 | the ends on offer at a position are exactly those of the single character and, unless it is a separator, of the bounded lexicon words |
| `LatticeBuilder.TokensBeforeAscend` | src/horizon_memory/cjk_covariant_span_readout.py:789-796 | the tokens are produced in strictly ascending order of identity, so none is listed twice |
| `LatticeBuilder.BuildLattice` | src/horizon_memory/cjk_covariant_span_readout.py:767-796 | refuses exactly invalid input and lattices over the token budget; otherwise the tokens are exactly the candidates, every character keeps its own token, there is a complete segmentation, and every token lies on one |
| `LatticeBuilder.BuiltTokensAllReachable` | src/horizon_memory/cjk_covariant_span_readout.py:767-796 | when every character has its own token, every token of the unfiltered lattice lies on a complete path |
| `ClaimPath.FrontierCovers` | src/horizon_memory/_eop_claims.py:270-294 | skipping settled claims loses nothing: any bounded simple path to an unsettled claim is matched by a queued state that is no worse |
| `ClaimPath.SettleOptimal` | src/horizon_memory/_eop_claims.py:276-288 | the state popped for a new claim is the least by hops, penalties and ids among all its simple bounded paths |
| `ClaimPath.PopLeast` | src/horizon_memory/_eop_claims.py:276-277 | removes one least state from the queue |
| `ClaimPath.ShortestClaimPath` | src/horizon_memory/_eop_claims.py:270-294 | returns the least (hops, penalties, ids) among all simple paths of at most twelve edges, and the empty tuple iff there is none |
| `ClaimPath.WalkShortens` | src/horizon_memory/_eop_claims.py:270-294 | any walk contains a simple path with the same ends and no more steps |
| `ClaimPath.NoPathMeansNoWalk` | src/horizon_memory/_eop_claims.py:270-294 | an empty answer rules out even walks with repetitions within twelve steps |
| `ClaimPath.PenaltyCounts` | src/horizon_memory/_eop_claims.py:266-267 | a path's penalty is two for every negative claim after its start and one for every modal one |
| `ClaimEdges.CeilSqrt` | src/horizon_memory/_eop_claims.py:226 | the fiber bound is the least number whose square reaches the number of claims |
| `ClaimEdges.CountMentions` | src/horizon_memory/_eop_claims.py:220-225 | counts for each anchor the claims mentioning it |
| `ClaimEdges.BuildClaimEdges` | src/horizon_memory/_eop_claims.py:220-237 | a pair is bound by exactly the anchors both claims mention and that few enough, but at least two, claims mention |
| `ClaimEdges.JoinedIffShared` | src/horizon_memory/_eop_claims.py:220-237 | claims are neighbours iff they share such an anchor |
| `ClaimObligations.ScorePositive` | src/horizon_memory/_eop_claims.py:246-252 | the coverage score is positive iff lexical terms, anchors or relations overlap, the claim is asserted, or the polarities agree |
| `ClaimObligations.ScoreByPoints` | src/horizon_memory/_eop_claims.py:246-252 | claims rank by whole points: twenty times the shared words, and per word of the ask seven for an anchor, three for a relation or an assertion, two for the polarity |
| `ClaimObligations.SharingMoreWins` | src/horizon_memory/_eop_claims.py:246-252 | a claim that counts for as much on every channel ranks no lower, and higher as soon as one channel counts for more; one anchor more wins against two relations, and against assertion and polarity together |
| `ClaimObligations.EntailsCloses` | src/horizon_memory/_eop_claims.py:240-252 | when two asks are both negative, or both positive and the first one's terms, anchors and relations are among the second one's, every claim that closes the first closes the second |
| `ClaimObligations.TellingTells` | src/horizon_memory/_eop_claims.py:240-252 | that condition is exact: whenever it fails, some claim closes the first ask and not the second |
| `ClaimObligations.CompileAll` | src/horizon_memory/_eop_claims.py:328-339 | the loop compiles the question's obligations and then each intent's, and keeps for every identity the source fiber of its last obligation |
| `ClaimObligations.DistinctIntentsSuffice` | src/horizon_memory/_eop_claims.py:179-180 | distinct intent identities, none that of the question, make all obligation identities distinct; a question alone does too |
| `ClaimSelection.BestRow` | src/horizon_memory/_eop_claims.py:355-369 | finds a fitting compatible claim of positive score that no other fitting one beats, and none iff there is none |
| `ClaimSelection.GreaterTupleBeats` | src/horizon_memory/_eop_claims.py:366-369 | one row beats another exactly when its tuple of points, assertion, brevity, source and span is the greater one in tuple order |
| `ClaimComposer.Composer.ChooseWitness` | src/horizon_memory/_eop_claims.py:355-382 | the chosen claim is a fitting one that no other fitting one beats by score, assertion, brevity, source and span, and it is selected; no claim is chosen only when none that may close the obligation fits any more, and then nothing changes |
| `ClaimComposer.Composer.ChooseWitnesses` | src/horizon_memory/_eop_claims.py:355-382 | whatever the identities: the obligations are met in order, each with its best fitting claim behind the claims selected before it, selected then unless it already is; a later obligation overwrites the seed of its identity; an identity stays open only when no claim that may close any of its obligations fits what is left of the budgets |
| `ClaimComposer.Composer.ClosePath` | src/horizon_memory/_eop_claims.py:399-409 | selects the inner claims of a proof path in order as far as the budgets allow and nothing else: one is left out only if it does not fit, and failure is reported iff one is left out |
| `ClaimSelection.BestPathUnique` | src/horizon_memory/_eop_claims.py:270-294 | two claims have at most one best proof path |
| `ClaimComposer.Connect` | src/horizon_memory/_eop_claims.py:388-409 | every claim it selects stands on the best proof path between two seeds and is selected at its place, in the order of the pairs and paths, when every claim at an earlier place is selected or did not fit; without context intents, failure is reported iff some pair of seeds has no proof path or its best one is not wholly selected |
| `ClaimComposer.AuthorityIffSelected` | src/horizon_memory/_eop_claims.py:297-308 | verbatim selections authorize themselves: the authority check fails only on an empty selection |
| `ClaimComposer.SeedsAllJoined` | src/horizon_memory/_eop_claims.py:383-409 | joining the seeds in one direction joins the witnesses of every two obligations in both |
| `ClaimComposer.ExtrasOnPaths` | src/horizon_memory/_eop_claims.py:383-409 | every claim of an answer beyond the witnesses stands between two seeds of the question on their best proof path |
| `ClaimComposer.FewSeedsNoExtras` | src/horizon_memory/_eop_claims.py:383-409 | with fewer than two seeds of the question the answer is exactly the witnesses |
| `ClaimComposer.SeedWitnesses` | src/horizon_memory/_eop_claims.py:363-382 | the seed kept for an identity is a claim that may close some obligation of that identity |
| `ClaimComposer.ResolvedIsWitnessed` | src/horizon_memory/_eop_claims.py:354-427 | in a resolved run whose obligations share no identity every obligation has its own seed among the selected claims, one that may close it |
| `ClaimComposer.ResolvedIsJoined` | src/horizon_memory/_eop_claims.py:383-427 | in a resolved run without context intents every obligation has its witness and any two seeds are joined, in both directions, by at most twelve edges inside the selection |
| `ClaimComposer.Compose` | src/horizon_memory/_eop_claims.py:311-427 | whatever the identities: claims and bytes stay within budget; the witnesses are the best fitting claims, obligation by obligation; behind them stand only inner claims of best proof paths between seeds of the question, in the order of the paths; the unresolved list names in order the identities without a seed and then, without context intents, the connection iff the best path of some pair is missing or not wholly selected; what is left open or out had no room; abstained iff no claim could close any obligation within the budgets; resolved iff something is selected and nothing unresolved. Resolved without shared identities means a selected witness for every obligation, and without context intents also that every two witnesses of the question are joined inside the selection |
| `ClaimDeterminism.ComposeIsDetermined` | src/horizon_memory/_eop_claims.py:311-427 | these promises leave exactly one answer for a question, intents, claims and budgets, given that claims of one source begin at different places |
| `ClaimReliability.VouchedIsServed` | src/horizon_memory/_eop_claims.py:311-427 | in a resolved run an obligation is served by a selected claim from its own sources if some identity vouches for it: all obligations of that identity entail it, and it allows the sources kept for that identity |
| `ClaimReliability.ResolvedServesIffUnambiguous` | src/horizon_memory/_eop_claims.py:311-427 | if every obligation has a vouching identity, every resolved run over any claims and budgets serves every obligation; if one has none, there are claims and budgets on which every run is resolved and leaves an obligation unserved |
| `ClaimReliability.MisleadingRun` | src/horizon_memory/_eop_claims.py:311-427 | in the second case such a run exists: the composer itself, on those claims, resolves and leaves an obligation unserved |
| `ClaimReliability.SharedIntentId` | src/horizon_memory/_eop_claims.py:330-337 | two intents with one identity and one claim: every run is resolved, and neither intent's obligation is served |
| `ClaimReliability.DistinctIntentsAreSafe` | src/horizon_memory/_eop_claims.py:311-427 | with distinct intent identities, none the question's, every resolved answer serves every obligation |
| `Constellation.SharedDeltas` | lab/constellation_constraints.py:88-103 | each generator keeps exactly the deltas that every one of its edges can realize |
| `Constellation.EmptyDeltaIffEqual` | lab/constellation_constraints.py:50-58 | the delta is empty exactly between equal charges |
| `Constellation.DeltaCarriesOver` | lab/constellation_constraints.py:50-58 | writing a delta's second texts into the left charges gives the right ones, and its first texts into the right charges the left ones, exactly when every dash among the charges to be reached stands in those started from too; a dash stands for a missing field |
| `Constellation.DeltaIsLeast` | lab/constellation_constraints.py:50-58 | whatever rewriting turns the left charges into the right ones touches every field of the delta |
| `Constellation.DeltaDetermines` | lab/constellation_constraints.py:50-58 | from one left candidate equal deltas mean equal right charges |
| `Constellation.DashConfused` | lab/constellation_constraints.py:50-58 | with a charge that is the dash itself two different candidates can have the same delta |
| `Constellation.PartSurvives` | lab/constellation_constraints.py:105-129 | a candidate of a self-supported part passes every in-place filter |
| `Constellation.FilterPass` | lab/constellation_constraints.py:105-129 | a pass keeps every self-supported part, ends unchanged only at a self-supported point, and a question it empties refutes the instance |
| `Constellation.SolutionIsSupported` | lab/constellation_constraints.py:61-139 | one candidate a question and one delta a generator meeting all edges is a self-supported part |
| `Constellation.SolutionSurvives` | lab/constellation_constraints.py:61-139 | every global solution lies within whatever is above all self-supported parts |
| `Constellation.NothingShared` | lab/constellation_constraints.py:96-103 | a generator left without a shared delta means that no self-supported part has a candidate for every question |
| `Constellation.NobodySupported` | lab/constellation_constraints.py:119-127 | a question left without a supported candidate means that no self-supported part has a candidate for every question |
| `Constellation.GreatestIsUnique` | lab/constellation_constraints.py:61-139 | the greatest self-supported part is unique |
| `Constellation.NoPartNoSolution` | lab/constellation_constraints.py:61-139 | without a self-supported part that has a candidate for every question there is no solution |
| `Constellation.Propagate` | lab/constellation_constraints.py:61-139 | conflict iff no self-supported part has a candidate for every question, and then there is no solution; otherwise the domains are the greatest self-supported ones and resolved iff all are singletons; at most one pass more than the candidates that can be lost |
| `Constellation.OrderDoesNotMatter` | lab/constellation_constraints.py:61-139 | two runs over the same instance, in whatever order they visit, end in the same state and short of a conflict with the same domains and deltas |
| `Constellation.ResolvedIsUniqueSolution` | lab/constellation_constraints.py:130-139 | a settled result is a solution meeting every edge, and the only one |
| `TermModel.SortPairs` | src/horizon_memory/authorized_semantic_hypergraph.py:54-65 | the canonical edge list is sorted and keeps the multiset of edges |
| `TermModel.SortIgnoresOrder` | src/horizon_memory/authorized_semantic_hypergraph.py:54-65 | two edge lists have one canonical form iff they are reorderings of each other |
| `TermTrees.ReferenceFaithful` | src/horizon_memory/authorized_semantic_hypergraph.py:54-65 | with an injective digest two terms have equal references iff they are equal up to reordering typed edges at every node |
| `Hypergraph.Defect` | src/horizon_memory/authorized_semantic_hypergraph.py:339-360 | a node passes iff its operator, roles and arity obey the operator laws |
| `Hypergraph.TypedByRoles` | src/horizon_memory/authorized_semantic_hypergraph.py:337-350 | the operator laws by the roles alone: one head and one modifier, one entity and one quantifier, at least two members and nothing else, or distinct edges with a bundle's roles |
| `Hypergraph.UnfoldingUnique` | src/horizon_memory/authorized_semantic_hypergraph.py:325-368 | an identity denotes at most one finite term, so memoization order cannot matter |
| `Hypergraph.UnfoldingMeansAcyclic` | src/horizon_memory/authorized_semantic_hypergraph.py:325-371 | when every identity denotes a finite term there is no cycle and no dangling child |
| `Hypergraph.AssembledRef` | src/horizon_memory/authorized_semantic_hypergraph.py:351-361 | the digest over the references of the sorted children and of the operator symbol is the reference of the term assembled from them |
| `Hypergraph.NodesBelowSplit` | src/horizon_memory/authorized_semantic_hypergraph.py:351-352 | the nodes below a node are the node itself and those below its children, as the recursion visits them |
| `Hypergraph.ClosedHoldsBelow` | src/horizon_memory/authorized_semantic_hypergraph.py:326-329 | when the computed nodes are closed under children, everything below a computed node is computed, so a memoized hit hides no depth |
| `Hypergraph.TooDeepChain` | src/horizon_memory/authorized_semantic_hypergraph.py:334-335 | a depth error from a top-level node means a chain of more nodes than the limit that starts at that node and meets no smaller identity |
| `Hypergraph.Builder.ComputeNode` | src/horizon_memory/authorized_semantic_hypergraph.py:325-368 | a computed reference is that of the term the identity denotes, equals a declared key, and no earlier reference changes; on success exactly the nodes below are newly computed; the depth error is raised only when the nodes not yet computed run deeper than the remaining levels, and then success is impossible; every other error names a defect the graph really has: a cycle, a dangling child, a broken operator law, a missing symbol or a key that is not the node's reference |
| `HypergraphContract.ComputeNext` | src/horizon_memory/authorized_semantic_hypergraph.py:370-371 | one step of the loop over the sorted nodes: before it exactly everything below the smaller identities is computed, after it everything below this one too, unless it names a defect |
| `HypergraphContract.ComputeAll` | src/horizon_memory/authorized_semantic_hypergraph.py:370-371 | without failure every declared identity denotes a finite term carrying its reference and no node runs over the depth limit in the order of computation; a failure names a defect of the graph's terms |
| `HypergraphContract.ResolveEvent` | src/horizon_memory/authorized_semantic_hypergraph.py:374-407 | accepts an event iff its symbols, roles and properties obey the laws and everything it names has a reference, and then files the digest over those references, with the digest of its polarity and modalities and its properties; an error names the defect of that event, malformed or naming an undeclared term |
| `HypergraphContract.ResolveEvents` | src/horizon_memory/authorized_semantic_hypergraph.py:373-407 | without failure every event obeys the role laws and carries the digest over the references of everything it names; a failure names a malformed event or a dangling term of the graph |
| `HypergraphContract.Marker.Mark` | src/horizon_memory/authorized_semantic_hypergraph.py:412-425 | marks an identity and closes the marks under naming, marking only what events reach |
| `HypergraphContract.MarkAll` | src/horizon_memory/authorized_semantic_hypergraph.py:427-434 | the marked identities are exactly those reachable from some event |
| `HypergraphContract.FindOrphan` | src/horizon_memory/authorized_semantic_hypergraph.py:409-437 | reports an orphan iff declared and reachable identities differ |
| `HypergraphContract.OrphanExists` | src/horizon_memory/authorized_semantic_hypergraph.py:434-437 | the orphan error is raised only when some declared identity and reachability really differ |
| `HypergraphContract.FromContract` | src/horizon_memory/authorized_semantic_hypergraph.py:299-446 | exactly the graphs without defect are accepted and every error names a defect that is there; an accepted graph is within the object budgets and has symbols, nodes and events, a finite term, its reference, true keys and well-typed operators everywhere, events that obey their laws and carry their references, and declares exactly what its events reach |
| `HypergraphContract.AcceptedHasNoDefect` | src/horizon_memory/authorized_semantic_hypergraph.py:299-446 | an accepted graph has none of the defects the errors name, the depth error included |
| `HypergraphContract.AcceptedIsFaithful` | src/horizon_memory/authorized_semantic_hypergraph.py:325-437 | in an accepted graph two identities share a reference iff they denote the same term up to edge order, and the term graph is acyclic with nothing dangling |
| `HypergraphContract.AcceptedIsUsed` | src/horizon_memory/authorized_semantic_hypergraph.py:409-437 | an accepted graph declares exactly what its events use: an identity is declared iff it is an event's predicate, modality or temporal relation, or stands in one of an event's terms |
| `EventIdentity.EventsFaithful` | src/horizon_memory/authorized_semantic_hypergraph.py:373-407 | in an accepted graph two events share a reference iff their predicate symbols, polarities, sets of modality symbols and properties are equal and their roles and temporal modifiers match up to order with equal terms |
| `EventIdentity.EventsApart` | src/horizon_memory/authorized_semantic_hypergraph.py:396-406 | no event shares its reference with a leaf, a symbol or a node |
| `HypergraphContract.LeafWitnesses` | src/horizon_memory/authorized_semantic_hypergraph.py:190-208 | readout of an accepted identity ends without error with exactly the terminals reachable through its edges |
| `EditDistance.RollingDistance` | lab/runners/probe_d29_question_constellations.py:48-59 | two rolling rows compute the distance |
| `EditDistance.DistanceIsLeastCost` | lab/runners/probe_d29_question_constellations.py:48-59 | the distance is the least cost of any insert, delete and replace script, and some script attains it |
| `EditDistance.ZeroIffEqual` | lab/runners/probe_d29_question_constellations.py:48-59 | the distance is zero iff the sequences are equal |
| `EditDistance.Symmetric` | lab/runners/probe_d29_question_constellations.py:48-59 | the distance is symmetric |
| `EditDistance.Compose` | lab/runners/probe_d29_question_constellations.py:48-59 | two scripts in a row make one that costs no more than both |
| `EditDistance.Triangle` | lab/runners/probe_d29_question_constellations.py:48-59 | the triangle inequality |
| `EditDistance.NearestPeer` | lab/runners/probe_d29_question_constellations.py:78-86 | finds a single nearest differing item exactly when there is a unique one |
| `EditDistance.MutualUniqueNearest` | lab/runners/probe_d29_question_constellations.py:76-91 | the edges are exactly the pairs that are each other's unique nearest differing item, with their distance |
| `EditDistance.PairsAreMatching` | lab/runners/probe_d29_question_constellations.py:76-91 | no index occurs in two edges |
| `ConservedFlux.CountsAddUp` | src/horizon_memory/conserved_flux.py:41-63 | the admissions of all modes add up to the length of the selection |
| `ConservedFlux.FluxRun.Slot` | src/horizon_memory/conserved_flux.py:46-57 | one slot admits the first candidate of its mode that is neither excluded nor selected, or finds that there is none, keeping fairness and the order of the turns |
| `ConservedFlux.FluxRun.Round` | src/horizon_memory/conserved_flux.py:45-61 | a round either admits something or nothing is left in any scheduled mode |
| `ConservedFlux.FairIsConserved` | src/horizon_memory/conserved_flux.py:44-61 | a mode never exceeds its slots times the started rounds, and one that still has something got all of its full rounds |
| `ConservedFlux.Select` | src/horizon_memory/conserved_flux.py:29-63 | no duplicate and no excluded fact; each fact charged to a mode listing it, the first one that mode still had when its turn came, and the turns in between found their modes with nothing left; a short result means nothing is left in any scheduled mode; shares are fair in both directions |
| `ConservedFlux.SelectionIsDetermined` | src/horizon_memory/conserved_flux.py:41-63 | these laws leave exactly one selection and one count for every mode |
| `ConservedFlux.FirstAdmission` | src/horizon_memory/conserved_flux.py:45-57 | the first admission is the first candidate that is not excluded of the first scheduled mode that has one |
| `ConservedFlux.ModeKeepsOrder` | src/horizon_memory/conserved_flux.py:47-50 | a mode's facts are admitted in the order in which it lists them |
| `Filtering.WithoutInOrder` | src/horizon_memory/conserved_flux.py:88-90 | filtering keeps every fact outside the set, at its turn and as often as it is listed |
| `CoreHaloFlux.CoreFromFront` | src/horizon_memory/conserved_flux.py:83-85 | the core takes the facts of the core mode that are not excluded from the front, as many as the width and the limit allow |
| `CoreHaloFlux.HaloJoins` | src/horizon_memory/conserved_flux.py:88-95 | the halo over the core-free modes joins the core without doubling and leaves nothing behind |
| `CoreHaloFlux.ChargesJoin` | src/horizon_memory/conserved_flux.py:91-94 | charging the core to its mode on top of the halo accounts for every fact |
| `CoreHaloFlux.SelectCoreHalo` | src/horizon_memory/conserved_flux.py:76-95 | the exact acceptance condition; the protected core comes first and the laws of the selection hold iff the core lists no fact twice; the halo shares are fair in both directions over the modes without the core; admissions count the facts of each mode |
| `CoreHaloFlux.DeduplicatedCoreFirst` | src/horizon_memory/conserved_flux.py:83-95 | a core mode that lists no fact twice is enough for every law |
| `CoreHaloFlux.DoubledFact` | src/horizon_memory/conserved_flux.py:83-95 | two concrete inputs are accepted with a doubled fact, one by each of the two routes |
| `ErrorCorrection.GroupObservations` | lab/error_correcting_tomography.py:47-50 | groups the observations by evidence group, each group in observation order |
| `ErrorCorrection.DistanceTriangle` | lab/error_correcting_tomography.py:53-66 | two codewords are at most as far apart as their distances to the evidence together |
| `ErrorCorrection.DistancesCount` | lab/error_correcting_tomography.py:47-66 | the distances count the groups of the observations that contradict a codeword, or separate two, each group once |
| `ErrorCorrection.ZeroIffAgree` | lab/error_correcting_tomography.py:58-66 | two codewords are at distance zero iff they agree on every observed field |
| `ErrorCorrection.OneMoreObservation` | lab/error_correcting_tomography.py:47-66 | an observation that separates adds one to the distance if its group did not separate before, and nothing otherwise |
| `ErrorCorrection.EvidenceAsCodeword` | lab/error_correcting_tomography.py:53-66 | when the evidence reads exactly as one codeword does, every codeword is as far from the evidence as from that codeword |
| `ErrorCorrection.OthersAreFarther` | lab/error_correcting_tomography.py:88-114 | if one codeword is within a supported radius every other one is beyond the whole correctable radius |
| `ErrorCorrection.CorrectableIsLargest` | lab/error_correcting_tomography.py:91-92 | a radius is supported iff it is at most the reported one and the codebook is separated at all |
| `ErrorCorrection.NearestIsAlone` | lab/error_correcting_tomography.py:100-114 | within the supported radius the nearest codeword is alone, so the tie branch is dead |
| `ErrorCorrection.Decode` | lab/error_correcting_tomography.py:69-117 | rejection, codebook conflict, open, conflict and resolved are each characterized; resolved iff the separation supports the radius and some codeword is inside it, and then it is the only one within the reported radius; never tied |
| `ErrorCorrection.SentIsRecovered` | lab/error_correcting_tomography.py:88-117 | a codeword wrong in at most the requested number of groups comes back when all pairs are separated enough |
| `ErrorCorrection.MergingNeverSeparates` | lab/error_correcting_tomography.py:53-66 | declaring evidence groups to be one never increases a distance to the evidence or between codewords |
| `SimpleMrsScanner.ScanBlock` | src/horizon_memory/erg_mrs_structural.py:24-46 | the character loop equals the depth, quote and escape automaton from the marker |
| `SimpleMrsScanner.ExtractBlocks` | src/horizon_memory/erg_mrs_structural.py:17-52 | the marker loop equals the extraction function, and the unbalanced-bracket error is never raised |
| `SimpleMrsScanner.NeverUnbalanced` | src/horizon_memory/erg_mrs_structural.py:44-45 | the negative-depth branch is unreachable because a block starts with a bracket |
| `SimpleMrsScanner.BlockScansToItsEnd` | src/horizon_memory/erg_mrs_structural.py:28-46 | scanning a rendered nested, quoted and escaped block ends exactly behind it |
| `SimpleMrsScanner.ScannedIsBlock` | src/horizon_memory/erg_mrs_structural.py:23-49 | whatever is cut out at a marker is a bracket-balanced, quote- and escape-aware block that holds the whole marker |
| `SimpleMrsScanner.GapHidesNoMarker` | src/horizon_memory/erg_mrs_structural.py:23 | no marker can begin in a marker-free gap and end in the block behind it |
| `SimpleMrsScanner.RoundTrip` | src/horizon_memory/erg_mrs_structural.py:17-52 | marker-free gaps interleaved with blocks are split back into exactly those blocks |
| `SimpleMrsScanner.ExtractionIsLayout` | src/horizon_memory/erg_mrs_structural.py:17-52 | conversely, a successful extraction shows the text to be such a layout of the returned blocks |
| `GreedyMatching.SharedIsomorphicCount` | src/horizon_memory/erg_mrs_structural.py:73-84 | the greedy count is the size of a one-to-one isomorphic matching, and no matching is larger when isomorphism is an equivalence |
| `GreedyMatching.GreedyIsMaximum` | src/horizon_memory/erg_mrs_structural.py:73-84 | any other matching maps injectively into the greedy one |
| `ConformalRouting.BisectRight` | src/horizon_memory/conformal_routing.py:86-87 | the insertion point separates the scores at most the tested one from those above it |
| `ConformalRouting.LeftOutPValue` | src/horizon_memory/conformal_routing.py:86-88 | the p-value of a left-out score is its rank among all n + 1 scores over n + 1 |
| `ConformalRouting.ExceedsMeans` | src/horizon_memory/conformal_routing.py:145-146 | comparing counts by cross-multiplication is comparing the quotient with epsilon |
| `ConformalRouting.Coverage` | src/horizon_memory/conformal_routing.py:86-88 | of n + 1 scores each tested against the sorted others, at most the whole part of epsilon (n + 1) are excluded |
| `ConformalRouting.PValueMonotone` | src/horizon_memory/conformal_routing.py:86-88 | the p-value never falls as the score rises |
| `ConformalRouting.IncludedIsPrefix` | src/horizon_memory/conformal_routing.py:139-150 | on a best-first ranking the inclusion test keeps a prefix, so the candidate bound keeps the highest scores |
| `RateLimit.TokenBucket.Allow` | api/rate_limit.py:52-60 | refills by the elapsed time up to the capacity and spends one token iff one is there |
| `RateLimit.StepKeepsTable` | api/rate_limit.py:70-80 | after a call the table is within its bound and the called key is in it, youngest |
| `RateLimit.RateLimiter.Allow` | api/rate_limit.py:70-81 | the ordered table of bucket objects changes exactly as the call on its abstract table says, and the verdict is that of the called key's bucket |
| `RateLimitRuns.KeySurvives` | api/rate_limit.py:72-79 | over any sequence of calls a key stays tracked until at least 10000 distinct other keys have been called since |
| `RateLimitRuns.WindowBound` | api/rate_limit.py:43-81 | in any window starting with a call of the key, while its bucket is not evicted, the allowed calls are at most the capacity plus the rate times the elapsed time, however many other keys call |
| `RateLimitRuns.AllowedIffRoom` | api/rate_limit.py:43-81 | the exact law: a call is allowed iff, in every window of its key's calls over which the key was not evicted, one more call is within the capacity plus what has flowed in |
| `RateLimitRuns.RoomAtRate` | api/rate_limit.py:43-60 | what has flowed in over a window is the rate times its elapsed time |
| `RateLimitRuns.KeepsCallingNotEvicted` | api/rate_limit.py:70-81 | a key is not evicted as long as fewer than 10000 distinct other keys call between any call and its own latest one before it, however many call altogether |
| `RateLimitRuns.SteadyCallerBound` | api/rate_limit.py:43-81 | the rate law for a key that keeps calling, read off the calls alone |
| `RateLimitRuns.SpacedNeverRefused` | api/rate_limit.py:43-81 | with capacity at least one, calls spaced far enough for one token are never refused, evicted or not |
| `RankMerging.ProtectedRankMerge` | src/horizon_memory/conversational_recall.py:149-167 | each id of both lists once; first the protected primary prefix, then as many reserve ids as the quota leaves room for, in order and at least the reserve when available, then the rest of the primary list and the rest of the reserve list, each in order; the argument errors exactly |
| `RankMerging.ReciprocalRankFusion` | src/horizon_memory/conversational_recall.py:130-146 | the union of the rankings, each id once, in the order of the sort key; rejected exactly on a bad constant, no ranking or a repeated id |
| `RankMerging.KeyIsStrictOrder` | src/horizon_memory/conversational_recall.py:141-146 | the sort key with its tie rules orders any two ids strictly |
| `RankMerging.DominantPrecedes` | src/horizon_memory/conversational_recall.py:130-146 | an id ahead of another in every ranking that contains the other precedes it in the fusion |
| `RankMerging.ConsensusPrecedes` | src/horizon_memory/conversational_recall.py:141-146 | an id that m rankings put at rank r or better precedes one that n rankings list, never better than at rank s, whenever m / (k + r) > n / (k + s) |
| `RankMerging.BestRankIsLeast` | src/horizon_memory/conversational_recall.py:143 | the first tie rule compares the least rank, missing ones counted as the sentinel |
| `RankMerging.TiesBreak` | src/horizon_memory/conversational_recall.py:141-146 | of two ids with equal scores the one with the better best rank precedes; with equal best ranks, the one ahead in the first ranking that tells them apart |
| `RankMerging.RanksTellApart` | src/horizon_memory/conversational_recall.py:141-146 | some ranking always tells two fused ids apart, so the id itself never decides |

## Left out

- Problem and graph identity hashes (`canonical_sha256`, transport signatures): an injective digest stands for hashing.
- Lexicon, regular expressions and character classes are parameters: which characters are spaces and punctuation, which words the lexicon knows, and which categories a word's tags and surface give it. Part-of-speech tags are not carried by the tokens.
- `ClaimComposer.Compose`: no rendering of the answer text, no list of the edges inside the answer and no extraction of claims; the question and the intents are given as the clauses their texts compile to, and that an intent's sources are known and its digest true is not modelled. Scores are exact reals.
- `HypergraphContract.FromContract`: the verification of leaves and symbols against the source text, the spelling of identifiers and the completeness flag of the analysis are not modelled.
- `HypergraphContract.LeafWitnesses`: the payload that `readout` expands beside the witnesses is not modelled.
- `ConformalRouting.Coverage`: floating-point rounding of the quotient is not modelled; the comparison with epsilon is exact.
- `RankMerging.DominantPrecedes`: reciprocal scores are exact reals, so ties created by floating-point rounding are not modelled.
- `RateLimit.RateLimiter.Allow`: the lock is not modelled (calls are sequential, as the lock makes them), nor are logging, `reset` and reading the capacity from the environment.
- `SimpleMrsScanner.ExtractBlocks`: UTF-8 decoding and the decoding of blocks into structures are not part of this model.
- `expand_session_neighbors`, `stable_speaker_partition` and the calendar and morphology stages of conversational recall.
- The durable storage engine, HTTP and MCP servers, authentication, regular-expression readers, floating-point rankers (BM25, cavity, lineage softmax) and foreign parsers.
- `lab/residual_algebra.py`: its search skips operand pairs, so it is not exhaustive and only simple soundness facts would remain.
