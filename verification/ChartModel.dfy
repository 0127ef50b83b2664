/** Packed chart parsing: the grammar, derivation trees, and what a fixed point contains. */
module ChartModel {
  import opened Options

  datatype Category =
    | A | Adv | Ba | Clause | Conj | Cop | D | H | N | Nba | Nbao | Ncop | Np | Npa | Npass | Npc | NpD
    | P | Pass | Pp | Q | S | Sc | SD | T | V | Vp | VpD | X

  datatype UnaryRule = UnaryRule(source: Category, targets: seq<Category>)
  datatype BinaryRule = BinaryRule(left: Category, right: Category, targets: seq<Category>)
  datatype Grammar = Grammar(unary: seq<UnaryRule>, binary: seq<BinaryRule>)

  /** Phrases: modifiers, prepositions, verbs with their complements. */
  function PhraseRules(): seq<BinaryRule> {
    [BinaryRule(A, Np, [Np]), BinaryRule(Q, N, [Np]), BinaryRule(Np, N, [Np]), BinaryRule(N, Np, [Np]),
     BinaryRule(Np, D, [NpD]), BinaryRule(NpD, Np, [Np]), BinaryRule(P, Np, [Pp]), BinaryRule(Pp, Vp, [Vp])]
  }

  function VerbRules(): seq<BinaryRule> {
    [BinaryRule(V, Np, [Vp]), BinaryRule(V, Pp, [Vp]), BinaryRule(Vp, Pp, [Vp]), BinaryRule(Adv, Vp, [Vp]),
     BinaryRule(Vp, D, [Vp, VpD]), BinaryRule(Vp, Vp, [Vp]), BinaryRule(S, Vp, [S]), BinaryRule(Adv, S, [S])]
  }

  function ClauseRules(): seq<BinaryRule> {
    [BinaryRule(VpD, Np, [Np]), BinaryRule(S, D, [SD]), BinaryRule(SD, Np, [Np]), BinaryRule(Np, Vp, [S]),
     BinaryRule(Np, Cop, [Ncop]), BinaryRule(Ncop, Np, [S]), BinaryRule(Np, Pass, [Npass]), BinaryRule(Npass, Vp, [S])]
  }

  function AgentRules(): seq<BinaryRule> {
    [BinaryRule(Npass, Np, [Npa]), BinaryRule(Npa, Vp, [S]), BinaryRule(Np, Ba, [Nba]), BinaryRule(Nba, Np, [Nbao]),
     BinaryRule(Nbao, Vp, [S]), BinaryRule(Np, Conj, [Npc]), BinaryRule(Npc, Np, [Np])]
  }

  function JoinRules(): seq<BinaryRule> {
    [BinaryRule(S, Conj, [Sc]), BinaryRule(Sc, S, [S]), BinaryRule(Np, Pp, [Np]), BinaryRule(Np, A, [Np]),
     BinaryRule(Q, Np, [Np]), BinaryRule(Np, Q, [Np])]
  }

  /** The fixed rule tables of the parser, in their order. */
  function HdcaGrammar(): Grammar {
    Grammar(
      [UnaryRule(N, [Np]), UnaryRule(T, [Np]), UnaryRule(H, [Np]), UnaryRule(V, [Vp]), UnaryRule(S, [Clause])],
      PhraseRules() + VerbRules() + ClauseRules() + AgentRules() + JoinRules())
  }

  datatype Span = Span(start: nat, end: nat)

  /** A lattice token as the parser sees it: where it is, whether it is a space or punctuation, and
      its lexical categories. */
  datatype Token = Token(span: Span, separator: bool, categories: seq<Category>)

  type Bit = (Span, Category)
  type Masks = map<Span, set<Category>>

  predicate Has(masks: Masks, span: Span, c: Category) {
    span in masks && c in masks[span]
  }

  // ---- What the text admits --------------------------------------------------------------------

  predicate Overlaps(s: Span, hole: Span) {
    s.start < hole.end && s.end > hole.start
  }

  predicate Admits(t: Token, root: Span, hole: Option<Span>) {
    && root.start <= t.span.start && t.span.end <= root.end
    && !t.separator
    && (hole.Some? ==> !Overlaps(t.span, hole.value))
  }

  /** The leaves of derivations: admitted tokens under their categories, and the hole under `H`. */
  ghost function Lexicon(tokens: seq<Token>, root: Span, hole: Option<Span>): set<Bit> {
    (set t, c | t in tokens && Admits(t, root, hole) && c in t.categories :: (t.span, c))
    + if hole.Some? then {(hole.value, H)} else {}
  }

  // ---- Derivations -------------------------------------------------------------------------------

  datatype Tree =
    | Leaf(span: Span, category: Category)
    | One(category: Category, child: Tree)
    | Two(category: Category, left: Tree, right: Tree)

  function SpanOf(t: Tree): Span {
    match t
    case Leaf(span, _) => span
    case One(_, child) => SpanOf(child)
    case Two(_, left, right) => Span(SpanOf(left).start, SpanOf(right).end)
  }

  ghost predicate UnaryStep(g: Grammar, source: Category, target: Category) {
    exists rule :: rule in g.unary && rule.source == source && target in rule.targets
  }

  ghost predicate BinaryStep(g: Grammar, left: Category, right: Category, target: Category) {
    exists rule :: rule in g.binary && rule.left == left && rule.right == right && target in rule.targets
  }

  /** A derivation: leaves from the lexicon, every inner node licensed by a rule, and sisters
      adjacent. */
  ghost predicate Derivation(g: Grammar, lexicon: set<Bit>, t: Tree) {
    match t
    case Leaf(span, c) => (span, c) in lexicon
    case One(c, child) => Derivation(g, lexicon, child) && UnaryStep(g, child.category, c)
    case Two(c, left, right) =>
      && Derivation(g, lexicon, left) && Derivation(g, lexicon, right)
      && SpanOf(left).end == SpanOf(right).start
      && BinaryStep(g, left.category, right.category, c)
  }

  ghost predicate Derivable(g: Grammar, lexicon: set<Bit>, span: Span, c: Category) {
    exists t :: Derivation(g, lexicon, t) && SpanOf(t) == span && t.category == c
  }

  /** The leaves of a tree, left to right. */
  function Leaves(t: Tree): seq<Bit> {
    match t
    case Leaf(span, c) => [(span, c)]
    case One(_, child) => Leaves(child)
    case Two(_, left, right) => Leaves(left) + Leaves(right)
  }

  /** The leaves follow each other without gap or overlap from the start of the span to its end. */
  ghost predicate Tiles(leaves: seq<Bit>, span: Span) {
    && leaves != []
    && leaves[0].0.start == span.start && leaves[|leaves| - 1].0.end == span.end
    && forall i | 0 <= i < |leaves| - 1 :: leaves[i].0.end == leaves[i + 1].0.start
  }

  /** A derivation covers its span exactly, by a gap-free sequence of admitted leaves. */
  lemma {:induction false} DerivationTiles(g: Grammar, lexicon: set<Bit>, t: Tree)
    requires Derivation(g, lexicon, t)
    ensures Tiles(Leaves(t), SpanOf(t))
    ensures forall i | 0 <= i < |Leaves(t)| :: Leaves(t)[i] in lexicon
  {
    match t
    case Leaf(span, c) =>
    case One(c, child) =>
      DerivationTiles(g, lexicon, child);
    case Two(c, left, right) =>
      DerivationTiles(g, lexicon, left);
      DerivationTiles(g, lexicon, right);
  }

  // ---- What the rule tables make -------------------------------------------------------------------

  /** The ways to make a phrase of two parts, by what is made. */
  predicate MadeOf(c: Category, left: Category, right: Category) {
    match c
    case Np => || (right.Np? && (left.A? || left.N? || left.Q? || left.NpD? || left.VpD? || left.SD? || left.Npc?))
               || (left.Np? && (right.N? || right.A? || right.Q? || right.Pp?)) || (left.Q? && right.N?)
    case Pp => left == P && right == Np
    case Vp => || (right.Vp? && (left.Pp? || left.Adv? || left.Vp?))
               || (left.V? && (right.Np? || right.Pp?)) || (left.Vp? && (right.Pp? || right.D?))
    case S => || (right.Vp? && (left.Np? || left.Npass? || left.Npa? || left.Nbao? || left.S?))
              || (right.S? && (left.Adv? || left.Sc?)) || (left.Ncop? && right.Np?)
    case NpD => left == Np && right == D
    case VpD => left == Vp && right == D
    case SD => left == S && right == D
    case Ncop => left == Np && right == Cop
    case Npass => left == Np && right == Pass
    case Npa => left == Npass && right == Np
    case Nba => left == Np && right == Ba
    case Nbao => left == Nba && right == Np
    case Npc => left == Np && right == Conj
    case Sc => left == S && right == Conj
    case _ => false
  }

  /** The ways to make a phrase of one part. */
  predicate MadeFrom(c: Category, source: Category) {
    (c == Np && (source.N? || source.T? || source.H?)) || (c == Vp && source == V) || (c == Clause && source == S)
  }

  predicate RuleSound(rule: BinaryRule) {
    forall c | c in rule.targets :: MadeOf(c, rule.left, rule.right)
  }

  ghost predicate AllSound(rules: seq<BinaryRule>) {
    forall i | 0 <= i < |rules| :: RuleSound(rules[i])
  }

  lemma SoundTogether(a: seq<BinaryRule>, b: seq<BinaryRule>)
    requires AllSound(a) && AllSound(b)
    ensures AllSound(a + b)
  {}

  lemma OneSound(left: Category, right: Category, c: Category)
    requires MadeOf(c, left, right)
    ensures RuleSound(BinaryRule(left, right, [c]))
  {}

  lemma PhrasesSound()
    ensures AllSound(PhraseRules())
  {
    OneSound(A, Np, Np);
    OneSound(Q, N, Np);
    OneSound(Np, N, Np);
    OneSound(N, Np, Np);
    OneSound(Np, D, NpD);
    OneSound(NpD, Np, Np);
    OneSound(P, Np, Pp);
    OneSound(Pp, Vp, Vp);
    hide RuleSound;
  }

  lemma VerbsSound()
    ensures AllSound(VerbRules())
  {
    OneSound(V, Np, Vp);
    OneSound(V, Pp, Vp);
    OneSound(Vp, Pp, Vp);
    OneSound(Adv, Vp, Vp);
    assert RuleSound(BinaryRule(Vp, D, [Vp, VpD]));
    OneSound(Vp, Vp, Vp);
    OneSound(S, Vp, S);
    OneSound(Adv, S, S);
    hide RuleSound;
  }

  lemma ClausesSound()
    ensures AllSound(ClauseRules())
  {
    OneSound(VpD, Np, Np);
    OneSound(S, D, SD);
    OneSound(SD, Np, Np);
    OneSound(Np, Vp, S);
    OneSound(Np, Cop, Ncop);
    OneSound(Ncop, Np, S);
    OneSound(Np, Pass, Npass);
    OneSound(Npass, Vp, S);
    hide RuleSound;
  }

  lemma AgentsSound()
    ensures AllSound(AgentRules())
  {
    OneSound(Npass, Np, Npa);
    OneSound(Npa, Vp, S);
    OneSound(Np, Ba, Nba);
    OneSound(Nba, Np, Nbao);
    OneSound(Nbao, Vp, S);
    OneSound(Np, Conj, Npc);
    OneSound(Npc, Np, Np);
    hide RuleSound;
  }

  lemma JoinsSound()
    ensures AllSound(JoinRules())
  {
    OneSound(S, Conj, Sc);
    OneSound(Sc, S, S);
    OneSound(Np, Pp, Np);
    OneSound(Np, A, Np);
    OneSound(Q, Np, Np);
    OneSound(Np, Q, Np);
    hide RuleSound;
  }

  lemma TablesSound()
    ensures AllSound(HdcaGrammar().binary)
  {
    PhrasesSound();
    VerbsSound();
    ClausesSound();
    AgentsSound();
    JoinsSound();
    hide PhraseRules, VerbRules, ClauseRules, AgentRules, JoinRules, AllSound;
    SoundTogether(PhraseRules(), VerbRules());
    SoundTogether(PhraseRules() + VerbRules(), ClauseRules());
    SoundTogether(PhraseRules() + VerbRules() + ClauseRules(), AgentRules());
    SoundTogether(PhraseRules() + VerbRules() + ClauseRules() + AgentRules(), JoinRules());
  }

  /** The rule that makes the phrase. */
  function RuleFor(left: Category, right: Category, c: Category): BinaryRule {
    BinaryRule(left, right, if left == Vp && right == D then [Vp, VpD] else [c])
  }

  lemma InGroups(rule: BinaryRule)
    ensures rule in PhraseRules() ==> rule in HdcaGrammar().binary
    ensures rule in VerbRules() ==> rule in HdcaGrammar().binary
    ensures rule in ClauseRules() ==> rule in HdcaGrammar().binary
    ensures rule in AgentRules() ==> rule in HdcaGrammar().binary
    ensures rule in JoinRules() ==> rule in HdcaGrammar().binary
  {
    hide PhraseRules, VerbRules, ClauseRules, AgentRules, JoinRules;
  }

  lemma NounRules(left: Category, right: Category)
    requires MadeOf(Np, left, right)
    ensures RuleFor(left, right, Np) in HdcaGrammar().binary
  {
    var rule := RuleFor(left, right, Np);
    InGroups(rule);
    hide HdcaGrammar;
    if left == A || (left == Q && right == N) || (left == Np && right == N) || left == N || left == NpD {
      assert rule in PhraseRules();
    } else if left == VpD || left == SD {
      assert rule in ClauseRules();
    } else if left == Npc {
      assert rule in AgentRules();
    } else {
      assert rule in JoinRules();
    }
  }

  lemma VerbPhraseRules(left: Category, right: Category)
    requires MadeOf(Vp, left, right)
    ensures RuleFor(left, right, Vp) in HdcaGrammar().binary
  {
    var rule := RuleFor(left, right, Vp);
    InGroups(rule);
    hide HdcaGrammar;
    if left == Pp {
      assert rule in PhraseRules();
    } else {
      assert rule in VerbRules();
    }
  }

  lemma SentenceRules(left: Category, right: Category)
    requires MadeOf(S, left, right)
    ensures RuleFor(left, right, S) in HdcaGrammar().binary
  {
    var rule := RuleFor(left, right, S);
    InGroups(rule);
    hide HdcaGrammar;
    if left == S || left == Adv {
      assert rule in VerbRules();
    } else if left == Npa || left == Nbao {
      assert rule in AgentRules();
    } else if left == Sc {
      assert rule in JoinRules();
    } else {
      assert rule in ClauseRules();
    }
  }

  lemma MarkedRules(c: Category, left: Category, right: Category)
    requires MadeOf(c, left, right) && c != Np && c != Vp && c != S
    ensures RuleFor(left, right, c) in HdcaGrammar().binary
  {
    var rule := RuleFor(left, right, c);
    InGroups(rule);
    hide HdcaGrammar;
    match c
    case NpD => assert rule in PhraseRules();
    case Pp => assert rule in PhraseRules();
    case VpD => assert rule in VerbRules();
    case Sc => assert rule in JoinRules();
    case SD => assert rule in ClauseRules();
    case Ncop => assert rule in ClauseRules();
    case Npass => assert rule in ClauseRules();
    case Npa => assert rule in AgentRules();
    case Nba => assert rule in AgentRules();
    case Nbao => assert rule in AgentRules();
    case Npc => assert rule in AgentRules();
  }

  /** The tables make each category in exactly these ways. */
  lemma TablesMake(left: Category, right: Category, c: Category)
    ensures BinaryStep(HdcaGrammar(), left, right, c) <==> MadeOf(c, left, right)
    ensures UnaryStep(HdcaGrammar(), left, c) <==> MadeFrom(c, left)
  {
    BinaryTableMakes(left, right, c);
    UnaryTableMakes(left, c);
  }

  lemma EveryWayHasRule(left: Category, right: Category, c: Category)
    requires MadeOf(c, left, right)
    ensures RuleFor(left, right, c) in HdcaGrammar().binary
  {
    hide HdcaGrammar;
    if c == Np {
      NounRules(left, right);
    } else if c == Vp {
      VerbPhraseRules(left, right);
    } else if c == S {
      SentenceRules(left, right);
    } else {
      MarkedRules(c, left, right);
    }
  }

  lemma StepSound(g: Grammar, left: Category, right: Category, c: Category)
    requires AllSound(g.binary) && BinaryStep(g, left, right, c)
    ensures MadeOf(c, left, right)
  {
    hide MadeOf;
    var rule :| rule in g.binary && rule.left == left && rule.right == right && c in rule.targets;
    assert RuleSound(rule);
  }

  lemma StepOfRule(g: Grammar, left: Category, right: Category, c: Category)
    requires RuleFor(left, right, c) in g.binary && MadeOf(c, left, right)
    ensures BinaryStep(g, left, right, c)
  {
    var rule := RuleFor(left, right, c);
    assert c in rule.targets;
  }

  lemma BinaryTableMakes(left: Category, right: Category, c: Category)
    ensures BinaryStep(HdcaGrammar(), left, right, c) <==> MadeOf(c, left, right)
  {
    hide HdcaGrammar, MadeOf, BinaryStep;
    TablesSound();
    if MadeOf(c, left, right) {
      EveryWayHasRule(left, right, c);
      StepOfRule(HdcaGrammar(), left, right, c);
    }
    if BinaryStep(HdcaGrammar(), left, right, c) {
      StepSound(HdcaGrammar(), left, right, c);
    }
  }

  lemma UnaryTableMakes(source: Category, c: Category)
    ensures UnaryStep(HdcaGrammar(), source, c) <==> MadeFrom(c, source)
  {
    hide PhraseRules, VerbRules, ClauseRules, AgentRules, JoinRules;
    var rules := HdcaGrammar().unary;
    if MadeFrom(c, source) {
      assert UnaryRule(source, [c]) in rules;
      assert c in UnaryRule(source, [c]).targets;
    } else {
      forall rule | rule in rules && rule.source == source ensures c !in rule.targets {}
    }
  }

  // ---- Readings ------------------------------------------------------------------------------------

  /** Adjacent phrases make a larger one in each of the ways of the tables. */
  lemma Joins(lexicon: set<Bit>, a: Span, b: Span, left: Category, right: Category, c: Category)
    requires Derivable(HdcaGrammar(), lexicon, a, left) && Derivable(HdcaGrammar(), lexicon, b, right)
    requires a.end == b.start && MadeOf(c, left, right)
    ensures Derivable(HdcaGrammar(), lexicon, Span(a.start, b.end), c)
  {
    TablesMake(left, right, c);
    BinaryDerivable(HdcaGrammar(), lexicon, a, b, left, right, c);
  }

  lemma Becomes(lexicon: set<Bit>, a: Span, source: Category, c: Category)
    requires Derivable(HdcaGrammar(), lexicon, a, source) && MadeFrom(c, source)
    ensures Derivable(HdcaGrammar(), lexicon, a, c)
  {
    TablesMake(source, source, c);
    UnaryDerivable(HdcaGrammar(), lexicon, a, source, c);
  }

  /** A noun phrase and a verb phrase make a clause, plainly, with an agent or object between them, or joined
      by a copula instead of the verb; every such sentence reads as a clause. */
  lemma SentencesRead(lexicon: set<Bit>, a: Span, mark: Span, b: Span, v: Span)
    requires Derivable(HdcaGrammar(), lexicon, a, Np) && a.end == mark.start
    ensures Derivable(HdcaGrammar(), lexicon, mark, Vp) ==>
              Derivable(HdcaGrammar(), lexicon, Span(a.start, mark.end), Clause)
    ensures mark.end == b.start && Derivable(HdcaGrammar(), lexicon, mark, Cop)
            && Derivable(HdcaGrammar(), lexicon, b, Np) ==>
              Derivable(HdcaGrammar(), lexicon, Span(a.start, b.end), Clause)
    ensures mark.end == v.start && Derivable(HdcaGrammar(), lexicon, mark, Pass)
            && Derivable(HdcaGrammar(), lexicon, v, Vp) ==>
              Derivable(HdcaGrammar(), lexicon, Span(a.start, v.end), Clause)
    ensures mark.end == b.start && b.end == v.start && Derivable(HdcaGrammar(), lexicon, b, Np)
            && (Derivable(HdcaGrammar(), lexicon, mark, Pass) || Derivable(HdcaGrammar(), lexicon, mark, Ba))
            && Derivable(HdcaGrammar(), lexicon, v, Vp) ==>
              Derivable(HdcaGrammar(), lexicon, Span(a.start, v.end), Clause)
  {
    hide Derivable, HdcaGrammar;
    if Derivable(HdcaGrammar(), lexicon, mark, Vp) {
      Joins(lexicon, a, mark, Np, Vp, S);
      Becomes(lexicon, Span(a.start, mark.end), S, Clause);
    }
    var marked := Span(a.start, mark.end);
    if mark.end == b.start && Derivable(HdcaGrammar(), lexicon, mark, Cop) && Derivable(HdcaGrammar(), lexicon, b, Np) {
      Joins(lexicon, a, mark, Np, Cop, Ncop);
      Joins(lexicon, marked, b, Ncop, Np, S);
      Becomes(lexicon, Span(a.start, b.end), S, Clause);
    }
    if Derivable(HdcaGrammar(), lexicon, mark, Pass) {
      Joins(lexicon, a, mark, Np, Pass, Npass);
      if mark.end == v.start && Derivable(HdcaGrammar(), lexicon, v, Vp) {
        Joins(lexicon, marked, v, Npass, Vp, S);
        Becomes(lexicon, Span(a.start, v.end), S, Clause);
      }
    }
    if mark.end == b.start && b.end == v.start && Derivable(HdcaGrammar(), lexicon, b, Np)
       && Derivable(HdcaGrammar(), lexicon, v, Vp) {
      var before := Span(a.start, b.end);
      if Derivable(HdcaGrammar(), lexicon, mark, Pass) {
        Joins(lexicon, marked, b, Npass, Np, Npa);
        Joins(lexicon, before, v, Npa, Vp, S);
        Becomes(lexicon, Span(a.start, v.end), S, Clause);
      }
      if Derivable(HdcaGrammar(), lexicon, mark, Ba) {
        Joins(lexicon, a, mark, Np, Ba, Nba);
        Joins(lexicon, marked, b, Nba, Np, Nbao);
        Joins(lexicon, before, v, Nbao, Vp, S);
        Becomes(lexicon, Span(a.start, v.end), S, Clause);
      }
    }
  }

  // ---- What the rule table keeps -------------------------------------------------------------------

  /** Clauses, verb phrases and what they are made from. */
  predicate Verbal(c: Category) {
    c.V? || c.Vp? || c.VpD? || c.Cop? || c.Ncop? || c.S? || c.SD? || c.Sc? || c.Clause?
  }

  /** A rule whose right-hand side has nothing verbal makes nothing verbal. */
  predicate KeepsVerb(rule: BinaryRule) {
    Verbal(rule.left) || Verbal(rule.right) || forall t | t in rule.targets :: !Verbal(t)
  }

  ghost predicate AllKeepVerb(rules: seq<BinaryRule>) {
    forall i | 0 <= i < |rules| :: KeepsVerb(rules[i])
  }

  ghost predicate UnaryKeepVerb(rules: seq<UnaryRule>) {
    forall i | 0 <= i < |rules| :: Verbal(rules[i].source) || forall t | t in rules[i].targets :: !Verbal(t)
  }

  lemma KeepTogether(a: seq<BinaryRule>, b: seq<BinaryRule>)
    requires AllKeepVerb(a) && AllKeepVerb(b)
    ensures AllKeepVerb(a + b)
  {}

  lemma PhrasesKeepVerb()
    ensures AllKeepVerb(PhraseRules() + VerbRules())
  {
    assert AllKeepVerb(PhraseRules());
    assert AllKeepVerb(VerbRules());
    KeepTogether(PhraseRules(), VerbRules());
  }

  lemma ClausesKeepVerb()
    ensures AllKeepVerb(ClauseRules())
  {}

  lemma AgentsKeepVerb()
    ensures AllKeepVerb(AgentRules())
  {}

  lemma JoinsKeepVerb()
    ensures AllKeepVerb(JoinRules())
  {}

  lemma TableKeepsVerb()
    ensures UnaryKeepVerb(HdcaGrammar().unary) && AllKeepVerb(HdcaGrammar().binary)
  {
    PhrasesKeepVerb();
    ClausesKeepVerb();
    AgentsKeepVerb();
    JoinsKeepVerb();
    KeepTogether(PhraseRules() + VerbRules(), ClauseRules());
    KeepTogether(PhraseRules() + VerbRules() + ClauseRules(), AgentRules());
    KeepTogether(PhraseRules() + VerbRules() + ClauseRules() + AgentRules(), JoinRules());
  }

  lemma StepKeepsVerb(g: Grammar, left: Category, right: Category, target: Category)
    requires AllKeepVerb(g.binary) && BinaryStep(g, left, right, target) && Verbal(target)
    ensures Verbal(left) || Verbal(right)
  {
    var rule :| rule in g.binary && rule.left == left && rule.right == right && target in rule.targets;
    assert KeepsVerb(rule);
  }

  /** The table makes no verb out of nothing: under a verbal category there is a verbal leaf. */
  lemma {:induction false} VerbalLeaf(g: Grammar, lexicon: set<Bit>, t: Tree) returns (leaf: Bit)
    requires UnaryKeepVerb(g.unary) && AllKeepVerb(g.binary)
    requires Derivation(g, lexicon, t) && Verbal(t.category)
    ensures leaf in Leaves(t) && leaf in lexicon && Verbal(leaf.1)
    decreases t
  {
    match t
    case Leaf(span, c) =>
      leaf := (span, c);
    case One(c, child) =>
      leaf := VerbalLeaf(g, lexicon, child);
    case Two(c, left, right) =>
      StepKeepsVerb(g, left.category, right.category, c);
      if Verbal(left.category) {
        leaf := VerbalLeaf(g, lexicon, left);
      } else {
        leaf := VerbalLeaf(g, lexicon, right);
      }
  }

  // ---- Fixed points ------------------------------------------------------------------------------

  ghost predicate Sound(g: Grammar, lexicon: set<Bit>, masks: Masks) {
    forall span, c | Has(masks, span, c) :: Derivable(g, lexicon, span, c)
  }

  ghost predicate Seeded(lexicon: set<Bit>, masks: Masks) {
    forall span, c | (span, c) in lexicon :: Has(masks, span, c)
  }

  ghost predicate UnaryClosed(g: Grammar, masks: Masks) {
    forall span, s, t | Has(masks, span, s) && UnaryStep(g, s, t) :: Has(masks, span, t)
  }

  ghost predicate BinaryClosed(g: Grammar, masks: Masks) {
    forall left, right, l, r, t |
      Has(masks, left, l) && Has(masks, right, r) && left.end == right.start && BinaryStep(g, l, r, t) ::
      Has(masks, Span(left.start, right.end), t)
  }

  lemma UnaryDerivable(g: Grammar, lexicon: set<Bit>, span: Span, s: Category, t: Category)
    requires Derivable(g, lexicon, span, s) && UnaryStep(g, s, t)
    ensures Derivable(g, lexicon, span, t)
  {
    var child :| Derivation(g, lexicon, child) && SpanOf(child) == span && child.category == s;
    assert Derivation(g, lexicon, One(t, child)) && SpanOf(One(t, child)) == span;
  }

  lemma BinaryDerivable(g: Grammar, lexicon: set<Bit>, left: Span, right: Span, l: Category, r: Category, t: Category)
    requires Derivable(g, lexicon, left, l) && Derivable(g, lexicon, right, r)
    requires left.end == right.start && BinaryStep(g, l, r, t)
    ensures Derivable(g, lexicon, Span(left.start, right.end), t)
  {
    var x :| Derivation(g, lexicon, x) && SpanOf(x) == left && x.category == l;
    var y :| Derivation(g, lexicon, y) && SpanOf(y) == right && y.category == r;
    assert Derivation(g, lexicon, Two(t, x, y)) && SpanOf(Two(t, x, y)) == Span(left.start, right.end);
  }

  /** A seeded closed chart contains the root of every derivation. */
  lemma {:induction false} ClosedContains(g: Grammar, lexicon: set<Bit>, masks: Masks, t: Tree)
    requires Seeded(lexicon, masks) && UnaryClosed(g, masks) && BinaryClosed(g, masks)
    requires Derivation(g, lexicon, t)
    ensures Has(masks, SpanOf(t), t.category)
  {
    match t
    case Leaf(span, c) =>
    case One(c, child) =>
      ClosedContains(g, lexicon, masks, child);
    case Two(c, left, right) =>
      ClosedContains(g, lexicon, masks, left);
      ClosedContains(g, lexicon, masks, right);
  }

  /** A sound, seeded and closed chart holds exactly the derivable categories. */
  ghost predicate ExactChart(g: Grammar, lexicon: set<Bit>, masks: Masks) {
    forall span, c :: Has(masks, span, c) <==> Derivable(g, lexicon, span, c)
  }

  lemma FixpointIsExact(g: Grammar, lexicon: set<Bit>, masks: Masks)
    requires Sound(g, lexicon, masks) && Seeded(lexicon, masks)
    requires UnaryClosed(g, masks) && BinaryClosed(g, masks)
    ensures ExactChart(g, lexicon, masks)
  {
    forall span, c | Derivable(g, lexicon, span, c) ensures Has(masks, span, c) {
      var t :| Derivation(g, lexicon, t) && SpanOf(t) == span && t.category == c;
      ClosedContains(g, lexicon, masks, t);
    }
  }
}
