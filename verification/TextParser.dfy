/** Parsing a text: its segmentation lattice, the categories of its words, and the fixed rule table. */
module TextParser {
  import opened Options
  import opened ChartModel
  import opened ChartParser
  import LatticeBuilder
  import LatticeModel

  const MAX_TEXT := 4096
  const MAX_WORD := 16

  type Words = LatticeBuilder.Lexicon

  /** The categories a word may head, from its tags and its surface. */
  type Categories = string -> seq<Category>

  predicate Parsable(source: string, maxCells: int, maxUpdates: int) {
    0 < |source| <= MAX_TEXT && maxCells >= |source| && maxUpdates >= 1
  }

  /** The text offers the span as a word of the category, inside the root and clear of the hole. */
  ghost predicate Offers(words: Words, categories: Categories, source: string, root: Span, hole: Option<Span>, b: Bit) {
    && LatticeBuilder.Candidate(words, source, MAX_WORD, b.0.start, b.0.end)
    && root.start <= b.0.start && b.0.end <= root.end
    && !LatticeBuilder.Separator(words, source[b.0.start])
    && (hole.Some? ==> !Overlaps(b.0, hole.value))
    && b.1 in categories(source[b.0.start..b.0.end])
  }

  ghost predicate IsLexiconOf(words: Words, categories: Categories, source: string, root: Span, hole: Option<Span>,
                              leaves: set<Bit>) {
    forall b ::
          b in leaves <==> Offers(words, categories, source, root, hole, b) || (hole.Some? && b == (hole.value, H))
  }

  function ChartToken(words: Words, categories: Categories, source: string, t: LatticeModel.Token): Token
    requires t.start < t.end <= |source|
  {
    Token(Span(t.start, t.end), LatticeBuilder.Separator(words, source[t.start]), categories(source[t.start..t.end]))
  }

  /** The leaves of the parse are what the text itself offers. */
  lemma TokensOfferText(words: Words, categories: Categories, source: string, l: LatticeModel.Lattice,
                        tokens: seq<Token>, root: Span, hole: Option<Span>)
    requires IsLatticeOf(words, source, l) && |tokens| == |l.tokens|
    requires forall i | 0 <= i < |tokens| :: tokens[i] == ChartToken(words, categories, source, l.tokens[i])
    ensures IsLexiconOf(words, categories, source, root, hole, Lexicon(tokens, root, hole))
  {
    forall b ensures b in Lexicon(tokens, root, hole) <==>
        Offers(words, categories, source, root, hole, b) || (hole.Some? && b == (hole.value, H)) {
      if Offers(words, categories, source, root, hole, b) {
        var t := LatticeBuilder.TokenAt(b.0.start, b.0.end);
        assert t in l.tokens;
        var i :| 0 <= i < |l.tokens| && l.tokens[i] == t;
        assert tokens[i] in tokens && Admits(tokens[i], root, hole) && b.1 in tokens[i].categories;
      }
      if t: Token :| t in tokens && Admits(t, root, hole) && b.1 in t.categories && t.span == b.0 {
        var i :| 0 <= i < |tokens| && tokens[i] == t;
        assert l.tokens[i] in l.tokens;
      }
    }
  }

  /** The tightest span around the meaningful characters, if there are any. */
  ghost predicate TightRoot(words: Words, source: string, root: Option<Span>) {
    && (root.None? <==> forall i | 0 <= i < |source| :: LatticeBuilder.Separator(words, source[i]))
    && (root.Some? ==>
          && root.value.start < root.value.end <= |source|
          && !LatticeBuilder.Separator(words, source[root.value.start])
          && !LatticeBuilder.Separator(words, source[root.value.end - 1])
          && forall i | 0 <= i < |source| && !LatticeBuilder.Separator(words, source[i]) ::
               root.value.start <= i < root.value.end)
  }

  /** The lattice holds a token for every candidate, and no other. */
  ghost predicate IsLatticeOf(words: Words, source: string, l: LatticeModel.Lattice) {
    && (forall t | t in l.tokens :: t.start < t.end <= |source| && t == LatticeBuilder.TokenAt(t.start, t.end))
    && (forall start: nat, end: nat ::
          LatticeBuilder.Candidate(words, source, MAX_WORD, start, end)
          <==> LatticeBuilder.TokenAt(start, end) in l.tokens)
  }

  /** Parses a text, or refuses it. The root is the tightest span around its meaningful characters, and
      the chart is exact for the words that the text itself offers. */
  method ParseText(words: Words, categories: Categories, source: string, hole: Option<Span>, maxCells: int,
                   maxUpdates: int)
    returns (r: Option<ChartResult>, ghost root: Option<Span>, ghost leaves: set<Bit>)
    ensures r.None? <==> !Parsable(source, maxCells, maxUpdates)
                         || |LatticeBuilder.TokensBefore(words, source, MAX_WORD, |source|)| > maxCells
    ensures r.Some? ==> maxCells >= 1 && maxUpdates >= 1
                        && Parses(words, categories, source, hole, maxCells, maxUpdates, root, leaves, r.value)
  {
    root, leaves := None, {};
    if !Parsable(source, maxCells, maxUpdates) {
      return None, root, leaves;
    }
    var built := LatticeBuilder.BuildLattice(words, source, MAX_WORD, maxCells);
    if built.None? {
      return None, root, leaves;
    }
    var chart;
    chart, root, leaves := ParseLattice(words, categories, source, built.value, hole, maxCells, maxUpdates);
    r := Some(chart);
  }

  /** What a parse promises: the root, the leaves the text offers, and the chart over them. */
  ghost predicate Parses(words: Words, categories: Categories, source: string, hole: Option<Span>, maxCells: nat,
                         maxUpdates: nat, root: Option<Span>, leaves: set<Bit>, r: ChartResult) {
    && TightRoot(words, source, root)
    && (root.None? ==> r == Parsed(Span(0, 0), {}, map[], true, 0))
    && (root.Some? ==>
          && IsLexiconOf(words, categories, source, root.value, hole, leaves)
          && Charted(HdcaGrammar(), leaves, hole, maxCells, maxUpdates, root.value, r))
  }

  method ParseLattice(words: Words, categories: Categories, source: string, l: LatticeModel.Lattice,
                      hole: Option<Span>, maxCells: nat, maxUpdates: nat)
    returns (chart: ChartResult, root: Option<Span>, ghost leaves: set<Bit>)
    requires maxCells >= 1 && maxUpdates >= 1 && IsLatticeOf(words, source, l)
    ensures Parses(words, categories, source, hole, maxCells, maxUpdates, root, leaves, chart)
  {
    hide Charted, IsLexiconOf;
    var tokens := ChartTokens(words, categories, source, l);
    var meaningful := seq(|source|, i requires 0 <= i < |source| => !LatticeBuilder.Separator(words, source[i]));
    chart, root := ParseChart(HdcaGrammar(), tokens, meaningful, hole, maxCells, maxUpdates);
    assert forall i | 0 <= i < |source| :: meaningful[i] <==> !LatticeBuilder.Separator(words, source[i]);
    leaves := {};
    if root.Some? {
      TokensOfferText(words, categories, source, l, tokens, root.value, hole);
      leaves := Lexicon(tokens, root.value, hole);
    }
  }

  /** The tokens of a lattice with their categories. */
  method ChartTokens(words: Words, categories: Categories, source: string, l: LatticeModel.Lattice)
    returns (tokens: seq<Token>)
    requires forall t | t in l.tokens :: t.start < t.end <= |source|
    ensures |tokens| == |l.tokens|
    ensures forall i | 0 <= i < |tokens| ::
              l.tokens[i] in l.tokens && tokens[i] == ChartToken(words, categories, source, l.tokens[i])
    ensures forall t | t in tokens :: t.span.start < t.span.end <= |source|
  {
    tokens := [];
    for k := 0 to |l.tokens|
      invariant |tokens| == k
      invariant forall i | 0 <= i < k ::
                  l.tokens[i] in l.tokens && tokens[i] == ChartToken(words, categories, source, l.tokens[i])
    {
      assert l.tokens[k] in l.tokens;
      tokens := tokens + [ChartToken(words, categories, source, l.tokens[k])];
    }
  }

  /** The categories that words carry. */
  predicate Lexical(c: Category) {
    c.A? || c.Adv? || c.Ba? || c.Conj? || c.Cop? || c.D? || c.N? || c.P? || c.Pass? || c.Q? || c.T? || c.V? || c.X?
  }

  lemma LeafIsOffered(words: Words, categories: Categories, source: string, root: Span, hole: Option<Span>,
                      leaves: set<Bit>, b: Bit)
    requires forall surface: string, k | k in categories(surface) :: Lexical(k)
    requires IsLexiconOf(words, categories, source, root, hole, leaves) && b in leaves && Verbal(b.1)
    ensures Offers(words, categories, source, root, hole, b) && (b.1 == V || b.1 == Cop)
  {
    assert Offers(words, categories, source, root, hole, b);
    var surface := source[b.0.start..b.0.end];
    assert b.1 in categories(surface) && Lexical(b.1);
  }

  /** A text read as a clause offers a verb or a copula inside the root and clear of the hole. */
  lemma ClauseHasVerb(words: Words, categories: Categories, source: string, root: Span, hole: Option<Span>,
                      leaves: set<Bit>, c: Category) returns (verb: Bit)
    requires forall surface: string, k | k in categories(surface) :: Lexical(k)
    requires IsLexiconOf(words, categories, source, root, hole, leaves)
    requires Derivable(HdcaGrammar(), leaves, root, c) && (c == S || c == Clause || c == Vp)
    ensures Offers(words, categories, source, root, hole, verb) && (verb.1 == V || verb.1 == Cop)
  {
    var t :| Derivation(HdcaGrammar(), leaves, t) && SpanOf(t) == root && t.category == c;
    TableKeepsVerb();
    verb := VerbalLeaf(HdcaGrammar(), leaves, t);
    LeafIsOffered(words, categories, source, root, hole, leaves, verb);
  }

  lemma OfferedReads(words: Words, categories: Categories, source: string, root: Span, hole: Option<Span>,
                     leaves: set<Bit>, b: Bit)
    requires IsLexiconOf(words, categories, source, root, hole, leaves)
    requires Offers(words, categories, source, root, hole, b)
    ensures Derivable(HdcaGrammar(), leaves, b.0, b.1)
  {
    var t := Leaf(b.0, b.1);
    assert Derivation(HdcaGrammar(), leaves, t) && SpanOf(t) == b.0 && t.category == b.1;
  }

  /** A text that is a noun and then a verb, and one that is a noun, a copula and a noun, read as clauses:
      a complete parse reports the clause at the root. */
  lemma PlainTextsRead(words: Words, categories: Categories, source: string, hole: Option<Span>, maxCells: nat,
                       maxUpdates: nat, root: Span, leaves: set<Bit>, r: ChartResult, noun: Span, mark: Span,
                       other: Span)
    requires Parses(words, categories, source, hole, maxCells, maxUpdates, Some(root), leaves, r)
    requires r.Parsed? && r.complete
    requires Offers(words, categories, source, root, hole, (noun, N))
    requires noun.start == root.start && noun.end == mark.start
    ensures mark.end == root.end && Offers(words, categories, source, root, hole, (mark, V)) ==> Clause in r.roots
    ensures mark.end == other.start && other.end == root.end
            && Offers(words, categories, source, root, hole, (mark, Cop))
            && Offers(words, categories, source, root, hole, (other, N)) ==>
              Clause in r.roots
  {
    hide Offers, IsLexiconOf, HdcaGrammar, Derivable;
    OfferedReads(words, categories, source, root, hole, leaves, (noun, N));
    Becomes(leaves, noun, N, Np);
    if mark.end == root.end && Offers(words, categories, source, root, hole, (mark, V)) {
      OfferedReads(words, categories, source, root, hole, leaves, (mark, V));
      Becomes(leaves, mark, V, Vp);
      SentencesRead(leaves, noun, mark, other, other);
      assert Span(noun.start, mark.end) == root;
    }
    if mark.end == other.start && other.end == root.end && Offers(words, categories, source, root, hole, (mark, Cop))
       && Offers(words, categories, source, root, hole, (other, N)) {
      OfferedReads(words, categories, source, root, hole, leaves, (mark, Cop));
      OfferedReads(words, categories, source, root, hole, leaves, (other, N));
      Becomes(leaves, other, N, Np);
      SentencesRead(leaves, noun, mark, other, other);
      assert Span(noun.start, other.end) == root;
    }
  }
}
