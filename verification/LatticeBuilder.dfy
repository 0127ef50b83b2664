/** Building the segmentation lattice from a lexicon: every token on offer, and no character lost. */
module LatticeBuilder {
  import opened Options
  import opened Order
  import opened LatticeModel
  import opened LatticeCounting

  const MAX_SOURCE := 8192
  const MAX_TOKEN_CHARS := 32

  // One past any end position: the two hexadecimal fields of a token's identity.
  const FIELD := 0x1_0000

  /** What decides the candidates: white space, punctuation, and the words of the lexicon. */
  datatype Lexicon = Lexicon(space: char -> bool, punct: char -> bool, word: string -> bool)

  predicate ValidInput(source: string, maxTokenChars: int, maxTokens: int) {
    0 < |source| <= MAX_SOURCE && 1 <= maxTokenChars <= MAX_TOKEN_CHARS && maxTokens >= |source|
  }

  predicate Separator(lexicon: Lexicon, c: char) {
    lexicon.space(c) || lexicon.punct(c)
  }

  /** A single character is always a token; a longer one must be a bounded word that does not begin with
      a separator. */
  predicate Candidate(lexicon: Lexicon, source: string, maxTokenChars: nat, start: nat, end: nat) {
    && start < end <= |source|
    && (end == start + 1
        || (!Separator(lexicon, source[start]) && end <= start + maxTokenChars && lexicon.word(source[start..end])))
  }

  // ---- The tokens of a source ------------------------------------------------------------------------

  ghost function CandidateEnds(lexicon: Lexicon, source: string, maxTokenChars: nat, start: nat): set<nat> {
    set end | start < end <= |source| && Candidate(lexicon, source, maxTokenChars, start, end)
  }

  /** The identity names start and end; with the digest of the surface behind them it is never shared. */
  function TokenAt(start: nat, end: nat): Token {
    Token(start * FIELD + end, start, end)
  }

  function TokensTo(start: nat, ends: seq<nat>): (r: seq<Token>)
    ensures |r| == |ends| && forall i | 0 <= i < |r| :: r[i] == TokenAt(start, ends[i])
  {
    seq(|ends|, i requires 0 <= i < |ends| => TokenAt(start, ends[i]))
  }

  /** The tokens that start before `k`, by position and then by end. */
  ghost function TokensBefore(lexicon: Lexicon, source: string, maxTokenChars: nat, k: nat): seq<Token> {
    if k == 0 then []
    else
      TokensBefore(lexicon, source, maxTokenChars, k - 1)
      + TokensTo(k - 1, Sorted(CandidateEnds(lexicon, source, maxTokenChars, k - 1)))
  }

  lemma {:induction false} TokensBeforeMembers(lexicon: Lexicon, source: string, maxTokenChars: nat, k: nat, t: Token)
    requires k <= |source|
    ensures t in TokensBefore(lexicon, source, maxTokenChars, k) <==>
            t.start < k && Candidate(lexicon, source, maxTokenChars, t.start, t.end) && t == TokenAt(t.start, t.end)
  {
    if k > 0 {
      var m := k - 1;
      TokensBeforeMembers(lexicon, source, maxTokenChars, m, t);
      var ends := Sorted(CandidateEnds(lexicon, source, maxTokenChars, m));
      var last := TokensTo(m, ends);
      assert t in last <==> t.start == m && t.end in ends && t == TokenAt(m, t.end) by {
        if t.end in ends && t == TokenAt(m, t.end) {
          var i :| 0 <= i < |ends| && ends[i] == t.end;
          assert last[i] == t;
        }
      }
    }
  }

  lemma IdsFollowPositions(s: Token, t: Token)
    requires s == TokenAt(s.start, s.end) && t == TokenAt(t.start, t.end) && s.end < FIELD
    requires s.start < t.start || (s.start == t.start && s.end < t.end)
    ensures s.id < t.id
  {
    if s.start < t.start {
      assert (s.start + 1) * FIELD <= t.start * FIELD;
    }
  }

  ghost predicate Ascending(tokens: seq<Token>) {
    forall i, j | 0 <= i < j < |tokens| :: tokens[i].id < tokens[j].id
  }

  lemma {:induction false} TokensBeforeAscend(lexicon: Lexicon, source: string, maxTokenChars: nat, k: nat)
    requires k <= |source| < FIELD
    ensures Ascending(TokensBefore(lexicon, source, maxTokenChars, k))
  {
    if k > 0 {
      var m := k - 1;
      TokensBeforeAscend(lexicon, source, maxTokenChars, m);
      var front := TokensBefore(lexicon, source, maxTokenChars, m);
      var ends := Sorted(CandidateEnds(lexicon, source, maxTokenChars, m));
      var last := TokensTo(m, ends);
      forall i, j | 0 <= i < j < |last| ensures last[i].id < last[j].id {
        assert ends[i] in ends;
        IdsFollowPositions(last[i], last[j]);
      }
      forall i, j | 0 <= i < |front| && 0 <= j < |last| ensures front[i].id < last[j].id {
        TokensBeforeMembers(lexicon, source, maxTokenChars, m, front[i]);
        IdsFollowPositions(front[i], last[j]);
      }
    }
  }

  lemma {:induction false} TokensBeforeGrow(lexicon: Lexicon, source: string, maxTokenChars: nat, j: nat, k: nat)
    requires j <= k
    ensures |TokensBefore(lexicon, source, maxTokenChars, j)| <= |TokensBefore(lexicon, source, maxTokenChars, k)|
  {
    if j < k {
      TokensBeforeGrow(lexicon, source, maxTokenChars, j, k - 1);
    }
  }

  // ---- Building --------------------------------------------------------------------------------------

  /** The ends on offer at one position. */
  method OfferedEnds(lexicon: Lexicon, source: string, maxTokenChars: nat, start: nat) returns (ends: set<nat>)
    requires start < |source| && 1 <= maxTokenChars
    ensures ends == CandidateEnds(lexicon, source, maxTokenChars, start)
  {
    if Separator(lexicon, source[start]) {
      ends := {start + 1};
    } else {
      ends := {};
      var limit := if start + maxTokenChars < |source| then start + maxTokenChars else |source|;
      for end := start + 1 to limit + 1
        invariant ends == set e | start < e < end && lexicon.word(source[start..e])
      {
        if lexicon.word(source[start..end]) {
          ends := ends + {end};
        }
      }
      ends := ends + {start + 1};
    }
  }

  /** Appends the tokens of one position until the budget is exceeded. */
  method AppendTokens(tokens: seq<Token>, start: nat, ends: seq<nat>, maxTokens: nat)
    returns (all: seq<Token>, over: bool)
    requires |tokens| <= maxTokens
    ensures over <==> |tokens| + |ends| > maxTokens
    ensures !over ==> all == tokens + TokensTo(start, ends)
  {
    all := tokens;
    for i := 0 to |ends|
      invariant |all| <= maxTokens && all == tokens + TokensTo(start, ends)[..i]
    {
      all := all + [TokenAt(start, ends[i])];
      if |all| > maxTokens {
        return all, true;
      }
    }
    assert TokensTo(start, ends)[..|ends|] == TokensTo(start, ends);
    over := false;
  }

  /** Builds the lattice of a source, or refuses the input or a lattice over its token budget. */
  method BuildLattice(lexicon: Lexicon, source: string, maxTokenChars: int, maxTokens: int) returns (r: Option<Lattice>)
    ensures r.None? <==> !ValidInput(source, maxTokenChars, maxTokens)
                         || |TokensBefore(lexicon, source, maxTokenChars, |source|)| > maxTokens
    ensures r.Some? ==> r.value.length == |source| && WellFormed(r.value) && Lossless(r.value)
    ensures r.Some? ==> forall start: nat, end: nat ::
              Candidate(lexicon, source, maxTokenChars, start, end) <==> TokenAt(start, end) in r.value.tokens
    ensures r.Some? ==> forall t | t in r.value.tokens :: t == TokenAt(t.start, t.end)
    ensures r.Some? ==> Paths(r.value, None, 0) != []
    ensures r.Some? ==> forall t | t in r.value.tokens :: OnSomePath(r.value, None, t)
  {
    if !ValidInput(source, maxTokenChars, maxTokens) {
      return None;
    }
    var tokens: seq<Token> := [];
    for start := 0 to |source|
      invariant tokens == TokensBefore(lexicon, source, maxTokenChars, start) && |tokens| <= maxTokens
    {
      var offered := OfferedEnds(lexicon, source, maxTokenChars, start);
      TokensBeforeGrow(lexicon, source, maxTokenChars, start + 1, |source|);
      var over;
      tokens, over := AppendTokens(tokens, start, Sorted(offered), maxTokens);
      if over {
        return None;
      }
    }
    var l := Lattice(|source|, tokens);
    BuiltIsWellFormed(lexicon, source, maxTokenChars, l);
    BuiltSegments(l);
    r := Some(l);
  }

  lemma BuiltIsWellFormed(lexicon: Lexicon, source: string, maxTokenChars: nat, l: Lattice)
    requires 0 < |source| <= MAX_SOURCE && 1 <= maxTokenChars
    requires l == Lattice(|source|, TokensBefore(lexicon, source, maxTokenChars, |source|))
    ensures WellFormed(l) && Lossless(l)
    ensures forall start: nat, end: nat ::
              Candidate(lexicon, source, maxTokenChars, start, end) <==> TokenAt(start, end) in l.tokens
    ensures forall t | t in l.tokens :: t == TokenAt(t.start, t.end)
  {
    TokensBeforeAscend(lexicon, source, maxTokenChars, |source|);
    forall t ensures t in l.tokens <==>
        t.start < |source| && Candidate(lexicon, source, maxTokenChars, t.start, t.end)
        && t == TokenAt(t.start, t.end)
    {
      TokensBeforeMembers(lexicon, source, maxTokenChars, |source|, t);
    }
    forall pos: nat | pos < l.length ensures HasCharacter(l, pos) {
      assert TokenAt(pos, pos + 1) in l.tokens;
    }
  }

  // ---- Nothing is lost -------------------------------------------------------------------------------

  /** What building guarantees: every character has its single-character token. */
  ghost predicate Lossless(l: Lattice) {
    forall pos: nat | pos < l.length :: HasCharacter(l, pos)
  }

  ghost predicate HasCharacter(l: Lattice, pos: nat) {
    exists t :: t in l.tokens && t.start == pos && t.end == pos + 1
  }

  lemma {:induction false} CharactersLeadOn(l: Lattice, at: nat, goal: nat) returns (path: TokenPath)
    requires WellFormed(l) && Lossless(l) && at <= goal <= l.length
    ensures Chain(l, None, path, at, goal)
    decreases goal - at
  {
    if at == goal {
      return [];
    }
    assert HasCharacter(l, at);
    var t :| t in l.tokens && t.start == at && t.end == at + 1;
    var rest := CharactersLeadOn(l, at + 1, goal);
    path := [t] + rest;
    assert path[1..] == rest;
  }

  /** In an unfiltered built lattice every token lies on a complete path. */
  lemma BuiltTokensAllReachable(l: Lattice, t: Token)
    requires WellFormed(l) && Lossless(l) && t in l.tokens
    ensures OnSomePath(l, None, t)
  {
    var front := CharactersLeadOn(l, 0, t.start);
    var back := CharactersLeadOn(l, t.end, l.length);
    ChainReaches(l, None, front, 0, t.start);
    ChainMeansOnward(l, None, t.end, back);
    ConnectedIsOnPath(l, None, t);
  }

  /** A lossless lattice has a complete segmentation, and every token lies on one. */
  lemma BuiltSegments(l: Lattice)
    requires WellFormed(l) && Lossless(l)
    ensures Paths(l, None, 0) != []
    ensures forall t | t in l.tokens :: OnSomePath(l, None, t)
  {
    var path := CharactersLeadOn(l, 0, l.length);
    PathsAreChains(l, None, 0, path);
    forall t | t in l.tokens ensures OnSomePath(l, None, t) {
      BuiltTokensAllReachable(l, t);
    }
  }
}
