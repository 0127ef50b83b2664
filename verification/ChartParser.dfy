/** The mutable span-to-categories chart, run to its fixed point under a budget. */
module ChartParser {
  import opened Options
  import opened ChartModel

  datatype Cell = Cell(span: Span, mask: set<Category>)

  // ---- Bits and growth ---------------------------------------------------------------------------

  ghost function Bits(masks: Masks): set<Bit> {
    set span, c | span in masks && c in masks[span] :: (span, c)
  }

  ghost function Universe(n: nat): set<Bit> {
    set i: nat, j: nat, c: Category | i <= n && j <= n :: (Span(i, j), c)
  }

  ghost predicate InRange(masks: Masks, n: nat) {
    forall span | span in masks :: span.start <= n && span.end <= n
  }

  function With(masks: Masks, span: Span, c: Category): Masks {
    masks[span := (if span in masks then masks[span] else {}) + {c}]
  }

  ghost predicate Grown(before: Masks, after: Masks) {
    && (forall span | span in before :: span in after)
    && (forall span, c | Has(before, span, c) :: Has(after, span, c))
  }

  /** `after` holds everything `before` does, and something more if `changed`, nothing more if not. */
  ghost predicate Step(before: Masks, after: Masks, changed: bool) {
    && Grown(before, after)
    && (if changed then exists span, c :: Has(after, span, c) && !Has(before, span, c) else after == before)
  }

  lemma StepTransitive(a: Masks, b: Masks, c: Masks, x: bool, y: bool)
    requires Step(a, b, x) && Step(b, c, y)
    ensures Step(a, c, x || y)
  {}

  lemma AddIsStep(masks: Masks, span: Span, c: Category)
    ensures !Has(masks, span, c) ==> Step(masks, With(masks, span, c), true)
    ensures Has(masks, span, c) ==> With(masks, span, c) == masks
    ensures forall s, d :: Has(With(masks, span, c), s, d) <==> Has(masks, s, d) || (s == span && d == c)
  {
    var after := With(masks, span, c);
    assert Has(after, span, c);
    if Has(masks, span, c) {
      assert masks[span] + {c} == masks[span];
    }
  }

  lemma AddCounts(masks: Masks, span: Span, c: Category)
    ensures |Bits(With(masks, span, c))| == |Bits(masks)| + if Has(masks, span, c) then 0 else 1
  {
    AddIsStep(masks, span, c);
    var before, after := Bits(masks), Bits(With(masks, span, c));
    forall s, d ensures (s, d) in after <==> (s, d) in before || (s == span && d == c) {
      assert Has(With(masks, span, c), s, d) <==> Has(masks, s, d) || (s == span && d == c);
    }
    assert after == before + {(span, c)};
  }

  /** The categories live in a finite universe, so a changing pass leaves fewer bits to add. */
  lemma StepShrinksRest(before: Masks, after: Masks, n: nat)
    requires Step(before, after, true) && InRange(after, n)
    ensures Universe(n) - Bits(after) < Universe(n) - Bits(before)
  {
    var span, c :| Has(after, span, c) && !Has(before, span, c);
    forall s, d | (s, d) in Bits(before) ensures (s, d) in Bits(after) {
      assert Has(before, s, d);
    }
    assert (Span(span.start, span.end), c) in Universe(n);
    assert (span, c) in Universe(n) - Bits(before) && (span, c) !in Universe(n) - Bits(after);
  }

  // ---- The chart ---------------------------------------------------------------------------------

  class Chart {
    const grammar: Grammar
    const length: nat
    const maxCells: nat
    const maxUpdates: nat
    ghost const lexicon: set<Bit>
    var order: seq<Span>
    var masks: Masks
    var updates: nat

    ghost predicate Valid()
      reads this
    {
      && (forall i | 0 <= i < |order| :: order[i] in masks)
      && (forall span | span in masks :: span in order)
      && InRange(masks, length)
      && Sound(grammar, lexicon, masks)
      && forall span | span in masks :: masks[span] != {}
    }

    /** The bits the passes did not count: those that were there when they began. */
    ghost function Uncounted(): int
      reads this
    {
      |Bits(masks)| - updates
    }

    constructor (grammar: Grammar, length: nat, maxCells: nat, maxUpdates: nat, ghost lexicon: set<Bit>)
      ensures Valid() && masks == map[] && updates == 0 && Uncounted() == 0
      ensures this.grammar == grammar && this.length == length && this.lexicon == lexicon
      ensures this.maxCells == maxCells && this.maxUpdates == maxUpdates
    {
      this.grammar, this.length, this.lexicon := grammar, length, lexicon;
      this.maxCells, this.maxUpdates := maxCells, maxUpdates;
      order, masks, updates := [], map[], 0;
    }

    /** Sets one bit and says whether it was new. */
    method Add(span: Span, c: Category) returns (isNew: bool)
      requires Valid() && span.start <= length && span.end <= length
      requires Derivable(grammar, lexicon, span, c)
      modifies this`order, this`masks
      ensures Valid() && masks == With(old(masks), span, c)
      ensures Step(old(masks), masks, isNew) && Has(masks, span, c)
      ensures |Bits(masks)| == |Bits(old(masks))| + if isNew then 1 else 0
      ensures isNew <==> !Has(old(masks), span, c)
    {
      hide Derivable, Bits;
      isNew := !(span in masks && c in masks[span]);
      AddIsStep(masks, span, c);
      AddCounts(masks, span, c);
      if span !in masks {
        order := order + [span];
      }
      masks := With(masks, span, c);
    }

    /** A snapshot of the cells in insertion order. */
    function Items(): (items: seq<Cell>)
      requires Valid()
      reads this
      ensures |items| == |order|
      ensures forall i | 0 <= i < |items| :: items[i] == Cell(order[i], masks[order[i]])
    {
      seq(|order|, i requires 0 <= i < |order| && order[i] in masks reads this => Cell(order[i], masks[order[i]]))
    }

    /** The unary rules on one cell of a snapshot. */
    method ApplyUnary(cell: Cell) returns (changed: bool)
      requires Valid() && cell.span in masks
      requires forall c | c in cell.mask :: Derivable(grammar, lexicon, cell.span, c)
      modifies this`order, this`masks, this`updates
      ensures Valid() && Step(old(masks), masks, changed) && Uncounted() == old(Uncounted())
      ensures forall s, t | s in cell.mask && UnaryStep(grammar, s, t) :: Has(masks, cell.span, t)
    {
      changed := false;
      for j := 0 to |grammar.unary|
        invariant Valid() && Step(old(masks), masks, changed) && cell.span in masks && Uncounted() == old(Uncounted())
        invariant forall i, t | 0 <= i < j && grammar.unary[i].source in cell.mask && t in grammar.unary[i].targets ::
                    Has(masks, cell.span, t)
      {
        var rule := grammar.unary[j];
        if rule.source in cell.mask {
          for k := 0 to |rule.targets|
            invariant Valid() && Step(old(masks), masks, changed) && cell.span in masks
            invariant Uncounted() == old(Uncounted())
            invariant forall i, t | 0 <= i < j && grammar.unary[i].source in cell.mask
                && t in grammar.unary[i].targets ::
                        Has(masks, cell.span, t)
            invariant forall i | 0 <= i < k :: Has(masks, cell.span, rule.targets[i])
          {
            assert UnaryStep(grammar, rule.source, rule.targets[k]);
            UnaryDerivable(grammar, lexicon, cell.span, rule.source, rule.targets[k]);
            ghost var before := masks;
            var isNew := Add(cell.span, rule.targets[k]);
            StepTransitive(old(masks), before, masks, changed, isNew);
            if isNew {
              updates := updates + 1;
              changed := true;
            }
          }
        }
      }
    }

    method UnaryPass() returns (changed: bool)
      requires Valid()
      modifies this`order, this`masks, this`updates
      ensures Valid() && Step(old(masks), masks, changed) && Uncounted() == old(Uncounted())
      ensures !changed ==> UnaryClosed(grammar, masks)
    {
      var items := Items();
      changed := false;
      for i := 0 to |items|
        invariant Valid() && Step(old(masks), masks, changed) && Uncounted() == old(Uncounted())
        invariant forall j | 0 <= j < |items| :: items[j].span in masks
        invariant forall j, s, t | 0 <= j < i && s in items[j].mask && UnaryStep(grammar, s, t) ::
                    Has(masks, items[j].span, t)
      {
        ghost var before := masks;
        forall c | c in items[i].mask ensures Derivable(grammar, lexicon, items[i].span, c) {
          assert Has(old(masks), items[i].span, c);
          assert Has(masks, items[i].span, c);
        }
        var more := ApplyUnary(items[i]);
        StepTransitive(old(masks), before, masks, changed, more);
        changed := changed || more;
      }
      if !changed {
        forall span, s, t | Has(masks, span, s) && UnaryStep(grammar, s, t) ensures Has(masks, span, t) {
          var j :| 0 <= j < |old(order)| && old(order)[j] == span;
          assert items[j].span == span && s in items[j].mask;
        }
      }
    }

    /** The binary rules on one adjacent pair of cells. Stops as soon as an addition breaks a budget. */
    method Combine(left: Cell, right: Cell) returns (changed: bool, exhausted: bool)
      requires Valid() && left.span.end == right.span.start
      requires left.span.start <= length && right.span.end <= length
      requires forall c | c in left.mask :: Derivable(grammar, lexicon, left.span, c)
      requires forall c | c in right.mask :: Derivable(grammar, lexicon, right.span, c)
      modifies this`order, this`masks, this`updates
      ensures Valid() && Step(old(masks), masks, changed) && Uncounted() == old(Uncounted())
      ensures exhausted ==> |masks| > maxCells || updates > maxUpdates
      ensures !exhausted ==> forall l, r, t | l in left.mask && r in right.mask && BinaryStep(grammar, l, r, t) ::
                Has(masks, Span(left.span.start, right.span.end), t)
    {
      hide Derivable, Sound, Bits, InRange;
      changed, exhausted := false, false;
      var combined := Span(left.span.start, right.span.end);
      for j := 0 to |grammar.binary|
        invariant Valid() && Step(old(masks), masks, changed) && Uncounted() == old(Uncounted())
        invariant forall i, t | 0 <= i < j && Applies(grammar.binary[i], left, right)
            && t in grammar.binary[i].targets ::
                    Has(masks, combined, t)
      {
        var rule := grammar.binary[j];
        if rule.left in left.mask && rule.right in right.mask {
          for k := 0 to |rule.targets|
            invariant Valid() && Step(old(masks), masks, changed) && Uncounted() == old(Uncounted())
            invariant forall i, t | 0 <= i < j && Applies(grammar.binary[i], left, right)
                && t in grammar.binary[i].targets ::
                        Has(masks, combined, t)
            invariant forall i | 0 <= i < k :: Has(masks, combined, rule.targets[i])
          {
            assert BinaryStep(grammar, rule.left, rule.right, rule.targets[k]);
            BinaryDerivable(grammar, lexicon, left.span, right.span, rule.left, rule.right, rule.targets[k]);
            ghost var before := masks;
            var isNew := Add(combined, rule.targets[k]);
            StepTransitive(old(masks), before, masks, changed, isNew);
            if isNew {
              updates := updates + 1;
              changed := true;
              if |masks| > maxCells || updates > maxUpdates {
                exhausted := true;
                return;
              }
            }
          }
        }
      }
    }

    /** One left cell of the snapshot against the snapshot's cells starting where it ends. */
    method RowPass(cells: seq<Cell>, i: nat, ghost start: Masks) returns (changed: bool, exhausted: bool)
      requires Valid() && i < |cells| && IsSnapshot(cells, start) && Grown(start, masks)
      requires DonePairs(grammar, masks, cells, i, 0)
      modifies this`order, this`masks, this`updates
      ensures Valid() && Step(old(masks), masks, changed) && Grown(start, masks) && Uncounted() == old(Uncounted())
      ensures exhausted ==> |masks| > maxCells || updates > maxUpdates
      ensures !exhausted ==> DonePairs(grammar, masks, cells, i + 1, 0)
    {
      changed, exhausted := false, false;
      for j := 0 to |cells|
        invariant Valid() && Step(old(masks), masks, changed) && Grown(start, masks) && Uncounted() == old(Uncounted())
        invariant DonePairs(grammar, masks, cells, i, j)
      {
        ghost var before := masks;
        if cells[j].span.start == cells[i].span.end {
          SnapshotDerivable(grammar, lexicon, start, masks, cells[i]);
          SnapshotDerivable(grammar, lexicon, start, masks, cells[j]);
          var more;
          more, exhausted := Combine(cells[i], cells[j]);
          StepTransitive(old(masks), before, masks, changed, more);
          changed := changed || more;
          if exhausted {
            return;
          }
        }
        DonePairsGrow(grammar, before, masks, cells, i, j);
        DonePairsStep(grammar, masks, cells, i, j);
      }
    }

    /** Every left cell of the snapshot against the snapshot's cells starting where it ends. */
    method BinaryPass() returns (changed: bool, exhausted: bool)
      requires Valid()
      modifies this`order, this`masks, this`updates
      ensures Valid() && Step(old(masks), masks, changed) && Uncounted() == old(Uncounted())
      ensures exhausted ==> |masks| > maxCells || updates > maxUpdates
      ensures !changed && !exhausted ==> BinaryClosed(grammar, masks)
    {
      var cells := Items();
      changed, exhausted := false, false;
      ghost var start := masks;
      assert forall span | span in start :: Cell(span, start[span]) in cells by {
        forall span | span in start ensures Cell(span, start[span]) in cells {
          var k :| 0 <= k < |order| && order[k] == span;
          assert cells[k] == Cell(span, start[span]);
        }
      }
      for i := 0 to |cells|
        invariant Valid() && Step(start, masks, changed) && Uncounted() == old(Uncounted())
        invariant DonePairs(grammar, masks, cells, i, 0)
      {
        ghost var before := masks;
        var more;
        more, exhausted := RowPass(cells, i, start);
        StepTransitive(start, before, masks, changed, more);
        changed := changed || more;
        if exhausted {
          return;
        }
      }
      if !changed {
        AllPairsClosed(grammar, masks, cells);
      }
    }

    /** Alternates the two passes until neither adds anything. */
    method Close() returns (exhausted: bool)
      requires Valid()
      modifies this`order, this`masks, this`updates
      ensures Valid() && Grown(old(masks), masks) && Uncounted() == old(Uncounted())
      ensures exhausted ==> |masks| > maxCells || updates > maxUpdates
      ensures !exhausted ==> UnaryClosed(grammar, masks) && BinaryClosed(grammar, masks)
    {
      var changed := true;
      while changed
        invariant Valid() && Grown(old(masks), masks) && Uncounted() == old(Uncounted())
        invariant !changed ==> UnaryClosed(grammar, masks) && BinaryClosed(grammar, masks)
        decreases Universe(length) - Bits(masks), changed
      {
        ghost var before := masks;
        changed := UnaryPass();
        ghost var middle := masks;
        var more;
        more, exhausted := BinaryPass();
        StepTransitive(before, middle, masks, changed, more);
        changed := changed || more;
        if exhausted {
          return;
        }
        if changed {
          StepShrinksRest(before, masks, length);
        }
      }
      exhausted := false;
    }
  }

  predicate Applies(rule: BinaryRule, left: Cell, right: Cell) {
    rule.left in left.mask && rule.right in right.mask
  }

  /** What combining two cells of a snapshot leaves behind. */
  ghost predicate PairDone(g: Grammar, masks: Masks, left: Cell, right: Cell) {
    left.span.end == right.span.start ==>
      forall l, r, t | l in left.mask && r in right.mask && BinaryStep(g, l, r, t) ::
        Has(masks, Span(left.span.start, right.span.end), t)
  }

  /** The pairs visited before pair `(i, j)` are done. */
  ghost predicate DonePairs(g: Grammar, masks: Masks, cells: seq<Cell>, i: nat, j: nat) {
    forall a, b | 0 <= a < |cells| && 0 <= b < |cells| && (a < i || (a == i && b < j)) ::
      PairDone(g, masks, cells[a], cells[b])
  }

  lemma DonePairsGrow(g: Grammar, before: Masks, after: Masks, cells: seq<Cell>, i: nat, j: nat)
    requires Grown(before, after) && DonePairs(g, before, cells, i, j)
    ensures DonePairs(g, after, cells, i, j)
  {}

  lemma DonePairsStep(g: Grammar, masks: Masks, cells: seq<Cell>, i: nat, j: nat)
    requires i < |cells| && j < |cells| && DonePairs(g, masks, cells, i, j) && PairDone(g, masks, cells[i], cells[j])
    ensures DonePairs(g, masks, cells, i, j + 1)
    ensures j + 1 == |cells| ==> DonePairs(g, masks, cells, i + 1, 0)
  {}

  lemma AllPairsClosed(g: Grammar, masks: Masks, cells: seq<Cell>)
    requires DonePairs(g, masks, cells, |cells|, 0)
    requires forall span | span in masks :: Cell(span, masks[span]) in cells
    ensures BinaryClosed(g, masks)
  {
    forall left, right, l, r, t |
      Has(masks, left, l) && Has(masks, right, r) && left.end == right.start && BinaryStep(g, l, r, t)
      ensures Has(masks, Span(left.start, right.end), t)
    {
      var a :| 0 <= a < |cells| && cells[a] == Cell(left, masks[left]);
      var b :| 0 <= b < |cells| && cells[b] == Cell(right, masks[right]);
      assert PairDone(g, masks, cells[a], cells[b]);
    }
  }

  /** The cells were in the chart when the pass began. */
  ghost predicate IsSnapshot(cells: seq<Cell>, start: Masks) {
    forall i | 0 <= i < |cells| ::
          cells[i].span in start && forall c | c in cells[i].mask :: Has(start, cells[i].span, c)
  }

  lemma SnapshotDerivable(g: Grammar, lexicon: set<Bit>, start: Masks, masks: Masks, cell: Cell)
    requires Sound(g, lexicon, masks) && Grown(start, masks)
    requires forall c | c in cell.mask :: Has(start, cell.span, c)
    ensures forall c | c in cell.mask :: Derivable(g, lexicon, cell.span, c)
  {
    forall c | c in cell.mask ensures Derivable(g, lexicon, cell.span, c) {
      assert Has(masks, cell.span, c);
    }
  }

  // ---- The parser --------------------------------------------------------------------------------

  datatype ChartResult =
    | HoleOutsideRoot
    | Parsed(root: Span, roots: set<Category>, cells: Masks, complete: bool, updates: nat)

  /** The first and one past the last meaningful character. */
  method RootSpan(meaningful: seq<bool>) returns (root: Option<Span>)
    ensures root.None? <==> forall i | 0 <= i < |meaningful| :: !meaningful[i]
    ensures root.Some? ==>
              && root.value.start < root.value.end <= |meaningful|
              && meaningful[root.value.start] && meaningful[root.value.end - 1]
              && forall i | 0 <= i < |meaningful| && meaningful[i] :: root.value.start <= i < root.value.end
  {
    root := None;
    for i := 0 to |meaningful|
      invariant root.None? <==> forall j | 0 <= j < i :: !meaningful[j]
      invariant root.Some? ==>
                  && root.value.start < root.value.end <= i
                  && meaningful[root.value.start] && meaningful[root.value.end - 1]
                  && forall j | 0 <= j < i && meaningful[j] :: root.value.start <= j < root.value.end
    {
      if meaningful[i] {
        root := Some(Span(if root.Some? then root.value.start else i, i + 1));
      }
    }
  }

  predicate HoleFits(root: Span, hole: Option<Span>) {
    hole.Some? ==> root.start <= hole.value.start < hole.value.end <= root.end
  }

  /** A complete chart holds exactly the derivable categories of every span; a chart out of budget still
      holds derivable ones only, reports no root category, and has really overrun a budget. The updates are
      the categories found beyond the leaves. */
  ghost predicate Charted(g: Grammar, lexicon: set<Bit>, hole: Option<Span>, maxCells: nat, maxUpdates: nat,
                          root: Span, r: ChartResult) {
    && (r.HoleOutsideRoot? <==> !HoleFits(root, hole))
    && (r.Parsed? ==>
          && r.root == root
          && Sound(g, lexicon, r.cells) && (forall span | span in r.cells :: r.cells[span] != {})
          && r.updates + |lexicon| == |Bits(r.cells)|
          && (r.complete ==> ExactChart(g, lexicon, r.cells))
          && (r.complete ==> forall c :: c in r.roots <==> Derivable(g, lexicon, root, c))
          && (!r.complete ==> r.roots == {} && (|r.cells| > maxCells || r.updates > maxUpdates)))
  }

  /** The admitted tokens under their categories. */
  method SeedTokens(chart: Chart, tokens: seq<Token>, root: Span, hole: Option<Span>)
    requires chart.Valid() && chart.masks == map[] && chart.updates == 0
    requires chart.lexicon == Lexicon(tokens, root, hole)
    requires forall t | t in tokens :: t.span.start < t.span.end <= chart.length
    modifies chart`order, chart`masks
    ensures chart.Valid() && OnlyLeaves(chart.lexicon, chart.masks)
    ensures TokensSeeded(tokens, |tokens|, root, hole, chart.masks)
  {
    for i := 0 to |tokens|
      invariant chart.Valid() && OnlyLeaves(chart.lexicon, chart.masks)
      invariant TokensSeeded(tokens, i, root, hole, chart.masks)
    {
      SeedToken(chart, tokens, i, root, hole);
    }
  }

  method SeedToken(chart: Chart, tokens: seq<Token>, i: nat, root: Span, hole: Option<Span>)
    requires chart.Valid() && OnlyLeaves(chart.lexicon, chart.masks) && i < |tokens|
    requires chart.lexicon == Lexicon(tokens, root, hole) && TokensSeeded(tokens, i, root, hole, chart.masks)
    requires tokens[i].span.start < tokens[i].span.end <= chart.length
    modifies chart`order, chart`masks
    ensures chart.Valid() && OnlyLeaves(chart.lexicon, chart.masks)
    ensures TokensSeeded(tokens, i + 1, root, hole, chart.masks)
  {
    hide Derivable;
    var token := tokens[i];
    if Admits(token, root, hole) {
      for k := 0 to |token.categories|
        invariant chart.Valid() && OnlyLeaves(chart.lexicon, chart.masks)
        invariant TokensSeeded(tokens, i, root, hole, chart.masks)
        invariant forall j | 0 <= j < k :: Has(chart.masks, token.span, token.categories[j])
      {
        assert token in tokens && token.categories[k] in token.categories;
        LeafDerivable(chart.grammar, chart.lexicon, token.span, token.categories[k]);
        var _ := chart.Add(token.span, token.categories[k]);
      }
    }
  }

  /** The first `k` tokens are in the chart as far as they are admitted. */
  ghost predicate TokensSeeded(tokens: seq<Token>, k: nat, root: Span, hole: Option<Span>, masks: Masks)
    requires k <= |tokens|
  {
    forall j, c | 0 <= j < k && Admits(tokens[j], root, hole) && c in tokens[j].categories ::
      Has(masks, tokens[j].span, c)
  }

  /** Parses the tokens of a segmentation lattice. Text without a meaningful character has the empty chart. */
  method ParseChart(g: Grammar, tokens: seq<Token>, meaningful: seq<bool>, hole: Option<Span>,
                    maxCells: nat, maxUpdates: nat) returns (r: ChartResult, root: Option<Span>)
    requires maxCells >= 1 && maxUpdates >= 1
    requires forall t | t in tokens :: t.span.start < t.span.end <= |meaningful|
    ensures root.None? <==> forall i | 0 <= i < |meaningful| :: !meaningful[i]
    ensures root.Some? ==>
              && root.value.start < root.value.end <= |meaningful|
              && meaningful[root.value.start] && meaningful[root.value.end - 1]
              && forall i | 0 <= i < |meaningful| && meaningful[i] :: root.value.start <= i < root.value.end
    ensures root.None? ==> r == Parsed(Span(0, 0), {}, map[], true, 0)
    ensures root.Some? ==>
              Charted(g, Lexicon(tokens, root.value, hole), hole, maxCells, maxUpdates, root.value, r)
  {
    root := RootSpan(meaningful);
    if root.None? {
      return Parsed(Span(0, 0), {}, map[], true, 0), root;
    }
    r := ParseRoot(g, tokens, |meaningful|, root.value, hole, maxCells, maxUpdates);
  }

  method ParseRoot(g: Grammar, tokens: seq<Token>, n: nat, root: Span, hole: Option<Span>, maxCells: nat,
                   maxUpdates: nat)
    returns (r: ChartResult)
    requires forall t | t in tokens :: t.span.start < t.span.end <= n
    requires root.end <= n
    ensures Charted(g, Lexicon(tokens, root, hole), hole, maxCells, maxUpdates, root, r)
  {
    hide Derivable, Lexicon, Sound, Seeded, UnaryClosed, BinaryClosed, Bits, TokensSeeded, OnlyLeaves, Grown;
    ghost var lexicon := Lexicon(tokens, root, hole);
    var chart := new Chart(g, n, maxCells, maxUpdates, lexicon);
    SeedTokens(chart, tokens, root, hole);
    if !HoleFits(root, hole) {
      return HoleOutsideRoot;
    }
    SeedHole(chart, tokens, root, hole);
    ghost var seeds := chart.masks;
    var exhausted := chart.Close();
    if exhausted {
      return Parsed(root, {}, chart.masks, false, chart.updates);
    }
    StillSeeded(lexicon, seeds, chart.masks);
    ClosedIsCharted(g, lexicon, chart.masks, root);
    var roots := if root in chart.masks then chart.masks[root] else {};
    r := Parsed(root, roots, chart.masks, true, chart.updates);
  }

  /** The hole, if there is one; then the chart holds exactly the leaves. */
  method SeedHole(chart: Chart, tokens: seq<Token>, root: Span, hole: Option<Span>)
    requires chart.Valid() && OnlyLeaves(chart.lexicon, chart.masks) && chart.lexicon == Lexicon(tokens, root, hole)
    requires TokensSeeded(tokens, |tokens|, root, hole, chart.masks) && HoleFits(root, hole) && root.end <= chart.length
    modifies chart`order, chart`masks
    ensures chart.Valid() && Seeded(chart.lexicon, chart.masks) && Bits(chart.masks) == chart.lexicon
  {
    hide Derivable;
    if hole.Some? {
      LeafDerivable(chart.grammar, chart.lexicon, hole.value, H);
      var _ := chart.Add(hole.value, H);
    }
    assert Seeded(chart.lexicon, chart.masks);
    SeedsAreLexicon(chart.lexicon, chart.masks);
  }

  lemma StillSeeded(lexicon: set<Bit>, before: Masks, after: Masks)
    requires Seeded(lexicon, before) && Grown(before, after)
    ensures Seeded(lexicon, after)
  {}

  lemma ClosedIsCharted(g: Grammar, lexicon: set<Bit>, masks: Masks, root: Span)
    requires Sound(g, lexicon, masks) && Seeded(lexicon, masks)
    requires UnaryClosed(g, masks) && BinaryClosed(g, masks)
    ensures ExactChart(g, lexicon, masks)
    ensures forall c :: c in (if root in masks then masks[root] else {}) <==> Derivable(g, lexicon, root, c)
  {
    FixpointIsExact(g, lexicon, masks);
    hide Derivable;
    forall c ensures c in (if root in masks then masks[root] else {}) <==> Derivable(g, lexicon, root, c) {
      assert Has(masks, root, c) <==> Derivable(g, lexicon, root, c);
    }
  }

  lemma LeafDerivable(g: Grammar, lexicon: set<Bit>, span: Span, c: Category)
    requires (span, c) in lexicon
    ensures Derivable(g, lexicon, span, c)
  {
    assert Derivation(g, lexicon, Leaf(span, c));
  }

  ghost predicate OnlyLeaves(lexicon: set<Bit>, masks: Masks) {
    forall span, c | Has(masks, span, c) :: (span, c) in lexicon
  }

  lemma SeedsAreLexicon(lexicon: set<Bit>, masks: Masks)
    requires Seeded(lexicon, masks) && OnlyLeaves(lexicon, masks)
    ensures Bits(masks) == lexicon
  {
    forall b: Bit ensures b in Bits(masks) <==> b in lexicon {
      assert b == (b.0, b.1);
      assert Has(masks, b.0, b.1) <==> b in Bits(masks);
    }
  }

  function Spans(bits: set<Bit>): set<Span> {
    set b | b in bits :: b.0
  }

  lemma SubsetSize<T>(a: set<T>, b: set<T>)
    requires a <= b
    ensures |a| <= |b|
  {
    assert b == a + (b - a);
  }

  /** Budgets that cover all derivable categories and their spans are never reported exhausted. */
  lemma BudgetSuffices(g: Grammar, lexicon: set<Bit>, hole: Option<Span>, maxCells: nat, maxUpdates: nat, root: Span,
                       r: ChartResult, all: set<Bit>)
    requires Charted(g, lexicon, hole, maxCells, maxUpdates, root, r) && r.Parsed?
    requires forall span, c | Derivable(g, lexicon, span, c) :: (span, c) in all
    requires |all| <= |lexicon| + maxUpdates && |Spans(all)| <= maxCells
    ensures r.complete
  {
    forall b | b in Bits(r.cells) ensures b in all {
      assert Has(r.cells, b.0, b.1);
    }
    SubsetSize(Bits(r.cells), all);
    forall span | span in r.cells ensures span in Spans(all) {
      var c :| c in r.cells[span];
      assert Has(r.cells, span, c) && (span, c) in all;
    }
    SubsetSize(r.cells.Keys, Spans(all));
  }
}
