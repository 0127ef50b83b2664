/** The SimpleMRS block scanner: a cursor over bracket depth, quotes and escapes, proved to split a text
    into exactly the blocks of a grammar. */
module SimpleMrsScanner {
  const MARKER: string := "[ LTOP:"

  // ---------------------------------------------------------------- the scanner

  datatype Scan = EndsAt(at: nat) | Unbalanced | Unterminated

  datatype Mode = Mode(depth: int, quoted: bool, escaped: bool)

  function Inside(depth: int): Mode {
    Mode(depth, false, false)
  }

  function Quoting(depth: int): Mode {
    Mode(depth, true, false)
  }

  /** The state after one character. */
  function Advance(m: Mode, c: char): Mode {
    if m.quoted then
      if m.escaped then m.(escaped := false)
      else if c == '\\' then m.(escaped := true)
      else if c == '"' then m.(quoted := false)
      else m
    else if c == '"' then m.(quoted := true)
    else if c == '[' then m.(depth := m.depth + 1)
    else if c == ']' then m.(depth := m.depth - 1)
    else m
  }

  predicate Closes(m: Mode, c: char) {
    !m.quoted && c == ']'
  }

  /** What the character loop answers from a position and a state. */
  function ScanFrom(text: string, index: nat, m: Mode): Scan
    requires index <= |text|
    decreases |text| - index
  {
    if index == |text| then Unterminated
    else
      var next := Advance(m, text[index]);
      if Closes(m, text[index]) && next.depth == 0 then EndsAt(index + 1)
      else if Closes(m, text[index]) && next.depth < 0 then Unbalanced
      else ScanFrom(text, index + 1, next)
  }

  predicate Occurs(text: string, pattern: string, i: nat) {
    i + |pattern| <= |text| && text[i..i + |pattern|] == pattern
  }

  datatype Found = At(start: nat) | Nowhere

  /** `str.find`: the first occurrence at or after the cursor. */
  function Find(text: string, pattern: string, cursor: nat): (f: Found)
    requires cursor <= |text|
    ensures f.At? ==> cursor <= f.start && Occurs(text, pattern, f.start)
    ensures f.At? ==> forall i: nat | cursor <= i < f.start :: !Occurs(text, pattern, i)
    ensures f.Nowhere? ==> forall i: nat | cursor <= i :: !Occurs(text, pattern, i)
    decreases |text| - cursor
  {
    if Occurs(text, pattern, cursor) then At(cursor)
    else if cursor == |text| then Nowhere
    else Find(text, pattern, cursor + 1)
  }

  datatype Extraction = Blocks(blocks: seq<string>) | UnbalancedBlock | UnterminatedBlock

  lemma {:induction false} ScanAdvances(text: string, index: nat, m: Mode)
    requires index <= |text|
    ensures var s := ScanFrom(text, index, m); s.EndsAt? ==> index < s.at <= |text|
    decreases |text| - index
  {
    if index < |text| {
      ScanAdvances(text, index + 1, Advance(m, text[index]));
    }
  }

  /** What the outer loop answers with some blocks already found. */
  function ExtractFrom(text: string, cursor: nat, blocks: seq<string>): Extraction
    requires cursor <= |text|
    decreases |text| - cursor
  {
    match Find(text, MARKER, cursor)
    case Nowhere => Blocks(blocks)
    case At(start) =>
      ScanAdvances(text, start, Inside(0));
      match ScanFrom(text, start, Inside(0))
      case Unbalanced => UnbalancedBlock
      case Unterminated => UnterminatedBlock
      case EndsAt(end) => ExtractFrom(text, end, blocks + [text[start..end]])
  }

  method ScanBlock(text: string, start: nat) returns (scan: Scan)
    requires start < |text|
    ensures scan == ScanFrom(text, start, Inside(0))
  {
    var depth := 0;
    var quoted, escaped := false, false;
    for index := start to |text|
      invariant ScanFrom(text, index, Mode(depth, quoted, escaped)) == ScanFrom(text, start, Inside(0))
    {
      var character := text[index];
      ghost var before := Mode(depth, quoted, escaped);
      if quoted {
        if escaped {
          escaped := false;
        } else if character == '\\' {
          escaped := true;
        } else if character == '"' {
          quoted := false;
        }
      } else if character == '"' {
        quoted := true;
      } else if character == '[' {
        depth := depth + 1;
      } else if character == ']' {
        depth := depth - 1;
        if depth == 0 {
          return EndsAt(index + 1);
        }
        if depth < 0 {
          return Unbalanced;
        }
      }
      assert Mode(depth, quoted, escaped) == Advance(before, character);
    }
    return Unterminated;
  }

  method ExtractBlocks(text: string) returns (result: Extraction)
    ensures result == ExtractFrom(text, 0, [])
    ensures !result.UnbalancedBlock?
  {
    var blocks: seq<string> := [];
    var cursor := 0;
    NeverUnbalanced(text, 0, []);
    while true
      invariant 0 <= cursor <= |text|
      invariant ExtractFrom(text, cursor, blocks) == ExtractFrom(text, 0, [])
      decreases |text| - cursor
    {
      var found := Find(text, MARKER, cursor);
      if found.Nowhere? {
        return Blocks(blocks);
      }
      ScanAdvances(text, found.start, Inside(0));
      var scan := ScanBlock(text, found.start);
      match scan {
        case Unbalanced => return UnbalancedBlock;
        case Unterminated => return UnterminatedBlock;
        case EndsAt(end) =>
          blocks := blocks + [text[found.start..end]];
          cursor := end;
      }
    }
  }

  /** The marker opens with its only bracket. */
  lemma MarkerChars(text: string, i: nat)
    requires Occurs(text, MARKER, i)
    ensures text[i] == '['
    ensures forall j | i < j < i + |MARKER| :: text[j] != '[' && text[j] != ']'
  {
    assert MARKER[0] == '[' && forall m | 1 <= m < |MARKER| :: MARKER[m] != '[' && MARKER[m] != ']';
    forall j | i <= j < i + |MARKER| ensures text[j] == MARKER[j - i] {
      assert text[i..i + |MARKER|][j - i] == text[j];
    }
  }

  /** Once inside a bracket the depth never falls below zero. */
  lemma {:induction false} InsideNeverUnbalanced(text: string, index: nat, m: Mode)
    requires index <= |text| && 1 <= m.depth
    ensures !ScanFrom(text, index, m).Unbalanced?
    decreases |text| - index
  {
    if index < |text| && Advance(m, text[index]).depth != 0 {
      InsideNeverUnbalanced(text, index + 1, Advance(m, text[index]));
    }
  }

  /** The error for an unbalanced closing bracket is never raised: a block starts with a bracket. */
  lemma {:induction false} NeverUnbalanced(text: string, cursor: nat, blocks: seq<string>)
    requires cursor <= |text|
    ensures !ExtractFrom(text, cursor, blocks).UnbalancedBlock?
    decreases |text| - cursor
  {
    var found := Find(text, MARKER, cursor);
    if found.At? {
      var start := found.start;
      MarkerChars(text, start);
      InsideNeverUnbalanced(text, start + 1, Inside(1));
      ScanAdvances(text, start, Inside(0));
      var scan := ScanFrom(text, start, Inside(0));
      if scan.EndsAt? {
        NeverUnbalanced(text, scan.at, blocks + [text[start..scan.at]]);
      }
    }
  }

  // ---------------------------------------------------------------- the block grammar

  datatype QuotedChar = Literal(c: char) | Escape(c: char)

  /** A piece of a block: a plain character, a quoted string, or a nested bracket. */
  datatype Item = Plain(c: char) | Quoted(body: seq<QuotedChar>) | Nested(items: seq<Item>)

  predicate GoodQuoted(q: QuotedChar) {
    q.Literal? ==> q.c != '"' && q.c != '\\'
  }

  predicate GoodItem(item: Item) {
    match item
    case Plain(c) => c != '"' && c != '[' && c != ']'
    case Quoted(body) => forall i | 0 <= i < |body| :: GoodQuoted(body[i])
    case Nested(items) => GoodItems(items)
  }

  predicate GoodItems(items: seq<Item>) {
    forall i | 0 <= i < |items| :: GoodItem(items[i])
  }

  function RenderQuoted(q: QuotedChar): string {
    match q
    case Literal(c) => [c]
    case Escape(c) => ['\\', c]
  }

  function RenderBody(body: seq<QuotedChar>): string {
    if body == [] then "" else RenderQuoted(body[0]) + RenderBody(body[1..])
  }

  function RenderItem(item: Item): string {
    match item
    case Plain(c) => [c]
    case Quoted(body) => "\"" + RenderBody(body) + "\""
    case Nested(items) => "[" + RenderItems(items) + "]"
  }

  function RenderItems(items: seq<Item>): string {
    if items == [] then "" else RenderItem(items[0]) + RenderItems(items[1..])
  }

  /** A block: one bracket whose rendering begins with the marker. */
  predicate IsBlock(block: string, items: seq<Item>) {
    && GoodItems(items)
    && block == RenderItem(Nested(items))
    && MARKER <= block
  }

  // ---------------------------------------------------------------- rendered blocks scan to their end

  lemma OccursSplit(text: string, a: string, b: string, i: nat)
    requires Occurs(text, a + b, i)
    ensures Occurs(text, a, i) && Occurs(text, b, i + |a|)
  {
    var whole := text[i..i + |a + b|];
    assert whole[..|a|] == a && whole[|a|..] == b;
    assert whole[..|a|] == text[i..i + |a|];
    assert whole[|a|..] == text[i + |a|..i + |a| + |b|];
  }

  lemma OccursChar(text: string, c: char, i: nat)
    requires Occurs(text, [c], i)
    ensures i < |text| && text[i] == c
  {
    assert text[i..i + 1][0] == text[i];
  }

  lemma ScanQuotedChar(text: string, i: nat, q: QuotedChar, depth: int)
    requires GoodQuoted(q) && Occurs(text, RenderQuoted(q), i)
    ensures ScanFrom(text, i, Quoting(depth)) == ScanFrom(text, i + |RenderQuoted(q)|, Quoting(depth))
  {
    match q {
      case Literal(c) =>
        OccursChar(text, c, i);
      case Escape(c) =>
        assert RenderQuoted(q) == ['\\'] + [c];
        OccursSplit(text, ['\\'], [c], i);
        OccursChar(text, '\\', i);
        OccursChar(text, c, i + 1);
        assert ScanFrom(text, i, Quoting(depth)) == ScanFrom(text, i + 1, Mode(depth, true, true));
    }
  }

  lemma {:induction false} ScanBody(text: string, i: nat, body: seq<QuotedChar>, depth: int)
    requires forall k | 0 <= k < |body| :: GoodQuoted(body[k])
    requires Occurs(text, RenderBody(body), i)
    ensures i + |RenderBody(body)| <= |text|
    ensures ScanFrom(text, i, Quoting(depth)) == ScanFrom(text, i + |RenderBody(body)|, Quoting(depth))
    decreases |body|
  {
    if body != [] {
      OccursSplit(text, RenderQuoted(body[0]), RenderBody(body[1..]), i);
      ScanQuotedChar(text, i, body[0], depth);
      ScanBody(text, i + |RenderQuoted(body[0])|, body[1..], depth);
    }
  }

  lemma OccursWrapped(text: string, open: char, inner: string, close: char, i: nat)
    requires Occurs(text, [open] + inner + [close], i)
    ensures i + 1 + |inner| < |text|
    ensures text[i] == open && Occurs(text, inner, i + 1) && text[i + 1 + |inner|] == close
  {
    OccursSplit(text, [open] + inner, [close], i);
    OccursSplit(text, [open], inner, i);
    OccursChar(text, open, i);
    OccursChar(text, close, i + 1 + |inner|);
  }

  lemma ScanQuoted(text: string, i: nat, body: seq<QuotedChar>, depth: nat)
    requires GoodItem(Quoted(body)) && 1 <= depth
    requires Occurs(text, RenderItem(Quoted(body)), i)
    ensures ScanFrom(text, i, Inside(depth)) == ScanFrom(text, i + |RenderItem(Quoted(body))|, Inside(depth))
  {
    OccursWrapped(text, '"', RenderBody(body), '"', i);
    ScanBody(text, i + 1, body, depth);
    assert ScanFrom(text, i, Inside(depth)) == ScanFrom(text, i + 1, Quoting(depth));
  }

  lemma {:induction false} ScanItem(text: string, i: nat, item: Item, depth: nat)
    requires GoodItem(item) && 1 <= depth
    requires Occurs(text, RenderItem(item), i)
    ensures ScanFrom(text, i, Inside(depth)) == ScanFrom(text, i + |RenderItem(item)|, Inside(depth))
    decreases item, 0
  {
    match item {
      case Plain(c) =>
        OccursChar(text, c, i);
      case Quoted(body) =>
        ScanQuoted(text, i, body, depth);
      case Nested(items) =>
        OccursWrapped(text, '[', RenderItems(items), ']', i);
        ScanItems(text, i + 1, items, depth + 1);
    }
  }

  lemma {:induction false} ScanItems(text: string, i: nat, items: seq<Item>, depth: nat)
    requires GoodItems(items) && 1 <= depth
    requires Occurs(text, RenderItems(items), i)
    ensures ScanFrom(text, i, Inside(depth)) == ScanFrom(text, i + |RenderItems(items)|, Inside(depth))
    decreases items, 1
  {
    hide ScanFrom, Occurs, GoodItem;
    if items != [] {
      var head, tail := RenderItem(items[0]), RenderItems(items[1..]);
      assert RenderItems(items) == head + tail;
      OccursSplit(text, head, tail, i);
      ScanItem(text, i, items[0], depth);
      ScanItems(text, i + |head|, items[1..], depth);
    }
  }

  /** Scanning a rendered block from its first character ends exactly behind its last one. */
  lemma BlockScansToItsEnd(text: string, i: nat, items: seq<Item>)
    requires GoodItems(items) && Occurs(text, RenderItem(Nested(items)), i)
    ensures ScanFrom(text, i, Inside(0)) == EndsAt(i + |RenderItem(Nested(items))|)
  {
    var inner := RenderItems(items);
    assert RenderItem(Nested(items)) == ['['] + inner + [']'];
    OccursWrapped(text, '[', inner, ']', i);
    ScanItems(text, i + 1, items, 1);
    ScanBrackets(text, i, inner);
  }

  lemma ScanBrackets(text: string, i: nat, inner: string)
    requires i + 1 + |inner| < |text| && text[i] == '[' && text[i + 1 + |inner|] == ']'
    requires ScanFrom(text, i + 1, Inside(1)) == ScanFrom(text, i + 1 + |inner|, Inside(1))
    ensures ScanFrom(text, i, Inside(0)) == EndsAt(i + 1 + |inner| + 1)
  {}

  // ---------------------------------------------------------------- a scan that ends has read a block

  /** What remains of some nested brackets: one run of items and a closing bracket per open bracket. */
  function RenderLevels(levels: seq<seq<Item>>): string {
    if levels == [] then "" else RenderItems(levels[0]) + "]" + RenderLevels(levels[1..])
  }

  predicate GoodLevels(levels: seq<seq<Item>>) {
    forall i | 0 <= i < |levels| :: GoodItems(levels[i])
  }

  lemma Cut(text: string, i: nat, j: nat, k: nat)
    requires i <= j <= k <= |text|
    ensures text[i..k] == text[i..j] + text[j..k]
  {}

  lemma SliceOfSlice(text: string, a: nat, b: nat, c: nat, d: nat)
    requires a <= b <= |text| && c <= d <= b - a
    ensures text[a..b][c..d] == text[a + c..a + d]
  {
    var outer := text[a..b];
    forall k | 0 <= k < d - c ensures outer[c..d][k] == text[a + c..a + d][k] {
      assert outer[c..d][k] == outer[c + k] == text[a + (c + k)];
    }
  }

  function Prepend(item: Item, levels: seq<seq<Item>>): seq<seq<Item>>
    requires levels != []
  {
    [[item] + levels[0]] + levels[1..]
  }

  lemma PrependItem(item: Item, levels: seq<seq<Item>>)
    requires levels != [] && GoodItem(item) && GoodLevels(levels)
    ensures |Prepend(item, levels)| == |levels| && GoodLevels(Prepend(item, levels))
    ensures RenderLevels(Prepend(item, levels)) == RenderItem(item) + RenderLevels(levels)
  {
    var more := Prepend(item, levels);
    assert ([item] + levels[0])[1..] == levels[0];
    assert more[0] == [item] + levels[0] && more[1..] == levels[1..];
    assert RenderItems(more[0]) == RenderItem(item) + RenderItems(levels[0]);
    forall i | 0 <= i < |more| ensures GoodItems(more[i]) {
      if i == 0 {
        forall k | 0 <= k < |more[0]| ensures GoodItem(more[0][k]) {
          assert GoodItems(levels[0]);
        }
      } else {
        assert more[i] == levels[i];
      }
    }
  }

  lemma CloseLevel(levels: seq<seq<Item>>)
    requires GoodLevels(levels)
    ensures |[[]] + levels| == |levels| + 1 && GoodLevels([[]] + levels)
    ensures RenderLevels([[]] + levels) == "]" + RenderLevels(levels)
  {
    var more := [[]] + levels;
    assert more[1..] == levels && more[0] == [];
    assert RenderItems(more[0]) == "";
    forall i | 0 <= i < |more| ensures GoodItems(more[i]) {
      if i > 0 {
        assert more[i] == levels[i - 1];
      }
    }
  }

  lemma TailLevels(levels: seq<seq<Item>>)
    requires levels != [] && GoodLevels(levels)
    ensures GoodItems(levels[0]) && GoodLevels(levels[1..])
  {
    forall i | 0 <= i < |levels[1..]| ensures GoodItems(levels[1..][i]) {
      assert levels[1..][i] == levels[i + 1];
    }
  }

  /** Folding a finished level into a nested item of the level below. */
  lemma FoldLevel(levels: seq<seq<Item>>)
    requires 2 <= |levels| && GoodLevels(levels)
    ensures |Prepend(Nested(levels[0]), levels[1..])| == |levels| - 1
    ensures GoodLevels(Prepend(Nested(levels[0]), levels[1..]))
    ensures RenderLevels(Prepend(Nested(levels[0]), levels[1..])) == "[" + RenderLevels(levels)
  {
    TailLevels(levels);
    var top := levels[0];
    PrependItem(Nested(top), levels[1..]);
    RenderFold(RenderItems(top), RenderLevels(levels[1..]));
  }

  lemma RenderFold(inner: string, below: string)
    ensures ("[" + inner + "]") + below == "[" + (inner + "]" + below)
  {}

  /** A quoted run that lets the scan end closes, and what it read is a quoted body. */
  lemma {:induction false} BodyRead(text: string, i: nat, depth: nat) returns (body: seq<QuotedChar>, j: nat)
    requires i <= |text|
    requires ScanFrom(text, i, Quoting(depth)).EndsAt?
    ensures i < j <= |text| && text[i..j] == RenderBody(body) + "\""
    ensures forall k | 0 <= k < |body| :: GoodQuoted(body[k])
    ensures ScanFrom(text, i, Quoting(depth)) == ScanFrom(text, j, Inside(depth))
    decreases |text| - i
  {
    var c := text[i];
    if c == '"' {
      body, j := [], i + 1;
    } else {
      var q: QuotedChar;
      var next: nat;
      if c == '\\' {
        assert ScanFrom(text, i, Quoting(depth)) == ScanFrom(text, i + 1, Mode(depth, true, true));
        q, next := Escape(text[i + 1]), i + 2;
      } else {
        q, next := Literal(c), i + 1;
      }
      assert text[i..next] == RenderQuoted(q);
      var rest;
      rest, j := BodyRead(text, next, depth);
      body := [q] + rest;
      assert body[1..] == rest;
      assert text[i..j] == text[i..next] + text[next..j];
    }
  }

  lemma PrependQuoted(text: string, i: nat, j: nat, end: nat, body: seq<QuotedChar>, levels: seq<seq<Item>>)
    requires i < j <= end <= |text| && text[i] == '"' && text[i + 1..j] == RenderBody(body) + "\""
    requires text[j..end] == RenderLevels(levels) && levels != [] && GoodItem(Quoted(body)) && GoodLevels(levels)
    ensures |Prepend(Quoted(body), levels)| == |levels| && GoodLevels(Prepend(Quoted(body), levels))
    ensures text[i..end] == RenderLevels(Prepend(Quoted(body), levels))
  {
    PrependItem(Quoted(body), levels);
    JoinQuoted(text, i, j, end, RenderBody(body));
  }

  lemma JoinQuoted(text: string, i: nat, j: nat, end: nat, inner: string)
    requires i < j <= end <= |text| && text[i] == '"' && text[i + 1..j] == inner + "\""
    ensures text[i..end] == ("\"" + inner + "\"") + text[j..end]
  {
    Cut(text, i, i + 1, j);
    Cut(text, i, j, end);
    assert text[i..i + 1] == "\"";
  }

  /** If the scan ends, the text it read closes every open bracket with well-formed items. */
  lemma {:induction false} LevelsRead(text: string, i: nat, depth: nat) returns (levels: seq<seq<Item>>)
    requires i <= |text| && 1 <= depth
    requires ScanFrom(text, i, Inside(depth)).EndsAt?
    ensures var end := ScanFrom(text, i, Inside(depth)).at;
            i <= end <= |text| && text[i..end] == RenderLevels(levels)
    ensures |levels| == depth && GoodLevels(levels)
    decreases |text| - i
  {
    ScanAdvances(text, i, Inside(depth));
    var end := ScanFrom(text, i, Inside(depth)).at;
    var c := text[i];
    Cut(text, i, i + 1, end);
    assert text[i..i + 1] == [c];
    if c == '"' {
      assert ScanFrom(text, i, Inside(depth)) == ScanFrom(text, i + 1, Quoting(depth));
      var body, j := BodyRead(text, i + 1, depth);
      var rest := LevelsRead(text, j, depth);
      PrependQuoted(text, i, j, end, body, rest);
      levels := Prepend(Quoted(body), rest);
    } else if c == '[' {
      var rest := LevelsRead(text, i + 1, depth + 1);
      FoldLevel(rest);
      levels := Prepend(Nested(rest[0]), rest[1..]);
    } else if c == ']' && depth == 1 {
      CloseLevel([]);
      levels := [[]] + [];
      assert text[i + 1..end] == "";
    } else if c == ']' {
      var rest := LevelsRead(text, i + 1, depth - 1);
      CloseLevel(rest);
      levels := [[]] + rest;
    } else {
      var rest := LevelsRead(text, i + 1, depth);
      PrependItem(Plain(c), rest);
      levels := Prepend(Plain(c), rest);
    }
  }

  /** Whatever the scanner cuts out at a marker is a block of the grammar. */
  lemma ScannedIsBlock(text: string, start: nat) returns (items: seq<Item>)
    requires Occurs(text, MARKER, start) && ScanFrom(text, start, Inside(0)).EndsAt?
    ensures var end := ScanFrom(text, start, Inside(0)).at;
            start < end <= |text| && IsBlock(text[start..end], items)
  {
    MarkerChars(text, start);
    ScanAdvances(text, start, Inside(0));
    var end := ScanFrom(text, start, Inside(0)).at;
    assert ScanFrom(text, start, Inside(0)) == ScanFrom(text, start + 1, Inside(1));
    ScanAdvances(text, start + 1, Inside(1));
    var levels := LevelsRead(text, start + 1, 1);
    items := levels[0];
    assert levels[1..] == [];
    assert RenderLevels(levels) == RenderItems(items) + "]";
    Cut(text, start, start + 1, end);
    assert text[start..end] == RenderItem(Nested(items));
    BlockHoldsMarker(text, start, end);
    SliceOfSlice(text, start, end, 0, |MARKER|);
  }

  /** The marker of a block lies inside it: its bracket cannot close before the colon. */
  lemma BlockHoldsMarker(text: string, start: nat, end: nat)
    requires Occurs(text, MARKER, start)
    requires start + 1 < end <= |text| && text[end - 1] == ']'
    ensures |MARKER| <= end - start
  {
    MarkerChars(text, start);
    if end - start < |MARKER| {
      assert false;
    }
  }

  // ---------------------------------------------------------------- round trip

  /** Text in front of a block, and the block. */
  datatype Piece = Piece(gap: string, items: seq<Item>)

  ghost predicate MarkerFree(s: string) {
    forall i: nat :: !Occurs(s, MARKER, i)
  }

  ghost predicate GoodPiece(p: Piece) {
    MarkerFree(p.gap) && IsBlock(RenderItem(Nested(p.items)), p.items)
  }

  ghost predicate GoodPieces(pieces: seq<Piece>) {
    forall k | 0 <= k < |pieces| :: GoodPiece(pieces[k])
  }

  function Layout(pieces: seq<Piece>, tail: string): string {
    if pieces == [] then tail
    else pieces[0].gap + RenderItem(Nested(pieces[0].items)) + Layout(pieces[1..], tail)
  }

  function BlocksOf(pieces: seq<Piece>): seq<string> {
    if pieces == [] then [] else [RenderItem(Nested(pieces[0].items))] + BlocksOf(pieces[1..])
  }

  lemma OccursInside(text: string, from: nat, to: nat, k: nat)
    requires from <= to <= |text| && k + |MARKER| <= to - from
    ensures Occurs(text[from..to], MARKER, k) <==> Occurs(text, MARKER, from + k)
  {
    SliceOfSlice(text, from, to, k, k + |MARKER|);
  }

  /** The marker has no border, so none can begin in a marker-free gap and end in the block behind it. */
  lemma GapHidesNoMarker(text: string, cursor: nat, gap: string)
    requires MarkerFree(gap) && Occurs(text, gap, cursor) && Occurs(text, MARKER, cursor + |gap|)
    ensures Find(text, MARKER, cursor) == At(cursor + |gap|)
  {
    MarkerChars(text, cursor + |gap|);
    forall i: nat | cursor <= i < cursor + |gap| ensures !Occurs(text, MARKER, i) {
      if i + |MARKER| <= cursor + |gap| {
        OccursInside(text, cursor, cursor + |gap|, i - cursor);
      } else if Occurs(text, MARKER, i) {
        MarkerChars(text, i);
        assert false;
      }
    }
    assert !Find(text, MARKER, cursor).Nowhere?;
  }

  lemma TailHidesNoMarker(text: string, cursor: nat)
    requires cursor <= |text| && MarkerFree(text[cursor..])
    ensures Find(text, MARKER, cursor) == Nowhere
  {
    assert text[cursor..|text|] == text[cursor..];
    forall i: nat | cursor <= i ensures !Occurs(text, MARKER, i) {
      TailHidesMarkerAt(text, cursor, i);
    }
  }

  lemma TailHidesMarkerAt(text: string, cursor: nat, i: nat)
    requires cursor <= |text| && MarkerFree(text[cursor..|text|]) && cursor <= i
    ensures !Occurs(text, MARKER, i)
  {
    if i + |MARKER| <= |text| {
      OccursInside(text, cursor, |text|, i - cursor);
    }
  }

  /** What a layout looks like from the cursor: its gap, its block, and the rest behind them. */
  lemma LayoutSplit(text: string, cursor: nat, gap: string, block: string, rest: string)
    requires cursor <= |text| && text[cursor..] == gap + block + rest && MARKER <= block
    ensures cursor + |gap| + |block| <= |text|
    ensures Occurs(text, gap, cursor) && Occurs(text, block, cursor + |gap|) && Occurs(text, MARKER, cursor + |gap|)
    ensures text[cursor + |gap| + |block|..] == rest
  {
    var start, end := cursor + |gap|, cursor + |gap| + |block|;
    assert gap == (gap + block + rest)[..|gap|];
    SliceOfSlice(text, cursor, |text|, 0, |gap|);
    assert block == (gap + block + rest)[|gap|..|gap| + |block|];
    SliceOfSlice(text, cursor, |text|, |gap|, |gap| + |block|);
    SliceOfSlice(text, start, end, 0, |MARKER|);
    assert rest == (gap + block + rest)[|gap| + |block|..];
    assert text[cursor..][|gap| + |block|..] == text[end..];
  }

  /** One turn of the extraction loop on a laid-out text. */
  lemma LayoutTurn(text: string, cursor: nat, piece: Piece, rest: string, blocks: seq<string>) returns (end: nat)
    requires cursor <= |text| && GoodPiece(piece)
    requires text[cursor..] == piece.gap + RenderItem(Nested(piece.items)) + rest
    ensures cursor < end <= |text| && text[end..] == rest
    ensures ExtractFrom(text, cursor, blocks) == ExtractFrom(text, end, blocks + [RenderItem(Nested(piece.items))])
  {
    var gap, block := piece.gap, RenderItem(Nested(piece.items));
    LayoutSplit(text, cursor, gap, block, rest);
    BlockScansToItsEnd(text, cursor + |gap|, piece.items);
    var start := cursor + |gap|;
    end := start + |block|;
    GapHidesNoMarker(text, cursor, gap);
    OneTurn(text, cursor, start, end, blocks, block);
  }

  lemma OneTurn(text: string, cursor: nat, start: nat, end: nat, blocks: seq<string>, block: string)
    requires cursor <= start < |text| && Find(text, MARKER, cursor) == At(start)
    requires ScanFrom(text, start, Inside(0)) == EndsAt(end) && Occurs(text, block, start) && end == start + |block|
    ensures start < end <= |text|
    ensures ExtractFrom(text, cursor, blocks) == ExtractFrom(text, end, blocks + [block])
  {
    ScanAdvances(text, start, Inside(0));
  }

  lemma {:induction false} LayoutExtracts(text: string, cursor: nat, pieces: seq<Piece>, tail: string,
                                          blocks: seq<string>)
    requires cursor <= |text| && text[cursor..] == Layout(pieces, tail)
    requires GoodPieces(pieces) && MarkerFree(tail)
    ensures ExtractFrom(text, cursor, blocks) == Blocks(blocks + BlocksOf(pieces))
    decreases |pieces|
  {
    if pieces == [] {
      TailHidesNoMarker(text, cursor);
      assert blocks + BlocksOf(pieces) == blocks;
    } else {
      var block := RenderItem(Nested(pieces[0].items));
      var end := LayoutTurn(text, cursor, pieces[0], Layout(pieces[1..], tail), blocks);
      LayoutExtracts(text, end, pieces[1..], tail, blocks + [block]);
      AppendCons(blocks, block, BlocksOf(pieces[1..]));
    }
  }

  /** Round trip: a text laid out from marker-free gaps and blocks is split back into those blocks. */
  lemma RoundTrip(pieces: seq<Piece>, tail: string)
    requires GoodPieces(pieces) && MarkerFree(tail)
    ensures ExtractFrom(Layout(pieces, tail), 0, []) == Blocks(BlocksOf(pieces))
  {
    var text := Layout(pieces, tail);
    assert text[0..] == text;
    LayoutExtracts(text, 0, pieces, tail, []);
    assert [] + BlocksOf(pieces) == BlocksOf(pieces);
  }

  lemma GapIsMarkerFree(text: string, cursor: nat, start: nat)
    requires cursor <= start <= |text|
    requires forall i: nat | cursor <= i < start :: !Occurs(text, MARKER, i)
    ensures MarkerFree(text[cursor..start])
  {
    forall k: nat ensures !Occurs(text[cursor..start], MARKER, k) {
      if cursor + k + |MARKER| <= start {
        OccursInside(text, cursor, start, k);
      }
    }
  }

  lemma PrependPiece(text: string, cursor: nat, start: nat, end: nat, piece: Piece, rest: seq<Piece>, tail: string)
    requires cursor <= start <= end <= |text|
    requires GoodPieces(rest) && GoodPiece(piece) && text[end..] == Layout(rest, tail)
    requires text[cursor..start] == piece.gap && text[start..end] == RenderItem(Nested(piece.items))
    ensures GoodPieces([piece] + rest) && text[cursor..] == Layout([piece] + rest, tail)
    ensures BlocksOf([piece] + rest) == [text[start..end]] + BlocksOf(rest)
  {
    assert ([piece] + rest)[1..] == rest;
    Cut(text, cursor, end, |text|);
    Cut(text, cursor, start, end);
    assert text[cursor..|text|] == text[cursor..] && text[end..|text|] == text[end..];
  }

  lemma AppendCons(front: seq<string>, x: string, back: seq<string>)
    ensures front + [x] + back == front + ([x] + back)
  {}

  /** The other direction: whenever extraction succeeds, the text is such a layout of the blocks it
      returned, so success says the whole text was accounted for. */
  lemma {:induction false} ExtractionIsLayout(text: string, cursor: nat, blocks: seq<string>)
    returns (pieces: seq<Piece>, tail: string)
    requires cursor <= |text| && ExtractFrom(text, cursor, blocks).Blocks?
    ensures GoodPieces(pieces) && MarkerFree(tail)
    ensures text[cursor..] == Layout(pieces, tail)
    ensures ExtractFrom(text, cursor, blocks) == Blocks(blocks + BlocksOf(pieces))
    decreases |text| - cursor
  {
    var found := Find(text, MARKER, cursor);
    if found.Nowhere? {
      pieces, tail := [], text[cursor..];
      GapIsMarkerFree(text, cursor, |text|);
      assert text[cursor..|text|] == tail;
      assert blocks + BlocksOf(pieces) == blocks;
    } else {
      var start := found.start;
      ScanAdvances(text, start, Inside(0));
      var end := ScanFrom(text, start, Inside(0)).at;
      var items := ScannedIsBlock(text, start);
      GapIsMarkerFree(text, cursor, start);
      var rest;
      rest, tail := ExtractionIsLayout(text, end, blocks + [text[start..end]]);
      var piece := Piece(text[cursor..start], items);
      pieces := [piece] + rest;
      PrependPiece(text, cursor, start, end, piece, rest, tail);
      AppendCons(blocks, text[start..end], BlocksOf(rest));
    }
  }
}
