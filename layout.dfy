/**
 * The block/inline layout engine of src/layout.rs.
 *
 * A layout tree is built fresh from the document tree: the Document node
 * wraps the root, each Block node either stacks one child Block per document
 * child (block mode) or runs a `BlockComposer` over its whole subtree (inline
 * mode), which breaks words into lines greedily.  Glyph metrics come from a
 * font service given as a function, standing for egui's `layout_no_wrap`.
 * Coordinates are reals; f32 rounding is not modelled.
 */
module Layout {
  import opened Wrappers
  import Dom

  const HSTEP: real := 13.0
  const VSTEP: real := 17.0
  const WIDTH: real := 800.0
  const HEIGHT: real := 600.0

  /** Tags that make their parent lay out its children as blocks. */
  const BLOCK_ELEMENTS: seq<string> := [
    "html", "body", "article", "section", "nav", "aside",
    "h1", "h2", "h3", "h4", "h5", "h6", "hgroup", "header",
    "footer", "address", "p", "hr", "pre", "blockquote",
    "ol", "ul", "menu", "li", "dl", "dt", "dd", "figure",
    "figcaption", "main", "div", "table", "form", "fieldset",
    "legend", "details", "summary"
  ]

  datatype Vec2 = Vec2(x: real, y: real)

  /** A font: its size and the family name built from family, weight and style. */
  datatype FontId = FontId(size: real, family: string)

  /**
   * egui's `FontId::default()`: 14 points of the built-in proportional family.
   * Families are plain names here, so it looks like a font named
   * "Proportional"; the difference never shows, because `layout` runs
   * `update_font` on every composer before it measures a word.
   */
  const DEFAULT_FONT_ID: FontId := FontId(14.0, "Proportional")

  /**
   * What layout reads of a measured text run (an egui `Galley`): its text, its
   * size, and the ascent and height of the font of its first glyph.
   */
  datatype Galley = Galley(text: string, size: Vec2, fontAscent: real, fontHeight: real)

  /** The font service: measure a text in a font without wrapping. */
  type Fonts = (string, FontId) -> Galley

  /** A positioned text run. */
  datatype DrawText = DrawText(x: real, y: real, galley: Galley)

  /** The state a Block node carries while its inline content is composed. */
  datatype BlockLayout = BlockLayout(
    displayList: seq<DrawText>,
    fontFamily: string,
    fontWeight: string,
    fontStyle: string,
    fontSize: real,
    cursorX: real,
    cursorY: real,
    line: seq<DrawText>,
    fontId: FontId,
    spaceWidth: real)

  /** The block state `new_block` starts from. */
  function NewBlockLayout(): BlockLayout
  {
    BlockLayout([], "sans", "", "", 16.0, 0.0, 0.0, [], DEFAULT_FONT_ID, 0.0)
  }

  /** What a composer reads through its references to the block: position, width, and the font service. */
  datatype Outer = Outer(position: Vec2, width: real, fonts: Fonts)

  // ---------------------------------------------------------------------------
  // Words

  /** `char::is_whitespace`: the Unicode White_Space characters. */
  predicate IsWhitespace(c: char)
  {
    ('\U{9}' <= c <= '\U{D}') || c == ' ' || c == '\U{85}' || c == '\U{A0}' || c == '\U{1680}'
    || ('\U{2000}' <= c <= '\U{200A}') || c == '\U{2028}' || c == '\U{2029}' || c == '\U{202F}'
    || c == '\U{205F}' || c == '\U{3000}'
  }

  /** The length of the word that starts `s`. */
  function WordLength(s: string): (n: nat)
    requires s != [] && !IsWhitespace(s[0])
    ensures 1 <= n <= |s| && (n < |s| ==> IsWhitespace(s[n]))
    ensures forall i :: 0 <= i < n ==> !IsWhitespace(s[i])
    decreases |s|
  {
    if |s| == 1 || IsWhitespace(s[1]) then 1 else 1 + WordLength(s[1..])
  }

  /** `str::split_whitespace`: the maximal runs of non-whitespace characters, in order. */
  function SplitWhitespace(s: string): (words: seq<string>)
    ensures forall k :: 0 <= k < |words| ==> words[k] != []
    ensures forall k, i :: 0 <= k < |words| && 0 <= i < |words[k]| ==> !IsWhitespace(words[k][i])
    decreases |s|
  {
    if s == [] then []
    else if IsWhitespace(s[0]) then SplitWhitespace(s[1..])
    else
      var n := WordLength(s);
      [s[..n]] + SplitWhitespace(s[n..])
  }

  function Concat(words: seq<string>): string
  {
    if words == [] then [] else words[0] + Concat(words[1..])
  }

  function RemoveWhitespace(s: string): string
  {
    if s == [] then [] else (if IsWhitespace(s[0]) then [] else [s[0]]) + RemoveWhitespace(s[1..])
  }

  lemma {:induction false} RemoveWhitespaceAppend(a: string, b: string)
    ensures RemoveWhitespace(a + b) == RemoveWhitespace(a) + RemoveWhitespace(b)
    decreases |a|
  {
    if a == [] {
      assert a + b == b;
    } else {
      assert (a + b)[1..] == a[1..] + b;
      RemoveWhitespaceAppend(a[1..], b);
    }
  }

  lemma {:induction false} NoWhitespaceUnchanged(s: string)
    requires forall i :: 0 <= i < |s| ==> !IsWhitespace(s[i])
    ensures RemoveWhitespace(s) == s
    decreases |s|
  {
    if s != [] {
      NoWhitespaceUnchanged(s[1..]);
    }
  }

  /** The words together hold every non-whitespace character of the text, in order: nothing is split or lost. */
  lemma {:induction false} SplitKeepsText(s: string)
    ensures Concat(SplitWhitespace(s)) == RemoveWhitespace(s)
    decreases |s|
  {
    if s != [] {
      if IsWhitespace(s[0]) {
        SplitKeepsText(s[1..]);
      } else {
        var n := WordLength(s);
        var ws := SplitWhitespace(s);
        assert ws[0] == s[..n] && ws[1..] == SplitWhitespace(s[n..]);
        SplitKeepsText(s[n..]);
        assert s == s[..n] + s[n..];
        RemoveWhitespaceAppend(s[..n], s[n..]);
        NoWhitespaceUnchanged(s[..n]);
      }
    }
  }

  /** A word is measured up to its first whitespace character, whatever follows that. */
  lemma WordLengthIsFirstBreak(s: string, m: nat)
    requires s != [] && !IsWhitespace(s[0])
    requires 1 <= m <= |s| && (m < |s| ==> IsWhitespace(s[m]))
    requires forall i :: 0 <= i < m ==> !IsWhitespace(s[i])
    ensures WordLength(s) == m
  {
  }

  /** A text without whitespace is one word: `split_whitespace` never cuts inside a run. */
  lemma RunIsOneWord(s: string)
    requires s != [] && forall i :: 0 <= i < |s| ==> !IsWhitespace(s[i])
    ensures SplitWhitespace(s) == [s]
  {
    WordLengthIsFirstBreak(s, |s|);
    assert s[..|s|] == s && s[|s|..] == [];
  }

  /** The first word of `a + t` is that of `a` when it ends inside `a` or `t` starts with whitespace. */
  lemma WordLengthOfPrefix(a: string, t: string)
    requires a != [] && !IsWhitespace(a[0])
    requires WordLength(a) < |a| || (t != [] && IsWhitespace(t[0]))
    ensures WordLength(a + t) == WordLength(a)
  {
    var n := WordLength(a);
    var s := a + t;
    assert forall i :: 0 <= i < |a| ==> s[i] == a[i];
    if n == |a| {
      assert s[n] == t[0];
    }
    WordLengthIsFirstBreak(s, n);
  }

  /** One step of `split_whitespace`: skip a leading whitespace character, or take the leading word. */
  lemma SplitFront(s: string)
    requires s != []
    ensures IsWhitespace(s[0]) ==> SplitWhitespace(s) == SplitWhitespace(s[1..])
    ensures !IsWhitespace(s[0]) ==> SplitWhitespace(s) == [s[..WordLength(s)]] + SplitWhitespace(s[WordLength(s)..])
  {
  }

  /** Whitespace separates words: the words on either side of it are split independently. */
  lemma {:induction false} WhitespaceSeparatesWords(a: string, c: char, b: string)
    requires IsWhitespace(c)
    ensures SplitWhitespace(a + [c] + b) == SplitWhitespace(a) + SplitWhitespace(b)
    decreases |a|
  {
    if a == [] {
      SplitFront([c] + b);
      assert a + [c] + b == [c] + b && ([c] + b)[1..] == b;
    } else if IsWhitespace(a[0]) {
      WhitespaceSeparatesWords(a[1..], c, b);
      SeparatedAfterSpace(a, c, b);
    } else if WordLength(a) < |a| {
      WhitespaceSeparatesWords(a[WordLength(a)..], c, b);
      SeparatedAfterWord(a, c, b);
    } else {
      SeparatedLastWord(a, c, b);
    }
  }

  lemma SeparatedAfterSpace(a: string, c: char, b: string)
    requires IsWhitespace(c) && a != [] && IsWhitespace(a[0])
    requires SplitWhitespace(a[1..] + [c] + b) == SplitWhitespace(a[1..]) + SplitWhitespace(b)
    ensures SplitWhitespace(a + [c] + b) == SplitWhitespace(a) + SplitWhitespace(b)
  {
    var s := a + [c] + b;
    SplitFront(s);
    SplitFront(a);
    assert s[0] == a[0];
    assert s[1..] == a[1..] + [c] + b;
  }

  lemma SeparatedAfterWord(a: string, c: char, b: string)
    requires IsWhitespace(c) && a != [] && !IsWhitespace(a[0]) && WordLength(a) < |a|
    requires SplitWhitespace(a[WordLength(a)..] + [c] + b) == SplitWhitespace(a[WordLength(a)..]) + SplitWhitespace(b)
    ensures SplitWhitespace(a + [c] + b) == SplitWhitespace(a) + SplitWhitespace(b)
  {
    var n := WordLength(a);
    var s := a + [c] + b;
    assert s == a + ([c] + b);
    WordLengthOfPrefix(a, [c] + b);
    SplitFront(s);
    SplitFront(a);
    assert s[0] == a[0];
    assert s[..n] == a[..n];
    assert s[n..] == a[n..] + [c] + b;
  }

  lemma SeparatedLastWord(a: string, c: char, b: string)
    requires IsWhitespace(c) && a != [] && !IsWhitespace(a[0]) && WordLength(a) == |a|
    ensures SplitWhitespace(a + [c] + b) == SplitWhitespace(a) + SplitWhitespace(b)
  {
    var s := a + [c] + b;
    assert s == a + ([c] + b);
    WordLengthOfPrefix(a, [c] + b);
    SplitFront(s);
    SplitFront(a);
    SplitFront([c] + b);
    assert s[0] == a[0];
    assert s[..|a|] == a && a[..|a|] == a;
    assert s[|a|..] == [c] + b && ([c] + b)[1..] == b;
    assert a[|a|..] == [];
  }

  // ---------------------------------------------------------------------------
  // The composer's steps, as functions of the block state

  /** The largest of some values, as `reduce(f32::max)` computes it. */
  function Max(xs: seq<real>): (m: real)
    requires xs != []
    ensures m in xs
    ensures forall i :: 0 <= i < |xs| ==> xs[i] <= m
  {
    if |xs| == 1 then xs[0]
    else
      var m := Max(xs[..|xs| - 1]);
      assert forall i :: 0 <= i < |xs| - 1 ==> xs[..|xs| - 1][i] == xs[i];
      if m < xs[|xs| - 1] then xs[|xs| - 1] else m
  }

  function Ascents(line: seq<DrawText>): (r: seq<real>)
    ensures |r| == |line|
  {
    seq(|line|, k requires 0 <= k < |line| => line[k].galley.fontAscent)
  }

  function Descents(line: seq<DrawText>): (r: seq<real>)
    ensures |r| == |line|
  {
    seq(|line|, k requires 0 <= k < |line| => line[k].galley.fontHeight - line[k].galley.fontAscent)
  }

  /** The buffered words moved onto the page: shifted by the block's position, hung from one baseline. */
  function Placed(line: seq<DrawText>, baseline: real, origin: Vec2): (r: seq<DrawText>)
    ensures |r| == |line|
  {
    seq(|line|, k requires 0 <= k < |line| =>
      DrawText(line[k].x + origin.x, baseline - line[k].galley.fontAscent + origin.y, line[k].galley))
  }

  lemma PlacedSnoc(line: seq<DrawText>, i: nat, baseline: real, origin: Vec2)
    requires i < |line|
    ensures Placed(line[..i + 1], baseline, origin)
         == Placed(line[..i], baseline, origin)
          + [DrawText(line[i].x + origin.x, baseline - line[i].galley.fontAscent + origin.y, line[i].galley)]
  {
  }

  /** `flush_line`. */
  function Flushed(o: Outer, b: BlockLayout): BlockLayout
  {
    if b.line == [] then b
    else
      var maxAscent := Max(Ascents(b.line));
      var maxDescent := Max(Descents(b.line));
      var baseline := b.cursorY + 1.25 * maxAscent;
      b.(displayList := b.displayList + Placed(b.line, baseline, o.position),
         cursorX := 0.0,
         cursorY := baseline + 1.25 * maxDescent,
         line := [])
  }

  /** `update_font`: the font named by family, weight and style, and the width of a space in it. */
  function UpdatedFont(o: Outer, b: BlockLayout): BlockLayout
  {
    var id := FontId(b.fontSize, b.fontFamily + b.fontWeight + b.fontStyle);
    b.(fontId := id, spaceWidth := o.fonts(" ", id).size.x)
  }

  /** `word`: break the line first if the word would overflow, then buffer it and advance. */
  function AfterWord(o: Outer, b: BlockLayout, word: string): BlockLayout
  {
    var galley := o.fonts(word, b.fontId);
    var b1 := if b.cursorX + galley.size.x > o.width then Flushed(o, b) else b;
    b1.(line := b1.line + [DrawText(b1.cursorX, 0.0, galley)],
        cursorX := b1.cursorX + galley.size.x + b1.spaceWidth)
  }

  /** `open_tag`. */
  function AfterOpenTag(o: Outer, b: BlockLayout, tag: string): BlockLayout
  {
    if tag == "i" then UpdatedFont(o, b.(fontStyle := "italic"))
    else if tag == "b" then UpdatedFont(o, b.(fontWeight := "bold"))
    else if tag == "big" then UpdatedFont(o, b.(fontSize := b.fontSize + 16.0 / 3.0))
    else if tag == "small" then UpdatedFont(o, b.(fontSize := b.fontSize - 8.0 / 3.0))
    else if tag == "br" then Flushed(o, b)
    else b
  }

  /** `close_tag`. */
  function AfterCloseTag(o: Outer, b: BlockLayout, tag: string): BlockLayout
  {
    if tag == "i" then UpdatedFont(o, b.(fontStyle := ""))
    else if tag == "b" then UpdatedFont(o, b.(fontWeight := ""))
    else if tag == "big" then UpdatedFont(o, b.(fontSize := b.fontSize - 16.0 / 3.0))
    else if tag == "small" then UpdatedFont(o, b.(fontSize := b.fontSize + 8.0 / 3.0))
    else if tag == "p" then
      var f := Flushed(o, b);
      f.(cursorY := f.cursorY + VSTEP)
    else b
  }

  /** The words of a text node, one `word` call each. */
  function AfterWords(o: Outer, b: BlockLayout, words: seq<string>): BlockLayout
  {
    if words == [] then b
    else AfterWord(o, AfterWords(o, b, words[..|words| - 1]), words[|words| - 1])
  }

  /** `recurse`: open, the children in order, close; or the words of a text node. */
  function AfterRecurse(o: Outer, nodes: seq<Dom.HtmlNode>, b: BlockLayout, n: nat): BlockLayout
    requires Dom.WellFormed(nodes) && n < |nodes|
    decreases |nodes| - n, 1, 0
  {
    match nodes[n].nodeType
    case Element(tag, _) =>
      AfterCloseTag(o, AfterChildren(o, nodes, AfterOpenTag(o, b, tag), n, |nodes[n].children|), tag)
    case Text(text) => AfterWords(o, b, SplitWhitespace(text))
  }

  /** The first `j` children of `n`, recursed into in order. */
  function AfterChildren(o: Outer, nodes: seq<Dom.HtmlNode>, b: BlockLayout, n: nat, j: nat): BlockLayout
    requires Dom.WellFormed(nodes) && n < |nodes| && j <= |nodes[n].children|
    decreases |nodes| - n, 0, j
  {
    if j == 0 then b
    else AfterRecurse(o, nodes, AfterChildren(o, nodes, b, n, j - 1), nodes[n].children[j - 1])
  }

  // ---------------------------------------------------------------------------
  // What the composer's steps guarantee

  /** What the composer keeps for a block: the laid-out runs, then the pending line. */
  function Pending(b: BlockLayout): seq<DrawText>
  {
    b.displayList + b.line
  }

  /** The text of each run. */
  function Texts(ds: seq<DrawText>): (r: seq<string>)
    ensures |r| == |ds|
  {
    seq(|ds|, k requires 0 <= k < |ds| => ds[k].galley.text)
  }

  lemma TextsAppend(a: seq<DrawText>, b: seq<DrawText>)
    ensures Texts(a + b) == Texts(a) + Texts(b)
  {
  }

  /** A font service that measures the text it is given: the galley it returns holds that text. */
  ghost predicate KeepsText(fonts: Fonts)
  {
    forall word, id :: fonts(word, id).text == word
  }

  /** All the words of the subtree rooted at `n`, in document order. */
  function WordsOf(nodes: seq<Dom.HtmlNode>, n: nat): seq<string>
    requires Dom.WellFormed(nodes) && n < |nodes|
    decreases |nodes| - n, 1, 0
  {
    match nodes[n].nodeType
    case Element(_, _) => WordsOfChildren(nodes, n, |nodes[n].children|)
    case Text(text) => SplitWhitespace(text)
  }

  /** The words of the first `j` children of `n`. */
  function WordsOfChildren(nodes: seq<Dom.HtmlNode>, n: nat, j: nat): seq<string>
    requires Dom.WellFormed(nodes) && n < |nodes| && j <= |nodes[n].children|
    decreases |nodes| - n, 0, j
  {
    if j == 0 then [] else WordsOfChildren(nodes, n, j - 1) + WordsOf(nodes, nodes[n].children[j - 1])
  }

  /** Flushing moves the pending line onto the display list without losing, adding or reordering a run. */
  lemma FlushKeepsRuns(o: Outer, b: BlockLayout)
    ensures Texts(Pending(Flushed(o, b))) == Texts(Pending(b))
    ensures Flushed(o, b).line == []
  {
    if b.line != [] {
      var baseline := b.cursorY + 1.25 * Max(Ascents(b.line));
      TextsAppend(b.displayList, Placed(b.line, baseline, o.position));
      TextsAppend(b.displayList, b.line);
      assert Texts(Placed(b.line, baseline, o.position)) == Texts(b.line);
    }
  }

  /** A word adds exactly one run, holding that word, after all the runs already there. */
  lemma WordAddsOneRun(o: Outer, b: BlockLayout, word: string)
    requires KeepsText(o.fonts)
    ensures Texts(Pending(AfterWord(o, b, word))) == Texts(Pending(b)) + [word]
  {
    var galley := o.fonts(word, b.fontId);
    var b1 := if b.cursorX + galley.size.x > o.width then Flushed(o, b) else b;
    FlushKeepsRuns(o, b);
    var item := DrawText(b1.cursorX, 0.0, galley);
    assert Pending(AfterWord(o, b, word)) == Pending(b1) + [item];
    TextsAppend(Pending(b1), [item]);
  }

  lemma {:induction false} WordsAddRuns(o: Outer, b: BlockLayout, words: seq<string>)
    requires KeepsText(o.fonts)
    ensures Texts(Pending(AfterWords(o, b, words))) == Texts(Pending(b)) + words
    decreases |words|
  {
    if words != [] {
      var init := words[..|words| - 1];
      WordsAddRuns(o, b, init);
      WordAddsOneRun(o, AfterWords(o, b, init), words[|words| - 1]);
      assert init + [words[|words| - 1]] == words;
    }
  }

  lemma TagsKeepRuns(o: Outer, b: BlockLayout, tag: string)
    ensures Texts(Pending(AfterOpenTag(o, b, tag))) == Texts(Pending(b))
    ensures Texts(Pending(AfterCloseTag(o, b, tag))) == Texts(Pending(b))
  {
    FlushKeepsRuns(o, b);
  }

  /**
   * Composing a subtree paints each of its words exactly once, in document
   * order, after whatever was already there.
   */
  lemma {:induction false} RecursePaintsWords(o: Outer, nodes: seq<Dom.HtmlNode>, b: BlockLayout, n: nat)
    requires Dom.WellFormed(nodes) && n < |nodes| && KeepsText(o.fonts)
    ensures Texts(Pending(AfterRecurse(o, nodes, b, n))) == Texts(Pending(b)) + WordsOf(nodes, n)
    decreases |nodes| - n, 1, 0
  {
    match nodes[n].nodeType
    case Element(tag, _) =>
      var b1 := AfterOpenTag(o, b, tag);
      TagsKeepRuns(o, b, tag);
      ChildrenPaintWords(o, nodes, b1, n, |nodes[n].children|);
      TagsKeepRuns(o, AfterChildren(o, nodes, b1, n, |nodes[n].children|), tag);
    case Text(text) =>
      WordsAddRuns(o, b, SplitWhitespace(text));
  }

  lemma {:induction false} ChildrenPaintWords(o: Outer, nodes: seq<Dom.HtmlNode>, b: BlockLayout, n: nat, j: nat)
    requires Dom.WellFormed(nodes) && n < |nodes| && j <= |nodes[n].children| && KeepsText(o.fonts)
    ensures Texts(Pending(AfterChildren(o, nodes, b, n, j))) == Texts(Pending(b)) + WordsOfChildren(nodes, n, j)
    decreases |nodes| - n, 0, j
  {
    if j > 0 {
      ChildrenPaintWords(o, nodes, b, n, j - 1);
      RecursePaintsWords(o, nodes, AfterChildren(o, nodes, b, n, j - 1), nodes[n].children[j - 1]);
    }
  }

  /**
   * The composer's line discipline: an empty line leaves the cursor at the left
   * edge, a line's first word starts there, and every later word on the line
   * ends within the block's width.  A word overflows only when it is the first
   * on its line.
   */
  ghost predicate LineOk(o: Outer, b: BlockLayout)
  {
    && (b.line == [] ==> b.cursorX == 0.0)
    && (b.line != [] ==> b.line[0].x == 0.0)
    && forall k :: 1 <= k < |b.line| ==> b.line[k].x + b.line[k].galley.size.x <= o.width
  }

  /**
   * A word goes on the current line when it fits; otherwise the line is
   * flushed and the word starts the next one at the left edge.
   */
  lemma WordBreaksOnlyOnOverflow(o: Outer, b: BlockLayout, word: string)
    requires LineOk(o, b)
    ensures var g := o.fonts(word, b.fontId);
      var r := AfterWord(o, b, word);
      && LineOk(o, r)
      && (b.cursorX + g.size.x <= o.width ==>
            && r.line == b.line + [DrawText(b.cursorX, 0.0, g)] && r.displayList == b.displayList
            && r.cursorX == b.cursorX + g.size.x + b.spaceWidth)
      && (b.cursorX + g.size.x > o.width ==>
            && r.line == [DrawText(0.0, 0.0, g)] && r.displayList == Flushed(o, b).displayList
            && r.cursorX == g.size.x + b.spaceWidth)
  {
  }

  lemma {:induction false} WordsKeepLines(o: Outer, b: BlockLayout, words: seq<string>)
    requires LineOk(o, b)
    ensures LineOk(o, AfterWords(o, b, words))
    decreases |words|
  {
    if words != [] {
      WordsKeepLines(o, b, words[..|words| - 1]);
      WordBreaksOnlyOnOverflow(o, AfterWords(o, b, words[..|words| - 1]), words[|words| - 1]);
    }
  }

  lemma {:induction false} RecurseKeepsLines(o: Outer, nodes: seq<Dom.HtmlNode>, b: BlockLayout, n: nat)
    requires Dom.WellFormed(nodes) && n < |nodes| && LineOk(o, b)
    ensures LineOk(o, AfterRecurse(o, nodes, b, n))
    decreases |nodes| - n, 1, 0
  {
    match nodes[n].nodeType
    case Element(tag, _) =>
      ChildrenKeepLines(o, nodes, AfterOpenTag(o, b, tag), n, |nodes[n].children|);
    case Text(text) =>
      WordsKeepLines(o, b, SplitWhitespace(text));
  }

  lemma {:induction false} ChildrenKeepLines(o: Outer, nodes: seq<Dom.HtmlNode>, b: BlockLayout, n: nat, j: nat)
    requires Dom.WellFormed(nodes) && n < |nodes| && j <= |nodes[n].children| && LineOk(o, b)
    ensures LineOk(o, AfterChildren(o, nodes, b, n, j))
    decreases |nodes| - n, 0, j
  {
    if j > 0 {
      ChildrenKeepLines(o, nodes, b, n, j - 1);
      RecurseKeepsLines(o, nodes, AfterChildren(o, nodes, b, n, j - 1), nodes[n].children[j - 1]);
    }
  }

  /** A font service whose measured widths are never negative. */
  ghost predicate NonNegativeWidths(fonts: Fonts)
  {
    forall text, id :: 0.0 <= fonts(text, id).size.x
  }

  /**
   * Runs on the current line do not overlap: each ends at or before the next
   * one starts, and the last ends at or before the cursor, which is where the
   * next word would go.  The space advanced after a word is never negative.
   */
  ghost predicate RunsApart(b: BlockLayout)
  {
    0.0 <= b.spaceWidth && LineApart(b.line, b.cursorX)
  }

  /** Each run ends at or before the next one starts, and the last at or before `cursorX`. */
  ghost predicate LineApart(line: seq<DrawText>, cursorX: real)
  {
    && (forall k :: 0 <= k < |line| - 1 ==> line[k].x + line[k].galley.size.x <= line[k + 1].x)
    && (line != [] ==> line[|line| - 1].x + line[|line| - 1].galley.size.x <= cursorX)
  }

  lemma WordKeepsRunsApart(o: Outer, b: BlockLayout, word: string)
    requires NonNegativeWidths(o.fonts) && RunsApart(b)
    ensures RunsApart(AfterWord(o, b, word))
  {
    var g := o.fonts(word, b.fontId);
    assert 0.0 <= g.size.x;
    var b1 := if b.cursorX + g.size.x > o.width then Flushed(o, b) else b;
    assert LineApart(b1.line, b1.cursorX);
  }

  lemma TagsKeepRunsApart(o: Outer, b: BlockLayout, tag: string)
    requires NonNegativeWidths(o.fonts) && RunsApart(b)
    ensures RunsApart(AfterOpenTag(o, b, tag)) && RunsApart(AfterCloseTag(o, b, tag))
  {
    assert LineApart([], 0.0);
  }

  lemma {:induction false} WordsKeepRunsApart(o: Outer, b: BlockLayout, words: seq<string>)
    requires NonNegativeWidths(o.fonts) && RunsApart(b)
    ensures RunsApart(AfterWords(o, b, words))
    decreases |words|
  {
    if words != [] {
      WordsKeepRunsApart(o, b, words[..|words| - 1]);
      WordKeepsRunsApart(o, AfterWords(o, b, words[..|words| - 1]), words[|words| - 1]);
    }
  }

  lemma {:induction false} RecurseKeepsRunsApart(o: Outer, nodes: seq<Dom.HtmlNode>, b: BlockLayout, n: nat)
    requires Dom.WellFormed(nodes) && n < |nodes| && NonNegativeWidths(o.fonts) && RunsApart(b)
    ensures RunsApart(AfterRecurse(o, nodes, b, n))
    decreases |nodes| - n, 1, 0
  {
    match nodes[n].nodeType
    case Element(tag, _) =>
      TagsKeepRunsApart(o, b, tag);
      var inner := AfterOpenTag(o, b, tag);
      ChildrenKeepRunsApart(o, nodes, inner, n, |nodes[n].children|);
      TagsKeepRunsApart(o, AfterChildren(o, nodes, inner, n, |nodes[n].children|), tag);
    case Text(text) =>
      WordsKeepRunsApart(o, b, SplitWhitespace(text));
  }

  lemma {:induction false} ChildrenKeepRunsApart(o: Outer, nodes: seq<Dom.HtmlNode>, b: BlockLayout, n: nat, j: nat)
    requires Dom.WellFormed(nodes) && n < |nodes| && j <= |nodes[n].children|
    requires NonNegativeWidths(o.fonts) && RunsApart(b)
    ensures RunsApart(AfterChildren(o, nodes, b, n, j))
    decreases |nodes| - n, 0, j
  {
    if j > 0 {
      ChildrenKeepRunsApart(o, nodes, b, n, j - 1);
      RecurseKeepsRunsApart(o, nodes, AfterChildren(o, nodes, b, n, j - 1), nodes[n].children[j - 1]);
    }
  }

  /** A composer starts with no runs apart, so every line it builds keeps its runs apart. */
  lemma ComposedRunsApart(o: Outer, nodes: seq<Dom.HtmlNode>, n: nat)
    requires Dom.WellFormed(nodes) && n < |nodes| && NonNegativeWidths(o.fonts)
    ensures RunsApart(AfterRecurse(o, nodes, UpdatedFont(o, NewBlockLayout()), n))
  {
    var start := UpdatedFont(o, NewBlockLayout());
    assert 0.0 <= o.fonts(" ", start.fontId).size.x;
    RecurseKeepsRunsApart(o, nodes, start, n);
  }

  /**
   * Flushing a line hangs its runs from one baseline, keeps their order and
   * horizontal offsets, and, when every font has a non-negative ascent no
   * larger than its height, puts each run between the old cursor and the new
   * one, so consecutive lines never overlap.
   */
  lemma FlushedLineGeometry(o: Outer, b: BlockLayout)
    requires b.line != []
    requires forall k :: 0 <= k < |b.line| ==> 0.0 <= b.line[k].galley.fontAscent <= b.line[k].galley.fontHeight
    ensures var r := Flushed(o, b);
      var d0 := |b.displayList|;
      && r.line == [] && r.cursorX == 0.0
      && r.cursorY == b.cursorY + 1.25 * (Max(Ascents(b.line)) + Max(Descents(b.line)))
      && |r.displayList| == d0 + |b.line|
      && r.displayList[..d0] == b.displayList
      && forall k :: 0 <= k < |b.line| ==>
           && r.displayList[d0 + k].galley == b.line[k].galley
           && r.displayList[d0 + k].x == b.line[k].x + o.position.x
           && r.displayList[d0 + k].y
              == b.cursorY + 1.25 * Max(Ascents(b.line)) - b.line[k].galley.fontAscent + o.position.y
           && b.cursorY + o.position.y <= r.displayList[d0 + k].y
           && r.displayList[d0 + k].y + b.line[k].galley.fontHeight <= r.cursorY + o.position.y
           && r.displayList[d0 + k].y + b.line[k].galley.fontAscent
              == r.displayList[d0].y + b.line[0].galley.fontAscent
  {
    var maxAscent := Max(Ascents(b.line));
    var maxDescent := Max(Descents(b.line));
    assert 0.0 <= Ascents(b.line)[0] <= maxAscent;
    assert 0.0 <= Descents(b.line)[0] <= maxDescent;
    forall k | 0 <= k < |b.line|
      ensures b.line[k].galley.fontAscent <= maxAscent
      ensures b.line[k].galley.fontHeight - b.line[k].galley.fontAscent <= maxDescent
    {
      assert Ascents(b.line)[k] <= maxAscent;
      assert Descents(b.line)[k] <= maxDescent;
    }
  }

  /** Flushing an empty line changes nothing. */
  lemma FlushEmptyIsNoOp(o: Outer, b: BlockLayout)
    requires b.line == []
    ensures Flushed(o, b) == b
  {
  }

  /** The font fields a block state carries. */
  function FontOf(b: BlockLayout): (string, string, string, real)
  {
    (b.fontFamily, b.fontWeight, b.fontStyle, b.fontSize)
  }

  /**
   * A closing tag undoes the font change of its opening tag, whatever happened
   * in between as long as it left the font as the opening tag set it, unless
   * the element sits inside another of the same italic or bold kind (the
   * closing tag then resets the style or weight to plain).
   */
  lemma CloseUndoesOpen(o: Outer, b: BlockLayout, middle: BlockLayout, tag: string)
    requires FontOf(middle) == FontOf(AfterOpenTag(o, b, tag))
    requires tag == "i" ==> b.fontStyle == ""
    requires tag == "b" ==> b.fontWeight == ""
    ensures FontOf(AfterCloseTag(o, middle, tag)) == FontOf(b)
  {
  }

  /**
   * `<br>` only ends the line and `</p>` ends it and adds a blank step; each
   * keeps the font and every run.  Any other tag than the font tags and these
   * leaves the block state as it was.
   */
  lemma LineBreakingTags(o: Outer, b: BlockLayout)
    ensures var r := AfterOpenTag(o, b, "br");
      && r.line == [] && FontOf(r) == FontOf(b) && Texts(Pending(r)) == Texts(Pending(b))
      && r.cursorY == Flushed(o, b).cursorY
    ensures var c := AfterCloseTag(o, b, "p");
      && c.line == [] && FontOf(c) == FontOf(b) && Texts(Pending(c)) == Texts(Pending(b))
      && c.cursorY == Flushed(o, b).cursorY + VSTEP
    ensures b.line == [] ==> AfterCloseTag(o, b, "p").cursorY == b.cursorY + VSTEP
    ensures forall tag :: tag !in {"i", "b", "big", "small", "br"} ==> AfterOpenTag(o, b, tag) == b
    ensures forall tag :: tag !in {"i", "b", "big", "small", "p"} ==> AfterCloseTag(o, b, tag) == b
  {
    FlushKeepsRuns(o, b);
  }

  // ---------------------------------------------------------------------------
  // The composer

  /** The loop of `flush_line`: each buffered word onto the display list, on the shared baseline, offset by the block's origin. */
  method PlaceLine(displayList: seq<DrawText>, line: seq<DrawText>, baseline: real, origin: Vec2)
    returns (out: seq<DrawText>)
    ensures out == displayList + Placed(line, baseline, origin)
  {
    out := displayList;
    var i := 0;
    while i < |line|
      invariant 0 <= i <= |line|
      invariant out == displayList + Placed(line[..i], baseline, origin)
    {
      var text := line[i];
      var y := baseline - text.galley.fontAscent;
      PlacedSnoc(line, i, baseline, origin);
      out := out + [DrawText(text.x + origin.x, y + origin.y, text.galley)];
      i := i + 1;
    }
    assert line[..i] == line;
  }

  /**
   * `BlockComposer`: the block state it mutates, and what it reads of the
   * block it belongs to.
   */
  class BlockComposer {
    var layout: BlockLayout
    const outer: Outer

    constructor (layout: BlockLayout, outer: Outer)
      ensures this.layout == layout && this.outer == outer
    {
      this.layout := layout;
      this.outer := outer;
    }

    method UpdateFont()
      modifies this
      ensures layout == UpdatedFont(outer, old(layout))
    {
      var fontName := layout.fontFamily + layout.fontWeight + layout.fontStyle;
      layout := layout.(fontId := FontId(layout.fontSize, fontName));
      var spaceGalley := outer.fonts(" ", layout.fontId);
      layout := layout.(spaceWidth := spaceGalley.size.x);
    }

    method FlushLine()
      modifies this
      ensures layout == Flushed(outer, old(layout))
    {
      if layout.line == [] {
        return;
      }
      var maxAscent := Max(Ascents(layout.line));
      var maxDescent := Max(Descents(layout.line));
      var baseline := layout.cursorY + 1.25 * maxAscent;
      var displayList := PlaceLine(layout.displayList, layout.line, baseline, outer.position);
      layout := layout.(displayList := displayList, cursorX := 0.0, cursorY := baseline + 1.25 * maxDescent, line := []);
    }

    method Word(word: string)
      modifies this
      ensures layout == AfterWord(outer, old(layout), word)
    {
      var galley := outer.fonts(word, layout.fontId);
      var textWidth := galley.size.x;
      if layout.cursorX + textWidth > outer.width {
        FlushLine();
      }
      layout := layout.(line := layout.line + [DrawText(layout.cursorX, 0.0, galley)]);
      layout := layout.(cursorX := layout.cursorX + textWidth + layout.spaceWidth);
    }

    method OpenTag(tag: string)
      modifies this
      ensures layout == AfterOpenTag(outer, old(layout), tag)
    {
      if tag == "i" {
        layout := layout.(fontStyle := "italic");
        UpdateFont();
      } else if tag == "b" {
        layout := layout.(fontWeight := "bold");
        UpdateFont();
      } else if tag == "big" {
        layout := layout.(fontSize := layout.fontSize + 16.0 / 3.0);
        UpdateFont();
      } else if tag == "small" {
        layout := layout.(fontSize := layout.fontSize - 8.0 / 3.0);
        UpdateFont();
      } else if tag == "br" {
        FlushLine();
      }
    }

    method CloseTag(tag: string)
      modifies this
      ensures layout == AfterCloseTag(outer, old(layout), tag)
    {
      if tag == "i" {
        layout := layout.(fontStyle := "");
        UpdateFont();
      } else if tag == "b" {
        layout := layout.(fontWeight := "");
        UpdateFont();
      } else if tag == "big" {
        layout := layout.(fontSize := layout.fontSize - 16.0 / 3.0);
        UpdateFont();
      } else if tag == "small" {
        layout := layout.(fontSize := layout.fontSize + 8.0 / 3.0);
        UpdateFont();
      } else if tag == "p" {
        FlushLine();
        layout := layout.(cursorY := layout.cursorY + VSTEP);
      }
    }

    method Recurse(nodes: seq<Dom.HtmlNode>, n: nat)
      requires Dom.WellFormed(nodes) && n < |nodes|
      modifies this
      ensures layout == AfterRecurse(outer, nodes, old(layout), n)
      decreases |nodes| - n, 1
    {
      match nodes[n].nodeType
      case Element(tag, _) =>
        OpenTag(tag);
        RecurseChildren(nodes, n);
        CloseTag(tag);
      case Text(text) =>
        Words(SplitWhitespace(text));
    }

    /** The loop of `recurse` over an element's children, in order. */
    method RecurseChildren(nodes: seq<Dom.HtmlNode>, n: nat)
      requires Dom.WellFormed(nodes) && n < |nodes|
      modifies this
      ensures layout == AfterChildren(outer, nodes, old(layout), n, |nodes[n].children|)
      decreases |nodes| - n, 0
    {
      var children := nodes[n].children;
      var k := 0;
      while k < |children|
        invariant 0 <= k <= |children|
        invariant layout == AfterChildren(outer, nodes, old(layout), n, k)
      {
        Recurse(nodes, children[k]);
        k := k + 1;
      }
    }

    /** The loop of `recurse` over a text node's words, one `word` call each. */
    method Words(words: seq<string>)
      modifies this
      ensures layout == AfterWords(outer, old(layout), words)
    {
      var k := 0;
      while k < |words|
        invariant 0 <= k <= |words|
        invariant layout == AfterWords(outer, old(layout), words[..k])
      {
        Word(words[k]);
        assert words[..k + 1][..k] == words[..k];
        k := k + 1;
      }
      assert words[..k] == words;
    }
  }
}
