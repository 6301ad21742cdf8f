# ZipSurf core, modelled in Dafny

ZipSurf is a small web browser. This project models the part of it that turns
markup into geometry, and proves properties of that model:

- **Tag stripper** (`show_text_without_tags`, module `TextOnly`). Prints a page
  body with everything between `<` and `>` removed.
- **Tokenizer** (`HtmlParser::parse`, module `HtmlParser`). Splits a body into
  text and tag tokens (module `Node`). `add_text`/`add_tag` are `todo!()` in
  the source, so each becomes "append a token".
- **URL scheme check** (`Url::new`, module `Url`).
- **Tag selectors** (`Selector::new_tag`, `Selector::matches`, module `Selector`).
- **Document tree** (module `Dom`). An arena of nodes addressed by index, with
  parent and children stored as indices. A `Document` object holds the
  per-node style maps that the cascade writes in place.
- **Style cascade** (`Tab::style`, module `Cascade`). Inherited properties are
  seeded from the parent or the root defaults. Matching rules are merged in
  order, and inline `style` wins. Percentage font sizes are resolved against
  the parent. Children are styled after their parent's map is final.
- **Rule order** (`cascade_priority` and the `sort_by` in `Tab::load`, module
  `RuleOrder`). A stable sort by priority. The model proves that it is a
  sorted permutation, that it is stable, and that it is the only such order.
- **Tab** (module `Tab`):
  - stylesheet-link collection and the rest of `load` after the fetch;
  - `scroll_down`;
  - the vertical extent of draw commands (`DrawCommand::top`/`bottom`).
- **Block/inline layout** (`layout.rs`):
  - Module `Layout` has the `BlockComposer` class. Its methods `word`,
    `flush_line`, `open_tag`, `close_tag`, `recurse` and `update_font` change
    the cursor, the line buffer and the display list in place. Each is proved
    against a function of the old state.
  - Module `LayoutTree` has `layout_mode`, `LayoutNode::layout`, `paint` and
    `paint_tree`.

Font metrics (a word's galley size, ascent and height, and the space width)
come from egui in the source. Here they are a parameter `fonts: Fonts`. The
CSS parser's `body()` and the numeric parse and format used for percentage
font sizes are the parameter `env: CssEnv`. A link's fetched rules are the
parameter `fetch`, and `Selector::priority` is the parameter `priority`.
Positions and sizes are `real`, not `f32`.

Two points about the source shape the model:

- `src/selector.rs` has only `Tag` selectors and no `priority` method. So
  there are no descendant selectors here, and priority is a parameter of the
  sort.
- `LayoutNode::layout` in `src/layout.rs` pushes new children onto the node it
  lays out, in place. The model builds a fresh node with its children instead
  (see LayoutTree.LayoutBlock under "Left out").

## Model

| member | source | states |
|---|---|---|
| Url.FindSeparator | src/url.rs:59 | the index found is the first occurrence of `://` at or after the start; none is found only when there is none |
| Url.New | src/url.rs:56-65 | on success the scheme is `http`; it fails for a missing separator exactly when the input has no `://` |
| Url.NewSucceedsIffHttpPrefix | src/url.rs:59-62 | `new` succeeds iff the input starts with `http://`, whatever follows, including further `://` |
| Url.SchemeIsTextBeforeFirstSeparator | src/url.rs:59-64 | the scheme compared is the text before the first `://`: the result is `http` or an unsupported-scheme error naming that text, whatever follows |
| TextOnly.ShowTextWithoutTags | src/main.rs:21-33 | the character loop prints the visible characters of the body followed by a newline |
| TextOnly.VisibleIsSubsequence | src/main.rs:23-31 | the printed text is a subsequence of the body, in the body's order |
| TextOnly.VisibleHasNoBrackets | src/main.rs:26-27 | neither `<` nor `>` is ever printed |
| TextOnly.PlainTextUnchanged | src/main.rs:28 | a body without `<` and `>` is printed unchanged |
| TextOnly.TagAbsorbs | src/main.rs:26-29 | inside a tag, characters other than `>` print nothing and leave the scan inside the tag |
| TextOnly.TagContentHidden | src/main.rs:26-29 | every character between a `<` and the next `>` is hidden |
| TextOnly.UnclosedTagHidesRest | src/main.rs:26-29 | after an unclosed `<` nothing further is printed |
| TextOnly.StrayCloseIgnored | src/main.rs:27 | a `>` outside a tag is dropped and has no other effect |
| HtmlParser.Parse | src/html_parser.rs:67-95 | the tokenizing loop and the trailing-text step emit exactly the tokens of the character state machine |
| HtmlParser.TokensAreClean | src/html_parser.rs:74-93 | no token contains `<` or `>`, and no text token is empty |
| HtmlParser.TokensSpellInput | src/html_parser.rs:67-95 | the tokens' contents, followed by the dropped unterminated tail, spell the body with `<` and `>` removed |
| HtmlParser.OpenEmitsPendingText | src/html_parser.rs:74-80 | a `<` turns the non-empty bracket-free text read since the last bracket into a text token, inside a tag as well as outside, and that token stays in the output whatever follows |
| HtmlParser.CloseAlwaysEmitsTag | src/html_parser.rs:81-85 | every `>` turns the bracket-free text read since the last bracket into a tag token, also an empty one and also without a `<` before it, whatever follows |
| HtmlParser.TagsCountCloses | src/html_parser.rs:81-85 | the number of tag tokens equals the number of `>` in the body |
| HtmlParser.UnclosedTailDropped | src/html_parser.rs:91-93 | when no bracket follows the last `<`, the text after it is the dropped tail and is never emitted |
| HtmlParser.NothingDroppedOutsideTag | src/html_parser.rs:81-93 | when the last `<` is followed by a `>`, or there is no `<`, nothing is dropped |
| Selector.NewTag | src/selector.rs:73-75 | `new_tag(t)` is a tag selector holding exactly `t` |
| Selector.Matches | src/selector.rs:100-111 | a tag selector matches iff the node is an element whose tag equals the selector's tag; a text node never matches |
| Selector.NewTagMatchesExactly | src/selector.rs:73-111 | `new_tag(t)` matches a node iff it is an element with tag `t`, whatever its attributes; tags are compared exactly, so one differing only in letter case does not match |
| Layout.SplitWhitespace | src/layout.rs:908 | the words are non-empty and contain no whitespace |
| Layout.WordLength | src/layout.rs:908 | a word runs up to the next whitespace character |
| Layout.SplitKeepsText | src/layout.rs:908 | the words together hold every non-whitespace character of the text, in order |
| Layout.RunIsOneWord | src/layout.rs:908 | a non-empty text without whitespace is a single word, itself |
| Layout.WhitespaceSeparatesWords | src/layout.rs:908 | the words of `a`, a whitespace character, then `b` are the words of `a` followed by the words of `b`: words are maximal runs |
| Layout.Max | src/layout.rs:803-813 | the largest ascent or descent on the line: an upper bound that is reached |
| Layout.PlaceLine | src/layout.rs:807-822 | the placing loop appends exactly the placed line to the display list |
| Layout.FlushedLineGeometry | src/layout.rs:798-829 | after a flush the line is empty and `cursor_x` is 0; `cursor_y` grows by 1.25 × (max ascent + max descent); each word sits at its x offset plus the block's x, and at y = `cursor_y` + 1.25 × max ascent − its ascent + the block's y, so all words on a line share one baseline; each lies between the old and the new `cursor_y` when ascents are between 0 and the font height |
| Layout.FlushEmptyIsNoOp | src/layout.rs:799-801 | flushing an empty line changes nothing |
| Layout.FlushKeepsRuns | src/layout.rs:798-829 | a flush moves the buffered words to the display list, in order; the words painted or pending are unchanged |
| Layout.WordAddsOneRun | src/layout.rs:738-754 | a word adds itself, and only itself, after the words already painted or pending |
| Layout.WordBreaksOnlyOnOverflow | src/layout.rs:744-753 | a word that fits (`cursor_x` + width within the block width) joins the line at `cursor_x`, nothing is flushed, and `cursor_x` advances by its width plus the space width; one that does not fit flushes the line, starts the next at x = 0, and leaves `cursor_x` at its width plus the space width; either way the line discipline is kept |
| Layout.WordKeepsRunsApart | src/layout.rs:744-753 | with non-negative font widths, a word keeps the runs of the line apart: each ends before the next starts and the last ends at or before `cursor_x` |
| Layout.TagsKeepRunsApart | src/layout.rs:628-712 | opening or closing a tag keeps the runs apart and the space width non-negative |
| Layout.WordsKeepRunsApart | src/layout.rs:908-910 | the words of a text node keep the runs of the line apart |
| Layout.RecurseKeepsRunsApart | src/layout.rs:882-913 | composing a subtree keeps the runs of every line apart |
| Layout.ChildrenKeepRunsApart | src/layout.rs:902-904 | composing the children keeps the runs of every line apart |
| Layout.ComposedRunsApart | src/layout.rs:286-296 | a composer started on a fresh block, after `update_font`, never lets two runs of one line overlap |
| Layout.WordsAddRuns | src/layout.rs:908-910 | the words of a text node are added in order, none split or lost |
| Layout.WordsKeepLines | src/layout.rs:738-754 | a sequence of words keeps the line discipline: an empty line has `cursor_x` 0, a line's first word starts at 0, and every later word ends within the block width |
| Layout.TagsKeepRuns | src/layout.rs:628-712 | opening or closing a tag adds no words and keeps the words already painted or pending |
| Layout.RecursePaintsWords | src/layout.rs:882-913 | composing a subtree adds exactly the words of its text nodes, in document order |
| Layout.ChildrenPaintWords | src/layout.rs:882-913 | composing the children adds exactly their words, child after child |
| Layout.RecurseKeepsLines | src/layout.rs:882-913 | composing a subtree keeps the same line discipline, so only a line's first word can overflow the block |
| Layout.ChildrenKeepLines | src/layout.rs:882-913 | composing a sequence of children keeps the same line discipline |
| Layout.CloseUndoesOpen | src/layout.rs:628-712 | closing a tag restores the font family, weight, style and size from before its opening tag, provided the content left the font as the opening tag set it and an `i` or `b` is not nested in another of its kind; `big` adds and removes 16/3, `small` removes and adds 8/3 |
| Layout.LineBreakingTags | src/layout.rs:628-712 | `br` flushes only; closing `p` flushes and moves down by VSTEP; both keep the font and every run; any tag other than these and the font tags leaves the state unchanged |
| Layout.BlockComposer.constructor | src/layout.rs:611 | a composer over a block at the given position and width, starting from the block's state |
| Layout.BlockComposer.UpdateFont | src/layout.rs:927-933 | the font id and space width come from the style, weight and size, through the font service |
| Layout.BlockComposer.FlushLine | src/layout.rs:798-829 | the new block state is the flushed state of the old one |
| Layout.BlockComposer.Word | src/layout.rs:738-754 | the new block state is the old one with the word added, flushing first on overflow |
| Layout.BlockComposer.OpenTag | src/layout.rs:628-651 | `i`, `b`, `big` and `small` change the font state and update the font; `br` flushes |
| Layout.BlockComposer.CloseTag | src/layout.rs:688-712 | `i`, `b`, `big` and `small` restore the font state; `p` flushes and moves down by VSTEP |
| Layout.BlockComposer.Recurse | src/layout.rs:882-913 | a text node's words are added one by one; an element is opened, its children composed in order, then closed |
| Layout.BlockComposer.RecurseChildren | src/layout.rs:902-904 | the children loop composes each child in order |
| Layout.BlockComposer.Words | src/layout.rs:908-910 | the words loop adds each word in order, one `word` call each |
| LayoutTree.HasBlockChildIff | src/layout.rs:453-472 | a node has a block child iff some child is an element whose tag is a block element |
| LayoutTree.LayoutModeIsBlockIff | src/layout.rs:453-472 | a text node is inline; an element is block iff it has a block child or no children |
| LayoutTree.ChildrenLength | src/layout.rs:261-272 | block mode creates exactly one child layout node per DOM child |
| LayoutTree.ChildAt | src/layout.rs:246-272 | the k-th child node lays out the k-th DOM child at the parent's x and width, and at the parent's y plus the heights of the earlier siblings |
| LayoutTree.LayoutBlock | src/layout.rs:234-322 | the node laid out obeys the layout rules: block mode gives the laid-out children and their summed height; inline mode gives the composer's state and its final `cursor_y` as height |
| LayoutTree.LayoutChildren | src/layout.rs:261-320 | the children loop lays out each DOM child in order, each starting where the previous sibling ends |
| LayoutTree.ComposeInline | src/layout.rs:273-297 | the inline composer updates the font, composes the node and flushes the last line |
| LayoutTree.LayoutDocument | src/layout.rs:325-343 | the document sits at (HSTEP, VSTEP) with width WIDTH − 2·HSTEP, and its height is its one child block's height |
| LayoutTree.PaintTree | src/layout.rs:411-418 | a node's paint is appended before its children's output, in pre-order; a document paints nothing, a block its display list |
| LayoutTree.LayoutIsDeterministic | src/layout.rs:234-344 | a DOM node has exactly one layout for a given position, width and font service |
| LayoutTree.ChildrenTileParent | src/layout.rs:246-320 | a block-mode node has one child per DOM child; the first starts at the parent's top and the last ends at the parent's bottom |
| LayoutTree.LayoutPaintsEveryWord | src/layout.rs:234-418 | painting a laid-out node yields exactly the words of its text, in document order |
| LayoutTree.BlockPaintsEveryWord | src/layout.rs:261-320 | the same for a block-mode node, child after child |
| LayoutTree.InlinePaintsEveryWord | src/layout.rs:273-297 | the same for an inline-mode node, through its composer |
| LayoutTree.DocumentPaintsEveryWord | src/layout.rs:325-343 | painting the laid-out document yields exactly the page's words, in order |
| Cascade.Inherited | src/tab.rs:438-451 | the root gets the four defaults; another node copies the parent's values for those four keys, and the source panics when one is missing |
| Cascade.InheritedStyle | src/tab.rs:438-451 | the seeding loop computes the inherited map, or reports the missing key |
| Cascade.Cascaded | src/tab.rs:453-485 | the merged map keeps every inherited and every own key |
| Cascade.MergedKeys | src/tab.rs:472-476 | merging never removes a key: the base's keys and every merged map's keys are present |
| Cascade.MergedUnset | src/tab.rs:472-476 | a key no merged map sets keeps its base value |
| Cascade.MergedLast | src/tab.rs:472-476 | a key takes its value from the last merged map that sets it |
| Cascade.InsertAll | src/tab.rs:472-476 | the insertion loop writes every entry of the source over the target and keeps the target's other entries |
| Cascade.MatchingMaps | src/tab.rs:453-457 | the declaration maps of the matching rules, in rule order |
| Cascade.MergeAll | src/tab.rs:472-476 | the merging loop merges the maps in order |
| Cascade.CascadeNode | src/tab.rs:453-485 | one node's merge: the inherited values, then the matching rules in order, then the inline style, over the node's own map |
| Cascade.StyleNode | src/tab.rs:435-502 | the node's own map is styled, or the panic is reported; no other node changes |
| Cascade.Style | src/tab.rs:435-508 | every node of the subtree is styled, each against its parent's final map; nodes outside the subtree are unchanged; a failure names a node that panics |
| Cascade.RuleDecidesKey | src/tab.rs:453-476 | a key set by some matching rule takes the value of the last such rule |
| Cascade.LastMatchingRuleWins | src/tab.rs:453-502 | a key outside the inline style and other than font-size ends with the value of the last matching rule that sets it |
| Cascade.InlineWins | src/tab.rs:478-485 | a key the inline style sets takes the inline value, over every rule |
| Cascade.UnparsableInlineIsIgnored | src/tab.rs:478-485 | an inline style that fails to parse changes nothing |
| Cascade.NonMatchingRuleIsIrrelevant | src/tab.rs:453-457 | removing a rule that does not match leaves the style unchanged |
| Cascade.MatchingIgnoresAttributes | src/tab.rs:453-457 | which rules match depends only on the element's tag |
| Cascade.PercentTouchesOnlyFontSize | src/tab.rs:491-502 | percentage resolution changes only font-size, and only when it ends in `%` |
| Cascade.InheritedUnlessOverridden | src/tab.rs:438-476 | an inherited key no rule or inline style sets keeps the parent's value, or the root default |
| Cascade.StyledMapIsResolved | src/tab.rs:438-502 | a styled map has all four inherited keys and every own key, and its font-size never ends in `%` |
| Cascade.PercentIsShareOfParent | src/tab.rs:490-501 | a styled node's font-size is the declared one unless that ends in `%`; then both numbers parse and it is `pct`/100 of the parent's final pixel size, or of 16px at the root, formatted and followed by `px` |
| Cascade.RemovePxSuffix | src/tab.rs:496 | stripping `px` from a number written without `p` and followed by `px` gives back the number |
| Cascade.NestedPercentsMultiply | src/tab.rs:490-501 | when the parent's formatted size has no `p` and reads back exactly, a child at `q%` of a parent at `p%` of `g` pixels gets `q%` of `p%` of `g` pixels |
| Cascade.StyledChildInherits | src/tab.rs:435-508 | after styling, a child's inherited key that nothing overrides equals its parent's final value |
| RuleOrder.SortIsOrderedPermutation | src/tab.rs:364-365 | the sorted rules are ascending by priority and a permutation of the input |
| RuleOrder.SortIsStable | src/tab.rs:364-365 | rules of equal priority keep their order in the sheet |
| RuleOrder.SortIsUnique | src/tab.rs:364-365 | any stable ascending ordering of the rules is this one |
| RuleOrder.HighestPriorityWins | src/tab.rs:364-366 | after the sort, a key set by one matching rule of strictly highest priority takes that rule's value, provided the inline style does not set the key and, for font-size, that value is not a percentage |
| Tab.TreeNodesMembers | src/tab.rs:336-337 | the flattened tree holds exactly the node types of the nodes below the root |
| Tab.ChildTreesMembers | src/tab.rs:336-337 | the flattened children hold exactly the node types below those children |
| Tab.TreeLinks | src/tab.rs:336-347 | `load` collects the href of every stylesheet link in the page's tree and no other href; nodes outside the tree contribute none |
| Tab.StylesheetHrefsAreLinks | src/tab.rs:336-347 | the collected hrefs are exactly those of `link` elements with `rel="stylesheet"` and an `href`; text nodes contribute none |
| Tab.OtherNodesContributeNothing | src/tab.rs:336-347 | a node that is not a stylesheet link adds no href |
| Tab.FetchedRulesMembers | src/tab.rs:349-363 | a fetched rule comes from one of the links, and every link's rules are fetched |
| Tab.FetchAll | src/tab.rs:349-363 | the links loop appends each link's rules to the defaults, in link order |
| Tab.Tab.constructor | src/tab.rs:193-203 | a new tab is at the top, with no document |
| Tab.Tab.Load | src/tab.rs:322-368 | scroll goes back to 0; the subtree is styled with the default rules followed by the rules fetched for the stylesheet links of the page's tree, sorted by priority; a document is installed on success, and it fails only when styling some node of the subtree panics; nodes outside the subtree are unchanged |
| Tab.Tab.ScrollDown | src/tab.rs:270-279 | without a document it fails and nothing changes; otherwise `scroll_y` becomes min(`scroll_y` + 100, max) + 100, with max = height + 2·VSTEP − HEIGHT |
| Tab.ScrollOvershoots | src/tab.rs:270-279 | as written, one step moves 200 while the page allows and ends 100 past the bottom |
| Tab.ScrollStaysInPage | src/tab.rs:270-279 | a single clamped step moves at most 100, exactly 100 when the page allows, never past the bottom, and never up from a position within the page; the as-written step is this one plus 100 |
| Tab.FlushedRunsLieOnTheirLine | src/tab.rs:631-672 | each run a flush lays out has its top and bottom between the block's old and new cursor |

## Left out

- Network I/O: `Url::request`, `Url::resolve` and the body fetch in
  `Tab::load` are the `fetch` parameter. A failed fetch gives no rules. The
  `url` field and the error print are not modelled.
- `Tab::load` is modelled from the parsed tree on. `HtmlParser::parse` builds
  no tree in the source (`add_text`/`add_tag` are `todo!()`), so the tree is an
  input to `Load`.
- `Tab::draw` (painting, the culling test, the scroll offset applied to
  commands), `Tab::click`, `Tab::new` and the `draw_commands` field are UI and
  not modelled.
- `src/browser.rs`, `src/chrome.rs`, `src/rect.rs` and `src/css_parser.rs` are
  not part of this model. `CssParser::body` and `CssParser::parse` are the
  `CssEnv.body` parameter and the `fetch` parameter.
- `Selector::priority`, `HtmlNode::tree_to_vec` and `LayoutNode::tree_to_vec`
  are not part of this model. Priority is a parameter of the sort. The node
  list `load` filters is the tree below the page's root, each node before its
  children (`Tab.TreeNodes`); which hrefs are collected does not depend on
  that order, only the order of the fetched rules before the stable sort.
- egui font metrics (`fonts_mut`, `layout_no_wrap`, `Galley`, `FontId`) are the
  `Fonts` parameter. A galley always has an ascent and a height here, so the
  `unwrap` panics of `flush_line` on a galley with no rows or glyphs
  (src/layout.rs:804-818) are not modelled.
- f32 arithmetic is modelled as exact `real` arithmetic, with no rounding.
  The `f32::from_str` and `parse::<f32>` calls are the `parseNumber`
  parameter, and the `{}` formatting in `format!("{}px", …)` is the
  `formatNumber` parameter.
- `Rc<RefCell<…>>` sharing, borrow panics, and the parent and `previous`
  references are replaced by an arena indexed by position, and by a left-to-right
  walk over the children.
- LayoutTree.LayoutBlock: the source first creates all child layout nodes
  and later lays them out. It also pushes children again on each call, so a
  second layout of the same node would duplicate them. The model creates and
  lays out each child in one pass over a fresh node.
- LayoutTree.PaintTree: the source copies the composer's display list into
  the `LayoutNode`. The model keeps it in the node's block state.
- Tab.Tab.Load: the `document` is recorded as "not yet laid out" instead of
  holding the `LayoutNode` that `new_document` returns, because only its
  height matters to scrolling.
- Tab.Tab.ScrollDown: the page height is that of the laid-out document, or 0
  before layout (`size.unwrap_or(Vec2::ZERO)`).

## Findings

| source | as written | input that shows it | evidently intended | confidence | as-written member | corrected member |
|---|---|---|---|---|---|---|
| src/tab.rs:270-279 | `scroll_y` is clamped to `min(scroll_y + SCROLL_STEP, max_y)` and then `SCROLL_STEP` is added again | a tall page with `scroll_y = 0` and `max_y = 1000` scrolls to 200; at `scroll_y = 1000` it scrolls to 1100, past the bottom | one step of `SCROLL_STEP`, clamped to `max_y` | medium; not executed | Tab.ScrollOvershoots | Tab.ScrollStaysInPage |
