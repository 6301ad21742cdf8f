/**
 * The layout tree of src/layout.rs: which nodes stack their children as
 * blocks and which compose their subtree as inline text, where each block
 * goes, and the display list painted from the tree.
 *
 * The source links layout nodes through shared references to their parent and
 * previous sibling; here a layout node is a value holding its children, and
 * what a node reads from its parent and previous sibling is passed in.
 */
module LayoutTree {
  import opened Wrappers
  import Dom
  import opened Layout

  datatype LayoutMode = Inline | Block

  datatype LayoutNodeType = BlockNode(layout: BlockLayout) | DocumentNode

  /** A layout node: the document node it lays out (by index), its content, where it is, and its children. */
  datatype LayoutNode = LayoutNode(
    node: nat,
    content: LayoutNodeType,
    position: Vec2,
    size: Vec2,
    children: seq<LayoutNode>)

  predicate IsBlockElement(t: Dom.NodeType)
  {
    t.Element? && t.tag in BLOCK_ELEMENTS
  }

  function HasBlockChild(nodes: seq<Dom.HtmlNode>, cs: seq<nat>): bool
    requires forall k :: 0 <= k < |cs| ==> cs[k] < |nodes|
  {
    if cs == [] then false
    else IsBlockElement(nodes[cs[0]].nodeType) || HasBlockChild(nodes, cs[1..])
  }

  lemma {:induction false} HasBlockChildIff(nodes: seq<Dom.HtmlNode>, cs: seq<nat>)
    requires forall k :: 0 <= k < |cs| ==> cs[k] < |nodes|
    ensures HasBlockChild(nodes, cs) <==> exists k :: 0 <= k < |cs| && IsBlockElement(nodes[cs[k]].nodeType)
    decreases |cs|
  {
    if cs != [] {
      HasBlockChildIff(nodes, cs[1..]);
      if !IsBlockElement(nodes[cs[0]].nodeType) && exists k :: 0 <= k < |cs| && IsBlockElement(nodes[cs[k]].nodeType) {
        var k :| 0 <= k < |cs| && IsBlockElement(nodes[cs[k]].nodeType);
        assert cs[1..][k - 1] == cs[k];
      }
    }
  }

  /**
   * `layout_mode`: an element stacks its children as blocks when one of them
   * is a block-level element or when it has none; otherwise, and for text,
   * its content is inline.
   */
  function LayoutModeOf(nodes: seq<Dom.HtmlNode>, n: nat): LayoutMode
    requires Dom.WellFormed(nodes) && n < |nodes|
  {
    match nodes[n].nodeType
    case Element(_, _) =>
      if HasBlockChild(nodes, nodes[n].children) then Block
      else if nodes[n].children != [] then Inline
      else Block
    case Text(_) => Inline
  }

  /** A node is laid out as blocks exactly when it is an element with no children or with a block-level child. */
  lemma LayoutModeIsBlockIff(nodes: seq<Dom.HtmlNode>, n: nat)
    requires Dom.WellFormed(nodes) && n < |nodes|
    ensures LayoutModeOf(nodes, n) == Block <==>
      && nodes[n].nodeType.Element?
      && (|| nodes[n].children == []
          || exists k :: 0 <= k < |nodes[n].children| && IsBlockElement(nodes[nodes[n].children[k]].nodeType))
  {
    HasBlockChildIff(nodes, nodes[n].children);
  }

  /** The block state an inline-mode block ends with: update the font, compose the subtree, flush the last line. */
  function InlineLayout(nodes: seq<Dom.HtmlNode>, fonts: Fonts, n: nat, position: Vec2, width: real): BlockLayout
    requires Dom.WellFormed(nodes) && n < |nodes|
  {
    var o := Outer(position, width, fonts);
    Flushed(o, AfterRecurse(o, nodes, UpdatedFont(o, NewBlockLayout()), n))
  }


  /** The total height of some blocks. */
  function SumHeights(cs: seq<LayoutNode>): real
  {
    if cs == [] then 0.0 else cs[0].size.y + SumHeights(cs[1..])
  }

  lemma {:induction false} SumHeightsSnoc(cs: seq<LayoutNode>, c: LayoutNode)
    ensures SumHeights(cs + [c]) == SumHeights(cs) + c.size.y
    decreases |cs|
  {
    if cs == [] {
      assert [c][1..] == [];
    } else {
      assert (cs + [c])[1..] == cs[1..] + [c];
      SumHeightsSnoc(cs[1..], c);
    }
  }

  /**
   * `b` is the block `layout` produces for document node `n` placed at
   * (`x`, `y`) in a parent of width `width`: a block-mode block has one child
   * block per document child, each placed below the ones before it, and is
   * as tall as they are together; an inline-mode block has no children and
   * is as tall as its composed text.
   */
  ghost predicate LaidOutBlock(nodes: seq<Dom.HtmlNode>, fonts: Fonts, b: LayoutNode, n: nat, x: real, y: real, width: real)
    requires Dom.WellFormed(nodes)
    decreases b, 1
  {
    && n < |nodes|
    && b.node == n
    && b.content.BlockNode?
    && b.position == Vec2(x, y)
    && match LayoutModeOf(nodes, n)
       case Block =>
         && b.content.layout == NewBlockLayout()
         && b.size == Vec2(width, SumHeights(b.children))
         && ChildrenLaidOut(nodes, fonts, b.children, nodes[n].children, x, y, width)
       case Inline =>
         && b.children == []
         && b.content.layout == InlineLayout(nodes, fonts, n, Vec2(x, y), width)
         && b.size == Vec2(width, b.content.layout.cursorY)
  }

  /** `cs` are the blocks of document nodes `ns`, laid out one below the other from `y` down. */
  ghost predicate ChildrenLaidOut(nodes: seq<Dom.HtmlNode>, fonts: Fonts, cs: seq<LayoutNode>, ns: seq<nat>,
                                  x: real, y: real, width: real)
    requires Dom.WellFormed(nodes)
    decreases cs, 0
  {
    if cs == [] then ns == []
    else
      && ns != []
      && LaidOutBlock(nodes, fonts, cs[0], ns[0], x, y, width)
      && ChildrenLaidOut(nodes, fonts, cs[1..], ns[1..], x, y + cs[0].size.y, width)
  }

  lemma {:induction false} ChildrenLength(nodes: seq<Dom.HtmlNode>, fonts: Fonts, cs: seq<LayoutNode>, ns: seq<nat>,
                                         x: real, y: real, width: real)
    requires Dom.WellFormed(nodes) && ChildrenLaidOut(nodes, fonts, cs, ns, x, y, width)
    ensures |cs| == |ns|
    decreases |cs|
  {
    if cs != [] {
      ChildrenLength(nodes, fonts, cs[1..], ns[1..], x, y + cs[0].size.y, width);
    }
  }

  /** The `k`th of a run of stacked blocks lies at the run's top plus the heights of those before it. */
  lemma {:induction false} ChildAt(nodes: seq<Dom.HtmlNode>, fonts: Fonts, cs: seq<LayoutNode>, ns: seq<nat>,
                                  x: real, y: real, width: real, k: nat)
    requires Dom.WellFormed(nodes) && ChildrenLaidOut(nodes, fonts, cs, ns, x, y, width)
    requires k < |cs|
    ensures |cs| == |ns|
    ensures LaidOutBlock(nodes, fonts, cs[k], ns[k], x, y + SumHeights(cs[..k]), width)
    decreases |cs|
  {
    ChildrenLength(nodes, fonts, cs, ns, x, y, width);
    if k == 0 {
      assert cs[..0] == [];
    } else {
      ChildAt(nodes, fonts, cs[1..], ns[1..], x, y + cs[0].size.y, width, k - 1);
      assert cs[..k][1..] == cs[1..][..k - 1];
    }
  }

  /** One more block below a run of stacked blocks extends the run. */
  lemma {:induction false} ChildrenSnoc(nodes: seq<Dom.HtmlNode>, fonts: Fonts, cs: seq<LayoutNode>, ns: seq<nat>,
                                       c: LayoutNode, m: nat, x: real, y: real, width: real)
    requires Dom.WellFormed(nodes) && ChildrenLaidOut(nodes, fonts, cs, ns, x, y, width)
    requires LaidOutBlock(nodes, fonts, c, m, x, y + SumHeights(cs), width)
    ensures ChildrenLaidOut(nodes, fonts, cs + [c], ns + [m], x, y, width)
    decreases |cs|
  {
    ChildrenLength(nodes, fonts, cs, ns, x, y, width);
    if cs == [] {
      assert y + SumHeights(cs) == y;
      assert cs + [c] == [c] && ns + [m] == [m];
      assert ChildrenLaidOut(nodes, fonts, [], [], x, y + c.size.y, width);
    } else {
      var y1 := y + cs[0].size.y;
      assert y1 + SumHeights(cs[1..]) == y + SumHeights(cs);
      ChildrenSnoc(nodes, fonts, cs[1..], ns[1..], c, m, x, y1, width);
      assert (cs + [c])[1..] == cs[1..] + [c];
      assert (ns + [m])[1..] == ns[1..] + [m];
      assert (cs + [c])[0] == cs[0] && (ns + [m])[0] == ns[0];
    }
  }

  /** `d` is the layout of a whole document whose root is `root`. */
  ghost predicate LaidOutDocument(nodes: seq<Dom.HtmlNode>, fonts: Fonts, d: LayoutNode, root: nat)
    requires Dom.WellFormed(nodes)
  {
    && d.node == root
    && d.content == DocumentNode
    && d.position == Vec2(HSTEP, VSTEP)
    && |d.children| == 1
    && LaidOutBlock(nodes, fonts, d.children[0], root, HSTEP, VSTEP, WIDTH - 2.0 * HSTEP)
    && d.size == Vec2(WIDTH - 2.0 * HSTEP, d.children[0].size.y)
  }

  /** Where a block's top goes: below its previous sibling, or at its parent's top. */
  function TopOf(parentPosition: Vec2, previous: Option<LayoutNode>): real
  {
    if previous.Some? then previous.value.position.y + previous.value.size.y else parentPosition.y
  }

  /**
   * `layout` of a Block node, with the creation of its child blocks and
   * their layout done in one pass over the document children.
   */
  method LayoutBlock(nodes: seq<Dom.HtmlNode>, n: nat, parentPosition: Vec2, parentSize: Vec2,
                     previous: Option<LayoutNode>, fonts: Fonts) returns (b: LayoutNode)
    requires Dom.WellFormed(nodes) && n < |nodes|
    ensures LaidOutBlock(nodes, fonts, b, n, parentPosition.x, TopOf(parentPosition, previous), parentSize.x)
    decreases |nodes| - n, 1
  {
    var mode := LayoutModeOf(nodes, n);
    var y := if previous.Some? then previous.value.position.y + previous.value.size.y else parentPosition.y;
    var position := Vec2(parentPosition.x, y);
    var width := parentSize.x;
    match mode
    case Block =>
      var children := LayoutChildren(nodes, n, position, width, fonts);
      b := LayoutNode(n, BlockNode(NewBlockLayout()), position, Vec2(width, SumHeights(children)), children);
    case Inline =>
      var layout := ComposeInline(nodes, n, position, width, fonts);
      b := LayoutNode(n, BlockNode(layout), position, Vec2(width, layout.cursorY), []);
  }

  /** The Block-mode part of `layout`: a block per document child, each below the previous one. */
  method LayoutChildren(nodes: seq<Dom.HtmlNode>, n: nat, position: Vec2, width: real, fonts: Fonts)
    returns (children: seq<LayoutNode>)
    requires Dom.WellFormed(nodes) && n < |nodes|
    ensures ChildrenLaidOut(nodes, fonts, children, nodes[n].children, position.x, position.y, width)
    decreases |nodes| - n, 0
  {
    var domChildren := nodes[n].children;
    children := [];
    var prev: Option<LayoutNode> := None;
    var k := 0;
    while k < |domChildren|
      invariant 0 <= k <= |domChildren| && |children| == k
      invariant prev == if k == 0 then None else Some(children[k - 1])
      invariant TopOf(position, prev) == position.y + SumHeights(children)
      invariant ChildrenLaidOut(nodes, fonts, children, domChildren[..k], position.x, position.y, width)
    {
      var child := LayoutBlock(nodes, domChildren[k], position, Vec2(width, 0.0), prev, fonts);
      ChildrenSnoc(nodes, fonts, children, domChildren[..k], child, domChildren[k], position.x, position.y, width);
      SumHeightsSnoc(children, child);
      assert domChildren[..k + 1] == domChildren[..k] + [domChildren[k]];
      children := children + [child];
      prev := Some(child);
      k := k + 1;
    }
    assert domChildren[..k] == domChildren;
  }

  /** The Inline-mode part of `layout`: a composer fed the node's subtree, then a final line flush. */
  method ComposeInline(nodes: seq<Dom.HtmlNode>, n: nat, position: Vec2, width: real, fonts: Fonts)
    returns (layout: BlockLayout)
    requires Dom.WellFormed(nodes) && n < |nodes|
    ensures layout == InlineLayout(nodes, fonts, n, position, width)
  {
    var composer := new BlockComposer(NewBlockLayout(), Outer(position, width, fonts));
    composer.UpdateFont();
    composer.Recurse(nodes, n);
    composer.FlushLine();
    layout := composer.layout;
  }

  /** `layout` of the Document node: one block for the root, inset by the page margins. */
  method LayoutDocument(nodes: seq<Dom.HtmlNode>, root: nat, fonts: Fonts) returns (d: LayoutNode)
    requires Dom.WellFormed(nodes) && root < |nodes|
    ensures LaidOutDocument(nodes, fonts, d, root)
  {
    var position := Vec2(HSTEP, VSTEP);
    var size := Vec2(WIDTH - 2.0 * HSTEP, 0.0);
    var child := LayoutBlock(nodes, root, position, size, None, fonts);
    d := LayoutNode(root, DocumentNode, position, Vec2(WIDTH - 2.0 * HSTEP, child.size.y), [child]);
  }

  /** `paint`: a block's display list; the document paints nothing itself. */
  function Paint(l: LayoutNode): seq<DrawText>
  {
    match l.content
    case DocumentNode => []
    case BlockNode(layout) => layout.displayList
  }

  /** The display list of a whole layout tree: each node's own, then its children's, in pre-order. */
  function PaintedTree(l: LayoutNode): seq<DrawText>
    decreases l, 1
  {
    Paint(l) + PaintedForest(l.children)
  }

  /** The display lists of some layout trees, one after the other. */
  function PaintedForest(ls: seq<LayoutNode>): seq<DrawText>
    decreases ls, 0
  {
    if ls == [] then [] else PaintedTree(ls[0]) + PaintedForest(ls[1..])
  }

  lemma {:induction false} PaintedForestSnoc(ls: seq<LayoutNode>, l: LayoutNode)
    ensures PaintedForest(ls + [l]) == PaintedForest(ls) + PaintedTree(l)
    decreases |ls|
  {
    if ls == [] {
      assert [l][1..] == [];
    } else {
      assert (ls + [l])[1..] == ls[1..] + [l];
      PaintedForestSnoc(ls[1..], l);
    }
  }

  /** `paint_tree`: append the painting of a tree to a display list. */
  method PaintTree(l: LayoutNode, displayList: seq<DrawText>) returns (out: seq<DrawText>)
    ensures out == displayList + PaintedTree(l)
    decreases l
  {
    out := displayList + Paint(l);
    var k := 0;
    while k < |l.children|
      invariant 0 <= k <= |l.children|
      invariant out == displayList + Paint(l) + PaintedForest(l.children[..k])
    {
      out := PaintTree(l.children[k], out);
      PaintedForestSnoc(l.children[..k], l.children[k]);
      assert l.children[..k + 1] == l.children[..k] + [l.children[k]];
      k := k + 1;
    }
    assert l.children[..k] == l.children;
  }

  // ---------------------------------------------------------------------------
  // Properties of the layout

  /** Layout is a function of the document, the fonts and the placement: two layouts of the same node agree. */
  lemma {:induction false} LayoutIsDeterministic(nodes: seq<Dom.HtmlNode>, fonts: Fonts, b1: LayoutNode, b2: LayoutNode,
                                                n: nat, x: real, y: real, width: real)
    requires Dom.WellFormed(nodes)
    requires LaidOutBlock(nodes, fonts, b1, n, x, y, width)
    requires LaidOutBlock(nodes, fonts, b2, n, x, y, width)
    ensures b1 == b2
    decreases b1, 1
  {
    if LayoutModeOf(nodes, n) == Block {
      ChildrenAreDeterministic(nodes, fonts, b1.children, b2.children, nodes[n].children, x, y, width);
    }
  }

  lemma {:induction false} ChildrenAreDeterministic(nodes: seq<Dom.HtmlNode>, fonts: Fonts, cs1: seq<LayoutNode>,
                                                   cs2: seq<LayoutNode>, ns: seq<nat>, x: real, y: real, width: real)
    requires Dom.WellFormed(nodes)
    requires ChildrenLaidOut(nodes, fonts, cs1, ns, x, y, width)
    requires ChildrenLaidOut(nodes, fonts, cs2, ns, x, y, width)
    ensures cs1 == cs2
    decreases cs1, 0
  {
    if cs1 != [] {
      LayoutIsDeterministic(nodes, fonts, cs1[0], cs2[0], ns[0], x, y, width);
      ChildrenAreDeterministic(nodes, fonts, cs1[1..], cs2[1..], ns[1..], x, y + cs1[0].size.y, width);
      assert cs1 == [cs1[0]] + cs1[1..];
      assert cs2 == [cs2[0]] + cs2[1..];
    }
  }

  /** Stacked blocks tile their parent: the first starts at its top and the last ends at its bottom. */
  lemma ChildrenTileParent(nodes: seq<Dom.HtmlNode>, fonts: Fonts, b: LayoutNode, n: nat,
                           x: real, y: real, width: real)
    requires Dom.WellFormed(nodes)
    requires LaidOutBlock(nodes, fonts, b, n, x, y, width)
    requires LayoutModeOf(nodes, n) == Block
    ensures |b.children| == |nodes[n].children|
    ensures b.children != [] ==> b.children[0].position.y == b.position.y
    ensures b.children != [] ==>
      b.children[|b.children| - 1].position.y + b.children[|b.children| - 1].size.y == b.position.y + b.size.y
  {
    var cs := b.children;
    ChildrenLength(nodes, fonts, cs, nodes[n].children, x, y, width);
    if cs != [] {
      var last := |cs| - 1;
      ChildAt(nodes, fonts, cs, nodes[n].children, x, y, width, 0);
      assert cs[..0] == [];
      ChildAt(nodes, fonts, cs, nodes[n].children, x, y, width, last);
      SumHeightsSnoc(cs[..last], cs[last]);
      assert cs[..last] + [cs[last]] == cs;
    }
  }

  /**
   * Every word of a node's subtree is painted exactly once, in document order,
   * by the layout of that node.
   */
  lemma {:induction false} LayoutPaintsEveryWord(nodes: seq<Dom.HtmlNode>, fonts: Fonts, b: LayoutNode, n: nat,
                                                x: real, y: real, width: real)
    requires Dom.WellFormed(nodes) && KeepsText(fonts)
    requires LaidOutBlock(nodes, fonts, b, n, x, y, width)
    ensures Texts(PaintedTree(b)) == WordsOf(nodes, n)
    decreases b, 1
  {
    match LayoutModeOf(nodes, n)
    case Block =>
      BlockPaintsEveryWord(nodes, fonts, b, n, x, y, width);
    case Inline =>
      InlinePaintsEveryWord(nodes, fonts, b, n, x, y, width);
  }

  /** A block-mode block paints its children's words, child after child. */
  lemma {:induction false} BlockPaintsEveryWord(nodes: seq<Dom.HtmlNode>, fonts: Fonts, b: LayoutNode, n: nat,
                                               x: real, y: real, width: real)
    requires Dom.WellFormed(nodes) && KeepsText(fonts)
    requires LaidOutBlock(nodes, fonts, b, n, x, y, width) && LayoutModeOf(nodes, n) == Block
    ensures Texts(PaintedTree(b)) == WordsOf(nodes, n)
    decreases b, 0
  {
    var cs := b.children;
    ChildrenLength(nodes, fonts, cs, nodes[n].children, x, y, width);
    var k := 0;
    while k < |cs|
      invariant 0 <= k <= |cs|
      invariant Texts(PaintedForest(cs[..k])) == WordsOfChildren(nodes, n, k)
    {
      ChildAt(nodes, fonts, cs, nodes[n].children, x, y, width, k);
      LayoutPaintsEveryWord(nodes, fonts, cs[k], nodes[n].children[k], x, y + SumHeights(cs[..k]), width);
      PaintedForestSnoc(cs[..k], cs[k]);
      assert cs[..k + 1] == cs[..k] + [cs[k]];
      TextsAppend(PaintedForest(cs[..k]), PaintedTree(cs[k]));
      k := k + 1;
    }
    assert cs[..k] == cs;
    TextsAppend(Paint(b), PaintedForest(cs));
  }

  /** An inline-mode block paints the words its composer laid out. */
  lemma InlinePaintsEveryWord(nodes: seq<Dom.HtmlNode>, fonts: Fonts, b: LayoutNode, n: nat,
                              x: real, y: real, width: real)
    requires Dom.WellFormed(nodes) && KeepsText(fonts)
    requires LaidOutBlock(nodes, fonts, b, n, x, y, width) && LayoutModeOf(nodes, n) == Inline
    ensures Texts(PaintedTree(b)) == WordsOf(nodes, n)
  {
    var o := Outer(Vec2(x, y), width, fonts);
    var composed := AfterRecurse(o, nodes, UpdatedFont(o, NewBlockLayout()), n);
    RecursePaintsWords(o, nodes, UpdatedFont(o, NewBlockLayout()), n);
    FlushKeepsRuns(o, composed);
    assert Pending(UpdatedFont(o, NewBlockLayout())) == [];
    assert PaintedTree(b) == Paint(b) + PaintedForest([]);
  }

  /** The whole page paints every word of the document once, in order. */
  lemma DocumentPaintsEveryWord(nodes: seq<Dom.HtmlNode>, fonts: Fonts, d: LayoutNode, root: nat)
    requires Dom.WellFormed(nodes) && root < |nodes| && KeepsText(fonts)
    requires LaidOutDocument(nodes, fonts, d, root)
    ensures Texts(PaintedTree(d)) == WordsOf(nodes, root)
  {
    LayoutPaintsEveryWord(nodes, fonts, d.children[0], root, HSTEP, VSTEP, WIDTH - 2.0 * HSTEP);
    assert d.children[1..] == [];
    assert PaintedTree(d) == [] + (PaintedTree(d.children[0]) + PaintedForest([]));
  }
}
