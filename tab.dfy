/**
 * The parts of a browser tab (src/tab.rs) that are not network or UI: the
 * stylesheet links a page asks for, the scroll position, and the vertical
 * extent of a draw command.  The cascade itself is in module `Cascade`, the
 * rule order in `RuleOrder`.
 */
module Tab {
  import opened Wrappers
  import Dom
  import Layout
  import LayoutTree
  import Cascade
  import RuleOrder

  const SCROLL_STEP: real := 100.0

  // ---------------------------------------------------------------------------
  // Stylesheet links

  /** The `href` a node asks to load as a stylesheet: a `link` element with `rel="stylesheet"` and an `href`. */
  function StylesheetHref(node: Dom.NodeType): Option<string>
  {
    match node
    case Element(tag, attributes) =>
      if tag == "link" && "rel" in attributes && attributes["rel"] == "stylesheet" && "href" in attributes
      then Some(attributes["href"]) else None
    case Text(_) => None
  }

  /** The `filter_map` in `load` over the flattened node list: each stylesheet link's `href`, in document order. */
  function StylesheetHrefs(nodes: seq<Dom.NodeType>): seq<string>
  {
    if nodes == [] then []
    else
      var last := nodes[|nodes| - 1];
      StylesheetHrefs(nodes[..|nodes| - 1]) + (if StylesheetHref(last).Some? then [StylesheetHref(last).value] else [])
  }

  /** A node is a stylesheet link. */
  predicate IsStylesheetLink(node: Dom.NodeType)
  {
    node.Element? && node.tag == "link" && "rel" in node.attributes && node.attributes["rel"] == "stylesheet"
    && "href" in node.attributes
  }

  /** The collected hrefs are exactly those of the stylesheet links; a text node never contributes one. */
  lemma {:induction false} StylesheetHrefsAreLinks(nodes: seq<Dom.NodeType>, h: string)
    ensures h in StylesheetHrefs(nodes) <==>
      exists i :: 0 <= i < |nodes| && IsStylesheetLink(nodes[i]) && nodes[i].attributes["href"] == h
    decreases |nodes|
  {
    if nodes != [] {
      var init := nodes[..|nodes| - 1];
      StylesheetHrefsAreLinks(init, h);
      if exists i :: 0 <= i < |init| && IsStylesheetLink(init[i]) && init[i].attributes["href"] == h {
        var i :| 0 <= i < |init| && IsStylesheetLink(init[i]) && init[i].attributes["href"] == h;
        assert nodes[i] == init[i];
      }
      if exists i :: 0 <= i < |nodes| && IsStylesheetLink(nodes[i]) && nodes[i].attributes["href"] == h {
        var i :| 0 <= i < |nodes| && IsStylesheetLink(nodes[i]) && nodes[i].attributes["href"] == h;
        if i < |init| {
          assert init[i] == nodes[i];
        }
      }
    }
  }

  lemma {:induction false} StylesheetHrefsAppend(a: seq<Dom.NodeType>, b: seq<Dom.NodeType>)
    ensures StylesheetHrefs(a + b) == StylesheetHrefs(a) + StylesheetHrefs(b)
    decreases |b|
  {
    if b == [] {
      assert a + b == a;
    } else {
      assert (a + b)[..|a + b| - 1] == a + b[..|b| - 1];
      StylesheetHrefsAppend(a, b[..|b| - 1]);
    }
  }

  /** One href per stylesheet link, in order: removing a node that is not one changes nothing. */
  lemma OtherNodesContributeNothing(a: seq<Dom.NodeType>, node: Dom.NodeType, b: seq<Dom.NodeType>)
    requires !IsStylesheetLink(node)
    ensures StylesheetHrefs(a + [node] + b) == StylesheetHrefs(a + b)
    ensures |StylesheetHrefs(a + [node] + b)| == |StylesheetHrefs(a)| + |StylesheetHrefs(b)|
  {
    StylesheetHrefsAppend(a + [node], b);
    StylesheetHrefsAppend(a, [node]);
    StylesheetHrefsAppend(a, b);
    assert StylesheetHrefs([node]) == [] by {
      assert [node][..0] == [];
    }
  }

  /**
   * The node list `load` filters, `tree_to_vec` of the page's root: the
   * nodes of the tree below `n`, each before its children, children in order.
   */
  function TreeNodes(nodes: seq<Dom.HtmlNode>, n: nat): seq<Dom.NodeType>
    requires Dom.WellFormed(nodes) && n < |nodes|
    decreases |nodes| - n, 1, 0
  {
    [nodes[n].nodeType] + ChildTrees(nodes, n, |nodes[n].children|)
  }

  /** The trees below the first `j` children of `n`, one after another. */
  function ChildTrees(nodes: seq<Dom.HtmlNode>, n: nat, j: nat): seq<Dom.NodeType>
    requires Dom.WellFormed(nodes) && n < |nodes| && j <= |nodes[n].children|
    decreases |nodes| - n, 0, j
  {
    if j == 0 then [] else ChildTrees(nodes, n, j - 1) + TreeNodes(nodes, nodes[n].children[j - 1])
  }

  /** The flattened tree holds the nodes below `n` and no others. */
  lemma {:induction false} TreeNodesMembers(nodes: seq<Dom.HtmlNode>, n: nat, x: Dom.NodeType)
    requires Dom.WellFormed(nodes) && n < |nodes|
    ensures x in TreeNodes(nodes, n) <==>
      exists m :: 0 <= m < |nodes| && Dom.InSubtree(nodes, m, n) && nodes[m].nodeType == x
    decreases |nodes| - n, 1, 0
  {
    var cs := nodes[n].children;
    ChildTreesMembers(nodes, n, |cs|, x);
    if x in ChildTrees(nodes, n, |cs|) {
      var k, m :| 0 <= k < |cs| && 0 <= m < |nodes| && Dom.InSubtree(nodes, m, cs[k]) && nodes[m].nodeType == x;
      Dom.SubtreeOfChild(nodes, m, n, cs[k]);
    }
    if exists m :: 0 <= m < |nodes| && Dom.InSubtree(nodes, m, n) && nodes[m].nodeType == x {
      var m :| 0 <= m < |nodes| && Dom.InSubtree(nodes, m, n) && nodes[m].nodeType == x;
      if m != n {
        var c := Dom.Branch(nodes, m, n);
        var k :| 0 <= k < |cs| && cs[k] == c;
      }
    }
  }

  lemma {:induction false} ChildTreesMembers(nodes: seq<Dom.HtmlNode>, n: nat, j: nat, x: Dom.NodeType)
    requires Dom.WellFormed(nodes) && n < |nodes| && j <= |nodes[n].children|
    ensures x in ChildTrees(nodes, n, j) <==>
      exists k, m :: 0 <= k < j && 0 <= m < |nodes| && Dom.InSubtree(nodes, m, nodes[n].children[k])
                     && nodes[m].nodeType == x
    decreases |nodes| - n, 0, j
  {
    if j > 0 {
      var c := nodes[n].children[j - 1];
      ChildTreesMembers(nodes, n, j - 1, x);
      TreeNodesMembers(nodes, c, x);
    }
  }

  /** `load` asks for the stylesheet of every link in the page's tree, and for no other. */
  lemma TreeLinks(nodes: seq<Dom.HtmlNode>, root: nat, h: string)
    requires Dom.WellFormed(nodes) && root < |nodes|
    ensures h in StylesheetHrefs(TreeNodes(nodes, root)) <==>
      exists m :: 0 <= m < |nodes| && Dom.InSubtree(nodes, m, root) && IsStylesheetLink(nodes[m].nodeType)
                  && nodes[m].nodeType.attributes["href"] == h
  {
    var tree := TreeNodes(nodes, root);
    StylesheetHrefsAreLinks(tree, h);
    if h in StylesheetHrefs(tree) {
      var i :| 0 <= i < |tree| && IsStylesheetLink(tree[i]) && tree[i].attributes["href"] == h;
      TreeNodesMembers(nodes, root, tree[i]);
    }
    if exists m :: 0 <= m < |nodes| && Dom.InSubtree(nodes, m, root) && IsStylesheetLink(nodes[m].nodeType)
                   && nodes[m].nodeType.attributes["href"] == h {
      var m :| 0 <= m < |nodes| && Dom.InSubtree(nodes, m, root) && IsStylesheetLink(nodes[m].nodeType)
               && nodes[m].nodeType.attributes["href"] == h;
      TreeNodesMembers(nodes, root, nodes[m].nodeType);
      var i :| 0 <= i < |tree| && tree[i] == nodes[m].nodeType;
    }
  }

  /**
   * The rules `load` appends for its links, in link order.  `fetch` stands
   * for resolving one href, requesting it and parsing the body; a failure
   * at any of those steps yields no rules.
   */
  function FetchedRules(fetch: string -> seq<Cascade.Rule>, links: seq<string>): seq<Cascade.Rule>
  {
    if links == [] then [] else FetchedRules(fetch, links[..|links| - 1]) + fetch(links[|links| - 1])
  }

  /** A fetched rule comes from one of the links, and every rule of every link is fetched. */
  lemma {:induction false} FetchedRulesMembers(fetch: string -> seq<Cascade.Rule>, links: seq<string>, r: Cascade.Rule)
    ensures r in FetchedRules(fetch, links) <==> exists i :: 0 <= i < |links| && r in fetch(links[i])
    decreases |links|
  {
    if links != [] {
      var init := links[..|links| - 1];
      FetchedRulesMembers(fetch, init, r);
      if exists i :: 0 <= i < |init| && r in fetch(init[i]) {
        var i :| 0 <= i < |init| && r in fetch(init[i]);
        assert links[i] == init[i];
      }
      if exists i :: 0 <= i < |links| && r in fetch(links[i]) {
        var i :| 0 <= i < |links| && r in fetch(links[i]);
        if i < |init| {
          assert init[i] == links[i];
        }
      }
    }
  }

  /** The rules `load` styles a page with: the defaults, then each link's rules, sorted by priority. */
  function LoadedRules(nodes: seq<Dom.HtmlNode>, root: nat, defaultRules: seq<Cascade.Rule>,
                       fetch: string -> seq<Cascade.Rule>, priority: RuleOrder.Priority): seq<Cascade.Rule>
    requires Dom.WellFormed(nodes) && root < |nodes|
  {
    RuleOrder.SortByPriority(defaultRules + FetchedRules(fetch, StylesheetHrefs(TreeNodes(nodes, root))), priority)
  }

  /** The `for link in links` loop of `load`: append each link's rules to the defaults. */
  method FetchAll(defaultRules: seq<Cascade.Rule>, fetch: string -> seq<Cascade.Rule>, links: seq<string>)
    returns (rules: seq<Cascade.Rule>)
    ensures rules == defaultRules + FetchedRules(fetch, links)
  {
    rules := defaultRules;
    for i := 0 to |links|
      invariant rules == defaultRules + FetchedRules(fetch, links[..i])
    {
      assert links[..i + 1][..i] == links[..i];
      rules := rules + fetch(links[i]);
    }
    assert links[..|links|] == links;
  }

  // ---------------------------------------------------------------------------
  // Scrolling

  /** The tab's document: nothing is known of its size until it is laid out. */
  datatype Page = NotLaidOut | LaidOut(root: LayoutTree.LayoutNode)

  /** `size.unwrap_or(Vec2::ZERO).y` of the document node. */
  function PageHeight(page: Page): real
  {
    match page
    case NotLaidOut => 0.0
    case LaidOut(root) => root.size.y
  }

  /** The lowest scroll position that still shows the page's bottom margin. */
  function MaxScroll(page: Page): real
  {
    PageHeight(page) + 2.0 * Layout.VSTEP - Layout.HEIGHT
  }

  function Min(a: real, b: real): real
  {
    if a <= b then a else b
  }

  /** `scroll_down` as written: one clamped step, then a second, unclamped one. */
  function ScrolledAsWritten(scrollY: real, maxY: real): real
  {
    Min(scrollY + SCROLL_STEP, maxY) + SCROLL_STEP
  }

  /** One step down, stopping at the bottom of the page. */
  function Scrolled(scrollY: real, maxY: real): real
  {
    Min(scrollY + SCROLL_STEP, maxY)
  }

  /**
   * As written, a step moves twice as far as `SCROLL_STEP` while the page
   * allows, and goes `SCROLL_STEP` past the bottom at the end of the page.
   */
  lemma ScrollOvershoots(scrollY: real, maxY: real)
    ensures scrollY + SCROLL_STEP <= maxY ==> ScrolledAsWritten(scrollY, maxY) == scrollY + 2.0 * SCROLL_STEP
    ensures ScrolledAsWritten(scrollY, maxY) <= maxY + SCROLL_STEP
    ensures scrollY + SCROLL_STEP >= maxY ==> ScrolledAsWritten(scrollY, maxY) == maxY + SCROLL_STEP
    ensures ScrolledAsWritten(0.0, 1000.0) == 200.0 && ScrolledAsWritten(1000.0, 1000.0) == 1100.0
  {
  }

  /** One step moves at most `SCROLL_STEP`, exactly that when the page allows, and never past the bottom. */
  lemma ScrollStaysInPage(scrollY: real, maxY: real)
    ensures Scrolled(scrollY, maxY) <= maxY
    ensures Scrolled(scrollY, maxY) <= scrollY + SCROLL_STEP
    ensures scrollY + SCROLL_STEP <= maxY ==> Scrolled(scrollY, maxY) == scrollY + SCROLL_STEP
    ensures scrollY <= maxY ==> scrollY <= Scrolled(scrollY, maxY)
    ensures ScrolledAsWritten(scrollY, maxY) == Scrolled(scrollY, maxY) + SCROLL_STEP
  {
  }

  /** The draw commands `Tab::draw` paints: a text run or a filled rectangle. */
  datatype Color32 = Color32(r: nat, g: nat, b: nat, a: nat)
  datatype DrawRect = DrawRect(topLeft: Layout.Vec2, bottomRight: Layout.Vec2, color: Color32)
  datatype DrawCommand = DrawText(text: Layout.DrawText) | DrawRect(rect: DrawRect)

  /** `DrawCommand::top`. */
  function Top(c: DrawCommand): real
  {
    match c
    case DrawText(t) => t.y
    case DrawRect(r) => r.topLeft.y
  }

  /** `DrawCommand::bottom`: a text run ends one galley height below its top. */
  function Bottom(c: DrawCommand): real
  {
    match c
    case DrawText(t) => t.y + t.galley.size.y
    case DrawRect(r) => r.bottomRight.y
  }

  /**
   * The runs a line flush lays out lie between the old and the new cursor of
   * their block: each starts below the old cursor and ends above the new one,
   * when a galley's height is its font height.
   */
  lemma FlushedRunsLieOnTheirLine(o: Layout.Outer, b: Layout.BlockLayout, k: nat)
    requires b.line != [] && k < |b.line|
    requires forall j :: 0 <= j < |b.line| ==>
      0.0 <= b.line[j].galley.fontAscent <= b.line[j].galley.fontHeight && b.line[j].galley.size.y == b.line[j].galley.fontHeight
    ensures var r := Layout.Flushed(o, b);
      var c := DrawText(r.displayList[|b.displayList| + k]);
      b.cursorY + o.position.y <= Top(c) <= Bottom(c) <= r.cursorY + o.position.y
  {
    Layout.FlushedLineGeometry(o, b);
  }

  /**
   * `Tab`: the scroll offset and the document.  The draw list, the DOM root
   * and the URL are the rest of its state; this model does not need them.
   */
  class Tab {
    var scrollY: real
    var document: Option<Page>

    /** `Tab::default`: at the top, with no document. */
    constructor ()
      ensures scrollY == 0.0 && document == None
    {
      scrollY := 0.0;
      document := None;
    }

    /**
     * `load` once the page has been fetched and tokenized into `doc`: the
     * scroll offset goes back to the top, the stylesheet links are collected
     * and their rules appended to the defaults, the rules are sorted by
     * priority, the tree is styled from its root, and a document not yet laid
     * out is installed.  A panic of the cascade is `false`, with no document
     * installed, and it happens only when styling some node of the subtree fails.
     */
    method Load(doc: Dom.Document, root: nat, defaultRules: seq<Cascade.Rule>, fetch: string -> seq<Cascade.Rule>,
                priority: RuleOrder.Priority, env: Cascade.CssEnv) returns (ok: bool)
      requires doc.Valid() && root < |doc.nodes|
      modifies this, doc
      ensures doc.Valid() && scrollY == 0.0
      ensures ok ==> document == Some(NotLaidOut)
      ensures !ok ==> document == old(document)
      ensures !ok ==> exists m :: 0 <= m < |doc.nodes| && Dom.InSubtree(doc.nodes, m, root) &&
                        Cascade.StyleFails(doc.nodes, LoadedRules(doc.nodes, root, defaultRules, fetch, priority),
                                           env, old(doc.styles), doc.styles, m)
      ensures ok ==> forall m :: 0 <= m < |doc.nodes| && Dom.InSubtree(doc.nodes, m, root) ==>
        Cascade.Styled(doc.nodes, LoadedRules(doc.nodes, root, defaultRules, fetch, priority), env,
                       old(doc.styles), doc.styles, m)
      ensures forall m :: 0 <= m < |doc.nodes| && !Dom.InSubtree(doc.nodes, m, root) ==> doc.styles[m] == old(doc.styles[m])
    {
      scrollY := 0.0;
      var links := StylesheetHrefs(TreeNodes(doc.nodes, root));
      var rules := FetchAll(defaultRules, fetch, links);
      rules := RuleOrder.SortByPriority(rules, priority);
      ok := Cascade.Style(doc, root, rules, env);
      if ok {
        document := Some(NotLaidOut);
      }
    }

    /**
     * `scroll_down`: fails (the source panics) without a document; otherwise
     * takes the clamped step and then the unclamped one.
     */
    method ScrollDown() returns (ok: bool)
      modifies this
      ensures ok <==> old(document).Some?
      ensures document == old(document)
      ensures ok ==> scrollY == ScrolledAsWritten(old(scrollY), MaxScroll(document.value))
      ensures !ok ==> scrollY == old(scrollY)
    {
      match document {
        case None =>
          return false;
        case Some(page) =>
          var maxY := PageHeight(page) + 2.0 * Layout.VSTEP - Layout.HEIGHT;
          scrollY := Min(scrollY + SCROLL_STEP, maxY);
      }
      scrollY := scrollY + SCROLL_STEP;
      ok := true;
    }
  }
}
