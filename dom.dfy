/**
 * The document tree that the tokenizer's tree builder produces and that the
 * cascade and the layout engine read.  The source keeps it as
 * `Rc<RefCell<HtmlNode>>` with a parent reference; here it is an arena of
 * nodes addressed by index, with the parent and the children stored as
 * indices.  A child always has a larger index than its parent, which makes
 * every walk over the tree terminate.
 */
module Dom {
  import opened Wrappers

  /** A resolved style: property name to value, as `HashMap<String, String>`. */
  type StyleMap = map<string, string>

  /** `HtmlNodeType`: an element with its tag and attributes, or a run of text. */
  datatype NodeType = Element(tag: string, attributes: map<string, string>) | Text(text: string)

  /** One arena slot: what the node is, its children in source order, its parent. */
  datatype HtmlNode = HtmlNode(nodeType: NodeType, children: seq<nat>, parent: Option<nat>)

  /**
   * The arena is a forest: children point back to their parent, a parent lists
   * each child once, and a child's index is larger than its parent's.
   */
  ghost predicate WellFormed(nodes: seq<HtmlNode>)
  {
    && (forall i, k :: 0 <= i < |nodes| && 0 <= k < |nodes[i].children| ==>
          i < nodes[i].children[k] < |nodes| && nodes[nodes[i].children[k]].parent == Some(i))
    && (forall i, k, l :: 0 <= i < |nodes| && 0 <= k < l < |nodes[i].children| ==>
          nodes[i].children[k] != nodes[i].children[l])
    && (forall c :: 0 <= c < |nodes| && nodes[c].parent.Some? ==>
          nodes[c].parent.value < c && c in nodes[nodes[c].parent.value].children)
  }

  /** `m` is `n` or lies below `n`: `n` is on `m`'s parent chain. */
  ghost predicate InSubtree(nodes: seq<HtmlNode>, m: nat, n: nat)
    requires WellFormed(nodes) && m < |nodes|
    decreases m
  {
    m == n || (nodes[m].parent.Some? && InSubtree(nodes, nodes[m].parent.value, n))
  }

  lemma {:induction false} SubtreeIsAbove(nodes: seq<HtmlNode>, m: nat, n: nat)
    requires WellFormed(nodes) && m < |nodes| && InSubtree(nodes, m, n)
    ensures n <= m
    decreases m
  {
    if m != n {
      SubtreeIsAbove(nodes, nodes[m].parent.value, n);
    }
  }

  /** Below a child of `n` is below `n`. */
  lemma {:induction false} SubtreeOfChild(nodes: seq<HtmlNode>, m: nat, n: nat, c: nat)
    requires WellFormed(nodes) && m < |nodes| && n < |nodes| && c in nodes[n].children
    requires InSubtree(nodes, m, c)
    ensures InSubtree(nodes, m, n)
    decreases m
  {
    var k :| 0 <= k < |nodes[n].children| && nodes[n].children[k] == c;
    if m != c {
      SubtreeOfChild(nodes, nodes[m].parent.value, n, c);
    }
  }

  /** Transitivity of lying below. */
  lemma {:induction false} SubtreeTransitive(nodes: seq<HtmlNode>, m: nat, a: nat, n: nat)
    requires WellFormed(nodes) && m < |nodes| && a < |nodes|
    requires InSubtree(nodes, m, a) && InSubtree(nodes, a, n)
    ensures InSubtree(nodes, m, n)
    decreases m
  {
    if m != a {
      SubtreeTransitive(nodes, nodes[m].parent.value, a, n);
    }
  }

  /**
   * For `m` strictly below `n`, the child of `n` whose subtree holds `m`:
   * the node on `m`'s parent chain whose parent is `n`.
   */
  ghost function Branch(nodes: seq<HtmlNode>, m: nat, n: nat): (c: nat)
    requires WellFormed(nodes) && m < |nodes| && n < |nodes|
    requires InSubtree(nodes, m, n) && m != n
    ensures c in nodes[n].children && c < |nodes| && InSubtree(nodes, m, c)
    decreases m
  {
    var p := nodes[m].parent.value;
    if p == n then m
    else
      var c := Branch(nodes, p, n);
      assert InSubtree(nodes, m, c);
      c
  }

  /** Two points on one parent chain are ordered by it. */
  lemma {:induction false} ChainIsLinear(nodes: seq<HtmlNode>, m: nat, a: nat, b: nat)
    requires WellFormed(nodes) && m < |nodes| && a < |nodes| && b < |nodes|
    requires InSubtree(nodes, m, a) && InSubtree(nodes, m, b) && a <= b
    ensures InSubtree(nodes, b, a)
    decreases m
  {
    if m != b {
      SubtreeIsAbove(nodes, m, b);
      if m == a {
        assert false;
      } else {
        ChainIsLinear(nodes, nodes[m].parent.value, a, b);
      }
    }
  }

  /** Each node strictly below `n` lies below exactly one child of `n`. */
  lemma BranchIsUnique(nodes: seq<HtmlNode>, m: nat, n: nat, c: nat)
    requires WellFormed(nodes) && m < |nodes| && n < |nodes|
    requires c in nodes[n].children && InSubtree(nodes, m, c)
    ensures InSubtree(nodes, m, n) && m != n && Branch(nodes, m, n) == c
  {
    SubtreeOfChild(nodes, m, n, c);
    SubtreeIsAbove(nodes, m, c);
    var d := Branch(nodes, m, n);
    if d != c {
      if c <= d {
        ChainIsLinear(nodes, m, c, d);
        assert nodes[d].parent == Some(n);
        SubtreeIsAbove(nodes, n, c);
      } else {
        ChainIsLinear(nodes, m, d, c);
        assert nodes[c].parent == Some(n);
        SubtreeIsAbove(nodes, n, d);
      }
    }
  }

  /**
   * The nodes whose style maps the cascade writes.  The tree structure is
   * fixed once built; the style maps are updated in place.
   */
  class Document {
    const nodes: seq<HtmlNode>
    var styles: seq<StyleMap>

    ghost predicate Valid()
      reads this
    {
      WellFormed(nodes) && |styles| == |nodes|
    }

    /** A freshly built tree: every node starts with an empty style map. */
    constructor (nodes: seq<HtmlNode>)
      requires WellFormed(nodes)
      ensures Valid() && this.nodes == nodes
      ensures forall i :: 0 <= i < |nodes| ==> styles[i] == map[]
    {
      this.nodes := nodes;
      styles := seq(|nodes|, _ => map[]);
    }
  }
}
