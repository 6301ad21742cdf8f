/** Tag selectors (src/selector.rs). */
module Selector {
  import Dom

  /** `Selector { selector: SelectorType::Tag { tag } }`: the only selector kind the source defines. */
  datatype Selector = Tag(tag: string)

  /** `Selector::new_tag`. */
  function NewTag(tag: string): (s: Selector)
    ensures s.Tag? && s.tag == tag
  {
    Tag(tag)
  }

  /** `Selector::matches`: an element whose tag equals the selector's, compared exactly. */
  function Matches(s: Selector, node: Dom.NodeType): (r: bool)
    ensures r <==> node.Element? && node.tag == s.tag
    ensures node.Text? ==> !r
  {
    match s
    case Tag(tag) =>
      match node
      case Element(t, _) => t == tag
      case Text(_) => false
  }

  /**
   * A tag selector built from `t` matches exactly the elements tagged `t`,
   * whatever their attributes; the comparison is exact, so a tag that differs
   * from `t` only in letter case does not match.
   */
  lemma NewTagMatchesExactly(t: string, node: Dom.NodeType)
    ensures Matches(NewTag(t), node) <==> node.Element? && node.tag == t
    ensures node.Element? ==> Matches(NewTag(t), node) == Matches(NewTag(t), Dom.Element(node.tag, map[]))
  {
  }
}
