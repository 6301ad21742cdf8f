/**
 * The style cascade of src/tab.rs (`Tab::style`): every node's style map gets
 * the inherited properties, then the declarations of each matching rule in
 * rule order, then its inline `style` declarations, and finally a percentage
 * font size is turned into pixels against the parent's.  Parents are styled
 * before their children.
 *
 * The CSS parser, number parsing and number formatting are outside this
 * model and are given as functions in `CssEnv`.  A panic of the source (a
 * missing inherited value, an unparsable percentage) is a `false` result.
 */
module Cascade {
  import opened Wrappers
  import Dom
  import Selector

  type StyleMap = Dom.StyleMap

  /** A stylesheet rule: a selector and its declarations. */
  datatype Rule = Rule(selector: Selector.Selector, declarations: StyleMap)

  /**
   * What the cascade calls but this model does not define: `CssParser::body`
   * on an inline style, `f32` parsing, and `{}` formatting of an `f32`.
   */
  datatype CssEnv = CssEnv(
    body: string -> Option<StyleMap>,
    parseNumber: string -> Option<real>,
    formatNumber: real -> string)

  /** The inherited properties and their values at the root. */
  const INHERITED_PROPERTIES: map<string, string> :=
    map["color" := "black", "font-size" := "16px", "font-weight" := "normal", "font-style" := "normal"]

  /** The font size the root's percentages refer to. */
  const ROOT_FONT_SIZE: string := "16px"

  predicate EndsWith(s: string, suffix: string)
  {
    |suffix| <= |s| && s[|s| - |suffix|..] == suffix
  }

  /** `str::replace(pat, "")`: every non-overlapping occurrence of `pat`, from the left, removed. */
  function RemoveAll(s: string, pat: string): string
    requires pat != []
    decreases |s|
  {
    if |s| < |pat| then s
    else if s[..|pat|] == pat then RemoveAll(s[|pat|..], pat)
    else [s[0]] + RemoveAll(s[1..], pat)
  }

  /**
   * The inherited part of a node's style: the root's values at the root, the
   * parent's values elsewhere; `None` (a panic) when the parent lacks one.
   */
  function Inherited(parentStyle: Option<StyleMap>): (r: Option<StyleMap>)
    ensures parentStyle.None? ==> r == Some(INHERITED_PROPERTIES)
    ensures parentStyle.Some? ==> (r.Some? <==> INHERITED_PROPERTIES.Keys <= parentStyle.value.Keys)
    ensures r.Some? ==> r.value.Keys == INHERITED_PROPERTIES.Keys
    ensures parentStyle.Some? && r.Some? ==> forall k :: k in r.value ==> r.value[k] == parentStyle.value[k]
  {
    match parentStyle
    case None => Some(INHERITED_PROPERTIES)
    case Some(p) =>
      if INHERITED_PROPERTIES.Keys <= p.Keys then Some(map k | k in INHERITED_PROPERTIES.Keys :: p[k]) else None
  }

  /** The declarations of the rules whose selector matches the node, in rule order. */
  function MatchingDeclarations(rules: seq<Rule>, node: Dom.NodeType): seq<StyleMap>
  {
    if rules == [] then []
    else
      var last := rules[|rules| - 1];
      MatchingDeclarations(rules[..|rules| - 1], node)
        + (if Selector.Matches(last.selector, node) then [last.declarations] else [])
  }

  /** Maps inserted one after another into `base`: for each key the last map that has it wins. */
  function Merged(base: StyleMap, maps: seq<StyleMap>): StyleMap
  {
    if maps == [] then base else Merged(base, maps[..|maps| - 1]) + maps[|maps| - 1]
  }

  /** The declarations of an element's `style` attribute, when it has one and it parses. */
  function InlineDeclarations(node: Dom.NodeType, env: CssEnv): Option<StyleMap>
  {
    if node.Element? && "style" in node.attributes then env.body(node.attributes["style"]) else None
  }

  /** `pct` percent of `base`. */
  function PercentOf(base: real, pct: real): real
  {
    base * (pct / 100.0)
  }

  /** A font size ending in `%` becomes that share of the parent's pixel size; `None` when either does not parse. */
  function ResolvePercent(style: StyleMap, parentFontSize: string, env: CssEnv): Option<StyleMap>
    requires "font-size" in style
  {
    var fontSize := style["font-size"];
    if !EndsWith(fontSize, "%") then Some(style)
    else
      match (env.parseNumber(RemoveAll(fontSize, "%")), env.parseNumber(RemoveAll(parentFontSize, "px")))
      case (Some(pct), Some(px)) => Some(style["font-size" := env.formatNumber(PercentOf(px, pct)) + "px"])
      case _ => None
  }

  lemma {:induction false} MergedKeys(base: StyleMap, maps: seq<StyleMap>)
    ensures base.Keys <= Merged(base, maps).Keys
    ensures forall j :: 0 <= j < |maps| ==> maps[j].Keys <= Merged(base, maps).Keys
    decreases |maps|
  {
    if maps != [] {
      MergedKeys(base, maps[..|maps| - 1]);
    }
  }

  /** The font size a node's percentage refers to: its parent's, or 16px at the root. */
  function ParentFontSize(parentStyle: Option<StyleMap>): string
    requires parentStyle.Some? ==> "font-size" in parentStyle.value
  {
    if parentStyle.None? then ROOT_FONT_SIZE else parentStyle.value["font-size"]
  }

  /** The node's map after the rules and inline declarations, before percentages are resolved. */
  function Cascaded(node: Dom.NodeType, own: StyleMap, inherited: StyleMap, rules: seq<Rule>, env: CssEnv): (s: StyleMap)
    ensures own.Keys + inherited.Keys <= s.Keys
  {
    var ruled := Merged(own, [inherited] + MatchingDeclarations(rules, node));
    MergedKeys(own, [inherited] + MatchingDeclarations(rules, node));
    assert ([inherited] + MatchingDeclarations(rules, node))[0] == inherited;
    match InlineDeclarations(node, env)
    case Some(d) => ruled + d
    case None => ruled
  }

  /**
   * The map `style` leaves on a node whose map was `own`, given its parent's
   * final map (`None` at the root); `None` when the source panics.
   */
  function NodeStyle(node: Dom.NodeType, own: StyleMap, parentStyle: Option<StyleMap>, rules: seq<Rule>, env: CssEnv)
    : Option<StyleMap>
  {
    match Inherited(parentStyle)
    case None => None
    case Some(inherited) =>
      ResolvePercent(Cascaded(node, own, inherited, rules, env), ParentFontSize(parentStyle), env)
  }

  /** The final map of a node's parent, as `style` reads it. */
  function ParentStyle(nodes: seq<Dom.HtmlNode>, styles: seq<StyleMap>, m: nat): Option<StyleMap>
    requires Dom.WellFormed(nodes) && |styles| == |nodes| && m < |nodes|
  {
    if nodes[m].parent.None? then None else Some(styles[nodes[m].parent.value])
  }

  /** Node `m` holds, in `after`, the map `style` makes from its map in `before` and its parent's in `after`. */
  ghost predicate Styled(nodes: seq<Dom.HtmlNode>, rules: seq<Rule>, env: CssEnv,
                         before: seq<StyleMap>, after: seq<StyleMap>, m: nat)
    requires Dom.WellFormed(nodes) && |before| == |nodes| && |after| == |nodes| && m < |nodes|
  {
    NodeStyle(nodes[m].nodeType, before[m], ParentStyle(nodes, after, m), rules, env) == Some(after[m])
  }

  /** Styling node `m` panics, given its map in `before` and its parent's in `after`. */
  ghost predicate StyleFails(nodes: seq<Dom.HtmlNode>, rules: seq<Rule>, env: CssEnv,
                             before: seq<StyleMap>, after: seq<StyleMap>, m: nat)
    requires Dom.WellFormed(nodes) && |before| == |nodes| && |after| == |nodes| && m < |nodes|
  {
    NodeStyle(nodes[m].nodeType, before[m], ParentStyle(nodes, after, m), rules, env).None?
  }

  // ---------------------------------------------------------------------------
  // The imperative cascade

  /** The loop over `INHERITED_PROPERTIES` that builds the inherited map, panicking on a missing parent value. */
  method InheritedStyle(parentStyle: Option<StyleMap>) returns (r: Option<StyleMap>)
    ensures r == Inherited(parentStyle)
  {
    var inherited: StyleMap := map[];
    var remaining := INHERITED_PROPERTIES.Keys;
    while remaining != {}
      invariant remaining <= INHERITED_PROPERTIES.Keys
      invariant inherited.Keys == INHERITED_PROPERTIES.Keys - remaining
      invariant parentStyle.None? ==> forall k :: k in inherited ==> inherited[k] == INHERITED_PROPERTIES[k]
      invariant parentStyle.Some? ==>
        (INHERITED_PROPERTIES.Keys - remaining) <= parentStyle.value.Keys
        && forall k :: k in inherited ==> inherited[k] == parentStyle.value[k]
      decreases remaining
    {
      var key :| key in remaining;
      match parentStyle {
        case None =>
          inherited := inherited[key := INHERITED_PROPERTIES[key]];
        case Some(p) =>
          if key !in p {
            return None;
          }
          inherited := inherited[key := p[key]];
      }
      remaining := remaining - {key};
    }
    match parentStyle {
      case None =>
        assert inherited == INHERITED_PROPERTIES;
      case Some(p) =>
        assert inherited == map k | k in INHERITED_PROPERTIES.Keys :: p[k];
    }
    r := Some(inherited);
  }

  /** The inner loop of the merge: every entry of `source` inserted into `target`. */
  method InsertAll(target: StyleMap, source: StyleMap) returns (r: StyleMap)
    ensures r == target + source
  {
    r := target;
    var remaining := source.Keys;
    while remaining != {}
      invariant remaining <= source.Keys
      invariant r.Keys == target.Keys + (source.Keys - remaining)
      invariant forall k :: k in r ==> r[k] == if k in source.Keys - remaining then source[k] else target[k]
      decreases remaining
    {
      var key :| key in remaining;
      r := r[key := source[key]];
      remaining := remaining - {key};
    }
  }

  /** The loop over the rules: the declarations of each one whose selector matches, in rule order. */
  method MatchingMaps(rules: seq<Rule>, node: Dom.NodeType) returns (maps: seq<StyleMap>)
    ensures maps == MatchingDeclarations(rules, node)
  {
    maps := [];
    var i := 0;
    while i < |rules|
      invariant 0 <= i <= |rules|
      invariant maps == MatchingDeclarations(rules[..i], node)
    {
      if Selector.Matches(rules[i].selector, node) {
        maps := maps + [rules[i].declarations];
      }
      assert rules[..i + 1][..i] == rules[..i];
      i := i + 1;
    }
    assert rules[..i] == rules;
  }

  /** The loop over the collected maps, inserting each into the node's map in turn. */
  method MergeAll(own: StyleMap, maps: seq<StyleMap>) returns (style: StyleMap)
    ensures style == Merged(own, maps)
  {
    style := own;
    var j := 0;
    while j < |maps|
      invariant 0 <= j <= |maps|
      invariant style == Merged(own, maps[..j])
    {
      style := InsertAll(style, maps[j]);
      assert maps[..j + 1][..j] == maps[..j];
      j := j + 1;
    }
    assert maps[..j] == maps;
  }

  /** The matching rules' declarations and then the inline ones, inserted into the node's map over the inherited values. */
  method CascadeNode(node: Dom.NodeType, own: StyleMap, inherited: StyleMap, rules: seq<Rule>, env: CssEnv)
    returns (style: StyleMap)
    ensures style == Cascaded(node, own, inherited, rules, env)
  {
    var matching := MatchingMaps(rules, node);
    style := MergeAll(own, [inherited] + matching);
    if node.Element? && "style" in node.attributes {
      var pairs := env.body(node.attributes["style"]);
      if pairs.Some? {
        style := InsertAll(style, pairs.value);
      }
    }
  }

  /**
   * The part of `style` that writes node `n`'s own map: inherited values,
   * matching rules, inline declarations, then the percentage font size.
   */
  method StyleNode(doc: Dom.Document, n: nat, rules: seq<Rule>, env: CssEnv) returns (ok: bool)
    requires doc.Valid() && n < |doc.nodes|
    modifies doc
    ensures doc.Valid() && |doc.styles| == |old(doc.styles)|
    ensures forall m :: 0 <= m < |doc.nodes| && m != n ==> doc.styles[m] == old(doc.styles[m])
    ensures ok ==> Styled(doc.nodes, rules, env, old(doc.styles), doc.styles, n)
    ensures !ok ==> StyleFails(doc.nodes, rules, env, old(doc.styles), doc.styles, n)
  {
    var node := doc.nodes[n];
    var parentStyle: Option<StyleMap> := None;
    if node.parent.Some? {
      parentStyle := Some(doc.styles[node.parent.value]);
    }
    assert parentStyle == ParentStyle(doc.nodes, doc.styles, n);
    var inherited := InheritedStyle(parentStyle);
    if inherited.None? {
      return false;
    }

    var style := CascadeNode(node.nodeType, doc.styles[n], inherited.value, rules, env);
    doc.styles := doc.styles[n := style];
    ParentUnchanged(doc.nodes, old(doc.styles), doc.styles, n);

    var resolved := ResolvePercent(style, ParentFontSize(parentStyle), env);
    NodeStyleSteps(node.nodeType, old(doc.styles[n]), parentStyle, inherited.value, rules, env);
    if resolved.None? {
      return false;
    }
    doc.styles := doc.styles[n := resolved.value];
    ParentUnchanged(doc.nodes, old(doc.styles), doc.styles, n);
    ok := true;
  }

  /** `NodeStyle` is the percentage step applied to the cascaded map. */
  lemma NodeStyleSteps(node: Dom.NodeType, own: StyleMap, parentStyle: Option<StyleMap>, inherited: StyleMap,
                       rules: seq<Rule>, env: CssEnv)
    requires Inherited(parentStyle) == Some(inherited)
    ensures "font-size" in Cascaded(node, own, inherited, rules, env)
    ensures NodeStyle(node, own, parentStyle, rules, env)
         == ResolvePercent(Cascaded(node, own, inherited, rules, env), ParentFontSize(parentStyle), env)
  {
  }

  /**
   * `style`: node `n`'s own map is computed and written, then each child's
   * subtree is styled in order.  The result is `false` when the source would
   * panic; the maps written until then stay written.
   */
  method Style(doc: Dom.Document, n: nat, rules: seq<Rule>, env: CssEnv) returns (ok: bool)
    requires doc.Valid() && n < |doc.nodes|
    modifies doc
    ensures doc.Valid() && |doc.styles| == |old(doc.styles)|
    ensures forall m :: 0 <= m < |doc.nodes| && !Dom.InSubtree(doc.nodes, m, n) ==> doc.styles[m] == old(doc.styles[m])
    ensures ok ==> forall m :: 0 <= m < |doc.nodes| && Dom.InSubtree(doc.nodes, m, n) ==>
      Styled(doc.nodes, rules, env, old(doc.styles), doc.styles, m)
    ensures !ok ==> exists m :: 0 <= m < |doc.nodes| && Dom.InSubtree(doc.nodes, m, n)
                                && StyleFails(doc.nodes, rules, env, old(doc.styles), doc.styles, m)
    decreases |doc.nodes| - n
  {
    ok := StyleNode(doc, n, rules, env);
    if !ok {
      return;
    }

    // The children, in order; the first panic stops the walk.
    var children := doc.nodes[n].children;
    var k := 0;
    while k < |children|
      invariant doc.Valid() && |doc.styles| == |old(doc.styles)|
      invariant 0 <= k <= |children|
      invariant Untouched(doc.nodes, n, children[k..], old(doc.styles), doc.styles)
      invariant Done(doc.nodes, rules, env, n, children[..k], old(doc.styles), doc.styles)
      decreases |children| - k
    {
      ghost var before := doc.styles;
      var childOk := Style(doc, children[k], rules, env);
      if !childOk {
        ghost var m :| 0 <= m < |doc.nodes| && Dom.InSubtree(doc.nodes, m, children[k]) &&
          StyleFails(doc.nodes, rules, env, before, doc.styles, m);
        Dom.BranchIsUnique(doc.nodes, m, n, children[k]);
        OutsideParentOutsideChild(doc.nodes, n, children[k]);
        assert BelowOneOf(doc.nodes, n, children[k..], m);
        assert StyleFails(doc.nodes, rules, env, old(doc.styles), doc.styles, m);
        return false;
      }
      ChildStep(doc.nodes, rules, env, n, k, old(doc.styles), before, doc.styles);
      k := k + 1;
    }
    AllDone(doc.nodes, rules, env, n, old(doc.styles), doc.styles);
    ok := true;
  }

  /** A node's parent is outside its subtree, so writing only the node leaves the parent's map alone. */
  lemma ParentUnchanged(nodes: seq<Dom.HtmlNode>, before: seq<StyleMap>, after: seq<StyleMap>, n: nat)
    requires Dom.WellFormed(nodes) && |before| == |nodes| && |after| == |nodes| && n < |nodes|
    requires forall m :: 0 <= m < |nodes| && m != n ==> after[m] == before[m]
    ensures ParentStyle(nodes, after, n) == ParentStyle(nodes, before, n)
  {
  }

  /** `m` lies strictly below `n`, under one of the children `cs`. */
  ghost predicate BelowOneOf(nodes: seq<Dom.HtmlNode>, n: nat, cs: seq<nat>, m: nat)
    requires Dom.WellFormed(nodes) && n < |nodes| && m < |nodes|
  {
    Dom.InSubtree(nodes, m, n) && m != n && Dom.Branch(nodes, m, n) in cs
  }

  /** Outside the subtree of `n`, and under the children `rest` not yet visited, nothing was written. */
  ghost predicate Untouched(nodes: seq<Dom.HtmlNode>, n: nat, rest: seq<nat>, before: seq<StyleMap>, after: seq<StyleMap>)
    requires Dom.WellFormed(nodes) && n < |nodes| && |before| == |nodes| && |after| == |nodes|
  {
    forall m :: 0 <= m < |nodes| && (!Dom.InSubtree(nodes, m, n) || BelowOneOf(nodes, n, rest, m)) ==> after[m] == before[m]
  }

  /** `n` and everything under the children `first` is styled. */
  ghost predicate Done(nodes: seq<Dom.HtmlNode>, rules: seq<Rule>, env: CssEnv, n: nat, first: seq<nat>,
                       before: seq<StyleMap>, after: seq<StyleMap>)
    requires Dom.WellFormed(nodes) && n < |nodes| && |before| == |nodes| && |after| == |nodes|
  {
    && Styled(nodes, rules, env, before, after, n)
    && forall m :: 0 <= m < |nodes| && BelowOneOf(nodes, n, first, m) ==> Styled(nodes, rules, env, before, after, m)
  }

  /** Styling the `k`-th child keeps the walk's invariant for the next child. */
  lemma ChildStep(nodes: seq<Dom.HtmlNode>, rules: seq<Rule>, env: CssEnv, n: nat, k: nat,
                  s0: seq<StyleMap>, s1: seq<StyleMap>, s2: seq<StyleMap>)
    requires Dom.WellFormed(nodes) && n < |nodes| && |s0| == |nodes| && |s1| == |nodes| && |s2| == |nodes|
    requires k < |nodes[n].children|
    requires Untouched(nodes, n, nodes[n].children[k..], s0, s1)
    requires Done(nodes, rules, env, n, nodes[n].children[..k], s0, s1)
    requires forall m :: 0 <= m < |nodes| && !Dom.InSubtree(nodes, m, nodes[n].children[k]) ==> s2[m] == s1[m]
    requires forall m :: 0 <= m < |nodes| && Dom.InSubtree(nodes, m, nodes[n].children[k]) ==>
      Styled(nodes, rules, env, s1, s2, m)
    ensures Untouched(nodes, n, nodes[n].children[k + 1..], s0, s2)
    ensures Done(nodes, rules, env, n, nodes[n].children[..k + 1], s0, s2)
  {
    var children := nodes[n].children;
    var c := children[k];
    assert c in children;
    forall m | 0 <= m < |nodes| && (!Dom.InSubtree(nodes, m, n) || BelowOneOf(nodes, n, children[k + 1..], m))
      ensures s2[m] == s0[m]
    {
      if Dom.InSubtree(nodes, m, c) {
        Dom.BranchIsUnique(nodes, m, n, c);
      }
      if Dom.InSubtree(nodes, m, n) {
        assert BelowOneOf(nodes, n, children[k..], m);
      }
    }
    assert !Dom.InSubtree(nodes, n, c) by {
      if Dom.InSubtree(nodes, n, c) {
        Dom.SubtreeIsAbove(nodes, n, c);
      }
    }
    ParentOutside(nodes, n, c);
    forall m | 0 <= m < |nodes| && BelowOneOf(nodes, n, children[..k + 1], m)
      ensures Styled(nodes, rules, env, s0, s2, m)
    {
      if Dom.Branch(nodes, m, n) == c {
        assert BelowOneOf(nodes, n, children[k..], m);
      } else {
        assert BelowOneOf(nodes, n, children[..k], m);
        if Dom.InSubtree(nodes, m, c) {
          Dom.BranchIsUnique(nodes, m, n, c);
        }
        var p := nodes[m].parent.value;
        if p != n {
          assert Dom.Branch(nodes, p, n) == Dom.Branch(nodes, m, n);
          if Dom.InSubtree(nodes, p, c) {
            Dom.BranchIsUnique(nodes, p, n, c);
          }
        } else {
          ParentOutside(nodes, n, c);
        }
      }
    }
  }

  /** What lies outside the subtree of `n` lies outside the subtree of each of its children. */
  lemma OutsideParentOutsideChild(nodes: seq<Dom.HtmlNode>, n: nat, c: nat)
    requires Dom.WellFormed(nodes) && n < |nodes| && c in nodes[n].children
    ensures forall m :: 0 <= m < |nodes| && !Dom.InSubtree(nodes, m, n) ==> !Dom.InSubtree(nodes, m, c)
  {
    forall m | 0 <= m < |nodes| && Dom.InSubtree(nodes, m, c)
      ensures Dom.InSubtree(nodes, m, n)
    {
      Dom.SubtreeOfChild(nodes, m, n, c);
    }
  }

  /** Neither `n` nor its parent lies under a child `c` of `n`. */
  lemma ParentOutside(nodes: seq<Dom.HtmlNode>, n: nat, c: nat)
    requires Dom.WellFormed(nodes) && n < |nodes| && c in nodes[n].children
    ensures !Dom.InSubtree(nodes, n, c)
    ensures nodes[n].parent.Some? ==> !Dom.InSubtree(nodes, nodes[n].parent.value, c)
  {
    if Dom.InSubtree(nodes, n, c) {
      Dom.SubtreeIsAbove(nodes, n, c);
    }
  }

  /** Once every child is visited, the whole subtree is styled. */
  lemma AllDone(nodes: seq<Dom.HtmlNode>, rules: seq<Rule>, env: CssEnv, n: nat, s0: seq<StyleMap>, s: seq<StyleMap>)
    requires Dom.WellFormed(nodes) && n < |nodes| && |s0| == |nodes| && |s| == |nodes|
    requires Done(nodes, rules, env, n, nodes[n].children[..|nodes[n].children|], s0, s)
    ensures forall m :: 0 <= m < |nodes| && Dom.InSubtree(nodes, m, n) ==> Styled(nodes, rules, env, s0, s, m)
  {
    assert nodes[n].children[..|nodes[n].children|] == nodes[n].children;
    forall m | 0 <= m < |nodes| && Dom.InSubtree(nodes, m, n)
      ensures Styled(nodes, rules, env, s0, s, m)
    {
      if m != n {
        assert BelowOneOf(nodes, n, nodes[n].children, m);
      }
    }
  }

  // ---------------------------------------------------------------------------
  // What the cascade promises about one node's map

  /** A key no inserted map has keeps the base's value, or stays absent. */
  lemma {:induction false} MergedUnset(base: StyleMap, maps: seq<StyleMap>, key: string)
    requires forall j :: 0 <= j < |maps| ==> key !in maps[j]
    ensures (key in Merged(base, maps)) == (key in base)
    ensures key in base ==> Merged(base, maps)[key] == base[key]
    decreases |maps|
  {
    if maps != [] {
      MergedUnset(base, maps[..|maps| - 1], key);
    }
  }

  /** The last map that has a key decides its merged value. */
  lemma {:induction false} MergedLast(base: StyleMap, maps: seq<StyleMap>, j: nat, key: string)
    requires j < |maps| && key in maps[j]
    requires forall l :: j < l < |maps| ==> key !in maps[l]
    ensures key in Merged(base, maps) && Merged(base, maps)[key] == maps[j][key]
    decreases |maps|
  {
    if j < |maps| - 1 {
      MergedLast(base, maps[..|maps| - 1], j, key);
    }
  }

  lemma {:induction false} MatchingAppend(a: seq<Rule>, b: seq<Rule>, node: Dom.NodeType)
    ensures MatchingDeclarations(a + b, node) == MatchingDeclarations(a, node) + MatchingDeclarations(b, node)
    decreases |b|
  {
    if b == [] {
      assert a + b == a;
    } else {
      assert (a + b)[..|a + b| - 1] == a + b[..|b| - 1];
      MatchingAppend(a, b[..|b| - 1], node);
    }
  }

  /** Every collected map is the declarations of a matching rule. */
  lemma {:induction false} MatchingFromRules(rules: seq<Rule>, node: Dom.NodeType, d: StyleMap)
    requires d in MatchingDeclarations(rules, node)
    ensures exists j :: 0 <= j < |rules| && Selector.Matches(rules[j].selector, node) && d == rules[j].declarations
    decreases |rules|
  {
    var init := rules[..|rules| - 1];
    if d in MatchingDeclarations(init, node) {
      MatchingFromRules(init, node, d);
      var j :| 0 <= j < |init| && Selector.Matches(init[j].selector, node) && d == init[j].declarations;
      assert rules[j] == init[j];
    } else {
      assert Selector.Matches(rules[|rules| - 1].selector, node) && d == rules[|rules| - 1].declarations;
    }
  }

  /** Resolving a percentage changes at most the font size. */
  lemma PercentTouchesOnlyFontSize(style: StyleMap, parentFontSize: string, env: CssEnv, key: string)
    requires "font-size" in style && ResolvePercent(style, parentFontSize, env).Some?
    requires key != "font-size" || !EndsWith(style["font-size"], "%")
    ensures ResolvePercent(style, parentFontSize, env).value.Keys == style.Keys
    ensures key in style ==> ResolvePercent(style, parentFontSize, env).value[key] == style[key]
  {
  }

  /** The collected maps around a matching rule: those of the earlier rules, its own, those of the later ones. */
  lemma MatchingAround(rules: seq<Rule>, node: Dom.NodeType, i: nat)
    requires i < |rules| && Selector.Matches(rules[i].selector, node)
    ensures MatchingDeclarations(rules, node)
         == MatchingDeclarations(rules[..i], node) + [rules[i].declarations] + MatchingDeclarations(rules[i + 1..], node)
  {
    assert rules == rules[..i] + [rules[i]] + rules[i + 1..];
    MatchingAppend(rules[..i] + [rules[i]], rules[i + 1..], node);
    MatchingAppend(rules[..i], [rules[i]], node);
    assert MatchingDeclarations([rules[i]], node) == [rules[i].declarations] by {
      assert [rules[i]][..0] == [];
    }
  }

  /** Before the inline declarations, the last matching rule that sets a key decides it. */
  lemma RuleDecidesKey(own: StyleMap, inherited: StyleMap, rules: seq<Rule>, node: Dom.NodeType, i: nat, key: string)
    requires i < |rules| && Selector.Matches(rules[i].selector, node) && key in rules[i].declarations
    requires forall j :: i < j < |rules| && Selector.Matches(rules[j].selector, node) ==> key !in rules[j].declarations
    ensures key in Merged(own, [inherited] + MatchingDeclarations(rules, node))
    ensures Merged(own, [inherited] + MatchingDeclarations(rules, node))[key] == rules[i].declarations[key]
  {
    var before := MatchingDeclarations(rules[..i], node);
    var after := MatchingDeclarations(rules[i + 1..], node);
    MatchingAround(rules, node, i);
    var maps := [inherited] + before + [rules[i].declarations] + after;
    assert [inherited] + MatchingDeclarations(rules, node) == maps;
    var j := 1 + |before|;
    forall l | j < l < |maps|
      ensures key !in maps[l]
    {
      assert maps[l] == after[l - j - 1];
      MatchingFromRules(rules[i + 1..], node, maps[l]);
      var r :| 0 <= r < |rules[i + 1..]| && Selector.Matches(rules[i + 1..][r].selector, node)
               && maps[l] == rules[i + 1..][r].declarations;
      assert rules[i + 1..][r] == rules[i + 1 + r];
    }
    MergedLast(own, maps, j, key);
  }

  /**
   * A key no later matching rule and no inline declaration sets takes the
   * value of the last matching rule that sets it (a percentage font size
   * aside, which is converted).
   */
  lemma LastMatchingRuleWins(node: Dom.NodeType, own: StyleMap, parentStyle: Option<StyleMap>, rules: seq<Rule>,
                             env: CssEnv, i: nat, key: string)
    requires NodeStyle(node, own, parentStyle, rules, env).Some?
    requires i < |rules| && Selector.Matches(rules[i].selector, node) && key in rules[i].declarations
    requires forall j :: i < j < |rules| && Selector.Matches(rules[j].selector, node) ==> key !in rules[j].declarations
    requires InlineDeclarations(node, env).None? || key !in InlineDeclarations(node, env).value
    requires key != "font-size" || !EndsWith(rules[i].declarations[key], "%")
    ensures key in NodeStyle(node, own, parentStyle, rules, env).value
    ensures NodeStyle(node, own, parentStyle, rules, env).value[key] == rules[i].declarations[key]
  {
    var inherited := Inherited(parentStyle).value;
    RuleDecidesKey(own, inherited, rules, node, i, key);
    NodeStyleSteps(node, own, parentStyle, inherited, rules, env);
    PercentTouchesOnlyFontSize(Cascaded(node, own, inherited, rules, env), ParentFontSize(parentStyle), env, key);
  }

  /** A key the inline `style` attribute sets takes the inline value (a percentage font size aside). */
  lemma InlineWins(node: Dom.NodeType, own: StyleMap, parentStyle: Option<StyleMap>, rules: seq<Rule>,
                   env: CssEnv, key: string)
    requires NodeStyle(node, own, parentStyle, rules, env).Some?
    requires InlineDeclarations(node, env).Some? && key in InlineDeclarations(node, env).value
    requires key != "font-size" || !EndsWith(InlineDeclarations(node, env).value[key], "%")
    ensures key in NodeStyle(node, own, parentStyle, rules, env).value
    ensures NodeStyle(node, own, parentStyle, rules, env).value[key] == InlineDeclarations(node, env).value[key]
  {
    var inherited := Inherited(parentStyle).value;
    NodeStyleSteps(node, own, parentStyle, inherited, rules, env);
    PercentTouchesOnlyFontSize(Cascaded(node, own, inherited, rules, env), ParentFontSize(parentStyle), env, key);
  }

  /**
   * An inherited property that no matching rule and no inline declaration
   * sets is the parent's value, or the default at the root; whatever the
   * node's map held before is overwritten.
   */
  lemma InheritedUnlessOverridden(node: Dom.NodeType, own: StyleMap, parentStyle: Option<StyleMap>,
                                  rules: seq<Rule>, env: CssEnv, key: string)
    requires NodeStyle(node, own, parentStyle, rules, env).Some?
    requires key in INHERITED_PROPERTIES
    requires forall j :: 0 <= j < |rules| && Selector.Matches(rules[j].selector, node) ==> key !in rules[j].declarations
    requires InlineDeclarations(node, env).None? || key !in InlineDeclarations(node, env).value
    requires key != "font-size" || parentStyle.None? || !EndsWith(parentStyle.value["font-size"], "%")
    ensures key in NodeStyle(node, own, parentStyle, rules, env).value
    ensures NodeStyle(node, own, parentStyle, rules, env).value[key]
         == if parentStyle.None? then INHERITED_PROPERTIES[key] else parentStyle.value[key]
  {
    var inherited := Inherited(parentStyle).value;
    var matching := MatchingDeclarations(rules, node);
    var maps := [inherited] + matching;
    forall l | 0 < l < |maps|
      ensures key !in maps[l]
    {
      assert maps[l] in matching;
      MatchingFromRules(rules, node, maps[l]);
    }
    MergedLast(own, maps, 0, key);
    assert inherited[key] == if parentStyle.None? then INHERITED_PROPERTIES[key] else parentStyle.value[key];
    assert !EndsWith(ROOT_FONT_SIZE, "%") by {
      assert ROOT_FONT_SIZE[|ROOT_FONT_SIZE| - 1] != '%';
    }
    NodeStyleSteps(node, own, parentStyle, inherited, rules, env);
    PercentTouchesOnlyFontSize(Cascaded(node, own, inherited, rules, env), ParentFontSize(parentStyle), env, key);
  }

  /**
   * A styled map holds every inherited property and every key the node's map
   * held before, and its font size is never left as a percentage.
   */
  lemma StyledMapIsResolved(node: Dom.NodeType, own: StyleMap, parentStyle: Option<StyleMap>,
                            rules: seq<Rule>, env: CssEnv)
    requires NodeStyle(node, own, parentStyle, rules, env).Some?
    ensures INHERITED_PROPERTIES.Keys <= NodeStyle(node, own, parentStyle, rules, env).value.Keys
    ensures own.Keys <= NodeStyle(node, own, parentStyle, rules, env).value.Keys
    ensures !EndsWith(NodeStyle(node, own, parentStyle, rules, env).value["font-size"], "%")
  {
    var inherited := Inherited(parentStyle).value;
    NodeStyleSteps(node, own, parentStyle, inherited, rules, env);
    var c := Cascaded(node, own, inherited, rules, env);
    var s := NodeStyle(node, own, parentStyle, rules, env).value;
    if EndsWith(c["font-size"], "%") {
      var v := s["font-size"];
      assert v[|v| - 1] == 'x';
    }
  }

  lemma {:induction false} MatchingIgnoresAttributes(rules: seq<Rule>, tag: string, a1: map<string, string>,
                                                     a2: map<string, string>)
    ensures MatchingDeclarations(rules, Dom.Element(tag, a1)) == MatchingDeclarations(rules, Dom.Element(tag, a2))
    decreases |rules|
  {
    if rules != [] {
      MatchingIgnoresAttributes(rules[..|rules| - 1], tag, a1, a2);
    }
  }

  /** An inline `style` attribute that does not parse leaves the node styled as if it had none. */
  lemma UnparsableInlineIsIgnored(tag: string, attributes: map<string, string>, own: StyleMap,
                                  parentStyle: Option<StyleMap>, rules: seq<Rule>, env: CssEnv)
    requires "style" in attributes && env.body(attributes["style"]).None?
    ensures NodeStyle(Dom.Element(tag, attributes), own, parentStyle, rules, env)
         == NodeStyle(Dom.Element(tag, attributes - {"style"}), own, parentStyle, rules, env)
  {
    MatchingIgnoresAttributes(rules, tag, attributes, attributes - {"style"});
  }

  /** A rule whose selector does not match the node can be added anywhere without changing its map. */
  lemma NonMatchingRuleIsIrrelevant(node: Dom.NodeType, own: StyleMap, parentStyle: Option<StyleMap>,
                                    rules: seq<Rule>, env: CssEnv, i: nat, r: Rule)
    requires i <= |rules| && !Selector.Matches(r.selector, node)
    ensures NodeStyle(node, own, parentStyle, rules[..i] + [r] + rules[i..], env)
         == NodeStyle(node, own, parentStyle, rules, env)
  {
    MatchingAppend(rules[..i] + [r], rules[i..], node);
    MatchingAppend(rules[..i], [r], node);
    MatchingAppend(rules[..i], rules[i..], node);
    assert MatchingDeclarations([r], node) == [] by {
      assert [r][..0] == [];
    }
    assert rules[..i] + rules[i..] == rules;
    assert MatchingDeclarations(rules[..i] + [r] + rules[i..], node) == MatchingDeclarations(rules, node);
  }

  /**
   * After a successful `style` of the tree, every node holds the inherited
   * properties, and a child that no rule or inline declaration overrides
   * carries its parent's final value of each.
   */
  lemma StyledChildInherits(nodes: seq<Dom.HtmlNode>, rules: seq<Rule>, env: CssEnv,
                            before: seq<StyleMap>, after: seq<StyleMap>, m: nat, key: string)
    requires Dom.WellFormed(nodes) && |before| == |nodes| && |after| == |nodes| && m < |nodes|
    requires nodes[m].parent.Some? && Styled(nodes, rules, env, before, after, nodes[m].parent.value)
    requires Styled(nodes, rules, env, before, after, m)
    requires key in INHERITED_PROPERTIES
    requires forall j :: 0 <= j < |rules| && Selector.Matches(rules[j].selector, nodes[m].nodeType) ==>
      key !in rules[j].declarations
    requires InlineDeclarations(nodes[m].nodeType, env).None? || key !in InlineDeclarations(nodes[m].nodeType, env).value
    ensures key in after[m] && key in after[nodes[m].parent.value]
    ensures after[m][key] == after[nodes[m].parent.value][key]
  {
    var p := nodes[m].parent.value;
    StyledMapIsResolved(nodes[p].nodeType, before[p], ParentStyle(nodes, after, p), rules, env);
    InheritedUnlessOverridden(nodes[m].nodeType, before[m], ParentStyle(nodes, after, m), rules, env, key);
  }

  /**
   * The font size node `m` declares, once rules and inline declarations are
   * applied and before a percentage is resolved.
   */
  ghost function DeclaredFontSize(nodes: seq<Dom.HtmlNode>, rules: seq<Rule>, env: CssEnv,
                                  before: seq<StyleMap>, after: seq<StyleMap>, m: nat): string
    requires Dom.WellFormed(nodes) && |before| == |nodes| && |after| == |nodes| && m < |nodes|
    requires Inherited(ParentStyle(nodes, after, m)).Some?
  {
    var inherited := Inherited(ParentStyle(nodes, after, m)).value;
    NodeStyleSteps(nodes[m].nodeType, before[m], ParentStyle(nodes, after, m), inherited, rules, env);
    Cascaded(nodes[m].nodeType, before[m], inherited, rules, env)["font-size"]
  }

  /**
   * A styled node's font size: the declared one unless it is a percentage;
   * a percentage `pct%` becomes `pct / 100` of the parent's final pixel size
   * (16px at the root), written with the number formatting and "px".
   */
  lemma PercentIsShareOfParent(nodes: seq<Dom.HtmlNode>, rules: seq<Rule>, env: CssEnv,
                               before: seq<StyleMap>, after: seq<StyleMap>, m: nat)
    requires Dom.WellFormed(nodes) && |before| == |nodes| && |after| == |nodes| && m < |nodes|
    requires Styled(nodes, rules, env, before, after, m)
    ensures Inherited(ParentStyle(nodes, after, m)).Some? && "font-size" in after[m]
    ensures nodes[m].parent.Some? ==> "font-size" in after[nodes[m].parent.value]
    ensures var declared := DeclaredFontSize(nodes, rules, env, before, after, m);
      var base := if nodes[m].parent.None? then ROOT_FONT_SIZE else after[nodes[m].parent.value]["font-size"];
      && (!EndsWith(declared, "%") ==> after[m]["font-size"] == declared)
      && (EndsWith(declared, "%") ==>
            && env.parseNumber(RemoveAll(declared, "%")).Some?
            && env.parseNumber(RemoveAll(base, "px")).Some?
            && after[m]["font-size"]
               == env.formatNumber(PercentOf(env.parseNumber(RemoveAll(base, "px")).value,
                                             env.parseNumber(RemoveAll(declared, "%")).value)) + "px")
  {
    var ps := ParentStyle(nodes, after, m);
    var inherited := Inherited(ps).value;
    NodeStyleSteps(nodes[m].nodeType, before[m], ps, inherited, rules, env);
    assert "font-size" in INHERITED_PROPERTIES;
    var c := Cascaded(nodes[m].nodeType, before[m], inherited, rules, env);
    assert ResolvePercent(c, ParentFontSize(ps), env) == Some(after[m]);
    var declared := c["font-size"];
    if EndsWith(declared, "%") {
      var base := if nodes[m].parent.None? then ROOT_FONT_SIZE else after[nodes[m].parent.value]["font-size"];
      assert ParentFontSize(ps) == base;
      var pct := env.parseNumber(RemoveAll(declared, "%"));
      var px := env.parseNumber(RemoveAll(base, "px"));
      assert pct.Some? && px.Some?;
    }
  }

  /** Removing "px" from a number written without a 'p', followed by "px", gives back the number. */
  lemma {:induction false} RemovePxSuffix(f: string)
    requires 'p' !in f
    ensures RemoveAll(f + "px", "px") == f
    decreases |f|
  {
    if f == [] {
      assert [] + "px" == "px";
      assert "px"[2..] == [];
    } else {
      assert (f + "px")[0] == f[0] != 'p';
      assert (f + "px")[1..] == f[1..] + "px";
      assert 'p' !in f[1..] by {
        forall c | c in f[1..] ensures c in f { }
      }
      RemovePxSuffix(f[1..]);
      assert f == [f[0]] + f[1..];
    }
  }

  /**
   * Nested percentages multiply: when the parent's size is written without a
   * 'p' and reads back exactly, a child at `q%` of a parent at `p%` of a base
   * of `g` pixels gets `q%` of `p%` of `g` pixels.
   */
  lemma NestedPercentsMultiply(nodes: seq<Dom.HtmlNode>, rules: seq<Rule>, env: CssEnv,
                               before: seq<StyleMap>, after: seq<StyleMap>, m: nat, g: real, p: real, q: real)
    requires Dom.WellFormed(nodes) && |before| == |nodes| && |after| == |nodes| && m < |nodes|
    requires env.parseNumber(env.formatNumber(PercentOf(g, p))) == Some(PercentOf(g, p))
    requires 'p' !in env.formatNumber(PercentOf(g, p))
    requires nodes[m].parent.Some?
    requires Styled(nodes, rules, env, before, after, nodes[m].parent.value) && Styled(nodes, rules, env, before, after, m)
    requires var n := nodes[m].parent.value;
      var f := DeclaredFontSize(nodes, rules, env, before, after, n);
      var base := if nodes[n].parent.None? then ROOT_FONT_SIZE else after[nodes[n].parent.value]["font-size"];
      && EndsWith(f, "%") && env.parseNumber(RemoveAll(f, "%")) == Some(p)
      && env.parseNumber(RemoveAll(base, "px")) == Some(g)
    requires var f := DeclaredFontSize(nodes, rules, env, before, after, m);
      EndsWith(f, "%") && env.parseNumber(RemoveAll(f, "%")) == Some(q)
    ensures after[m]["font-size"] == env.formatNumber(PercentOf(PercentOf(g, p), q)) + "px"
  {
    var n := nodes[m].parent.value;
    PercentIsShareOfParent(nodes, rules, env, before, after, n);
    PercentIsShareOfParent(nodes, rules, env, before, after, m);
    var v := PercentOf(g, p);
    RemovePxSuffix(env.formatNumber(v));
    assert env.parseNumber(RemoveAll(after[n]["font-size"], "px")) == Some(v);
  }
}
