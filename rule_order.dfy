/**
 * The order in which `Tab::load` (src/tab.rs) hands the stylesheet rules to
 * the cascade: sorted by `cascade_priority`, the priority of the rule's
 * selector, with `sort_by`, which is stable, so rules of equal priority keep
 * their stylesheet order.  The cascade lets later rules win, so a rule of
 * higher priority overrides one of lower priority.
 *
 * `Selector::priority` is not part of this model: the priority of a selector
 * is a parameter.  The library sort is modelled by a stable insertion sort;
 * `SortIsUnique` shows any stable sort returns the same sequence.
 */
module RuleOrder {
  import opened Wrappers
  import Dom
  import Selector
  import Cascade

  type Rule = Cascade.Rule
  type Priority = Selector.Selector -> int

  /** `cascade_priority`: the priority of the rule's selector. */
  function CascadePriority(rule: Rule, priority: Priority): int
  {
    priority(rule.selector)
  }

  /** Rules in ascending priority. */
  predicate SortedBy(rules: seq<Rule>, priority: Priority)
  {
    forall i, j :: 0 <= i < j < |rules| ==> CascadePriority(rules[i], priority) <= CascadePriority(rules[j], priority)
  }

  /** The rules of one priority, in their order. */
  function WithPriority(rules: seq<Rule>, priority: Priority, v: int): seq<Rule>
  {
    if rules == [] then []
    else
      var last := rules[|rules| - 1];
      WithPriority(rules[..|rules| - 1], priority, v) + (if CascadePriority(last, priority) == v then [last] else [])
  }

  /** `r` placed after every rule of `sorted` whose priority is at most its own. */
  function Insert(sorted: seq<Rule>, r: Rule, priority: Priority): seq<Rule>
  {
    if sorted == [] || CascadePriority(sorted[|sorted| - 1], priority) <= CascadePriority(r, priority) then sorted + [r]
    else Insert(sorted[..|sorted| - 1], r, priority) + [sorted[|sorted| - 1]]
  }

  /** `rules.sort_by(|a, b| cascade_priority(a).cmp(&cascade_priority(b)))`. */
  function SortByPriority(rules: seq<Rule>, priority: Priority): seq<Rule>
  {
    if rules == [] then []
    else Insert(SortByPriority(rules[..|rules| - 1], priority), rules[|rules| - 1], priority)
  }

  lemma {:induction false} InsertKeepsOrder(sorted: seq<Rule>, r: Rule, priority: Priority)
    requires SortedBy(sorted, priority)
    ensures SortedBy(Insert(sorted, r, priority), priority)
    ensures |Insert(sorted, r, priority)| == |sorted| + 1
    ensures multiset(Insert(sorted, r, priority)) == multiset(sorted) + multiset{r}
    ensures forall x :: x in Insert(sorted, r, priority) ==> x in sorted || x == r
    decreases |sorted|
  {
    if sorted != [] && CascadePriority(sorted[|sorted| - 1], priority) > CascadePriority(r, priority) {
      var init := sorted[..|sorted| - 1];
      var last := sorted[|sorted| - 1];
      InsertKeepsOrder(init, r, priority);
      var s := Insert(init, r, priority);
      forall x | x in s
        ensures CascadePriority(x, priority) <= CascadePriority(last, priority)
      {
        if x != r {
          var i :| 0 <= i < |init| && init[i] == x;
          assert sorted[i] == x;
        }
      }
      assert sorted == init + [last];
    }
  }

  lemma WithPrioritySnoc(rules: seq<Rule>, x: Rule, priority: Priority, v: int)
    ensures WithPriority(rules + [x], priority, v)
         == WithPriority(rules, priority, v) + (if CascadePriority(x, priority) == v then [x] else [])
  {
    assert (rules + [x])[..|rules|] == rules;
  }

  /** Inserting adds `r` after every rule of its priority and leaves the other priorities alone. */
  lemma {:induction false} InsertIsStable(sorted: seq<Rule>, r: Rule, priority: Priority, v: int)
    ensures WithPriority(Insert(sorted, r, priority), priority, v)
         == WithPriority(sorted, priority, v) + (if CascadePriority(r, priority) == v then [r] else [])
    decreases |sorted|
  {
    if sorted == [] || CascadePriority(sorted[|sorted| - 1], priority) <= CascadePriority(r, priority) {
      WithPrioritySnoc(sorted, r, priority, v);
    } else {
      var init := sorted[..|sorted| - 1];
      var last := sorted[|sorted| - 1];
      InsertIsStable(init, r, priority, v);
      WithPrioritySnoc(Insert(init, r, priority), last, priority, v);
    }
  }

  /** The sorted rules ascend in priority and are a permutation of the stylesheet's. */
  lemma {:induction false} SortIsOrderedPermutation(rules: seq<Rule>, priority: Priority)
    ensures SortedBy(SortByPriority(rules, priority), priority)
    ensures multiset(SortByPriority(rules, priority)) == multiset(rules)
    decreases |rules|
  {
    if rules != [] {
      var init := rules[..|rules| - 1];
      SortIsOrderedPermutation(init, priority);
      InsertKeepsOrder(SortByPriority(init, priority), rules[|rules| - 1], priority);
      assert rules == init + [rules[|rules| - 1]];
    }
  }

  /** Rules of equal priority keep their stylesheet order. */
  lemma {:induction false} SortIsStable(rules: seq<Rule>, priority: Priority, v: int)
    ensures WithPriority(SortByPriority(rules, priority), priority, v) == WithPriority(rules, priority, v)
    decreases |rules|
  {
    if rules != [] {
      var init := rules[..|rules| - 1];
      SortIsStable(init, priority, v);
      InsertIsStable(SortByPriority(init, priority), rules[|rules| - 1], priority, v);
    }
  }

  lemma {:induction false} WithPriorityMembers(rules: seq<Rule>, priority: Priority, v: int)
    ensures forall x :: x in WithPriority(rules, priority, v) <==> x in rules && CascadePriority(x, priority) == v
    decreases |rules|
  {
    if rules != [] {
      WithPriorityMembers(rules[..|rules| - 1], priority, v);
      assert rules == rules[..|rules| - 1] + [rules[|rules| - 1]];
    }
  }

  /** Equal groups of every priority: the same rules of each priority, in the same order. */
  ghost predicate SameGroups(t: seq<Rule>, u: seq<Rule>, priority: Priority)
  {
    forall v :: WithPriority(t, priority, v) == WithPriority(u, priority, v)
  }

  /** A non-empty sequence has a non-empty group: the one of its first rule. */
  lemma NonEmptyGroup(t: seq<Rule>, priority: Priority)
    requires t != []
    ensures WithPriority(t, priority, CascadePriority(t[0], priority)) != []
  {
    WithPriorityMembers(t, priority, CascadePriority(t[0], priority));
    assert t[0] in t;
  }

  /** Two ascending sequences with the same groups end with the same rule. */
  lemma LastsAgree(t: seq<Rule>, u: seq<Rule>, priority: Priority)
    requires SortedBy(t, priority) && SortedBy(u, priority) && SameGroups(t, u, priority)
    requires t != [] && u != []
    ensures t[|t| - 1] == u[|u| - 1]
  {
    var x, y := t[|t| - 1], u[|u| - 1];
    var px, py := CascadePriority(x, priority), CascadePriority(y, priority);
    WithPriorityMembers(t, priority, px);
    WithPriorityMembers(u, priority, px);
    WithPriorityMembers(t, priority, py);
    WithPriorityMembers(u, priority, py);
    assert WithPriority(t, priority, px) == WithPriority(u, priority, px);
    assert WithPriority(t, priority, py) == WithPriority(u, priority, py);
    assert x in t && y in u;
    var a :| 0 <= a < |u| && u[a] == x;
    var b :| 0 <= b < |t| && t[b] == y;
    assert px == py;
    assert WithPriority(t, priority, px)[|WithPriority(t, priority, px)| - 1] == x;
    assert WithPriority(u, priority, px)[|WithPriority(u, priority, px)| - 1] == y;
  }

  /** Dropping the same last rule from both keeps the groups equal. */
  lemma InitsHaveSameGroups(t: seq<Rule>, u: seq<Rule>, priority: Priority)
    requires SameGroups(t, u, priority) && t != [] && u != [] && t[|t| - 1] == u[|u| - 1]
    ensures SameGroups(t[..|t| - 1], u[..|u| - 1], priority)
  {
    var t', u' := t[..|t| - 1], u[..|u| - 1];
    forall v
      ensures WithPriority(t', priority, v) == WithPriority(u', priority, v)
    {
      var wt, wu := WithPriority(t, priority, v), WithPriority(u, priority, v);
      assert wt == wu;
      var extra := if CascadePriority(t[|t| - 1], priority) == v then [t[|t| - 1]] else [];
      assert wt == WithPriority(t', priority, v) + extra;
      assert wu == WithPriority(u', priority, v) + extra;
      assert WithPriority(t', priority, v) == wt[..|wt| - |extra|];
      assert WithPriority(u', priority, v) == wu[..|wu| - |extra|];
    }
  }

  /** Two ascending sequences with the same rules of each priority, in the same order, are equal. */
  lemma {:induction false} SortedWithSameGroupsAreEqual(t: seq<Rule>, u: seq<Rule>, priority: Priority)
    requires SortedBy(t, priority) && SortedBy(u, priority) && SameGroups(t, u, priority)
    ensures t == u
    decreases |t|
  {
    if t == [] && u != [] {
      NonEmptyGroup(u, priority);
    } else if t != [] && u == [] {
      NonEmptyGroup(t, priority);
    } else if t != [] {
      LastsAgree(t, u, priority);
      InitsHaveSameGroups(t, u, priority);
      SortedWithSameGroupsAreEqual(t[..|t| - 1], u[..|u| - 1], priority);
      assert t == t[..|t| - 1] + [t[|t| - 1]] && u == u[..|u| - 1] + [u[|u| - 1]];
    }
  }

  /** Any ascending reordering that keeps each priority's rules in order is the sorted sequence. */
  lemma SortIsUnique(rules: seq<Rule>, t: seq<Rule>, priority: Priority)
    requires SortedBy(t, priority)
    requires forall v :: WithPriority(t, priority, v) == WithPriority(rules, priority, v)
    ensures t == SortByPriority(rules, priority)
  {
    SortIsOrderedPermutation(rules, priority);
    forall v
      ensures WithPriority(t, priority, v) == WithPriority(SortByPriority(rules, priority), priority, v)
    {
      SortIsStable(rules, priority, v);
    }
    SortedWithSameGroupsAreEqual(t, SortByPriority(rules, priority), priority);
  }

  lemma {:induction false} LastOccurrence(s: seq<Rule>, r: Rule) returns (k: nat)
    requires r in s
    ensures k < |s| && s[k] == r
    ensures forall j :: k < j < |s| ==> s[j] != r
    decreases |s|
  {
    if s[|s| - 1] == r {
      k := |s| - 1;
    } else {
      assert s == s[..|s| - 1] + [s[|s| - 1]];
      k := LastOccurrence(s[..|s| - 1], r);
    }
  }

  /**
   * After sorting, a matching rule that sets a key overrides every matching
   * rule of lower priority that sets it: when every other such rule has a
   * lower priority, its value is the node's (a percentage font size aside).
   */
  lemma HighestPriorityWins(node: Dom.NodeType, own: Cascade.StyleMap, parentStyle: Option<Cascade.StyleMap>,
                            rules: seq<Rule>, env: Cascade.CssEnv, priority: Priority, r: Rule, key: string)
    requires r in rules && Selector.Matches(r.selector, node) && key in r.declarations
    requires forall x :: x in rules && x != r && Selector.Matches(x.selector, node) && key in x.declarations ==>
      CascadePriority(x, priority) < CascadePriority(r, priority)
    requires Cascade.InlineDeclarations(node, env).None? || key !in Cascade.InlineDeclarations(node, env).value
    requires key != "font-size" || !Cascade.EndsWith(r.declarations[key], "%")
    requires Cascade.NodeStyle(node, own, parentStyle, SortByPriority(rules, priority), env).Some?
    ensures key in Cascade.NodeStyle(node, own, parentStyle, SortByPriority(rules, priority), env).value
    ensures Cascade.NodeStyle(node, own, parentStyle, SortByPriority(rules, priority), env).value[key] == r.declarations[key]
  {
    var sorted := SortByPriority(rules, priority);
    SortIsOrderedPermutation(rules, priority);
    assert r in multiset(sorted);
    var k := LastOccurrence(sorted, r);
    forall j | k < j < |sorted| && Selector.Matches(sorted[j].selector, node)
      ensures key !in sorted[j].declarations
    {
      assert sorted[j] in multiset(rules);
      assert CascadePriority(sorted[k], priority) <= CascadePriority(sorted[j], priority);
    }
    Cascade.LastMatchingRuleWins(node, own, parentStyle, sorted, env, k, key);
  }
}
