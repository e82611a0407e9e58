/**
 * The host's style sheets as values. A sheet (`CSSStyleSheet`) has its
 * `disabled` flag, the text of its media list (empty when it has none) and
 * its rules. A rule is an `@import` (whose imported sheet the host may not
 * have loaded), an `@media` block with its condition text and nested rules,
 * or a style rule with its selector text.
 *
 * Being an inductive datatype, a sheet cannot import itself: the cyclic
 * `@import` on which the collector's queue would never empty is ruled out.
 */
module StyleSheets {
  import opened Wrappers

  /** A `CSSStyleRule`: the selector text and the declarations, returned as they are. */
  datatype StyleRule = StyleRule(selectorText: string, style: string)

  datatype Sheet = Sheet(disabled: bool, media: string, cssRules: seq<Rule>)

  datatype Rule =
    | Import(styleSheet: Option<Sheet>)
    | Media(mediaText: string, cssRules: seq<Rule>)
    | Style(rule: StyleRule)

  /** The number of rules in a rule, its nested rules included. */
  function RuleSize(r: Rule): (n: nat)
    ensures n >= 1
    decreases r, 1
  {
    match r
    case Import(None) => 1
    case Import(Some(sheet)) => 1 + RulesSize(sheet.cssRules)
    case Media(_, rules) => 1 + RulesSize(rules)
    case Style(_) => 1
  }

  /** The number of rules in a queue of rules, nested rules included. */
  function RulesSize(rules: seq<Rule>): nat
    decreases rules, 0
  {
    if rules == [] then 0 else RuleSize(rules[0]) + RulesSize(rules[1..])
  }

  /** The size of a queue is additive. */
  lemma {:induction false} RulesSizeAppend(a: seq<Rule>, b: seq<Rule>)
    ensures RulesSize(a + b) == RulesSize(a) + RulesSize(b)
  {
    if a == [] {
      assert a + b == b;
    } else {
      assert (a + b)[1..] == a[1..] + b;
      RulesSizeAppend(a[1..], b);
    }
  }
}
