/**
 * The rule collector: `getSheetRules` and the work-queue loop of
 * `window.getMatchedCSSRules`, followed by `sortBySpecificity`.
 *
 * The browser is replaced by two injected predicates: `matches(selector)`
 * answers `_matchesSelector(element, selector)` for the fixed target element,
 * and `mediaMatches(mediaText)` answers `window.matchMedia(mediaText).matches`.
 * `window.document.styleSheets` is the parameter `sheets`, and `toArray` is
 * the identity on a sequence.
 */
module Collector {
  import opened Wrappers
  import opened StyleSheets
  import opened Specificity
  import opened Ranking

  /**
   * `getSheetRules(stylesheet)`: no rules from a disabled sheet, none from a
   * sheet whose non-empty media text the viewport does not match, and
   * otherwise all of its rules. A media rule goes through the same checks,
   * with `disabled` false.
   */
  function GetSheetRules(disabled: bool, media: string, cssRules: seq<Rule>, mediaMatches: string -> bool): (r: seq<Rule>)
    ensures r == [] || r == cssRules
    ensures r == cssRules <== !disabled && (media == "" || mediaMatches(media))
    ensures r == [] <== disabled || (media != "" && !mediaMatches(media))
  {
    if disabled then []
    else if media != "" && !mediaMatches(media) then []
    else cssRules
  }

  function SheetRules(sheet: Sheet, mediaMatches: string -> bool): seq<Rule>
  {
    GetSheetRules(sheet.disabled, sheet.media, sheet.cssRules, mediaMatches)
  }

  /** Filtering never adds rules, so the queue does not grow past what it replaces. */
  lemma SheetRulesSize(sheet: Sheet, mediaMatches: string -> bool)
    ensures RulesSize(SheetRules(sheet, mediaMatches)) <= RulesSize(sheet.cssRules)
  {
  }

  /**
   * The style rules of `rules` in document order: an `@import` or `@media`
   * rule stands for the rules `getSheetRules` gives for it, recursively.
   * This is the recursive in-order flattening the queue loop computes.
   */
  function Flatten(rules: seq<Rule>, mediaMatches: string -> bool): seq<StyleRule>
    decreases RulesSize(rules), 1
  {
    if rules == [] then []
    else FlattenRule(rules[0], mediaMatches) + Flatten(rules[1..], mediaMatches)
  }

  function FlattenRule(rule: Rule, mediaMatches: string -> bool): seq<StyleRule>
    decreases RuleSize(rule), 0
  {
    match rule
    case Style(r) => [r]
    case Import(None) => []
    case Import(Some(sheet)) =>
      SheetRulesSize(sheet, mediaMatches);
      Flatten(SheetRules(sheet, mediaMatches), mediaMatches)
    case Media(mediaText, cssRules) =>
      Flatten(GetSheetRules(false, mediaText, cssRules, mediaMatches), mediaMatches)
  }

  /** The style rules of all sheets, in the order the sheets are given. */
  function FlattenSheets(sheets: seq<Sheet>, mediaMatches: string -> bool): seq<StyleRule>
  {
    if sheets == [] then []
    else Flatten(SheetRules(sheets[0], mediaMatches), mediaMatches) + FlattenSheets(sheets[1..], mediaMatches)
  }

  /** The rules whose selector matches the element, in their order. */
  function Keep(matches: string -> bool, rules: seq<StyleRule>): seq<StyleRule>
  {
    if rules == [] then []
    else (if matches(rules[0].selectorText) then [rules[0]] else []) + Keep(matches, rules[1..])
  }

  lemma {:induction false} FlattenAppend(a: seq<Rule>, b: seq<Rule>, mediaMatches: string -> bool)
    ensures Flatten(a + b, mediaMatches) == Flatten(a, mediaMatches) + Flatten(b, mediaMatches)
    decreases |a|
  {
    if a == [] {
      assert a + b == b;
    } else {
      assert (a + b)[1..] == a[1..] + b;
      FlattenAppend(a[1..], b, mediaMatches);
    }
  }

  lemma {:induction false} KeepAppend(matches: string -> bool, a: seq<StyleRule>, b: seq<StyleRule>)
    ensures Keep(matches, a + b) == Keep(matches, a) + Keep(matches, b)
  {
    if a == [] {
      assert a + b == b;
    } else {
      assert (a + b)[1..] == a[1..] + b;
      KeepAppend(matches, a[1..], b);
    }
  }

  /** `Keep` is the subsequence of matching rules: it holds exactly the rules that match. */
  lemma {:induction false} KeepMembers(matches: string -> bool, rules: seq<StyleRule>, r: StyleRule)
    ensures r in Keep(matches, rules) <==> r in rules && matches(r.selectorText)
    ensures |Keep(matches, rules)| <= |rules|
  {
    if rules != [] {
      KeepMembers(matches, rules[1..], r);
      assert r in rules <==> r == rules[0] || r in rules[1..];
    }
  }

  /**
   * One pop of the queue: a style rule is the next rule of the flattening;
   * an `@import` or `@media` rule is replaced, in front of the rest, by the
   * rules it stands for.
   */
  lemma QueueStep(rule: Rule, rest: seq<Rule>, expansion: seq<Rule>, mediaMatches: string -> bool)
    requires !rule.Style?
    requires rule.Import? && rule.styleSheet.Some? ==> expansion == SheetRules(rule.styleSheet.value, mediaMatches)
    requires rule.Import? && rule.styleSheet.None? ==> expansion == []
    requires rule.Media? ==> expansion == GetSheetRules(false, rule.mediaText, rule.cssRules, mediaMatches)
    ensures Flatten([rule] + rest, mediaMatches) == Flatten(expansion + rest, mediaMatches)
    ensures RulesSize(expansion + rest) < RulesSize([rule] + rest)
  {
    assert ([rule] + rest)[0] == rule && ([rule] + rest)[1..] == rest;
    FlattenAppend(expansion, rest, mediaMatches);
    RulesSizeAppend(expansion, rest);
    if rule.Import? && rule.styleSheet.Some? {
      SheetRulesSize(rule.styleSheet.value, mediaMatches);
    }
  }

  /**
   * `window.getMatchedCSSRules(element)`: walk the sheets in order with a
   * queue of rules, replace every `@import` and `@media` rule by its rules at
   * the front of the queue, keep the style rules that match, then sort them
   * by specificity.
   */
  method GetMatchedCSSRules(sheets: seq<Sheet>, matches: string -> bool, mediaMatches: string -> bool)
    returns (sorted: seq<StyleRule>)
    ensures sorted == SortWith(Keep(matches, FlattenSheets(sheets, mediaMatches)), SpecificityOrder(matches))
  {
    var result := CollectMatched(sheets, matches, mediaMatches);
    var rules := new StyleRule[|result|](i requires 0 <= i < |result| => result[i]);
    assert rules[..] == result;
    SortBySpecificity(matches, rules);
    sorted := rules[..];
  }

  /** The two loops of `getMatchedCSSRules`, up to the call to `sortBySpecificity`. */
  method CollectMatched(sheets: seq<Sheet>, matches: string -> bool, mediaMatches: string -> bool)
    returns (result: seq<StyleRule>)
    ensures result == Keep(matches, FlattenSheets(sheets, mediaMatches))
  {
    var styleSheets := sheets;
    result := [];
    while styleSheets != []
      invariant result + Keep(matches, FlattenSheets(styleSheets, mediaMatches)) == Keep(matches, FlattenSheets(sheets, mediaMatches))
      decreases |styleSheets|
    {
      var sheet := styleSheets[0];
      styleSheets := styleSheets[1..];
      var rules := SheetRules(sheet, mediaMatches);
      ghost var found := Keep(matches, Flatten(rules, mediaMatches));
      ghost var later := Keep(matches, FlattenSheets(styleSheets, mediaMatches));
      KeepAppend(matches, Flatten(rules, mediaMatches), FlattenSheets(styleSheets, mediaMatches));
      ghost var before := result;
      assert before + (found + later) == Keep(matches, FlattenSheets(sheets, mediaMatches));
      result := CollectQueue(result, rules, matches, mediaMatches);
      assert result + later == before + (found + later);
    }
  }

  /** The inner loop: pop rules off the queue until it is empty. */
  method CollectQueue(start: seq<StyleRule>, queue: seq<Rule>, matches: string -> bool, mediaMatches: string -> bool)
    returns (result: seq<StyleRule>)
    ensures result == start + Keep(matches, Flatten(queue, mediaMatches))
  {
    var rules := queue;
    result := start;
    while rules != []
      invariant result + Keep(matches, Flatten(rules, mediaMatches)) == start + Keep(matches, Flatten(queue, mediaMatches))
      decreases RulesSize(rules)
    {
      var rule := rules[0];
      var rest := rules[1..];
      assert rules == [rule] + rest;
      match rule {
        case Import(Some(sheet)) =>
          // `rule.styleSheet` is set: queue the imported sheet's rules in front.
          QueueStep(rule, rest, SheetRules(sheet, mediaMatches), mediaMatches);
          rules := SheetRules(sheet, mediaMatches) + rest;
        case Import(None) =>
          // No imported sheet: `getSheetRules(rule)` of the `rule.media` branch finds no `cssRules`.
          QueueStep(rule, rest, [], mediaMatches);
          rules := [] + rest;
        case Media(mediaText, cssRules) =>
          QueueStep(rule, rest, GetSheetRules(false, mediaText, cssRules, mediaMatches), mediaMatches);
          rules := GetSheetRules(false, mediaText, cssRules, mediaMatches) + rest;
        case Style(r) =>
          assert Flatten(rules, mediaMatches) == [r] + Flatten(rest, mediaMatches);
          KeepAppend(matches, [r], Flatten(rest, mediaMatches));
          rules := rest;
          if matches(r.selectorText) {
            result := result + [r];
          }
      }
    }
  }

  /** A disabled sheet, or one whose non-empty media text does not match, contributes no rules, imported or not. */
  lemma SkippedSheetContributesNothing(sheet: Sheet, rest: seq<Sheet>, mediaMatches: string -> bool)
    requires sheet.disabled || (sheet.media != "" && !mediaMatches(sheet.media))
    ensures FlattenSheets([sheet] + rest, mediaMatches) == FlattenSheets(rest, mediaMatches)
    ensures FlattenRule(Import(Some(sheet)), mediaMatches) == []
  {
    assert ([sheet] + rest)[1..] == rest;
  }

  /** An `@media` block whose condition does not match contributes no rules. */
  lemma UnmatchedMediaContributesNothing(mediaText: string, cssRules: seq<Rule>, mediaMatches: string -> bool)
    requires mediaText != "" && !mediaMatches(mediaText)
    ensures FlattenRule(Media(mediaText, cssRules), mediaMatches) == []
  {
  }

  /** Sheets are visited in their given order: the rules of `a` all come before those of `b`. */
  lemma {:induction false} FlattenSheetsAppend(a: seq<Sheet>, b: seq<Sheet>, mediaMatches: string -> bool)
    ensures FlattenSheets(a + b, mediaMatches) == FlattenSheets(a, mediaMatches) + FlattenSheets(b, mediaMatches)
  {
    if a == [] {
      assert a + b == b;
    } else {
      assert (a + b)[1..] == a[1..] + b;
      FlattenSheetsAppend(a[1..], b, mediaMatches);
    }
  }

  /**
   * The collected rules, before the sort, are exactly the flattened style
   * rules whose selector matches, none of them more often than it occurs;
   * no sheets give no rules.
   */
  lemma CollectedRules(sheets: seq<Sheet>, matches: string -> bool, mediaMatches: string -> bool, r: StyleRule)
    ensures r in Keep(matches, FlattenSheets(sheets, mediaMatches))
      <==> r in FlattenSheets(sheets, mediaMatches) && matches(r.selectorText)
    ensures |Keep(matches, FlattenSheets(sheets, mediaMatches))| <= |FlattenSheets(sheets, mediaMatches)|
    ensures sheets == [] ==> Keep(matches, FlattenSheets(sheets, mediaMatches)) == []
  {
    KeepMembers(matches, FlattenSheets(sheets, mediaMatches), r);
  }

  /**
   * An imported sheet's rules take the place of the `@import` rule: a sheet
   * `[a, @import [@media m [c]], b]` gives `a, c, b` when `m` matches and
   * `a, b` when it does not.
   */
  lemma ImportedRulesInPlace(a: StyleRule, b: StyleRule, c: StyleRule, m: string, mediaMatches: string -> bool)
    requires m != ""
    ensures var imported := Sheet(false, "", [Media(m, [Style(c)])]);
      Flatten([Style(a), Import(Some(imported)), Style(b)], mediaMatches)
      == if mediaMatches(m) then [a, c, b] else [a, b]
  {
    var imported := Sheet(false, "", [Media(m, [Style(c)])]);
    var rules := [Style(a), Import(Some(imported)), Style(b)];
    assert rules[1..] == [Import(Some(imported)), Style(b)];
    assert rules[1..][1..] == [Style(b)];
    assert [Style(b)][1..] == [];
    assert [Style(c)][1..] == [];
    assert [Media(m, [Style(c)])][1..] == [];
    var inner := if mediaMatches(m) then [c] else [];
    assert Flatten([Style(c)], mediaMatches) == [c];
    assert FlattenRule(Media(m, [Style(c)]), mediaMatches) == inner;
    assert Flatten([Media(m, [Style(c)])], mediaMatches) == inner;
    assert FlattenRule(Import(Some(imported)), mediaMatches) == inner;
    assert Flatten([Style(b)], mediaMatches) == [b];
    assert Flatten(rules[1..], mediaMatches) == inner + [b];
    assert Flatten(rules, mediaMatches) == [a] + inner + [b];
  }
}
