/**
 * The specificity ranker's scoring: `calculateScore` and
 * `getSpecificityScore`, with `_find` read as the number of matches (see
 * `SpecificityAsWritten` for the function as written) and the score kept as
 * an (id, class, element) triple compared lexicographically (see
 * `SpecificityAsWritten.Pack` for the decimal packing the code uses).
 *
 * The host's `_matchesSelector(element, selector)` is the injected predicate
 * `matches`: the target element is fixed, so `matches(selector)` says whether
 * it matches `selector`.
 */
module Specificity {
  import opened Strings
  import opened Selectors
  import opened Wrappers

  /** A specificity triple: ID selectors, class-like selectors, element-like selectors. */
  datatype Score = Score(ids: nat, classes: nat, elements: nat)

  const Zero := Score(0, 0, 0)

  /** Lexicographic order on triples, the ID count most significant. */
  predicate Below(a: Score, b: Score)
  {
    a.ids < b.ids
    || (a.ids == b.ids && a.classes < b.classes)
    || (a.ids == b.ids && a.classes == b.classes && a.elements < b.elements)
  }

  /** The sign of `a - b` in the order of scores, as a sort comparator returns it. */
  function Compare(a: Score, b: Score): (c: int)
    ensures c > 0 <==> Below(b, a)
    ensures c < 0 <==> Below(a, b)
    ensures c == 0 <==> a == b
  {
    if Below(b, a) then 1 else if a == b then 0 else -1
  }

  lemma BelowIsStrictTotalOrder(a: Score, b: Score, c: Score)
    ensures !Below(a, a)
    ensures Below(a, b) && Below(b, c) ==> Below(a, c)
    ensures Below(a, b) || a == b || Below(b, a)
    ensures Below(a, b) ==> !Below(b, a)
  {
  }

  lemma ZeroIsLeast(a: Score)
    ensures !Below(a, Zero)
  {
  }

  /**
   * One pass of the `while` loop of `calculateScore` over a space-free
   * `part`: count and delete pseudo-elements, pseudo-classes, attributes,
   * IDs and classes in that order, then count the `[\w-]+` runs left over as
   * elements. The loop assigns (rather than adds to) `score[2]`, `score[1]`
   * and `score[0]` at the start of each pass, so a pass sets the whole triple.
   */
  function PartScore(part: string): Score
  {
    var pseudoElements := Find(part, PseudoElement);
    var p1 := StripFound(part, PseudoElement);
    var pseudoClasses := Find(p1, PseudoClass);
    var p2 := StripFound(p1, PseudoClass);
    var attributes := Find(p2, Attribute);
    var p3 := StripFound(p2, Attribute);
    var ids := Find(p3, Id);
    var p4 := StripFound(p3, Id);
    var classes := Find(p4, Class);
    var p5 := StripFound(p4, Class);
    var elements := Find(p5, Element);
    Score(ids, pseudoClasses + attributes + classes, pseudoElements + elements)
  }

  /** `match && (part = part.replace(re, ''))`: delete the matches when some were found. */
  function StripFound(part: string, p: Pattern): (r: string)
    ensures |r| + Find(part, p) <= |part|
  {
    if Find(part, p) > 0 then Remove(part, p) else part
  }

  /** What `calculateScore(selector)` computes: the score of the last space-separated part. */
  function LastPartScore(selector: string): Score
  {
    PartScore(Last(Split(selector, ' ')))
  }

  /**
   * Each tier counts on what the earlier tiers left, and every counted match
   * is deleted before the next count, so no character of a part is counted
   * twice.
   */
  lemma PartScoreBounded(part: string)
    ensures PartScore(part).ids + PartScore(part).classes + PartScore(part).elements <= |part|
  {
  }

  /** In `a:not(.b)` no pseudo-element is found: the one colon is followed by `not`. */
  lemma NotExamplePseudoElements()
    ensures Find("a:not(.b)", PseudoElement) == 0
  {
    var s := "a:not(.b)";
    NoPseudoElementAt(s, 2);
    assert MatchAt(PseudoElement, s, 1).None?;
    forall k | 0 <= k < |s| && k != 1
      ensures MatchAt(PseudoElement, s, k).None?
    {
      assert s[k] != ':';
    }
    FindZero(s, PseudoElement);
  }

  /** In `a:not(.b)` no pseudo-class is found: the lookahead rejects `:not`. */
  lemma NotExamplePseudoClasses()
    ensures Find("a:not(.b)", PseudoClass) == 0
  {
    var s := "a:not(.b)";
    forall k | 0 <= k < |s|
      ensures MatchAt(PseudoClass, s, k).None?
    {
      if k == 1 {
        NotIsNoPseudoClass(s, 1);
      }
    }
    FindZero(s, PseudoClass);
  }

  /** In `a:not(.b)` no attribute and no ID selector is found. */
  lemma NotExampleAttributesAndIds()
    ensures Find("a:not(.b)", Attribute) == 0
    ensures Find("a:not(.b)", Id) == 0
  {
    var s := "a:not(.b)";
    forall k | 0 <= k < |s|
      ensures MatchAt(Attribute, s, k).None? && MatchAt(Id, s, k).None?
    {
    }
    FindZero(s, Attribute);
    FindZero(s, Id);
  }

  /** In `a:not(.b)` the class `.b` is found. */
  lemma NotExampleClassCount()
    ensures Find("a:not(.b)", Class) == 1
  {
    var s := "a:not(.b)";
    assert CountFrom(Class, s, 8) == 0;
    assert MatchAt(Class, s, 6) == Some(8);
    assert CountFrom(Class, s, 6) == 1;
  }

  /** In `a:not(.b)` the class `.b` is deleted, leaving `a:not()`. */
  lemma NotExampleClassRemoved()
    ensures Remove("a:not(.b)", Class) == "a:not()"
  {
    var s := "a:not(.b)";
    assert RemoveFrom(Class, s, 8) == ")";
    assert MatchAt(Class, s, 6) == Some(8);
    assert RemoveFrom(Class, s, 6) == ")";
  }

  /** In what is left, `a:not()`, both `a` and `not` count as elements. */
  lemma NotExampleElements()
    ensures Find("a:not()", Element) == 2
  {
    var t := "a:not()";
    assert CountFrom(Element, t, 5) == 0;
    assert MatchAt(Element, t, 2) == Some(5);
    assert CountFrom(Element, t, 2) == 1;
    assert MatchAt(Element, t, 0) == Some(1);
    assert CountFrom(Element, t, 0) == 2;
  }

  /**
   * `a:not(.b)` scores (0, 1, 2): `:not` is no pseudo-class, its argument
   * `.b` is a class, and the word `not` is counted as an element beside `a`.
   */
  lemma NotCountsAsElement()
    ensures PartScore("a:not(.b)") == Score(0, 1, 2)
  {
    NotExamplePseudoElements();
    NotExamplePseudoClasses();
    NotExampleAttributesAndIds();
    NotExampleClassCount();
    NotExampleClassRemoved();
    NotExampleElements();
  }

  /** In `a::before` the pseudo-element `::before` is found and deleted, leaving `a`. */
  lemma BeforeExamplePseudoElements()
    ensures Find("a::before", PseudoElement) == 1
    ensures Remove("a::before", PseudoElement) == "a"
  {
    var s := "a::before";
    assert MatchAt(PseudoElement, s, 0).None?;
    NotOccursAt(s, 3, "after");
    assert s[3..9] == "before";
    assert MatchAt(PseudoElement, s, 1) == Some(9);
  }

  /** In `a` only the element `a` is found. */
  lemma BeforeExampleRest()
    ensures Find("a", PseudoClass) == 0 && Find("a", Attribute) == 0
    ensures Find("a", Id) == 0 && Find("a", Class) == 0
    ensures Find("a", Element) == 1
  {
    FindZero("a", PseudoClass);
    FindZero("a", Attribute);
    FindZero("a", Id);
    FindZero("a", Class);
  }

  /** `a::before` scores (0, 0, 2): a pseudo-element counts in the element tier. */
  lemma PseudoElementCountsAsElement()
    ensures PartScore("a::before") == Score(0, 0, 2)
  {
    BeforeExamplePseudoElements();
    BeforeExampleRest();
  }

  /** `calculateScore`: the array `score` is overwritten, tier by tier, for every part. */
  method CalculateScore(selector: string) returns (r: Score)
    ensures r == LastPartScore(selector)
  {
    var score := new nat[] [0, 0, 0];
    var parts := Split(selector, ' ');
    ghost var all := parts;
    ghost var i := 0;
    while parts != []
      invariant 0 <= i <= |all| && parts == all[i..]
      invariant score.Length == 3
      invariant i > 0 ==> score[0] == PartScore(all[i - 1]).ids && score[1] == PartScore(all[i - 1]).classes
                          && score[2] == PartScore(all[i - 1]).elements
      decreases |parts|
    {
      var part := parts[0];
      parts := parts[1..];
      i := i + 1;
      ScorePart(score, part);
    }
    assert i == |all| && Last(all) == all[i - 1];
    ghost var last := PartScore(all[i - 1]);
    assert score[0] == last.ids && score[1] == last.classes && score[2] == last.elements;
    r := Score(score[0], score[1], score[2]);
  }

  /** One pass of the loop of `calculateScore`: every entry of `score` is reassigned from `part` alone. */
  method ScorePart(score: array<nat>, part: string)
    requires score.Length == 3
    modifies score
    ensures score[0] == PartScore(part).ids && score[1] == PartScore(part).classes && score[2] == PartScore(part).elements
  {
    var rest := part;
    var found := Find(rest, PseudoElement);
    score[2] := found;
    rest := StripFound(rest, PseudoElement);
    found := Find(rest, PseudoClass);
    score[1] := found;
    rest := StripFound(rest, PseudoClass);
    found := Find(rest, Attribute);
    score[1] := score[1] + found;
    rest := StripFound(rest, Attribute);
    found := Find(rest, Id);
    score[0] := found;
    rest := StripFound(rest, Id);
    found := Find(rest, Class);
    score[1] := score[1] + found;
    rest := StripFound(rest, Class);
    score[2] := score[2] + Find(rest, Element);
  }

  /** Only the last space-separated part of a selector is scored. */
  lemma {:induction false} LastPartOnly(before: string, after: string)
    ensures LastPartScore(before + " " + after) == LastPartScore(after)
  {
    LastPieceAfterSeparator(before, after, ' ');
  }

  /** A selector that ends in a space scores (0, 0, 0). */
  lemma {:induction false} TrailingSpaceScoresZero(selector: string)
    ensures LastPartScore(selector + " ") == Zero
  {
    SplitAround(selector, "", ' ');
    assert selector + " " == selector + [' '] + "";
    assert Split("", ' ') == [""];
  }

  /** The longest prefix of `parts` without an empty piece: `while (selector = selectors.shift())` stops at `""`. */
  function UpToEmpty(parts: seq<string>): (r: seq<string>)
    ensures |r| <= |parts| && r == parts[..|r|]
    ensures forall i :: 0 <= i < |r| ==> r[i] != ""
    ensures |r| < |parts| ==> parts[|r|] == ""
  {
    if parts == [] || parts[0] == "" then [] else [parts[0]] + UpToEmpty(parts[1..])
  }

  /** The comma-separated branches of a selector text that `getSpecificityScore` visits. */
  function Branches(selectorText: string): seq<string>
  {
    UpToEmpty(Split(selectorText, ','))
  }

  /**
   * The running maximum of `getSpecificityScore` over `selectors`, in order:
   * the largest score of a matching selector, (0, 0, 0) when none matches.
   */
  function Best(matches: string -> bool, score: string -> Score, selectors: seq<string>): Score
  {
    if selectors == [] then Zero
    else
      var before := Best(matches, score, selectors[..|selectors| - 1]);
      var last := Last(selectors);
      if matches(last) && Below(before, score(last)) then score(last) else before
  }

  /**
   * `Best` is the maximum: no matching selector scores above it, and it is
   * the score of a matching selector or, when there is none, (0, 0, 0).
   */
  lemma {:induction false} BestIsMaximum(matches: string -> bool, score: string -> Score, selectors: seq<string>)
    ensures forall i :: 0 <= i < |selectors| && matches(selectors[i]) ==>
      !Below(Best(matches, score, selectors), score(selectors[i]))
    ensures Best(matches, score, selectors) == Zero
      || exists i :: 0 <= i < |selectors| && matches(selectors[i]) && Best(matches, score, selectors) == score(selectors[i])
  {
    if selectors != [] {
      var front := selectors[..|selectors| - 1];
      BestIsMaximum(matches, score, front);
      var r := Best(matches, score, selectors);
      forall i | 0 <= i < |selectors| && matches(selectors[i])
        ensures !Below(r, score(selectors[i]))
      {
        if i < |front| {
          assert selectors[i] == front[i];
        }
      }
      if r != Zero && r == Best(matches, score, front) {
        var i :| 0 <= i < |front| && matches(front[i]) && Best(matches, score, front) == score(front[i]);
        assert selectors[i] == front[i];
      }
    }
  }

  /** `getSpecificityScore(element, selectorText)` as a value. */
  function SpecificityOf(matches: string -> bool, selectorText: string): Score
  {
    Best(matches, LastPartScore, Branches(selectorText))
  }

  /** `getSpecificityScore`: shift the comma-separated branches and keep the best matching score. */
  method GetSpecificityScore(matches: string -> bool, selectorText: string) returns (result: Score)
    ensures result == Best(matches, LastPartScore, UpToEmpty(Split(selectorText, ',')))
  {
    var selectors := Split(selectorText, ',');
    result := Zero;
    ghost var visited: seq<string> := [];
    while selectors != [] && selectors[0] != ""
      invariant visited + UpToEmpty(selectors) == Branches(selectorText)
      invariant result == Best(matches, LastPartScore, visited)
      decreases |selectors|
    {
      var selector := selectors[0];
      selectors := selectors[1..];
      BestStep(matches, LastPartScore, visited, selector);
      if matches(selector) {
        var score := CalculateScore(selector);
        result := if Below(result, score) then score else result;
      }
      visited := visited + [selector];
    }
    assert UpToEmpty(selectors) == [];
    assert visited == Branches(selectorText);
    assert result == Best(matches, LastPartScore, Branches(selectorText));
  }

  /** One more selector for the running maximum. */
  lemma BestStep(matches: string -> bool, score: string -> Score, visited: seq<string>, selector: string)
    ensures Best(matches, score, visited + [selector])
      == if matches(selector) && Below(Best(matches, score, visited), score(selector))
         then score(selector) else Best(matches, score, visited)
  {
    assert (visited + [selector])[..|visited|] == visited;
  }

  /** The score is that of a matching branch, or (0, 0, 0) when no branch matches. */
  lemma SpecificityOfNoMatch(matches: string -> bool, selectorText: string)
    requires forall s :: s in Branches(selectorText) ==> !matches(s)
    ensures SpecificityOf(matches, selectorText) == Zero
  {
    BestIsMaximum(matches, LastPartScore, Branches(selectorText));
  }

  /** Branches after the first empty one (as in `"a,,#b"`) do not contribute. */
  lemma {:induction false} BranchesStopAtEmpty(selectorText: string, k: nat)
    requires k < |Split(selectorText, ',')| && Split(selectorText, ',')[k] == ""
    ensures |Branches(selectorText)| <= k
  {
  }
}
