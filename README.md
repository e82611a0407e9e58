# getMatchedCSSRules polyfill, modelled in Dafny

This project models the core of `src/polyfill.getMatchedCSSRules.js`. That file is a polyfill for WebKit's `window.getMatchedCSSRules(element)`, and its core has two parts.

- **The rule collector.** It walks `document.styleSheets` in order and keeps a work queue of rules. It pops rules with `rules.shift()`. When it meets an `@import` rule or an `@media` rule, it puts the rules that `getSheetRules` gives for it at the front of the queue. It keeps the style rules whose selector matches the element.
- **The specificity ranker.** `calculateScore` counts pseudo-elements, pseudo-classes, attributes, IDs, classes and elements with six global regular expressions. `getSpecificityScore` takes the best score over the comma-separated branches that match. `sortBySpecificity` sorts the collected rules by that score, highest first.

The host browser is replaced by two injected predicates:

- `matches(selector)` stands for `_matchesSelector(element, selector)`, with the element fixed.
- `mediaMatches(mediaText)` stands for `window.matchMedia(mediaText).matches`.

Style sheets are an inductive datatype (`StyleSheets.Sheet`, `StyleSheets.Rule`), so a sheet cannot import itself. This rules out the cyclic `@import` on which the queue loop would never stop. The loop's termination measure is the number of rules in the queue, nested rules included (`StyleSheets.RulesSize`).

Modules, one per file:

- `Wrappers`: `Option`.
- `Strings`: `split` and `join` with a one-character separator.
- `Selectors`: the six regular expressions as scanners over `seq<char>`, and `_find` and `replace(re, '')` built on them.
- `Specificity`: the `Score` triple and its order, `calculateScore`, `getSpecificityScore`.
- `SpecificityAsWritten`: the ranker exactly as written (see Findings).
- `StyleSheets`: sheets and rules.
- `Ranking`: the stable sort, `compareSpecificity`, `sortBySpecificity`.
- `Collector`: `getSheetRules`, the queue loop, `getMatchedCSSRules`.

Two behaviours of the code are easy to misread, and the model follows the code:

- **Media rules go through `getSheetRules`** (line 188). So their media text is checked against `matchMedia`, like a sheet's, and a media rule whose condition fails contributes nothing.
- **Lines 73, 78 and 88 assign instead of adding.** So each space-separated part overwrites the whole triple, and only the last part of a selector is scored (`Specificity.LastPartOnly`).

## Model

| member | source | states |
|---|---|---|
| Strings.Split | src/polyfill.getMatchedCSSRules.js:65 | `split` with a one-character separator gives at least one piece, and no piece contains the separator |
| Strings.SplitWithoutSeparator | src/polyfill.getMatchedCSSRules.js:65 | a string without the separator splits into itself alone |
| Strings.SplitAround | src/polyfill.getMatchedCSSRules.js:65 | splitting `a + sep + b` gives the pieces of `a` followed by the pieces of `b` |
| Strings.JoinSplit | src/polyfill.getMatchedCSSRules.js:65 | joining the pieces with the separator gives back the string |
| Strings.SplitJoin | src/polyfill.getMatchedCSSRules.js:65 | splitting a join of separator-free pieces gives back the pieces |
| Strings.LastPieceAfterSeparator | src/polyfill.getMatchedCSSRules.js:65 | the last piece depends only on the text after a separator |
| Selectors.RunEnd | src/polyfill.getMatchedCSSRules.js:19 | the greedy `[\w-]*` run: every character up to the end is a word character, and the one at the end is not |
| Selectors.IndexFrom | src/polyfill.getMatchedCSSRules.js:22 | `[^\]]+` stops at the first `]` at or after the start |
| Selectors.LineEnd | src/polyfill.getMatchedCSSRules.js:24 | `.*` reaches the first line terminator, or the end of the string |
| Selectors.LastIndexIn | src/polyfill.getMatchedCSSRules.js:24 | the greedy `\(.*\)` closes at the last `)` within the reach of `.*`, or there is none |
| Selectors.NameEnd | src/polyfill.getMatchedCSSRules.js:25 | a pseudo-element name matches exactly when one of the five names occurs there, and the match ends after it |
| Selectors.SigilAt | src/polyfill.getMatchedCSSRules.js:20-21 | `#[\w-]+` and `\.[\w-]+` match exactly at a sigil followed by a word character, and run to the end of the word |
| Selectors.MatchAt | src/polyfill.getMatchedCSSRules.js:19-25 | a match of any of the six patterns is non-empty and ends within the string |
| Selectors.CountFromZero | src/polyfill.getMatchedCSSRules.js:57 | the global scan counts no match exactly when the pattern matches at no position |
| Selectors.RemoveFromLength | src/polyfill.getMatchedCSSRules.js:75-97 | every counted match deletes at least one character |
| Selectors.RemoveFromUnmatched | src/polyfill.getMatchedCSSRules.js:75-97 | deleting the matches of a pattern that matches nowhere changes nothing |
| Selectors.Find | src/polyfill.getMatchedCSSRules.js:56-60 | `_find` as intended, the number of global matches, is at most the length of the part |
| Selectors.FindZero | src/polyfill.getMatchedCSSRules.js:56-60 | `_find` gives 0 exactly when the pattern matches nowhere in the part |
| Selectors.Remove | src/polyfill.getMatchedCSSRules.js:75-95 | `replace(re, '')` removes at least one character per match, and changes nothing when `_find` gives 0 |
| Selectors.RemoveFromStartsWithNonWord | src/polyfill.getMatchedCSSRules.js:87-95 | a deletion scan that starts after a sigil match starts at a non-word character |
| Selectors.RemoveFromLeavesNoSigil | src/polyfill.getMatchedCSSRules.js:87-95 | deleting the ID (or class) matches leaves no ID (or class) match anywhere |
| Selectors.RemoveLeavesNoSigil | src/polyfill.getMatchedCSSRules.js:87-95 | after `part.replace(ID_RE, '')` or `part.replace(CLASS_RE, '')`, `_find` on the same pattern gives 0, so no ID or class counts twice |
| Selectors.NotIsNoPseudoClass | src/polyfill.getMatchedCSSRules.js:23-24 | at a `:not`, the lookahead `(?!not)` keeps `PSEUDO_CLASSES_RE` from matching at the colon, and `ELEMENT_RE` matches the word `not` after it |
| Selectors.NoNameAt | src/polyfill.getMatchedCSSRules.js:25 | no alternative of the pseudo-element group occurs where a character stands that starts none of them |
| Selectors.NoPseudoElementAt | src/polyfill.getMatchedCSSRules.js:25 | after the colons, a character other than `a`, `b`, `f` or `s` starts no pseudo-element name |
| Selectors.NothingFoundNothingRemoved | src/polyfill.getMatchedCSSRules.js:75 | where `_find` finds nothing, `replace(re, '')` would change nothing, so skipping it under `match &&` loses nothing |
| Specificity.Compare | src/polyfill.getMatchedCSSRules.js:120-122 | the comparator's sign: positive, negative or zero exactly when the first score is above, below or equal to the second |
| Specificity.BelowIsStrictTotalOrder | src/polyfill.getMatchedCSSRules.js:111 | the score order is irreflexive, transitive, total and asymmetric |
| Specificity.ZeroIsLeast | src/polyfill.getMatchedCSSRules.js:105 | no score is below the initial result 0, that is (0, 0, 0) |
| Specificity.StripFound | src/polyfill.getMatchedCSSRules.js:75 | `match && (part = part.replace(re, ''))` leaves at most the part's length minus the count |
| Specificity.ScorePart | src/polyfill.getMatchedCSSRules.js:71-97 | one pass reassigns the whole `score` array from the current part alone: IDs; pseudo-classes plus attributes plus classes; pseudo-elements plus elements |
| Specificity.CalculateScore | src/polyfill.getMatchedCSSRules.js:63-101 | the loop over `selector.split(' ')` returns the score of the last part |
| Specificity.PartScoreBounded | src/polyfill.getMatchedCSSRules.js:69-97 | each tier counts what the earlier tiers left, so the three counts together are at most the part's length |
| Specificity.LastPartOnly | src/polyfill.getMatchedCSSRules.js:70-98 | the score of `before + " " + after` is the score of `after` |
| Specificity.TrailingSpaceScoresZero | src/polyfill.getMatchedCSSRules.js:65-98 | a selector that ends with a space scores (0, 0, 0) |
| Specificity.NotCountsAsElement | src/polyfill.getMatchedCSSRules.js:69-97 | `a:not(.b)` scores (0, 1, 2): `:not` is no pseudo-class, `.b` is a class, and the word `not` is counted as an element beside `a` |
| Specificity.PseudoElementCountsAsElement | src/polyfill.getMatchedCSSRules.js:72-97 | `a::before` scores (0, 0, 2): the pseudo-element is counted, deleted, and added to the element tier |
| Specificity.UpToEmpty | src/polyfill.getMatchedCSSRules.js:108 | `while (selector = selectors.shift())` visits the pieces before the first empty one, and stops there |
| Specificity.BestIsMaximum | src/polyfill.getMatchedCSSRules.js:104-116 | the result is at least the score of every matching branch, and it is the score of a matching branch or (0, 0, 0) |
| Specificity.BestStep | src/polyfill.getMatchedCSSRules.js:109-112 | one more branch: its score replaces the result exactly when it matches and scores higher |
| Specificity.GetSpecificityScore | src/polyfill.getMatchedCSSRules.js:104-116 | the loop computes the running maximum over the visited branches |
| Specificity.SpecificityOfNoMatch | src/polyfill.getMatchedCSSRules.js:104-116 | when no branch matches, the score is (0, 0, 0) |
| Specificity.BranchesStopAtEmpty | src/polyfill.getMatchedCSSRules.js:108 | branches after an empty one (as in `"a,,#b"`) are never visited |
| SpecificityAsWritten.FindAsWritten | src/polyfill.getMatchedCSSRules.js:56-60 | `_find` as written returns `re.length` of a truthy `RegExp`, which is `undefined`: never the match count, and falsy |
| SpecificityAsWritten.ParseInt | src/polyfill.getMatchedCSSRules.js:100 | `parseInt(s, 10)` is `NaN` exactly when `s` does not start with a digit, and otherwise a non-negative number |
| SpecificityAsWritten.JoinPiece | src/polyfill.getMatchedCSSRules.js:100 | `join('')` writes `undefined` as the empty string and nothing else as empty, and writes a number with a leading digit exactly when it is non-negative |
| SpecificityAsWritten.Pack | src/polyfill.getMatchedCSSRules.js:100 | with `_find` counting matches, the packed score of a triple of counts is always a number |
| SpecificityAsWritten.CalculateScoreAsWritten | src/polyfill.getMatchedCSSRules.js:56-101 | with `_find` returning `re.length`, which is `undefined`, `calculateScore` returns `NaN` for every selector |
| SpecificityAsWritten.GetSpecificityScoreAsWritten | src/polyfill.getMatchedCSSRules.js:104-116 | `NaN > result` is false, so the as-written score is 0 for every selector text |
| SpecificityAsWritten.CompareSpecificityAsWritten | src/polyfill.getMatchedCSSRules.js:120-122 | the as-written comparator returns 0 for every pair |
| SpecificityAsWritten.SortAsWrittenKeepsOrder | src/polyfill.getMatchedCSSRules.js:118-125 | a stable sort with a comparator that returns only 0 or `NaN` (read as +0) keeps the collector's order |
| SpecificityAsWritten.Decimal | src/polyfill.getMatchedCSSRules.js:100 | `join` writes each count as a non-empty string of decimal digits |
| SpecificityAsWritten.DigitPrefix | src/polyfill.getMatchedCSSRules.js:100 | `parseInt` reads the longest prefix of digits |
| SpecificityAsWritten.DecimalRoundTrip | src/polyfill.getMatchedCSSRules.js:100 | reading back the digits of a count gives the count |
| SpecificityAsWritten.DigitsValueAppend | src/polyfill.getMatchedCSSRules.js:100 | the value of two digit strings written together is the first shifted by the length of the second, plus the second |
| SpecificityAsWritten.DigitPrefixOfDigits | src/polyfill.getMatchedCSSRules.js:100 | `parseInt` reads all of a string of digits |
| SpecificityAsWritten.PackDigits | src/polyfill.getMatchedCSSRules.js:100 | `parseInt` of three digit strings written together |
| SpecificityAsWritten.PackValue | src/polyfill.getMatchedCSSRules.js:100 | the packed score is the decimal concatenation of the three counts |
| SpecificityAsWritten.PackBelowTen | src/polyfill.getMatchedCSSRules.js:100 | with every count at most 9, the packed score is 100·ids + 10·classes + elements |
| SpecificityAsWritten.PackOrdersBelowTen | src/polyfill.getMatchedCSSRules.js:100 | with every count at most 9, packing orders scores exactly as the triple order, both ways, and is injective |
| SpecificityAsWritten.PackCollision | src/polyfill.getMatchedCSSRules.js:100 | (0, 10, 0) and (1, 0, 0) both pack to 100, though (1, 0, 0) is higher |
| SpecificityAsWritten.PackElevenElements | src/polyfill.getMatchedCSSRules.js:100 | (0, 0, 11) packs to 11 |
| SpecificityAsWritten.PackOneClass | src/polyfill.getMatchedCSSRules.js:100 | (0, 1, 0) packs to 10 |
| SpecificityAsWritten.PackInversion | src/polyfill.getMatchedCSSRules.js:100 | (0, 0, 11) packs above (0, 1, 0), though it is the lower score |
| StyleSheets.RuleSize | src/polyfill.getMatchedCSSRules.js:177-191 | every rule, nested rules included, counts at least once in the queue's measure |
| StyleSheets.RulesSizeAppend | src/polyfill.getMatchedCSSRules.js:181-188 | the measure of `expansion.concat(rules)` is the sum of the two |
| Ranking.WithKeyAppend | src/polyfill.getMatchedCSSRules.js:124 | the elements with a given key, taken from a concatenation, are those from each side in turn |
| Ranking.WithKeyAbsent | src/polyfill.getMatchedCSSRules.js:124 | a sequence without a key has no elements with it |
| Ranking.InsertLastPermutes | src/polyfill.getMatchedCSSRules.js:124 | one insertion step keeps the elements |
| Ranking.SortWithPermutes | src/polyfill.getMatchedCSSRules.js:124 | `rules.sort(cmp)` is a permutation of `rules` |
| Ranking.InsertLastSplit | src/polyfill.getMatchedCSSRules.js:124 | an inserted element lands after an element whose key is not below its own, and before elements whose keys all are |
| Ranking.InsertLastDescending | src/polyfill.getMatchedCSSRules.js:124 | inserting into a sequence ordered by non-increasing key keeps it ordered |
| Ranking.InsertLastStable | src/polyfill.getMatchedCSSRules.js:124 | the inserted element goes after every element with the same key |
| Ranking.WithKeyInsert | src/polyfill.getMatchedCSSRules.js:124 | putting an element in the middle adds it last among its key's elements, when none with that key follow it |
| Ranking.SortWithRanks | src/polyfill.getMatchedCSSRules.js:124 | the stable sort by a key comparator is a permutation, in non-increasing key order, with equal keys in their input order |
| Ranking.SortWithZeroComparator | src/polyfill.getMatchedCSSRules.js:124 | a comparator that returns 0 for every pair leaves the order as it is |
| Ranking.RankedKeepsRules | src/polyfill.getMatchedCSSRules.js:118-125 | the sorted rules are the collected rules, each as many times as before |
| Ranking.RankedBySpecificity | src/polyfill.getMatchedCSSRules.js:118-125 | in the sorted rules, no rule comes before a rule of higher specificity |
| Ranking.RankedStably | src/polyfill.getMatchedCSSRules.js:118-125 | rules of equal specificity keep the collector's order |
| Ranking.CompareSpecificity | src/polyfill.getMatchedCSSRules.js:120-122 | `compareSpecificity(a, b)` is positive exactly when `b`'s score is above `a`'s |
| Ranking.CompareBy | src/polyfill.getMatchedCSSRules.js:120-122 | `compareSpecificity` computes the comparator value that the sort specification uses |
| Ranking.SortBySpecificity | src/polyfill.getMatchedCSSRules.js:118-125 | the in-place sort leaves the array equal to the stable sort of its old contents |
| Ranking.SortWithStep | src/polyfill.getMatchedCSSRules.js:124 | sorting one more element inserts it into the sorted prefix |
| Ranking.InsertNext | src/polyfill.getMatchedCSSRules.js:124 | one in-place insertion step: the prefix holds the insertion of the next element and the rest of the array is unchanged |
| Ranking.MakeRoom | src/polyfill.getMatchedCSSRules.js:124 | the inner loop shifts up exactly the prefix elements the comparator puts behind the new element, and stops after one it does not |
| Ranking.InsertLastAt | src/polyfill.getMatchedCSSRules.js:124 | the inserted element lands right after the last element the comparator does not put behind it |
| Collector.GetSheetRules | src/polyfill.getMatchedCSSRules.js:40-54 | a disabled sheet, or one with non-empty media text that does not match, gives no rules; otherwise the sheet gives all of its rules |
| Collector.SheetRulesSize | src/polyfill.getMatchedCSSRules.js:40-54 | `getSheetRules` never adds rules |
| Collector.FlattenAppend | src/polyfill.getMatchedCSSRules.js:181-188 | flattening `expansion.concat(rules)` flattens each side in turn |
| Collector.KeepAppend | src/polyfill.getMatchedCSSRules.js:194-197 | filtering by `matches` distributes over concatenation |
| Collector.KeepMembers | src/polyfill.getMatchedCSSRules.js:194-197 | a rule is kept exactly when it is among the rules and matches, and nothing is added |
| Collector.QueueStep | src/polyfill.getMatchedCSSRules.js:177-191 | replacing an `@import` or `@media` rule by its rules at the front of the queue keeps the flattening, and shrinks the queue's measure |
| Collector.CollectQueue | src/polyfill.getMatchedCSSRules.js:177-198 | the queue loop appends, in order, the matching style rules of the recursive in-order flattening of the queue |
| Collector.CollectMatched | src/polyfill.getMatchedCSSRules.js:172-199 | before the sort, `result` is exactly the matching style rules of the flattened sheets, taken in sheet order |
| Collector.GetMatchedCSSRules | src/polyfill.getMatchedCSSRules.js:159-201 | the returned rules are the stable sort, by specificity, of the matching flattened style rules |
| Collector.SkippedSheetContributesNothing | src/polyfill.getMatchedCSSRules.js:40-50 | a disabled sheet, or one whose non-empty media text does not match, contributes no rules, whether listed or imported |
| Collector.UnmatchedMediaContributesNothing | src/polyfill.getMatchedCSSRules.js:186-188 | an `@media` block whose condition does not match contributes no rules |
| Collector.FlattenSheetsAppend | src/polyfill.getMatchedCSSRules.js:172 | the sheets are visited in their given order |
| Collector.CollectedRules | src/polyfill.getMatchedCSSRules.js:172-199 | a rule is collected exactly when it is a flattened style rule that matches, the result is no longer than the flattening, and no sheets give no rules |
| Collector.ImportedRulesInPlace | src/polyfill.getMatchedCSSRules.js:179-191 | the rules of an imported sheet, including those of a nested `@media` block, take the place of the `@import` rule |

## Left out

- `_matchesSelector` (lines 128-155) is the injected predicate `matches`, fixed for one element. Its `querySelectorAll` branch computes a value and drops it.
- `window.matchMedia` (line 48) is the injected predicate `mediaMatches`.
- Collector.GetMatchedCSSRules: `matches`, `mediaMatches` and the reading of `cssRules` are total in the model, so host exceptions are not modelled. `getSpecificityScore` hands every piece of `selector_text.split(',')` (lines 105-109) to `_matchesSelector`, and `querySelectorAll` or `element.matches` (line 130) throws a `SyntaxError` on a piece such as `y"]`, cut from `a[title="x,y"]`; this happens on the as-written path too, since the comparator still calls `getSpecificityScore`. Reading `cssRules` of a cross-origin sheet (line 53) throws a `SecurityError` in Firefox. Either exception ends the whole call.
- `window.document.styleSheets` (line 168) is the parameter `sheets`.
- The check at lines 15-17 that skips the polyfill when the browser has its own is installation glue, and it is not modelled.
- `toArray` (lines 28-37) is the identity on a sequence. Its `for...in` walk can also pick up non-index properties of a live host list, such as `length` and `item`. A picked-up `0` would end the queue loop early. These depend on the host, and they are not modelled.
- Only three kinds of rule are modelled: `@import`, `@media` and style rules. Other kinds (`@font-face`, `@keyframes`, ...) have no `media`, `styleSheet` or meaningful `selectorText`. What `_matchesSelector` does with them is up to the host.
- An `@import` rule whose `styleSheet` is `null` goes to the `rule.media` branch in the code. There `getSheetRules(rule)` finds no `cssRules`, so the rule contributes nothing, and the model gives it no rules. Its own media text is not represented.
- The pseudo-element and author-only arguments (lines 157-159) are not supported by the code, and they are not modelled.
- Regular expressions are modelled only through the six patterns of lines 19-25, as scanners. `\w` is taken without the `u` flag (ASCII letters, digits, `_`). The other `RegExp` machinery is not modelled.
- `parseInt` is modelled only on what `score.join('')` can produce: digit strings, or `NaN` and `undefined` written out. Signs, whitespace and radix prefixes are not modelled.
- JavaScript numbers are unbounded integers here. The packed score of a huge count would lose precision as a double, and that is not modelled.
- `Array.prototype.sort` is specified as a stable insertion sort (`Ranking.SortWith`). The stability follows ECMA-262 from the 2019 edition. Engines choose their own algorithm, and only the result is modelled.
- Ranking.SortBySpecificity: the in-place sort fixes one algorithm (insertion sort); the number and order of comparator calls an engine makes are not modelled, only the resulting order.

## Findings

| source | as written | input that shows it | evidently intended | confidence | as-written member | corrected member |
|---|---|---|---|---|---|---|
| src/polyfill.getMatchedCSSRules.js:59 | `_find` returns `re ? re.length : 0`; a `RegExp` is truthy and has no `length`, so it returns `undefined` and `calculateScore` gives `NaN` | any selector, e.g. `#a` against `div`: both score `NaN`, `getSpecificityScore` gives 0 for both, and the sort leaves the rules unranked | the number of matches, `matches ? matches.length : 0`, from the `string.match(re)` of line 57 | high (not executed) | SpecificityAsWritten.CalculateScoreAsWritten | Selectors.FindZero |
| src/polyfill.getMatchedCSSRules.js:100 | the triple is packed as `parseInt(score.join(''), 10)`, the decimal digits of the counts written one after the other | (0, 10, 0) and (1, 0, 0) both pack to 100; (0, 0, 11) packs to 11, above the 10 of (0, 1, 0) | lexicographic comparison of the (ids, classes, elements) triple | high (not executed) | SpecificityAsWritten.PackCollision | Specificity.Compare |
