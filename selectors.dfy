/**
 * The six global regular expressions of the ranker
 * (`ELEMENT_RE`, `ID_RE`, `CLASS_RE`, `ATTR_RE`, `PSEUDO_CLASSES_RE`,
 * `PSEUDO_ELEMENTS_RE`) as scanners over a string, together with the two
 * ways the ranker uses them: `string.match(re)` to count the matches and
 * `string.replace(re, '')` to delete them.
 *
 * A global match scans left to right: at each position the pattern is tried
 * (with the backtracking priorities of the regular expression), a match
 * resumes the scan at its end, and a failure moves on by one character.
 * None of the six patterns matches the empty string.
 */
module Selectors {
  import opened Wrappers

  datatype Pattern =
    | Element        // /[\w-]+/g
    | Id             // /#[\w-]+/g
    | Class          // /\.[\w-]+/g
    | Attribute      // /\[[^\]]+\]/g
    | PseudoClass    // /\:(?!not)[\w-]+(\(.*\))?/g
    | PseudoElement  // /\:\:?(after|before|first-letter|first-line|selection)/g

  /** The character class `[\w-]` (without the `u` flag `\w` is ASCII only). */
  predicate IsWordChar(c: char)
  {
    ('a' <= c <= 'z') || ('A' <= c <= 'Z') || ('0' <= c <= '9') || c == '_' || c == '-'
  }

  /** What `.` does not match. */
  predicate IsLineTerminator(c: char)
  {
    c == '\n' || c == '\r' || c == '\U{2028}' || c == '\U{2029}'
  }

  /** The end of the longest run of `[\w-]` starting at `i` (greedy `[\w-]*`). */
  function RunEnd(s: string, i: nat): (j: nat)
    requires i <= |s|
    ensures i <= j <= |s|
    ensures forall k :: i <= k < j ==> IsWordChar(s[k])
    ensures j == |s| || !IsWordChar(s[j])
    decreases |s| - i
  {
    if i < |s| && IsWordChar(s[i]) then RunEnd(s, i + 1) else i
  }

  /** The first index at or after `i` that holds `c`, or `|s|` when there is none. */
  function IndexFrom(s: string, i: nat, c: char): (j: nat)
    requires i <= |s|
    ensures i <= j <= |s|
    ensures forall k :: i <= k < j ==> s[k] != c
    ensures j < |s| ==> s[j] == c
    decreases |s| - i
  {
    if i == |s| || s[i] == c then i else IndexFrom(s, i + 1, c)
  }

  /** How far `.*` can reach from `i`: the first line terminator, or the end. */
  function LineEnd(s: string, i: nat): (j: nat)
    requires i <= |s|
    ensures i <= j <= |s|
    ensures forall k :: i <= k < j ==> !IsLineTerminator(s[k])
    ensures j < |s| ==> IsLineTerminator(s[j])
    decreases |s| - i
  {
    if i == |s| || IsLineTerminator(s[i]) then i else LineEnd(s, i + 1)
  }

  /** The last index in `[lo, hi)` that holds `c`. */
  function LastIndexIn(s: string, lo: nat, hi: nat, c: char): (r: Option<nat>)
    requires lo <= hi <= |s|
    ensures r.Some? ==> lo <= r.value < hi && s[r.value] == c
    ensures r.Some? ==> forall k :: r.value < k < hi ==> s[k] != c
    ensures r.None? ==> forall k :: lo <= k < hi ==> s[k] != c
    decreases hi - lo
  {
    if lo == hi then None
    else if s[hi - 1] == c then Some(hi - 1)
    else LastIndexIn(s, lo, hi - 1, c)
  }

  /** Whether `w` occurs in `s` at index `i`. */
  predicate OccursAt(s: string, i: nat, w: string)
  {
    i + |w| <= |s| && s[i..i + |w|] == w
  }

  /** The alternatives of `PSEUDO_ELEMENTS_RE`, in the order they are tried. */
  const PseudoElementNames: seq<string> := ["after", "before", "first-letter", "first-line", "selection"]

  /** The end of the first of `names` that occurs at `i`. */
  function NameEnd(s: string, i: nat, names: seq<string>): (r: Option<nat>)
    ensures r.Some? ==> exists n :: n in names && OccursAt(s, i, n) && r.value == i + |n|
    ensures r.None? ==> forall n :: n in names ==> !OccursAt(s, i, n)
  {
    if names == [] then None
    else if OccursAt(s, i, names[0]) then Some(i + |names[0]|)
    else NameEnd(s, i, names[1..])
  }

  /** A word does not occur where its first character does not. */
  lemma NotOccursAt(s: string, i: nat, w: string)
    requires i < |s| && w != [] && s[i] != w[0]
    ensures !OccursAt(s, i, w)
  {
  }

  /** No name occurs where a character stands that starts none of them. */
  lemma {:induction false} NoNameAt(s: string, i: nat, names: seq<string>)
    requires i < |s|
    requires forall n :: n in names ==> n != [] && n[0] != s[i]
    ensures NameEnd(s, i, names).None?
  {
    if names != [] {
      assert names[0] in names;
      NotOccursAt(s, i, names[0]);
      assert forall n :: n in names[1..] ==> n in names;
      NoNameAt(s, i, names[1..]);
    }
  }

  /** No pseudo-element name starts at a character that starts none of them. */
  lemma NoPseudoElementAt(s: string, i: nat)
    requires i < |s| && s[i] != 'a' && s[i] != 'b' && s[i] != 'f' && s[i] != 's'
    ensures NameEnd(s, i, PseudoElementNames).None?
  {
    forall n | n in PseudoElementNames
      ensures n != [] && n[0] != s[i]
    {
      var k :| 0 <= k < 5 && PseudoElementNames[k] == n;
      assert k == 0 || k == 1 || k == 2 || k == 3 || k == 4;
    }
    NoNameAt(s, i, PseudoElementNames);
  }

  /** `#[\w-]+` and `\.[\w-]+`: the sigil, then a greedy run of at least one `[\w-]`. */
  function SigilAt(sigil: char, s: string, i: nat): (r: Option<nat>)
    requires i < |s|
    ensures r.Some? <==> s[i] == sigil && i + 1 < |s| && IsWordChar(s[i + 1])
    ensures r.Some? ==> r.value == RunEnd(s, i + 1)
  {
    if s[i] == sigil && i + 1 < |s| && IsWordChar(s[i + 1]) then Some(RunEnd(s, i + 1)) else None
  }

  /** The end of the match of `p` that starts at `i`, if the pattern matches there. */
  function MatchAt(p: Pattern, s: string, i: nat): (r: Option<nat>)
    requires i < |s|
    ensures r.Some? ==> i < r.value <= |s|
  {
    match p
    case Element =>
      if IsWordChar(s[i]) then Some(RunEnd(s, i)) else None
    case Id =>
      SigilAt('#', s, i)
    case Class =>
      SigilAt('.', s, i)
    case Attribute =>
      // `[^\]]+` runs to the first `]`, which must then close the match
      if s[i] == '[' && i + 1 < |s| then
        var j := IndexFrom(s, i + 1, ']');
        if i + 1 < j < |s| then Some(j + 1) else None
      else None
    case PseudoElement =>
      // `\:?` first takes a second colon; giving it back cannot help, since
      // no name starts with a colon
      if s[i] == ':' then
        var j := if i + 1 < |s| && s[i + 1] == ':' then i + 2 else i + 1;
        NameEnd(s, j, PseudoElementNames)
      else None
    case PseudoClass =>
      // `(?!not)` looks at the characters after the colon; the optional
      // group `\(.*\)` ends at the last `)` before the next line terminator
      if s[i] == ':' && !OccursAt(s, i + 1, "not") && i + 1 < |s| && IsWordChar(s[i + 1]) then
        var k := RunEnd(s, i + 1);
        if k < |s| && s[k] == '(' then
          match LastIndexIn(s, k + 1, LineEnd(s, k + 1), ')')
          case Some(m) => Some(m + 1)
          case None => Some(k)
        else Some(k)
      else None
  }

  /** The number of matches of the global scan from `i`. */
  function CountFrom(p: Pattern, s: string, i: nat): nat
    requires i <= |s|
    decreases |s| - i
  {
    if i == |s| then 0
    else
      match MatchAt(p, s, i)
      case Some(e) => 1 + CountFrom(p, s, e)
      case None => CountFrom(p, s, i + 1)
  }

  /** What the global scan from `i` leaves when every match is deleted. */
  function RemoveFrom(p: Pattern, s: string, i: nat): string
    requires i <= |s|
    decreases |s| - i
  {
    if i == |s| then []
    else
      match MatchAt(p, s, i)
      case Some(e) => RemoveFrom(p, s, e)
      case None => [s[i]] + RemoveFrom(p, s, i + 1)
  }

  /** The scan from `i` counts nothing exactly when the pattern matches nowhere from `i` on. */
  lemma {:induction false} CountFromZero(p: Pattern, s: string, i: nat)
    requires i <= |s|
    ensures CountFrom(p, s, i) == 0 <==> forall k :: i <= k < |s| ==> MatchAt(p, s, k).None?
    decreases |s| - i
  {
    if i < |s| && MatchAt(p, s, i).None? {
      CountFromZero(p, s, i + 1);
    }
  }

  /** Every match deletes at least one character. */
  lemma {:induction false} RemoveFromLength(p: Pattern, s: string, i: nat)
    requires i <= |s|
    ensures |RemoveFrom(p, s, i)| + CountFrom(p, s, i) <= |s| - i
    decreases |s| - i
  {
    if i < |s| {
      match MatchAt(p, s, i)
      case Some(e) => RemoveFromLength(p, s, e);
      case None => RemoveFromLength(p, s, i + 1);
    }
  }

  /** Where the pattern matches nowhere, deleting its matches changes nothing. */
  lemma {:induction false} RemoveFromUnmatched(p: Pattern, s: string, i: nat)
    requires i <= |s|
    requires forall k :: i <= k < |s| ==> MatchAt(p, s, k).None?
    ensures RemoveFrom(p, s, i) == s[i..]
    decreases |s| - i
  {
    if i < |s| {
      RemoveFromUnmatched(p, s, i + 1);
      assert s[i..] == [s[i]] + s[i + 1..];
    }
  }

  /**
   * `part.match(re)` counted: the number of matches of the global scan, 0
   * when there are none. This is what `_find` evidently means; as written it
   * returns `re.length` (see `SpecificityAsWritten.FindAsWritten`).
   */
  function Find(part: string, p: Pattern): (n: nat)
    ensures n <= |part|
  {
    RemoveFromLength(p, part, 0);
    CountFrom(p, part, 0)
  }

  /** `_find` gives 0 exactly when the pattern matches nowhere in the part. */
  lemma FindZero(part: string, p: Pattern)
    ensures Find(part, p) == 0 <==> forall k :: 0 <= k < |part| ==> MatchAt(p, part, k).None?
  {
    CountFromZero(p, part, 0);
  }

  /** Where `_find` finds nothing, deleting the matches changes nothing. */
  lemma NothingFoundNothingRemoved(part: string, p: Pattern)
    ensures Find(part, p) == 0 ==> RemoveFrom(p, part, 0) == part
  {
    if Find(part, p) == 0 {
      FindZero(part, p);
      RemoveFromUnmatched(p, part, 0);
    }
  }

  /** `part.replace(re, '')`: every match of the global scan deleted. */
  function Remove(part: string, p: Pattern): (r: string)
    ensures |r| + Find(part, p) <= |part|
    ensures Find(part, p) == 0 ==> r == part
  {
    RemoveFromLength(p, part, 0);
    NothingFoundNothingRemoved(part, p);
    RemoveFrom(p, part, 0)
  }

  /** Whether `p` is one of the two sigil patterns, `#[\w-]+` and `\.[\w-]+`. */
  function SigilOf(p: Pattern): Option<char>
  {
    match p
    case Id => Some('#')
    case Class => Some('.')
    case _ => None
  }

  /** A removal that starts after a match (at a non-word character) starts with a non-word character. */
  lemma {:induction false} RemoveFromStartsWithNonWord(p: Pattern, s: string, i: nat)
    requires SigilOf(p).Some?
    requires i <= |s|
    requires i == |s| || !IsWordChar(s[i])
    ensures RemoveFrom(p, s, i) == [] || !IsWordChar(RemoveFrom(p, s, i)[0])
    decreases |s| - i
  {
    if i < |s| {
      match MatchAt(p, s, i)
      case Some(e) => RemoveFromStartsWithNonWord(p, s, e);
      case None =>
    }
  }

  /** Deleting the ID (or class) selectors leaves none behind to be counted again. */
  lemma {:induction false} RemoveFromLeavesNoSigil(p: Pattern, s: string, i: nat)
    requires SigilOf(p).Some?
    requires i <= |s|
    ensures forall k :: 0 <= k < |RemoveFrom(p, s, i)| ==> MatchAt(p, RemoveFrom(p, s, i), k).None?
    decreases |s| - i
  {
    if i < |s| {
      match MatchAt(p, s, i)
      case Some(e) => RemoveFromLeavesNoSigil(p, s, e);
      case None =>
        var rest := RemoveFrom(p, s, i + 1);
        var out := [s[i]] + rest;
        RemoveFromLeavesNoSigil(p, s, i + 1);
        if i + 1 < |s| && !IsWordChar(s[i + 1]) {
          RemoveFromStartsWithNonWord(p, s, i + 1);
        }
        forall k | 0 <= k < |out|
          ensures MatchAt(p, out, k).None?
        {
          if k > 0 {
            assert MatchAt(p, rest, k - 1).None?;
          }
        }
    }
  }

  /** After `part.replace(ID_RE, '')` no ID selector is left, and likewise for classes. */
  lemma RemoveLeavesNoSigil(part: string, p: Pattern)
    requires SigilOf(p).Some?
    ensures Find(Remove(part, p), p) == 0
  {
    RemoveFromLeavesNoSigil(p, part, 0);
    FindZero(Remove(part, p), p);
  }

  /**
   * `:not` is no pseudo-class: the lookahead `(?!not)` rejects the colon,
   * and the word `not` after it is a match of `[\w-]+`, so it counts as an
   * element once the other tiers are stripped.
   */
  lemma NotIsNoPseudoClass(s: string, i: nat)
    requires i + 4 <= |s| && s[i] == ':' && s[i + 1..i + 4] == "not"
    ensures MatchAt(PseudoClass, s, i).None?
    ensures MatchAt(Element, s, i + 1).Some? && MatchAt(Element, s, i + 1).value >= i + 4
  {
    assert OccursAt(s, i + 1, "not");
    assert s[i + 1] == 'n' && s[i + 2] == 'o' && s[i + 3] == 't';
  }
}
