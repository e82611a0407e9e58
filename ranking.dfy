/**
 * `sortBySpecificity`: `rules.sort(compareSpecificity)`, where the
 * comparator returns `getSpecificityScore(element, b.selectorText) -
 * getSpecificityScore(element, a.selectorText)`, so that the rule with the
 * higher score comes first.
 *
 * `Array.prototype.sort` is stable (ECMA-262, from the 2019 edition on): its
 * result is specified here by `SortWith`, an insertion sort that moves an
 * element in front of an earlier one only when the comparator says it must
 * come first. The in-place method `SortBySpecificity` computes exactly that.
 */
module Ranking {
  import opened Strings
  import opened Specificity
  import opened StyleSheets

  /** Put `x` into `sorted` after every element the comparator does not place behind `x`. */
  function InsertLast<T>(sorted: seq<T>, x: T, cmp: (T, T) -> int): seq<T>
  {
    if sorted == [] || cmp(Last(sorted), x) <= 0 then sorted + [x]
    else InsertLast(sorted[..|sorted| - 1], x, cmp) + [Last(sorted)]
  }

  /** `s.sort(cmp)` as a stable sort: each element in turn inserted into the sorted prefix before it. */
  function SortWith<T>(s: seq<T>, cmp: (T, T) -> int): seq<T>
  {
    if s == [] then [] else InsertLast(SortWith(s[..|s| - 1], cmp), Last(s), cmp)
  }

  /** `cmp(a, b)` has the sign of `key(b)` against `key(a)`: higher keys first. */
  ghost predicate RanksBy<T(!new)>(cmp: (T, T) -> int, key: T -> Score)
  {
    forall a, b :: cmp(a, b) == Compare(key(b), key(a))
  }

  /** Keys never increase from left to right. */
  ghost predicate Descending<T>(s: seq<T>, key: T -> Score)
  {
    forall i, j :: 0 <= i < j < |s| ==> !Below(key(s[i]), key(s[j]))
  }

  /** The elements of `s` whose key is `k`, in their order in `s`. */
  function WithKey<T>(s: seq<T>, key: T -> Score, k: Score): seq<T>
  {
    if s == [] then []
    else WithKey(s[..|s| - 1], key, k) + if key(Last(s)) == k then [Last(s)] else []
  }

  lemma {:induction false} WithKeyAppend<T>(a: seq<T>, b: seq<T>, key: T -> Score, k: Score)
    ensures WithKey(a + b, key, k) == WithKey(a, key, k) + WithKey(b, key, k)
  {
    if b == [] {
      assert a + b == a;
    } else {
      assert (a + b)[..|a + b| - 1] == a + b[..|b| - 1];
      WithKeyAppend(a, b[..|b| - 1], key, k);
    }
  }

  lemma {:induction false} WithKeyAbsent<T>(s: seq<T>, key: T -> Score, k: Score)
    requires forall i :: 0 <= i < |s| ==> key(s[i]) != k
    ensures WithKey(s, key, k) == []
  {
    if s != [] {
      WithKeyAbsent(s[..|s| - 1], key, k);
    }
  }

  /** Inserting keeps the elements: the sort is a permutation. */
  lemma {:induction false} InsertLastPermutes<T>(sorted: seq<T>, x: T, cmp: (T, T) -> int)
    ensures multiset(InsertLast(sorted, x, cmp)) == multiset(sorted) + multiset{x}
  {
    if sorted != [] && cmp(Last(sorted), x) > 0 {
      var front := sorted[..|sorted| - 1];
      InsertLastPermutes(front, x, cmp);
      assert sorted == front + [Last(sorted)];
    }
  }

  lemma {:induction false} SortWithPermutes<T>(s: seq<T>, cmp: (T, T) -> int)
    ensures multiset(SortWith(s, cmp)) == multiset(s)
  {
    if s != [] {
      var front := s[..|s| - 1];
      SortWithPermutes(front, cmp);
      InsertLastPermutes(SortWith(front, cmp), Last(s), cmp);
      assert s == front + [Last(s)];
    }
  }

  /**
   * Where `x` lands: after a prefix whose keys are not below `x`'s (or at
   * least the last of it is not), before a suffix whose keys are all below.
   */
  lemma {:induction false} InsertLastSplit<T(!new)>(sorted: seq<T>, x: T, cmp: (T, T) -> int, key: T -> Score)
    returns (p: nat)
    requires RanksBy(cmp, key)
    ensures p <= |sorted|
    ensures InsertLast(sorted, x, cmp) == sorted[..p] + [x] + sorted[p..]
    ensures p > 0 ==> !Below(key(sorted[p - 1]), key(x))
    ensures forall i :: p <= i < |sorted| ==> Below(key(sorted[i]), key(x))
  {
    if sorted == [] {
      p := 0;
    } else if cmp(Last(sorted), x) <= 0 {
      p := |sorted|;
      assert sorted[..p] == sorted;
      assert cmp(Last(sorted), x) == Compare(key(x), key(Last(sorted)));
    } else {
      var front := sorted[..|sorted| - 1];
      var last := Last(sorted);
      assert cmp(last, x) == Compare(key(x), key(last));
      p := InsertLastSplit(front, x, cmp, key);
      assert InsertLast(sorted, x, cmp) == InsertLast(front, x, cmp) + [last];
      assert front[..p] == sorted[..p];
      assert front[p..] + [last] == sorted[p..];
      forall i | p <= i < |sorted|
        ensures Below(key(sorted[i]), key(x))
      {
        if i < |front| {
          assert sorted[i] == front[i];
        }
      }
    }
  }

  lemma {:induction false} InsertLastDescending<T(!new)>(sorted: seq<T>, x: T, cmp: (T, T) -> int, key: T -> Score)
    requires RanksBy(cmp, key)
    requires Descending(sorted, key)
    ensures Descending(InsertLast(sorted, x, cmp), key)
  {
    var p := InsertLastSplit(sorted, x, cmp, key);
    var r := InsertLast(sorted, x, cmp);
    assert |r| == |sorted| + 1;
    forall i, j | 0 <= i < j < |r|
      ensures !Below(key(r[i]), key(r[j]))
    {
      if j < p {
        assert r[i] == sorted[i] && r[j] == sorted[j];
      } else if j == p {
        assert r[i] == sorted[i] && r[j] == x;
        if i < p - 1 {
          BelowIsStrictTotalOrder(key(sorted[p - 1]), key(sorted[i]), key(x));
        }
      } else if i < p {
        assert r[i] == sorted[i] && r[j] == sorted[j - 1];
      } else if i == p {
        assert r[i] == x && r[j] == sorted[j - 1];
      } else {
        assert r[i] == sorted[i - 1] && r[j] == sorted[j - 1];
      }
    }
  }

  lemma {:induction false} InsertLastStable<T(!new)>(sorted: seq<T>, x: T, cmp: (T, T) -> int, key: T -> Score, k: Score)
    requires RanksBy(cmp, key)
    ensures WithKey(InsertLast(sorted, x, cmp), key, k) == WithKey(sorted, key, k) + if key(x) == k then [x] else []
  {
    var p := InsertLastSplit(sorted, x, cmp, key);
    assert sorted == sorted[..p] + sorted[p..];
    if key(x) == k {
      WithKeyAbsent(sorted[p..], key, k);
    }
    WithKeyInsert(sorted[..p], x, sorted[p..], key, k);
  }

  /** Putting `x` between `before` and `after` adds it at the end of its key's elements when none of `after` has that key. */
  lemma WithKeyInsert<T>(before: seq<T>, x: T, after: seq<T>, key: T -> Score, k: Score)
    requires key(x) == k ==> WithKey(after, key, k) == []
    ensures WithKey(before + [x] + after, key, k) == WithKey(before + after, key, k) + if key(x) == k then [x] else []
  {
    WithKeyAppend(before, after, key, k);
    WithKeyAppend(before + [x], after, key, k);
    WithKeyAppend(before, [x], key, k);
    assert WithKey([x], key, k) == if key(x) == k then [x] else [] by {
      assert [x][..0] == [];
    }
  }

  /**
   * With a comparator that ranks by a key, the sort puts higher keys first,
   * keeps every element, and keeps elements with equal keys in their order.
   */
  lemma {:induction false} SortWithRanks<T(!new)>(s: seq<T>, cmp: (T, T) -> int, key: T -> Score)
    requires RanksBy(cmp, key)
    ensures multiset(SortWith(s, cmp)) == multiset(s)
    ensures Descending(SortWith(s, cmp), key)
    ensures forall k :: WithKey(SortWith(s, cmp), key, k) == WithKey(s, key, k)
  {
    SortWithPermutes(s, cmp);
    if s != [] {
      var front := s[..|s| - 1];
      SortWithRanks(front, cmp, key);
      InsertLastDescending(SortWith(front, cmp), Last(s), cmp, key);
      forall k
        ensures WithKey(SortWith(s, cmp), key, k) == WithKey(s, key, k)
      {
        InsertLastStable(SortWith(front, cmp), Last(s), cmp, key, k);
      }
    }
  }

  /** A comparator that returns 0 for every pair leaves the order as it is. */
  lemma {:induction false} SortWithZeroComparator<T(!new)>(s: seq<T>, cmp: (T, T) -> int)
    requires forall a, b :: cmp(a, b) == 0
    ensures SortWith(s, cmp) == s
  {
    if s != [] {
      SortWithZeroComparator(s[..|s| - 1], cmp);
      assert s[..|s| - 1] + [Last(s)] == s;
    }
  }

  /** `compareSpecificity` of `sortBySpecificity`, as a value. */
  function SpecificityOrder(matches: string -> bool): (StyleRule, StyleRule) -> int
  {
    (a: StyleRule, b: StyleRule) => Compare(SpecificityOf(matches, b.selectorText), SpecificityOf(matches, a.selectorText))
  }

  /** The score of a rule's selector text against the element. */
  function RuleScore(matches: string -> bool): StyleRule -> Score
  {
    (r: StyleRule) => SpecificityOf(matches, r.selectorText)
  }

  /** The sorted rules are the collected rules, each as often as before. */
  lemma RankedKeepsRules(matches: string -> bool, rules: seq<StyleRule>)
    ensures multiset(SortWith(rules, SpecificityOrder(matches))) == multiset(rules)
    ensures |SortWith(rules, SpecificityOrder(matches))| == |rules|
  {
    SortWithPermutes(rules, SpecificityOrder(matches));
    var r := SortWith(rules, SpecificityOrder(matches));
    assert |multiset(r)| == |multiset(rules)|;
  }

  /** The sorted rules come most specific first. */
  lemma RankedBySpecificity(matches: string -> bool, rules: seq<StyleRule>)
    ensures forall i, j :: 0 <= i < j < |SortWith(rules, SpecificityOrder(matches))| ==>
      (!Below(SpecificityOf(matches, SortWith(rules, SpecificityOrder(matches))[i].selectorText),
              SpecificityOf(matches, SortWith(rules, SpecificityOrder(matches))[j].selectorText)))
  {
    SortWithRanks(rules, SpecificityOrder(matches), RuleScore(matches));
    assert Descending(SortWith(rules, SpecificityOrder(matches)), RuleScore(matches));
  }

  /** Rules of equal specificity keep the order in which the collector found them. */
  lemma RankedStably(matches: string -> bool, rules: seq<StyleRule>, k: Score)
    ensures WithKey(SortWith(rules, SpecificityOrder(matches)), RuleScore(matches), k)
      == WithKey(rules, RuleScore(matches), k)
  {
    SortWithRanks(rules, SpecificityOrder(matches), RuleScore(matches));
  }

  /** `compareSpecificity(a, b)`: the score of `b` against the score of `a`. */
  method CompareSpecificity(matches: string -> bool, a: StyleRule, b: StyleRule) returns (c: int)
    ensures c > 0 <==> Below(SpecificityOf(matches, a.selectorText), SpecificityOf(matches, b.selectorText))
    ensures c == SpecificityOrder(matches)(a, b)
  {
    var scoreB := GetSpecificityScore(matches, b.selectorText);
    var scoreA := GetSpecificityScore(matches, a.selectorText);
    c := Compare(scoreB, scoreA);
  }

  /** `sortBySpecificity(element, rules)`: `rules.sort(compareSpecificity)`, in place. */
  method SortBySpecificity(matches: string -> bool, rules: array<StyleRule>)
    modifies rules
    ensures rules[..] == SortWith(old(rules[..]), SpecificityOrder(matches))
  {
    ghost var input := rules[..];
    var i := 0;
    assert input[..0] == [];
    while i < rules.Length
      invariant 0 <= i <= rules.Length
      invariant rules[..] == SortWith(input[..i], SpecificityOrder(matches)) + input[i..]
    {
      SortWithStep(input, i, SpecificityOrder(matches));
      InsertNext(matches, rules, i);
      i := i + 1;
    }
    assert input[..i] == input;
  }

  /** The sort of a longer prefix: the next element inserted into the sort of the shorter one. */
  lemma SortWithStep<T>(s: seq<T>, i: nat, cmp: (T, T) -> int)
    requires i < |s|
    ensures SortWith(s[..i + 1], cmp) == InsertLast(SortWith(s[..i], cmp), s[i], cmp)
  {
    assert s[..i + 1][..i] == s[..i];
  }

  /**
   * One step of the sort: move `rules[i]` down past the rules of the sorted
   * prefix `rules[..i]` that the comparator puts behind it.
   */
  method InsertNext(matches: string -> bool, rules: array<StyleRule>, i: nat)
    requires i < rules.Length
    modifies rules
    ensures rules[..] == InsertLast(old(rules[..i]), old(rules[i]), SpecificityOrder(matches)) + old(rules[i + 1..])
  {
    ghost var sorted := rules[..i];
    ghost var rest := rules[i + 1..];
    var x := rules[i];
    assert rules[..] == sorted + [x] + rest;
    var j := MakeRoom(matches, SpecificityOrder(matches), rules, i, x, sorted, rest);
    Fill(sorted, rules[j], x, rest, j);
    rules[j] := x;
    InsertLastAt(sorted, x, SpecificityOrder(matches), j);
  }

  /**
   * The inner loop of the insertion: shift up, one place at a time, the
   * rules of the sorted prefix that the comparator puts behind `x`, and
   * return the index of the gap left for `x`.
   */
  method MakeRoom(matches: string -> bool, ghost cmp: (StyleRule, StyleRule) -> int, rules: array<StyleRule>, i: nat,
                  x: StyleRule, ghost sorted: seq<StyleRule>, ghost rest: seq<StyleRule>) returns (j: nat)
    requires forall a, b {:trigger SpecificityOrder(matches)(a, b)} :: cmp(a, b) == SpecificityOrder(matches)(a, b)
    requires |sorted| == i
    requires rules[..] == sorted + [x] + rest
    modifies rules
    ensures j <= i
    ensures rules[..] == sorted[..j] + [rules[j]] + sorted[j..] + rest
    ensures j == 0 || cmp(sorted[j - 1], x) <= 0
    ensures forall k :: j <= k < i ==> cmp(sorted[k], x) > 0
  {
    j := i;
    var placed := false;
    assert sorted[..j] == sorted && sorted[j..] == [];
    while j > 0 && !placed
      invariant 0 <= j <= i
      invariant rules[..] == sorted[..j] + [rules[j]] + sorted[j..] + rest
      invariant forall k :: j <= k < i ==> cmp(sorted[k], x) > 0
      invariant placed ==> j > 0 && cmp(sorted[j - 1], x) <= 0
      decreases j, !placed
    {
      var c := CompareBy(matches, cmp, rules[j - 1], x);
      assert rules[j - 1] == sorted[j - 1];
      if c <= 0 {
        placed := true;
      } else {
        ShiftStep(sorted, rules[j], rest, j);
        rules[j] := rules[j - 1];
        j := j - 1;
      }
    }
  }

  /** `compareSpecificity` seen through the comparator `cmp` it computes. */
  method CompareBy(matches: string -> bool, ghost cmp: (StyleRule, StyleRule) -> int, a: StyleRule, b: StyleRule) returns (c: int)
    requires forall a, b {:trigger SpecificityOrder(matches)(a, b)} :: cmp(a, b) == SpecificityOrder(matches)(a, b)
    ensures c == cmp(a, b)
  {
    c := CompareSpecificity(matches, a, b);
  }

  /** Copying `a[j - 1]` up into the gap at `j` moves the gap one place down. */
  lemma ShiftStep<T>(a: seq<T>, gap: T, rest: seq<T>, j: nat)
    requires 0 < j <= |a|
    ensures (a[..j] + [gap] + a[j..] + rest)[j := a[j - 1]] == a[..j - 1] + [a[j - 1]] + a[j - 1..] + rest
  {
    var s := a[..j] + [gap] + a[j..] + rest;
    assert s[j - 1] == a[j - 1];
    var t := s[j := a[j - 1]];
    forall k | 0 <= k < |t|
      ensures t[k] == (a[..j - 1] + [a[j - 1]] + a[j - 1..] + rest)[k]
    {
    }
  }

  lemma Fill<T>(a: seq<T>, gap: T, x: T, rest: seq<T>, j: nat)
    requires j <= |a|
    ensures (a[..j] + [gap] + a[j..] + rest)[j := x] == a[..j] + [x] + a[j..] + rest
  {
  }

  /** `x` lands right after the last element the comparator does not put behind it. */
  lemma {:induction false} InsertLastAt<T>(sorted: seq<T>, x: T, cmp: (T, T) -> int, j: nat)
    requires j <= |sorted|
    requires j == 0 || cmp(sorted[j - 1], x) <= 0
    requires forall k :: j <= k < |sorted| ==> cmp(sorted[k], x) > 0
    ensures InsertLast(sorted, x, cmp) == sorted[..j] + [x] + sorted[j..]
    decreases |sorted|
  {
    if j == |sorted| {
      assert sorted[..j] == sorted;
    } else {
      var front := sorted[..|sorted| - 1];
      InsertLastAt(front, x, cmp, j);
      assert front[..j] == sorted[..j];
      assert front[j..] + [Last(sorted)] == sorted[j..];
    }
  }
}
