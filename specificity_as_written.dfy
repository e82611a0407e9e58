/**
 * The ranker as the code is written, where it departs from what it
 * evidently means:
 *
 * - `_find` returns `re ? re.length : 0`. A regular expression object is
 *   truthy and has no `length` property, so `_find` returns `undefined`,
 *   `calculateScore` returns `NaN`, `getSpecificityScore` returns 0 and the
 *   sort comparator returns 0 for every pair.
 * - With `_find` counting matches, `calculateScore` packs the triple as
 *   `parseInt(score.join(''), 10)`, the decimal digits of the three counts
 *   written one after the other. That orders scores lexicographically only
 *   while every count is at most 9.
 *
 * The rest of the model uses the evident intent: `Selectors.Find` and the
 * lexicographic order `Specificity.Below`.
 */
module SpecificityAsWritten {
  import opened Strings
  import opened Selectors
  import opened Specificity
  import opened StyleSheets
  import opened Ranking

  /** The JavaScript values that the literal ranker handles. */
  datatype JsValue = Undefined | NaN | Num(n: int)

  /** `a + b` where each side is a number or `undefined`. */
  function Add(a: JsValue, b: JsValue): JsValue
  {
    if a.Num? && b.Num? then Num(a.n + b.n) else NaN
  }

  /** `a > b`: false as soon as either side is not a number. */
  predicate Greater(a: JsValue, b: JsValue)
  {
    a.Num? && b.Num? && a.n > b.n
  }

  /** Truthiness of a number or `undefined`. */
  predicate Truthy(v: JsValue)
  {
    v.Num? && v.n != 0
  }

  /** `_find(string, re)` as written: `re` is truthy and `re.length` is `undefined`. */
  function FindAsWritten(part: string, p: Pattern): (r: JsValue)
    ensures r != Num(Find(part, p)) && !Truthy(r)
  {
    Undefined
  }

  predicate IsDigit(c: char)
  {
    '0' <= c <= '9'
  }

  /** The number written as the digits of `x` followed by the `k` digits of `y`. */
  function Appended(x: nat, y: nat, k: nat): nat
  {
    x * Pow10(k) + y
  }

  function Pow10(k: nat): (r: nat)
    ensures r >= 1
  {
    if k == 0 then 1 else 10 * Pow10(k - 1)
  }

  /** `String(n)` for a non-negative integer: its decimal digits, no leading zero. */
  function Decimal(n: nat): (s: string)
    ensures |s| >= 1
    ensures forall i :: 0 <= i < |s| ==> IsDigit(s[i])
  {
    if n < 10 then [('0' as int + n) as char]
    else Decimal(n / 10) + [('0' as int + n % 10) as char]
  }

  /** The number written by a string of decimal digits. */
  function DigitsValue(s: string): nat
    requires forall i :: 0 <= i < |s| ==> IsDigit(s[i])
  {
    if s == [] then 0
    else
      assert IsDigit(s[|s| - 1]);
      DigitsValue(s[..|s| - 1]) * 10 + (s[|s| - 1] as int - '0' as int)
  }

  /** The longest prefix of decimal digits. */
  function DigitPrefix(s: string): (r: string)
    ensures |r| <= |s| && r == s[..|r|]
    ensures forall i :: 0 <= i < |r| ==> IsDigit(r[i])
    ensures |r| < |s| ==> !IsDigit(s[|r|])
  {
    if s != [] && IsDigit(s[0]) then [s[0]] + DigitPrefix(s[1..]) else []
  }

  /** `parseInt(s, 10)` for strings without leading white space or sign. */
  function ParseInt(s: string): (r: JsValue)
    ensures r.NaN? <==> s == [] || !IsDigit(s[0])
    ensures r.Num? ==> r.n >= 0
  {
    if s != [] && IsDigit(s[0]) then Num(DigitsValue(DigitPrefix(s))) else NaN
  }

  /** `String(v)` as `Array.prototype.join` writes an element. */
  function JoinPiece(v: JsValue): (r: string)
    ensures r == [] <==> v.Undefined?
    ensures v.Num? ==> (IsDigit(r[0]) <==> v.n >= 0)
  {
    match v
    case Undefined => ""
    case NaN => "NaN"
    case Num(n) => if n >= 0 then Decimal(n) else "-" + Decimal(-n)
  }

  /** `calculateScore` as written, with `_find` returning `undefined`: always `NaN`. */
  method CalculateScoreAsWritten(selector: string) returns (r: JsValue)
    ensures r == NaN
  {
    var score := new JsValue[] [Num(0), Num(0), Num(0)];
    var parts := Split(selector, ' ');
    ghost var all := parts;
    ghost var i := 0;
    while parts != []
      invariant 0 <= i <= |all| && parts == all[i..]
      invariant score.Length == 3
      invariant i > 0 ==> score[0] == Undefined && score[1] == NaN && score[2] == NaN
      decreases |parts|
    {
      var part := parts[0];
      parts := parts[1..];
      i := i + 1;
      var found := FindAsWritten(part, PseudoElement);
      score[2] := found;
      if Truthy(found) { part := Remove(part, PseudoElement); }
      found := FindAsWritten(part, PseudoClass);
      score[1] := found;
      if Truthy(found) { part := Remove(part, PseudoClass); }
      found := FindAsWritten(part, Attribute);
      score[1] := Add(score[1], found);
      if Truthy(found) { part := Remove(part, Attribute); }
      found := FindAsWritten(part, Id);
      score[0] := found;
      if Truthy(found) { part := Remove(part, Id); }
      found := FindAsWritten(part, Class);
      score[1] := Add(score[1], found);
      if Truthy(found) { part := Remove(part, Class); }
      score[2] := Add(score[2], FindAsWritten(part, Element));
    }
    r := ParseInt(JoinPiece(score[0]) + JoinPiece(score[1]) + JoinPiece(score[2]));
  }

  /** `getSpecificityScore` as written: `NaN > result` is false, so the result stays 0. */
  method GetSpecificityScoreAsWritten(matches: string -> bool, selectorText: string) returns (result: JsValue)
    ensures result == Num(0)
  {
    var selectors := Split(selectorText, ',');
    result := Num(0);
    while selectors != [] && selectors[0] != ""
      invariant result == Num(0)
      decreases |selectors|
    {
      var selector := selectors[0];
      selectors := selectors[1..];
      if matches(selector) {
        var score := CalculateScoreAsWritten(selector);
        result := if Greater(score, result) then score else result;
      }
    }
  }

  /** `parseInt(score.join(''), 10)` for a triple of counts. */
  function Pack(t: Score): (r: JsValue)
    ensures r.Num?
  {
    ParseInt(Decimal(t.ids) + Decimal(t.classes) + Decimal(t.elements))
  }

  /** Reading back the decimal digits of `n` gives `n`. */
  lemma {:induction false} DecimalRoundTrip(n: nat)
    ensures DigitsValue(Decimal(n)) == n
  {
    if n >= 10 {
      DecimalRoundTrip(n / 10);
      var s := Decimal(n);
      assert s[..|s| - 1] == Decimal(n / 10);
    }
  }

  /** The value of two digit strings written one after the other. */
  lemma {:induction false} DigitsValueAppend(a: string, b: string)
    requires forall i :: 0 <= i < |a| ==> IsDigit(a[i])
    requires forall i :: 0 <= i < |b| ==> IsDigit(b[i])
    ensures forall i :: 0 <= i < |a + b| ==> IsDigit((a + b)[i])
    ensures DigitsValue(a + b) == Appended(DigitsValue(a), DigitsValue(b), |b|)
  {
    if b == [] {
      assert a + b == a;
    } else {
      var b' := b[..|b| - 1];
      DigitsValueAppend(a, b');
      assert (a + b)[..|a + b| - 1] == a + b';
      var d := b[|b| - 1] as int - '0' as int;
      assert b[..|b| - 1] == b';
      assert DigitsValue(b) == DigitsValue(b') * 10 + d;
      assert Pow10(|b|) == Pow10(|b'|) * 10;
      calc {
        DigitsValue(a + b);
        DigitsValue(a + b') * 10 + d;
        Appended(DigitsValue(a), DigitsValue(b'), |b'|) * 10 + d;
        (DigitsValue(a) * Pow10(|b'|) + DigitsValue(b')) * 10 + d;
        { ShiftDigit(DigitsValue(a), Pow10(|b'|), DigitsValue(b'), d); }
        DigitsValue(a) * (Pow10(|b'|) * 10) + (DigitsValue(b') * 10 + d);
        Appended(DigitsValue(a), DigitsValue(b), |b|);
      }
    }
  }

  /** Parsing three digit strings written one after the other. */
  lemma PackDigits(a: string, b: string, c: string)
    requires a != []
    requires forall i :: 0 <= i < |a| ==> IsDigit(a[i])
    requires forall i :: 0 <= i < |b| ==> IsDigit(b[i])
    requires forall i :: 0 <= i < |c| ==> IsDigit(c[i])
    ensures ParseInt(a + b + c) == Num(Appended(Appended(DigitsValue(a), DigitsValue(b), |b|), DigitsValue(c), |c|))
  {
    var s := a + b + c;
    DigitsValueAppend(a, b);
    DigitsValueAppend(a + b, c);
    DigitPrefixOfDigits(s);
    assert s[0] == a[0];
    assert ParseInt(s) == Num(DigitsValue(s));
  }

  /** One more digit on the right of a shifted value. */
  lemma ShiftDigit(x: int, p: int, y: int, d: int)
    ensures (x * p + y) * 10 + d == x * (p * 10) + (y * 10 + d)
  {
  }

  /** A string of digits is its own digit prefix. */
  lemma {:induction false} DigitPrefixOfDigits(s: string)
    requires forall i :: 0 <= i < |s| ==> IsDigit(s[i])
    ensures DigitPrefix(s) == s
  {
    if s != [] {
      DigitPrefixOfDigits(s[1..]);
    }
  }

  /** The packed score as arithmetic: each count shifted left by the digits written after it. */
  lemma PackValue(t: Score)
    ensures Pack(t) == Num(Appended(Appended(t.ids, t.classes, |Decimal(t.classes)|), t.elements, |Decimal(t.elements)|))
  {
    PackDigits(Decimal(t.ids), Decimal(t.classes), Decimal(t.elements));
    DecimalRoundTrip(t.ids);
    DecimalRoundTrip(t.classes);
    DecimalRoundTrip(t.elements);
  }

  /** Every count a single digit: the packed score is `100 * ids + 10 * classes + elements`. */
  lemma PackBelowTen(t: Score)
    requires t.ids <= 9 && t.classes <= 9 && t.elements <= 9
    ensures Pack(t) == Num(100 * t.ids + 10 * t.classes + t.elements)
  {
    PackValue(t);
  }

  /** While every count is at most 9, packed scores compare exactly as triples do. */
  lemma PackOrdersBelowTen(a: Score, b: Score)
    requires a.ids <= 9 && a.classes <= 9 && a.elements <= 9
    requires b.ids <= 9 && b.classes <= 9 && b.elements <= 9
    ensures Greater(Pack(b), Pack(a)) <==> Below(a, b)
    ensures Pack(a) == Pack(b) <==> a == b
  {
    PackBelowTen(a);
    PackBelowTen(b);
  }

  /** (0, 10, 0) and (1, 0, 0) both pack to 100, though (1, 0, 0) is the higher score. */
  lemma PackCollision()
    ensures Below(Score(0, 10, 0), Score(1, 0, 0))
    ensures Pack(Score(0, 10, 0)) == Pack(Score(1, 0, 0)) == Num(100)
  {
    PackValue(Score(0, 10, 0));
    PackValue(Score(1, 0, 0));
    assert |Decimal(0)| == 1 && |Decimal(10)| == 2;
    assert Pow10(1) == 10 && Pow10(2) == 100;
    assert Appended(Appended(0, 10, 2), 0, 1) == 100;
    assert Appended(Appended(1, 0, 1), 0, 1) == 100;
  }

  lemma PackElevenElements()
    ensures Pack(Score(0, 0, 11)) == Num(11)
  {
    assert Decimal(0) + Decimal(0) + Decimal(11) == "0011";
    DigitPrefixOfDigits("0011");
    assert "0011"[..3] == "001" && "001"[..2] == "00" && "00"[..1] == "0" && "0"[..0] == "";
    assert DigitsValue("0011") == 11;
  }

  lemma PackOneClass()
    ensures Pack(Score(0, 1, 0)) == Num(10)
  {
    assert Decimal(0) + Decimal(1) + Decimal(0) == "010";
    DigitPrefixOfDigits("010");
    assert "010"[..2] == "01" && "01"[..1] == "0" && "0"[..0] == "";
    assert DigitsValue("010") == 10;
  }

  /** (0, 0, 11) packs to 11, above the 10 of (0, 1, 0), though it is the lower score. */
  lemma PackInversion()
    ensures Below(Score(0, 0, 11), Score(0, 1, 0))
    ensures Pack(Score(0, 0, 11)) == Num(11) && Pack(Score(0, 1, 0)) == Num(10)
    ensures Greater(Pack(Score(0, 0, 11)), Pack(Score(0, 1, 0)))
  {
    PackElevenElements();
    PackOneClass();
  }

  /** `a - b` where each side is a number or `NaN`. */
  function Sub(a: JsValue, b: JsValue): JsValue
  {
    if a.Num? && b.Num? then Num(a.n - b.n) else NaN
  }

  /** `compareSpecificity(a, b)` as written: the difference of two scores that are both 0. */
  method CompareSpecificityAsWritten(matches: string -> bool, a: StyleRule, b: StyleRule) returns (c: JsValue)
    ensures c == Num(0)
  {
    var scoreB := GetSpecificityScoreAsWritten(matches, b.selectorText);
    var scoreA := GetSpecificityScoreAsWritten(matches, a.selectorText);
    c := Sub(scoreB, scoreA);
  }

  /** How `Array.prototype.sort` reads a comparator's value: `NaN` counts as +0 (ECMA-262, SortCompare). */
  function ComparatorValue(v: JsValue): int
  {
    if v.Num? then v.n else 0
  }

  /**
   * `sortBySpecificity` as written: a comparator whose every value is 0 or
   * `NaN` leaves the rules in the order the collector found them, since the
   * sort is stable.
   */
  lemma SortAsWrittenKeepsOrder(rules: seq<StyleRule>, compared: (StyleRule, StyleRule) -> JsValue)
    requires forall a, b :: compared(a, b) == Num(0) || compared(a, b) == NaN
    ensures SortWith(rules, (a, b) => ComparatorValue(compared(a, b))) == rules
  {
    SortWithZeroComparator(rules, (a, b) => ComparatorValue(compared(a, b)));
  }
}
