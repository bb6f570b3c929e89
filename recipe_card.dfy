/** Frontend/src/components/RecipeCard.tsx: the progress-bar percentage, the
    badge relevance and the "Missing:" summary line of a recipe card. */
module RecipeCard {
  import opened Wrappers
  import opened Text
  import opened JsData

  /** The fields of a `RecipeMatch` the card reads; every one is optional. */
  datatype Card = Card(
    ingredients: Option<seq<string>>,
    hasIngredients: Option<seq<string>>,
    missingIngredients: Option<seq<string>>,
    matchPercentage: Option<JsNumber>,
    relevanceScore: Option<JsNumber>)

  /** `xs || []` */
  function OrEmpty(xs: Option<seq<string>>): seq<string> {
    match xs case None => [] case Some(l) => l
  }

  /** `matchPct`: the backend's number when there is one (`typeof` is
      "number", which includes `NaN`), otherwise the rounded share of matched
      ingredients, and 0 for a recipe without ingredients. */
  function MatchPct(c: Card): (pct: JsNumber)
    ensures c.matchPercentage.Some? ==> pct == c.matchPercentage.value
    ensures c.matchPercentage == None && |OrEmpty(c.ingredients)| == 0 ==> pct == Finite(0.0)
    ensures c.matchPercentage == None && |OrEmpty(c.ingredients)| > 0 ==>
              pct.Finite? && pct.x.Floor as real == pct.x
              && pct.x - 0.5
                 <= (100 * |OrEmpty(c.hasIngredients)|) as real / |OrEmpty(c.ingredients)| as real
                 < pct.x + 0.5
  {
    var total := |OrEmpty(c.ingredients)|;
    var hasCount := |OrEmpty(c.hasIngredients)|;
    match c.matchPercentage
    case Some(n) => n
    case None =>
      if total == 0 then Finite(0.0)
      else
        var share := (hasCount as real / total as real) * 100.0;
        var r := Round(share);
        RoundedShare(hasCount, total, r);
        Finite(r as real)
  }

  /** `Math.round((h / t) * 100)` is the integer within half of `100 h / t`,
      halves rounded up. */
  lemma RoundedShare(h: nat, t: nat, r: int)
    requires t > 0 && r == Round((h as real / t as real) * 100.0)
    ensures r as real - 0.5 <= (100 * h) as real / t as real < r as real + 0.5
  {
    ScaleQuotient(h as real, t as real, 100.0);
    assert (h as real) * 100.0 == (100 * h) as real;
  }

  /** `(x / y) * k == (x * k) / y` */
  lemma ScaleQuotient(x: real, y: real, k: real)
    requires y > 0.0
    ensures (x / y) * k == (x * k) / y
  {
    var q, p := x / y, (x * k) / y;
    assert q * y == x;
    assert p * y == x * k;
    assert (q * k) * y == (q * y) * k;
    Cancel(q * k, p, y);
  }

  lemma Cancel(a: real, b: real, c: real)
    requires c > 0.0 && a * c == b * c
    ensures a == b
  {
    assert (a - b) * c == 0.0;
  }

  /** `relevance`: the relevance score when there is one, else `matchPct`. */
  function Relevance(c: Card): (r: JsNumber)
    ensures c.relevanceScore.Some? ==> r == c.relevanceScore.value
    ensures c.relevanceScore == None ==> r == MatchPct(c)
  {
    match c.relevanceScore
    case Some(n) => n
    case None => MatchPct(c)
  }

  /** Without scores from the backend, the badge shows the rounded share of
      matched ingredients: a whole number in [0, 100] when no more
      ingredients are matched than listed, 100 when every listed one is and
      0 when none is. */
  lemma RelevanceFallback(c: Card)
    requires c.relevanceScore == None && c.matchPercentage == None
    requires |OrEmpty(c.hasIngredients)| <= |OrEmpty(c.ingredients)|
    ensures Relevance(c).Finite?
    ensures var r := Relevance(c).x; r.Floor as real == r && 0.0 <= r <= 100.0
    ensures |OrEmpty(c.hasIngredients)| == 0 ==> Relevance(c) == Finite(0.0)
    ensures 0 < |OrEmpty(c.hasIngredients)| == |OrEmpty(c.ingredients)| ==> Relevance(c) == Finite(100.0)
  {
    var h, t := |OrEmpty(c.hasIngredients)|, |OrEmpty(c.ingredients)|;
    if t > 0 {
      var r := MatchPct(c).x;
      var q := (100 * h) as real / t as real;
      ShareBounds(h, t);
      assert r - 0.5 <= q < r + 0.5;
      assert r.Floor as real == r;
    }
  }

  /** `100 h / t` lies in [0, 100] for `h <= t`, at the ends exactly for
      `h == 0` and `h == t`. */
  lemma ShareBounds(h: nat, t: nat)
    requires 0 < t && h <= t
    ensures var q := (100 * h) as real / t as real;
            0.0 <= q <= 100.0 && (h == 0 ==> q == 0.0) && (h == t ==> q == 100.0)
  {
    var q := (100 * h) as real / t as real;
    assert q * t as real == (100 * h) as real;
    assert (100 * h) as real <= 100.0 * t as real;
  }

  /** The decimal digits of `n`, as `${n}` writes them: digits only, with
      no leading zero. */
  function Decimal(n: nat): (s: string)
    ensures |s| > 0
    ensures forall i :: 0 <= i < |s| ==> '0' <= s[i] <= '9'
    ensures n > 0 ==> s[0] != '0'
    ensures n == 0 ==> s == "0"
    decreases n
  {
    var d := ['0' + (n % 10) as char];
    if n < 10 then d else Decimal(n / 10) + d
  }

  /** Reads decimal digits back. */
  function DigitsValue(s: string): nat
    requires forall i :: 0 <= i < |s| ==> '0' <= s[i] <= '9'
  {
    if s == [] then 0 else 10 * DigitsValue(s[..|s| - 1]) + (s[|s| - 1] as int - '0' as int)
  }

  /** The digits written for `n` read back as `n`, so the count after `+` in
      the summary is the number of items not listed. */
  lemma {:induction false} DecimalRoundTrip(n: nat)
    ensures DigitsValue(Decimal(n)) == n
    decreases n
  {
    var s := Decimal(n);
    if n >= 10 {
      DecimalRoundTrip(n / 10);
      assert s[..|s| - 1] == Decimal(n / 10);
    }
  }

  /** The "Missing:" box: absent when nothing is missing, otherwise the first
      three missing items joined by ", ", then " +N" when N more are
      missing. */
  function MissingSummary(c: Card): (r: Option<string>)
  {
    var missing := OrEmpty(c.missingIngredients);
    if |missing| == 0 then None
    else
      var shown := if |missing| <= 3 then missing else missing[..3];
      Some(Join(shown, ", ") + (if |missing| > 3 then " +" + Decimal(|missing| - 3) else ""))
  }

  /** The box is shown exactly when something is missing. With at most three
      missing items it lists all of them; with more it lists the first three
      and then a count that reads back as the number of the rest. */
  lemma SummaryShape(c: Card)
    ensures MissingSummary(c).Some? <==> |OrEmpty(c.missingIngredients)| > 0
    ensures var missing := OrEmpty(c.missingIngredients);
            0 < |missing| <= 3 ==> MissingSummary(c) == Some(Join(missing, ", "))
    ensures var missing := OrEmpty(c.missingIngredients);
            |missing| > 3 ==>
              exists count: string ::
                && MissingSummary(c) == Some(Join(missing[..3], ", ") + " +" + count)
                && (forall i :: 0 <= i < |count| ==> '0' <= count[i] <= '9')
                && 3 + DigitsValue(count) == |missing|
  {
    var missing := OrEmpty(c.missingIngredients);
    if |missing| > 3 {
      var count := Decimal(|missing| - 3);
      DecimalRoundTrip(|missing| - 3);
      var listed := Join(missing[..3], ", ");
      assert listed + (" +" + count) == listed + " +" + count;
      assert MissingSummary(c) == Some(listed + " +" + count);
    } else if |missing| > 0 {
      assert Join(missing, ", ") + "" == Join(missing, ", ");
    }
  }

  /** The listed part never mentions more than three items: it holds at most
      two separators plus the items' own text. */
  lemma SummaryLength(c: Card)
    requires |OrEmpty(c.missingIngredients)| > 0
    ensures var missing := OrEmpty(c.missingIngredients);
            var shown := if |missing| <= 3 then missing else missing[..3];
            |shown| <= 3 && shown == missing[..|shown|]
            && |Join(shown, ", ")| == TotalLength(shown) + 2 * (|shown| - 1)
  {
    var missing := OrEmpty(c.missingIngredients);
    var shown := if |missing| <= 3 then missing else missing[..3];
    JoinLength(shown, ", ");
  }
}
