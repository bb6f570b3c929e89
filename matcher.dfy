/** The scoring, filtering and ranking body of main.py `api_match`: the
    user's ingredients become a set of keys; each recipe's ingredients split
    into the ones the user has and the ones missing; each recipe gets an
    integer percentage, is kept or dropped by the inclusion rule, and the
    kept results are sorted stably by `(matchPercentage, matchedCount)`,
    highest first. The vector similarity of each recipe is an input. */
module Matcher {
  import opened Text
  import opened PyData
  import opened Partition
  import opened StableSort
  import opened Arith

  // ---------------------------------------------------------------------
  // The user's ingredients (main.py:199, 205)
  // ---------------------------------------------------------------------

  /** `i.strip()` is truthy. */
  predicate NotBlank(s: string) {
    |Trim(s, PythonSpace)| > 0
  }

  /** An item survives exactly when its key is not empty, so the filter may
      test either. */
  lemma NotBlankKey(s: string)
    ensures NotBlank(s) <==> |MatchKey(s)| > 0
  {
    MatchKeyIsKey(s);
  }

  /** `[str(i).lower().strip() for i in ingredients if isinstance(i, str) and i.strip()]`:
      the keys of the non-blank items (`NotBlankKey`), in input order. */
  function UserItems(ingredients: seq<string>): (items: seq<string>)
    ensures |items| <= |ingredients|
  {
    if ingredients == [] then []
    else
      var rest := UserItems(ingredients[1..]);
      var key := MatchKey(ingredients[0]);
      if |key| > 0 then [key] + rest else rest
  }

  /** Every user item is a non-empty key. */
  lemma {:induction false} UserItemsAreKeys(ingredients: seq<string>)
    ensures forall k :: 0 <= k < |UserItems(ingredients)| ==>
              |UserItems(ingredients)[k]| > 0 && IsKey(UserItems(ingredients)[k])
  {
    if ingredients != [] {
      UserItemsAreKeys(ingredients[1..]);
      MatchKeyIsKey(ingredients[0]);
    }
  }

  /** `set(user_items)` */
  function UserSet(ingredients: seq<string>): set<string> {
    set k | k in UserItems(ingredients)
  }

  lemma {:induction false} UserItemsAppend(a: seq<string>, b: seq<string>)
    ensures UserItems(a + b) == UserItems(a) + UserItems(b)
  {
    if a == [] {
      assert a + b == b;
    } else {
      assert (a + b)[1..] == a[1..] + b;
      UserItemsAppend(a[1..], b);
    }
  }

  /** A user key comes from a non-blank item, and every non-blank item's key
      is in the set. */
  lemma {:induction false} UserSetMembers(ingredients: seq<string>, k: string)
    ensures k in UserSet(ingredients) <==>
              exists i :: 0 <= i < |ingredients| && |k| > 0 && MatchKey(ingredients[i]) == k
  {
    if ingredients != [] {
      UserSetMembers(ingredients[1..], k);
      if k in UserSet(ingredients[1..]) {
        var i :| 0 <= i < |ingredients[1..]| && |k| > 0 && MatchKey(ingredients[1..][i]) == k;
        assert ingredients[i + 1] == ingredients[1..][i];
      }
      if exists i :: 0 <= i < |ingredients| && |k| > 0 && MatchKey(ingredients[i]) == k {
        var i :| 0 <= i < |ingredients| && |k| > 0 && MatchKey(ingredients[i]) == k;
        if i > 0 {
          assert ingredients[1..][i - 1] == ingredients[i];
        }
      }
    }
  }

  /** Blank input gives an empty set. */
  lemma {:induction false} BlankQuery(ingredients: seq<string>)
    requires forall i :: 0 <= i < |ingredients| ==> !NotBlank(ingredients[i])
    ensures UserSet(ingredients) == {}
  {
    if ingredients != [] {
      NotBlankKey(ingredients[0]);
      BlankQuery(ingredients[1..]);
      assert UserItems(ingredients) == UserItems(ingredients[1..]);
    }
  }

  // ---------------------------------------------------------------------
  // One recipe (main.py:207-249)
  // ---------------------------------------------------------------------

  /** `r.get("ingredients", [])`. The loader replaces a missing or non-list
      `ingredients` value by a list (main.py:100-102), so every recipe the
      matcher sees holds a list; anything else counts as no ingredients. */
  function RawIngredients(r: Dict): seq<PyValue>
  {
    if "ingredients" in r && r["ingredients"].PyList? then r["ingredients"].items else []
  }

  /** `[str(x).strip() for x in raw if isinstance(x, str)]`: the string
      entries, stripped, in order; other entries are dropped. */
  function CleanIngredients(raw: seq<PyValue>): (clean: seq<string>)
    ensures |clean| <= |raw|
  {
    if raw == [] then []
    else
      var rest := CleanIngredients(raw[1..]);
      if raw[0].PyStr? then [Trim(raw[0].s, PythonSpace)] + rest else rest
  }

  /** Every cleaned ingredient is stripped, and there is one for each string
      entry. */
  lemma {:induction false} CleanIngredientsStripped(raw: seq<PyValue>)
    ensures forall k :: 0 <= k < |CleanIngredients(raw)| ==> Stripped(CleanIngredients(raw)[k])
    ensures |CleanIngredients(raw)| == |Partition.Keep(raw, (v: PyValue) => v.PyStr?)|
  {
    if raw != [] {
      CleanIngredientsStripped(raw[1..]);
      if raw[0].PyStr? {
        TrimSpec(raw[0].s, PythonSpace);
      }
    }
  }

  /** The user has an ingredient when its key is one of theirs. */
  function Owned(userSet: set<string>): string -> bool {
    x => MatchKey(x) in userSet
  }

  /** `int((h / max(1, t)) * 100)`, taken as exact integer arithmetic:
      the floor of `100 h / max(1, t)`. */
  function ExactPct(h: nat, t: nat): (p: nat)
    requires h <= t
    ensures p <= 100
    ensures p == 100 <==> t > 0 && h == t
    ensures h == 0 ==> p == 0
  {
    var d := if t > 0 then t else 1;
    PercentQuotient(h, d);
    Quotient(100 * h, d)
  }

  /** Python `int(x)`: truncation toward zero. */
  function Trunc(x: real): (n: int)
    ensures x >= 0.0 ==> 0 <= n && n as real <= x < n as real + 1.0
    ensures x < 0.0 ==> n <= 0 && n as real - 1.0 < x <= n as real
  {
    if x >= 0.0 then x.Floor else -((-x).Floor)
  }

  /** `max(exact_pct, int(vec_score * 100))` */
  function CompositePct(exact: int, score: real): (p: int)
    ensures p >= exact
    ensures p == exact || p == Trunc(score * 100.0)
    ensures p >= Trunc(score * 100.0)
  {
    var v := Trunc(score * 100.0);
    if exact >= v then exact else v
  }

  /** The dict one included recipe contributes to `results` (main.py:238-250). */
  datatype MatchResult = MatchResult(
    id: PyValue,
    title: PyValue,
    name: PyValue,
    note: PyValue,
    ingredients: seq<string>,
    instructions: PyValue,
    hasIngredients: seq<string>,
    missingIngredients: seq<string>,
    matchPercentage: int,
    matchedCount: nat,
    totalIngredients: nat)

  /** Scores one recipe (see `ScoreRecipeSplits`). */
  function ScoreRecipe(r: Dict, score: real, userSet: set<string>): (m: MatchResult)
    ensures m.matchedCount == |m.hasIngredients| && m.totalIngredients == |m.ingredients|
  {
    var clean := CleanIngredients(RawIngredients(r));
    var has := Keep(clean, Owned(userSet));
    var missing := Drop(clean, Owned(userSet));
    MatchResult(
      Get(r, "id"),
      if Truthy(Get(r, "title")) then Get(r, "title") else Get(r, "name"),
      Get(r, "name"),
      GetOr(r, "note", PyStr("")),
      clean,
      GetOr(r, "instructions", PyList([])),
      has,
      missing,
      CompositePct(ExactPct(|has|, |clean|), score),
      |has|,
      |clean|)
  }

  /** The recipe's string ingredients split without loss into the ones the
      user has and the ones missing: an ingredient is in the first part
      exactly when its key is a user key, each part keeps recipe order, and
      weaving the parts back gives the ingredients. The percentage is at
      least the exact percentage, and the title falls back to the name. */
  lemma ScoreRecipeSplits(r: Dict, score: real, userSet: set<string>)
    ensures var m := ScoreRecipe(r, score, userSet);
            && m.ingredients == CleanIngredients(RawIngredients(r))
            && (forall x :: x in m.hasIngredients <==> x in m.ingredients && MatchKey(x) in userSet)
            && (forall x :: x in m.missingIngredients <==> x in m.ingredients && MatchKey(x) !in userSet)
            && Weave(Marks(m.ingredients, Owned(userSet)), m.hasIngredients, m.missingIngredients) == m.ingredients
            && m.matchedCount + |m.missingIngredients| == m.totalIngredients
            && m.matchPercentage >= ExactPct(m.matchedCount, m.totalIngredients)
            && m.title == if Truthy(Get(r, "title")) then Get(r, "title") else Get(r, "name")
  {
    var m := ScoreRecipe(r, score, userSet);
    var clean := m.ingredients;
    forall x ensures (x in m.hasIngredients <==> x in clean && MatchKey(x) in userSet)
                 && (x in m.missingIngredients <==> x in clean && MatchKey(x) !in userSet) {
      Members(clean, Owned(userSet), x);
    }
    SplitWeaves(clean, Owned(userSet));
    SplitCounts(clean, Owned(userSet));
  }

  /** A recipe the user owns every ingredient of scores 100 from the exact
      match alone, and with a similarity in [0, 1] no recipe scores outside
      [0, 100]. */
  lemma PercentageBounds(r: Dict, score: real, userSet: set<string>)
    ensures var m := ScoreRecipe(r, score, userSet);
            m.totalIngredients > 0 && |m.missingIngredients| == 0 ==> m.matchPercentage >= 100
    ensures 0.0 <= score <= 1.0 ==> 0 <= ScoreRecipe(r, score, userSet).matchPercentage <= 100
  {
    var m := ScoreRecipe(r, score, userSet);
    SplitCounts(m.ingredients, Owned(userSet));
    if 0.0 <= score <= 1.0 {
      assert 0.0 <= score * 100.0 <= 100.0;
    }
  }

  /** The inclusion rule (main.py:229-235). */
  predicate Included(m: MatchResult, score: real, userSet: set<string>) {
    |userSet| == 0 || m.matchedCount > 0 || score > 0.20
  }

  /** `(x["matchPercentage"], x["matchedCount"])` */
  function RankKey(m: MatchResult): Key {
    Key(m.matchPercentage, m.matchedCount)
  }

  /** The result dict of each recipe, in recipe order. */
  function Scored(recipes: seq<Dict>, scores: seq<real>, userSet: set<string>): (ms: seq<MatchResult>)
    requires |scores| == |recipes|
    ensures |ms| == |recipes|
    ensures forall i :: 0 <= i < |recipes| ==> ms[i] == ScoreRecipe(recipes[i], scores[i], userSet)
  {
    seq(|recipes|, i requires 0 <= i < |recipes| => ScoreRecipe(recipes[i], scores[i], userSet))
  }

  /** The value of `include` for each recipe, in recipe order. */
  function Decisions(recipes: seq<Dict>, scores: seq<real>, userSet: set<string>): (ds: seq<bool>)
    requires |scores| == |recipes|
    ensures |ds| == |recipes|
    ensures forall i :: 0 <= i < |recipes| ==>
              ds[i] == Included(ScoreRecipe(recipes[i], scores[i], userSet), scores[i], userSet)
  {
    seq(|recipes|, i requires 0 <= i < |recipes| =>
      Included(ScoreRecipe(recipes[i], scores[i], userSet), scores[i], userSet))
  }

  /** `results` after the loop: the result dicts of the included recipes,
      in recipe order. */
  function Results(recipes: seq<Dict>, scores: seq<real>, userSet: set<string>): seq<MatchResult>
    requires |scores| == |recipes|
  {
    Select(Scored(recipes, scores, userSet), Decisions(recipes, scores, userSet))
  }

  // ---------------------------------------------------------------------
  // api_match
  // ---------------------------------------------------------------------

  /** main.py:199-253 with `scores[i]` the vector similarity of `recipes[i]`:
      the matches are the included results, sorted by rank key highest
      first, with equal keys in recipe order. */
  method ApiMatch(ingredients: seq<string>, recipes: seq<Dict>, scores: seq<real>)
    returns (matches: seq<MatchResult>)
    requires |scores| == |recipes|
    ensures multiset(matches) == multiset(Results(recipes, scores, UserSet(ingredients)))
    ensures Descending(matches, RankKey)
    ensures SameTies(matches, Results(recipes, scores, UserSet(ingredients)), RankKey)
  {
    var userSet := UserSet(ingredients);
    var results := CollectResults(recipes, scores, userSet);
    matches := SortDescending(results, RankKey);
  }

  /** main.py:204-249: the loop over the recipes, appending the result dict
      of every included one. */
  method CollectResults(recipes: seq<Dict>, scores: seq<real>, userSet: set<string>)
    returns (results: seq<MatchResult>)
    requires |scores| == |recipes|
    ensures results == Results(recipes, scores, userSet)
  {
    results := [];
    var i := 0;
    while i < |recipes|
      invariant 0 <= i <= |recipes|
      invariant results == Select(Scored(recipes, scores, userSet)[..i], Decisions(recipes, scores, userSet)[..i])
    {
      var m := ScoreRecipe(recipes[i], scores[i], userSet);
      ResultsStep(recipes, scores, userSet, i);
      if Included(m, scores[i], userSet) {
        results := results + [m];
      }
      i := i + 1;
    }
    assert Scored(recipes, scores, userSet)[..i] == Scored(recipes, scores, userSet);
    assert Decisions(recipes, scores, userSet)[..i] == Decisions(recipes, scores, userSet);
  }

  /** Visiting recipe `i` appends its result dict exactly when it is included. */
  lemma ResultsStep(recipes: seq<Dict>, scores: seq<real>, userSet: set<string>, i: nat)
    requires |scores| == |recipes| && i < |recipes|
    ensures var all := Scored(recipes, scores, userSet);
            var marks := Decisions(recipes, scores, userSet);
            var m := ScoreRecipe(recipes[i], scores[i], userSet);
            Select(all[..i + 1], marks[..i + 1])
              == Select(all[..i], marks[..i]) + (if Included(m, scores[i], userSet) then [m] else [])
  {
    var all := Scored(recipes, scores, userSet);
    var marks := Decisions(recipes, scores, userSet);
    assert all[..i + 1] == all[..i] + [all[i]];
    assert marks[..i + 1] == marks[..i] + [marks[i]];
    SelectSnoc(all[..i], marks[..i], all[i], marks[i]);
  }

  // ---------------------------------------------------------------------
  // Properties of the results
  // ---------------------------------------------------------------------

  /** Every result comes from an included recipe. */
  lemma ResultsSound(recipes: seq<Dict>, scores: seq<real>, userSet: set<string>, k: nat)
    requires |scores| == |recipes|
    requires k < |Results(recipes, scores, userSet)|
    ensures exists i :: 0 <= i < |recipes| && Included(ScoreRecipe(recipes[i], scores[i], userSet), scores[i], userSet)
                        && Results(recipes, scores, userSet)[k] == ScoreRecipe(recipes[i], scores[i], userSet)
  {
    SelectSound(Scored(recipes, scores, userSet), Decisions(recipes, scores, userSet), k);
  }

  /** Every included recipe has its result in the output. */
  lemma ResultsComplete(recipes: seq<Dict>, scores: seq<real>, userSet: set<string>, i: nat)
    requires |scores| == |recipes|
    requires i < |recipes| && Included(ScoreRecipe(recipes[i], scores[i], userSet), scores[i], userSet)
    ensures ScoreRecipe(recipes[i], scores[i], userSet) in Results(recipes, scores, userSet)
  {
    SelectComplete(Scored(recipes, scores, userSet), Decisions(recipes, scores, userSet), i);
  }

  /** With no usable user ingredient every recipe is a result, in recipe order. */
  lemma EmptyQueryKeepsAll(recipes: seq<Dict>, scores: seq<real>, userSet: set<string>)
    requires |scores| == |recipes|
    requires userSet == {}
    ensures Results(recipes, scores, userSet) == Scored(recipes, scores, userSet)
  {
    SelectAll(Scored(recipes, scores, userSet), Decisions(recipes, scores, userSet));
  }

  /** With a non-empty query, a result either shares an ingredient with the
      user or has a similarity above 0.20. */
  lemma ResultsAreRelevant(recipes: seq<Dict>, scores: seq<real>, userSet: set<string>, k: nat)
    requires |scores| == |recipes|
    requires userSet != {} && k < |Results(recipes, scores, userSet)|
    ensures exists i :: 0 <= i < |recipes| && Results(recipes, scores, userSet)[k] == ScoreRecipe(recipes[i], scores[i], userSet)
                        && (|ScoreRecipe(recipes[i], scores[i], userSet).hasIngredients| > 0 || scores[i] > 0.20)
  {
    ResultsSound(recipes, scores, userSet, k);
  }

  /** The ranking is determined: any stable descending sort of the results
      gives exactly what `api_match` returns. */
  lemma RankingIsDetermined(ingredients: seq<string>, recipes: seq<Dict>, scores: seq<real>,
                            matches: seq<MatchResult>)
    requires |scores| == |recipes|
    requires multiset(matches) == multiset(Results(recipes, scores, UserSet(ingredients)))
    requires Descending(matches, RankKey)
    requires SameTies(matches, Results(recipes, scores, UserSet(ingredients)), RankKey)
    ensures matches == SortDescending(Results(recipes, scores, UserSet(ingredients)), RankKey)
  {
    var results := Results(recipes, scores, UserSet(ingredients));
    StableSortIsUnique(matches, SortDescending(results, RankKey), results, RankKey);
  }
}
