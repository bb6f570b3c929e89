/** backend/utils.py `calculate_matches`: the simpler matcher. Each recipe's
    ingredients split into the ones the user has and the ones missing, the
    recipe gets `round(100 * has / total)` per cent, the recipes with a
    positive percentage are kept, each as a copy of the recipe with three
    fields added, and the kept ones are sorted stably by percentage, highest
    first. Python's exceptions become `Failure` values. */
module SimpleMatcher {
  import opened Wrappers
  import opened Text
  import opened PyData
  import opened Partition
  import opened StableSort
  import opened Arith

  /** The exceptions `calculate_matches` can raise on its input. */
  datatype Error =
    | KeyError         // a recipe has no "ingredients" key
    | TypeError        // its "ingredients" value is not iterable
    | AttributeError   // an ingredient has no `lower` method (it is not a string)
    | ZeroDivisionError // a recipe has no ingredients

  /** `set(i.lower().strip() for i in user_ingredients)`. Blank items are
      not filtered out: they contribute the empty key. */
  function UserSet(userIngredients: seq<string>): (keys: set<string>)
  {
    set i | 0 <= i < |userIngredients| :: MatchKey(userIngredients[i])
  }

  lemma UserSetMembers(userIngredients: seq<string>, k: string)
    ensures k in UserSet(userIngredients) <==> exists i :: 0 <= i < |userIngredients| && MatchKey(userIngredients[i]) == k
  {
  }

  /** Iterating `recipe["ingredients"]` and calling `lower` on each item: a
      list of strings gives its items, a string gives its characters as
      one-character strings, anything else raises. */
  function IngredientStrings(recipe: Dict): (r: Result<seq<string>, Error>)
  {
    if "ingredients" !in recipe then Failure(KeyError)
    else
      match recipe["ingredients"]
      case PyList(items) =>
        if forall i :: 0 <= i < |items| ==> items[i].PyStr? then
          Success(seq(|items|, i requires 0 <= i < |items| && items[i].PyStr? => items[i].s))
        else Failure(AttributeError)
      case PyStr(s) => Success(seq(|s|, i requires 0 <= i < |s| => [s[i]]))
      case _ => Failure(TypeError)
  }

  /** The error cases are exactly a missing key, a non-iterable value and a
      non-string item; otherwise there is one string per item or character. */
  lemma IngredientStringsCases(recipe: Dict)
    ensures "ingredients" !in recipe <==> IngredientStrings(recipe) == Failure(KeyError)
    ensures IngredientStrings(recipe).Success? ==>
              var v := recipe["ingredients"];
              && (v.PyList? || v.PyStr?)
              && |IngredientStrings(recipe).value| == (if v.PyList? then |v.items| else |v.s|)
    ensures IngredientStrings(recipe) == Failure(TypeError) <==>
              "ingredients" in recipe && !recipe["ingredients"].PyList? && !recipe["ingredients"].PyStr?
    ensures IngredientStrings(recipe) == Failure(AttributeError) <==>
              "ingredients" in recipe && recipe["ingredients"].PyList?
              && exists i :: 0 <= i < |recipe["ingredients"].items| && !recipe["ingredients"].items[i].PyStr?
  {
  }

  /** One scored recipe: the recipe itself, its percentage and its split. */
  datatype Entry = Entry(recipe: Dict, matchPercentage: nat, has: seq<string>, missing: seq<string>)

  /** `{**recipe, "matchPercentage": ..., "hasIngredients": ..., "missingIngredients": ...}` */
  function AsDict(e: Entry): (d: Dict)
    ensures d.Keys == e.recipe.Keys + {"matchPercentage", "hasIngredients", "missingIngredients"}
    ensures forall k :: k in e.recipe && k !in {"matchPercentage", "hasIngredients", "missingIngredients"} ==> d[k] == e.recipe[k]
    ensures d["matchPercentage"] == PyInt(e.matchPercentage)
    ensures d["hasIngredients"] == PyList(Strings(e.has))
    ensures d["missingIngredients"] == PyList(Strings(e.missing))
  {
    e.recipe["matchPercentage" := PyInt(e.matchPercentage)]
            ["hasIngredients" := PyList(Strings(e.has))]
            ["missingIngredients" := PyList(Strings(e.missing))]
  }

  /** A list of Python strings. */
  function Strings(xs: seq<string>): (vs: seq<PyValue>)
    ensures |vs| == |xs| && forall i :: 0 <= i < |xs| ==> vs[i] == PyStr(xs[i])
  {
    seq(|xs|, i requires 0 <= i < |xs| => PyStr(xs[i]))
  }

  /** The user has an ingredient when its key is one of theirs. */
  function Owned(userSet: set<string>): string -> bool {
    x => MatchKey(x) in userSet
  }

  /** backend/utils.py:7-10 for one recipe. */
  function Score(recipe: Dict, userSet: set<string>): (r: Result<Entry, Error>)
  {
    match IngredientStrings(recipe)
    case Failure(e) => Failure(e)
    case Success(ings) =>
      if |ings| == 0 then Failure(ZeroDivisionError)
      else
        var has := Keep(ings, Owned(userSet));
        Success(Entry(recipe, RoundHalfEven(100 * |has|, |ings|), has, Drop(ings, Owned(userSet))))
  }

  /** A scored recipe's ingredients split without loss into the ones the
      user has and the ones missing, each in recipe order; its percentage is
      in [0, 100], 100 when every ingredient is matched, 0 when none is, and
      positive exactly when more than one in 200 ingredients is matched. */
  lemma ScoreSplits(recipe: Dict, userSet: set<string>)
    requires Score(recipe, userSet).Success?
    ensures var e := Score(recipe, userSet).value;
            var ings := IngredientStrings(recipe).value;
            && e.recipe == recipe
            && |ings| > 0
            && (forall x :: (x in e.has <==> x in ings && MatchKey(x) in userSet)
                         && (x in e.missing <==> x in ings && MatchKey(x) !in userSet))
            && Weave(Marks(ings, Owned(userSet)), e.has, e.missing) == ings
            && |e.has| + |e.missing| == |ings|
            && e.matchPercentage <= 100
            && (|e.missing| == 0 ==> e.matchPercentage == 100)
            && (|e.has| == 0 ==> e.matchPercentage == 0)
            && (e.matchPercentage > 0 <==> 200 * |e.has| > |ings|)
  {
    var ings := IngredientStrings(recipe).value;
    var e := Score(recipe, userSet).value;
    forall x ensures (x in e.has <==> x in ings && MatchKey(x) in userSet)
                 && (x in e.missing <==> x in ings && MatchKey(x) !in userSet) {
      Members(ings, Owned(userSet), x);
    }
    SplitWeaves(ings, Owned(userSet));
    SplitCounts(ings, Owned(userSet));
    RoundedPercent(|e.has|, |ings|);
  }

  /** The percentage used as the sort key `x["matchPercentage"]`. */
  function PctKey(e: Entry): Key {
    Key(e.matchPercentage, 0)
  }

  /** `matches` after the loop: the entries with a positive percentage, in
      recipe order, or the first recipe's error. */
  function Collect(recipes: seq<Dict>, userSet: set<string>): Result<seq<Entry>, Error>
  {
    if recipes == [] then Success([])
    else
      match Score(recipes[0], userSet)
      case Failure(err) => Failure(err)
      case Success(e) =>
        match Collect(recipes[1..], userSet)
        case Failure(err) => Failure(err)
        case Success(rest) => Success(if e.matchPercentage > 0 then [e] + rest else rest)
  }

  /** `done` followed by the outcome of the recipes still to visit. */
  function After(done: seq<Entry>, r: Result<seq<Entry>, Error>): Result<seq<Entry>, Error>
  {
    match r
    case Failure(err) => Failure(err)
    case Success(rest) => Success(done + rest)
  }

  /** backend/utils.py:3-18. The result is the first error a recipe raises,
      or else the entries with a positive percentage, in non-increasing
      percentage order, equal percentages in recipe order. */
  method CalculateMatches(userIngredients: seq<string>, allRecipes: seq<Dict>)
    returns (r: Result<seq<Entry>, Error>)
    ensures Collect(allRecipes, UserSet(userIngredients)).Failure? ==> r == Collect(allRecipes, UserSet(userIngredients))
    ensures Collect(allRecipes, UserSet(userIngredients)).Success? ==>
              && r.Success?
              && multiset(r.value) == multiset(Collect(allRecipes, UserSet(userIngredients)).value)
              && Descending(r.value, PctKey)
              && SameTies(r.value, Collect(allRecipes, UserSet(userIngredients)).value, PctKey)
    ensures r.Success? ==> ReturnsCopies(r.value, allRecipes, UserSet(userIngredients))
  {
    var userSet := UserSet(userIngredients);
    var matches: seq<Entry> := [];
    var i := 0;
    assert allRecipes[i..] == allRecipes;
    AfterNothing(Collect(allRecipes, userSet));
    while i < |allRecipes|
      invariant 0 <= i <= |allRecipes|
      invariant Collect(allRecipes, userSet) == After(matches, Collect(allRecipes[i..], userSet))
    {
      CollectStep(allRecipes, userSet, i);
      var scored := Score(allRecipes[i], userSet);
      if scored.Failure? {
        return Failure(scored.error);
      }
      var e := scored.value;
      var kept := if e.matchPercentage > 0 then [e] else [];
      AfterAfter(matches, kept, Collect(allRecipes[i + 1..], userSet));
      matches := matches + kept;
      i := i + 1;
    }
    assert allRecipes[i..] == [];
    assert matches + [] == matches;
    assert Collect(allRecipes, userSet).value == matches;
    var sorted := SortDescending(matches, PctKey);
    Returned(sorted, allRecipes, userSet);
    r := Success(sorted);
  }

  /** The list `calculate_matches` returns: each entry as its dict. */
  function Dicts(es: seq<Entry>): seq<Dict> {
    seq(|es|, i requires 0 <= i < |es| => AsDict(es[i]))
  }

  /** The returned dicts are copies of input recipes with their scores
      added, each with a positive `"matchPercentage"`, and the percentages
      do not increase along the list. */
  ghost predicate ReturnsCopies(es: seq<Entry>, recipes: seq<Dict>, userSet: set<string>) {
    var ds := Dicts(es);
    && (forall i :: 0 <= i < |ds| ==>
          (exists k :: 0 <= k < |recipes| && Score(recipes[k], userSet) == Success(es[i]) && es[i].recipe == recipes[k])
          && ds[i] == AsDict(es[i]) && es[i].recipe.Keys <= ds[i].Keys
          && ds[i]["matchPercentage"] == PyInt(es[i].matchPercentage) && es[i].matchPercentage > 0)
    && (forall i, j :: 0 <= i < j < |es| ==> es[i].matchPercentage >= es[j].matchPercentage)
  }

  /** A permutation of the kept entries sorted by percentage returns
      copies of the input recipes. */
  lemma Returned(es: seq<Entry>, recipes: seq<Dict>, userSet: set<string>)
    requires Collect(recipes, userSet).Success?
    requires multiset(es) == multiset(Collect(recipes, userSet).value)
    requires Descending(es, PctKey)
    ensures ReturnsCopies(es, recipes, userSet)
  {
    forall i | 0 <= i < |es|
      ensures exists k :: 0 <= k < |recipes| && Score(recipes[k], userSet) == Success(es[i]) && es[i].recipe == recipes[k]
      ensures es[i].matchPercentage > 0
    {
      assert es[i] in multiset(es);
      assert es[i] in Collect(recipes, userSet).value;
      CollectMembers(recipes, userSet, es[i]);
    }
    forall i, j | 0 <= i < j < |es| ensures es[i].matchPercentage >= es[j].matchPercentage {
      assert !Above(PctKey(es[j]), PctKey(es[i]));
    }
  }

  lemma AfterNothing(r: Result<seq<Entry>, Error>)
    ensures After([], r) == r
  {
    if r.Success? {
      assert [] + r.value == r.value;
    }
  }

  lemma AfterAfter(a: seq<Entry>, b: seq<Entry>, r: Result<seq<Entry>, Error>)
    ensures After(a, After(b, r)) == After(a + b, r)
  {
    if r.Success? {
      assert a + (b + r.value) == (a + b) + r.value;
    }
  }

  /** Visiting recipe `i`: its error ends the loop, and otherwise its entry
      is kept when its percentage is positive. */
  lemma CollectStep(recipes: seq<Dict>, userSet: set<string>, i: nat)
    requires i < |recipes|
    ensures Score(recipes[i], userSet).Failure? ==>
              Collect(recipes[i..], userSet) == Failure(Score(recipes[i], userSet).error)
    ensures Score(recipes[i], userSet).Success? ==>
              var e := Score(recipes[i], userSet).value;
              Collect(recipes[i..], userSet)
                == After(if e.matchPercentage > 0 then [e] else [], Collect(recipes[i + 1..], userSet))
  {
    assert recipes[i..][0] == recipes[i] && recipes[i..][1..] == recipes[i + 1..];
    var e := Score(recipes[i], userSet);
    if e.Success? && Collect(recipes[i + 1..], userSet).Success? && e.value.matchPercentage <= 0 {
      assert [] + Collect(recipes[i + 1..], userSet).value == Collect(recipes[i + 1..], userSet).value;
    }
  }

  /** The matcher fails exactly when some recipe fails. */
  lemma {:induction false} CollectFails(recipes: seq<Dict>, userSet: set<string>)
    ensures Collect(recipes, userSet).Failure? <==> exists i :: 0 <= i < |recipes| && Score(recipes[i], userSet).Failure?
  {
    if recipes != [] {
      CollectFails(recipes[1..], userSet);
      if Score(recipes[0], userSet).Success? {
        if exists i :: 0 <= i < |recipes| && Score(recipes[i], userSet).Failure? {
          var i :| 0 <= i < |recipes| && Score(recipes[i], userSet).Failure?;
          assert recipes[1..][i - 1] == recipes[i];
        }
      }
    }
  }

  /** A failing matcher reports the error of the first recipe that fails. */
  lemma {:induction false} CollectFirstError(recipes: seq<Dict>, userSet: set<string>)
    requires Collect(recipes, userSet).Failure?
    ensures exists i :: 0 <= i < |recipes| && Score(recipes[i], userSet) == Failure(Collect(recipes, userSet).error)
                        && forall j :: 0 <= j < i ==> Score(recipes[j], userSet).Success?
  {
    if Score(recipes[0], userSet).Failure? {
      assert Score(recipes[0], userSet) == Failure(Collect(recipes, userSet).error);
    } else {
      var tail := recipes[1..];
      CollectFirstError(tail, userSet);
      var i :| 0 <= i < |tail| && Score(tail[i], userSet) == Failure(Collect(tail, userSet).error)
               && forall j :: 0 <= j < i ==> Score(tail[j], userSet).Success?;
      forall j | 0 <= j < i + 1 ensures Score(recipes[j], userSet).Success? {
        if j > 0 {
          assert recipes[j] == tail[j - 1];
        }
      }
      assert recipes[i + 1] == tail[i];
    }
  }

  /** An entry is listed exactly when its recipe scores a positive
      percentage; so a recipe with no matched ingredient is never listed. */
  lemma {:induction false} CollectMembers(recipes: seq<Dict>, userSet: set<string>, e: Entry)
    requires Collect(recipes, userSet).Success?
    ensures e in Collect(recipes, userSet).value <==>
              exists i :: 0 <= i < |recipes| && Score(recipes[i], userSet) == Success(e) && e.matchPercentage > 0
  {
    if recipes != [] {
      CollectMembers(recipes[1..], userSet, e);
      if exists i :: 0 <= i < |recipes| && Score(recipes[i], userSet) == Success(e) && e.matchPercentage > 0 {
        var i :| 0 <= i < |recipes| && Score(recipes[i], userSet) == Success(e) && e.matchPercentage > 0;
        if i > 0 {
          assert recipes[1..][i - 1] == recipes[i];
        }
      }
      if e in Collect(recipes[1..], userSet).value {
        var i :| 0 <= i < |recipes[1..]| && Score(recipes[1..][i], userSet) == Success(e) && e.matchPercentage > 0;
        assert recipes[i + 1] == recipes[1..][i];
      }
    }
  }
}
