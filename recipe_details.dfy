/** Frontend/supabase/functions/generate-recipe-details/index.ts: the
    request check before the AI gateway is called, the ingredients text put
    into the prompt, and the cleanup of the model's reply before it is
    parsed as JSON. */
module RecipeDetails {
  import opened Wrappers
  import opened Text
  import opened Partition
  import opened JsData

  // ---------------------------------------------------------------------
  // The request
  // ---------------------------------------------------------------------

  /** How far a request gets: an error response, or on to the prompt with
      the recipe name and the ingredients text. */
  datatype Outcome =
    | Failed(status: nat, message: string)
    | Proceed(recipeName: JsValue, ingredientsList: JsValue)

  const Required := "Recipe name and ingredients are required"
  const NoKey := "LOVABLE_API_KEY not configured"

  /** `Array.isArray(ingredients) ? ingredients.join(", ") : ingredients` */
  function IngredientsList(ingredients: JsValue): JsValue
  {
    match ingredients
    case JsArray(items) => JsStr(Join(items, ", "))
    case _ => ingredients
  }

  /** The handler up to the prompt. `apiKey` is `Deno.env.get("LOVABLE_API_KEY")`;
      the missing key is thrown and answered 500 with its message by the
      `catch` block. */
  function Handle(recipeName: JsValue, ingredients: JsValue, apiKey: Option<string>): (o: Outcome)
    ensures o == Failed(400, Required) <==> Falsy(recipeName) || Falsy(ingredients)
    ensures o == Failed(500, NoKey) <==>
              !Falsy(recipeName) && !Falsy(ingredients) && (apiKey.None? || apiKey.value == "")
    ensures o.Proceed? <==>
              !Falsy(recipeName) && !Falsy(ingredients) && apiKey.Some? && apiKey.value != ""
    ensures o.Proceed? ==> o.recipeName == recipeName && o.ingredientsList == IngredientsList(ingredients)
  {
    if Falsy(recipeName) || Falsy(ingredients) then Failed(400, Required)
    else if apiKey.None? || apiKey.value == "" then Failed(500, NoKey)
    else Proceed(recipeName, IngredientsList(ingredients))
  }

  /** An array of ingredients becomes one string holding every item, in
      order, with ", " between neighbours and nothing else; a single item is
      used as it is; any other value passes through unchanged. */
  lemma IngredientsListShape(ingredients: JsValue)
    ensures !ingredients.JsArray? ==> IngredientsList(ingredients) == ingredients
    ensures ingredients.JsArray? ==> IngredientsList(ingredients).JsStr?
    ensures ingredients.JsArray? && |ingredients.items| > 0 ==>
              |IngredientsList(ingredients).s| == TotalLength(ingredients.items) + 2 * (|ingredients.items| - 1)
    ensures ingredients.JsArray? && |ingredients.items| == 1 ==>
              IngredientsList(ingredients) == JsStr(ingredients.items[0])
    ensures ingredients.JsArray? ==>
              forall k :: 0 <= k < |ingredients.items| ==>
                var o := Offset(ingredients.items, ", ", k);
                var e := o + |ingredients.items[k]|;
                var text := IngredientsList(ingredients).s;
                e <= |text| && text[o..e] == ingredients.items[k]
                && (k < |ingredients.items| - 1 ==> e + 2 <= |text| && text[e..e + 2] == ", ")
                && (k == |ingredients.items| - 1 ==> e == |text|)
  {
    if ingredients.JsArray? {
      JoinLength(ingredients.items, ", ");
      forall k | 0 <= k < |ingredients.items|
        ensures var o := Offset(ingredients.items, ", ", k);
                var e := o + |ingredients.items[k]|;
                var text := IngredientsList(ingredients).s;
                e <= |text| && text[o..e] == ingredients.items[k]
                && (k < |ingredients.items| - 1 ==> e + 2 <= |text| && text[e..e + 2] == ", ")
                && (k == |ingredients.items| - 1 ==> e == |text|)
      {
        JoinParts(ingredients.items, ", ", k);
      }
    }
  }

  /** Adding one more ingredient appends ", " and that ingredient. */
  lemma IngredientsListSnoc(items: seq<string>, x: string)
    requires |items| > 0
    ensures IngredientsList(JsArray(items + [x])).s == IngredientsList(JsArray(items)).s + ", " + x
  {
    JoinSnoc(items, x, ", ");
  }

  /** An empty array is not falsy, so it passes the check and the prompt
      lists no ingredients. */
  lemma EmptyArrayPasses(recipeName: JsValue, key: string)
    requires !Falsy(recipeName) && key != ""
    ensures Handle(recipeName, JsArray([]), Some(key)) == Proceed(recipeName, JsStr(""))
  {
  }

  // ---------------------------------------------------------------------
  // Cleaning the reply
  // ---------------------------------------------------------------------

  const Fence := "```"
  const JsonFence := "```json"

  predicate StartsWith(s: string, prefix: string) {
    |prefix| <= |s| && s[..|prefix|] == prefix
  }

  predicate EndsWith(s: string, suffix: string) {
    |suffix| <= |s| && s[|s| - |suffix|..] == suffix
  }

  /** Lines 97-101: a leading "```json", or else a leading "```", is cut off. */
  function StripOpening(s: string): string
  {
    if StartsWith(s, JsonFence) then s[7..]
    else if StartsWith(s, Fence) then s[3..]
    else s
  }

  /** Lines 102-104: a trailing "```" is cut off. */
  function StripClosing(s: string): string
  {
    if EndsWith(s, Fence) then s[..|s| - 3] else s
  }

  /** The characters of `/[\x00-\x08\x0B\x0C\x0E-\x1F\x7F]/`: the C0 controls
      and DEL, except tab, line feed and carriage return. */
  predicate IsControl(c: char) {
    var n := c as int;
    n <= 8 || n == 11 || n == 12 || (14 <= n <= 31) || n == 127
  }

  /** `s.replace(/[\x00-\x08\x0B\x0C\x0E-\x1F\x7F]/g, '')` */
  function RemoveControl(s: string): string
  {
    Keep(s, (c: char) => !IsControl(c))
  }

  predicate ControlFree(s: string) {
    forall i :: 0 <= i < |s| ==> !IsControl(s[i])
  }

  /** The whole cleanup of lines 96-108. */
  function CleanedContent(content: string): string
  {
    RemoveControl(Trim(StripClosing(StripOpening(Trim(content, JsSpace))), JsSpace))
  }

  /** The handler's cleanup, rebinding `cleanContent` step by step. */
  method CleanContent(content: string) returns (clean: string)
    ensures clean == CleanedContent(content)
    ensures ControlFree(clean)
    ensures Subsequence(clean, Trim(StripClosing(StripOpening(Trim(content, JsSpace))), JsSpace))
  {
    clean := Trim(content, JsSpace);
    if StartsWith(clean, JsonFence) {
      clean := clean[7..];
    } else if StartsWith(clean, Fence) {
      clean := clean[3..];
    }
    if EndsWith(clean, Fence) {
      clean := clean[..|clean| - 3];
    }
    clean := Trim(clean, JsSpace);
    RemovesAllControl(clean);
    KeepSubsequence(clean, (c: char) => !IsControl(c));
    clean := RemoveControl(clean);
  }

  /** At most one opening fence is removed: what is cut off is exactly
      "```json" or exactly "```", it is cut off exactly when the text starts
      with "```", and "```json" wins over "```". */
  lemma StripOpeningSpec(s: string)
    ensures var r := StripOpening(s);
            && |r| <= |s| && s == s[..|s| - |r|] + r
            && (|r| < |s| <==> StartsWith(s, Fence))
            && (|r| < |s| ==> s[..|s| - |r|] == JsonFence || s[..|s| - |r|] == Fence)
            && (StartsWith(s, JsonFence) ==> s[..|s| - |r|] == JsonFence)
  {
    var r := StripOpening(s);
    if StartsWith(s, JsonFence) {
      assert s[..3] == JsonFence[..3] == Fence;
    }
    assert s == s[..|s| - |r|] + r;
  }

  /** The closing fence is cut off exactly when the text ends with one, and
      then only that one. */
  lemma StripClosingSpec(s: string)
    ensures var r := StripClosing(s);
            && |r| <= |s| && s[..|r|] == r
            && (|r| < |s| <==> EndsWith(s, Fence))
            && (|r| < |s| ==> s == r + Fence)
  {
    var r := StripClosing(s);
    if EndsWith(s, Fence) {
      assert s == s[..|s| - 3] + s[|s| - 3..];
    }
  }

  /** No control character survives the removal. */
  lemma RemovesAllControl(s: string)
    ensures ControlFree(RemoveControl(s))
  {
    var r := RemoveControl(s);
    forall i | 0 <= i < |r| ensures !IsControl(r[i]) {
      Members(s, (c: char) => !IsControl(c), r[i]);
    }
  }

  /** The removal only deletes: the result is a subsequence of the input,
      and every character that is not a control character, tab, line feed
      and carriage return among them, occurs as often as before. */
  lemma RemoveControlOnlyDeletes(s: string, c: char)
    requires !IsControl(c)
    ensures Subsequence(RemoveControl(s), s)
    ensures multiset(RemoveControl(s))[c] == multiset(s)[c]
  {
    var p := (c: char) => !IsControl(c);
    KeepSubsequence(s, p);
    SplitCounts(s, p);
    Members(s, p, c);
    assert c !in multiset(Drop(s, p));
  }

  /** Tab, line feed and carriage return are kept. */
  lemma KeepsLineBreaks(s: string)
    ensures multiset(RemoveControl(s))['\t'] == multiset(s)['\t']
    ensures multiset(RemoveControl(s))['\n'] == multiset(s)['\n']
    ensures multiset(RemoveControl(s))['\r'] == multiset(s)['\r']
  {
    RemoveControlOnlyDeletes(s, '\t');
    RemoveControlOnlyDeletes(s, '\n');
    RemoveControlOnlyDeletes(s, '\r');
  }

  /** The removal changes a text exactly when it holds a control character,
      so applying it twice changes nothing more. */
  lemma RemoveControlIdempotent(s: string)
    ensures RemoveControl(s) == s <==> ControlFree(s)
    ensures RemoveControl(RemoveControl(s)) == RemoveControl(s)
  {
    var p := (c: char) => !IsControl(c);
    KeepAll(s, p);
    RemovesAllControl(s);
    KeepAll(RemoveControl(s), p);
  }
}
