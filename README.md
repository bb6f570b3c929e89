# Smart-Chef matching core in Dafny

Smart-Chef suggests recipes for the ingredients a user has. The Python
backend (`main.py`, `backend/utils.py`) scores every recipe against the
user's ingredients:

- it splits the recipe's ingredients into the ones the user *has* and the
  ones *missing*;
- it turns that split into a match percentage;
- it keeps the relevant recipes and ranks them.

This project models that scoring, filtering and ranking. It also models the
small deterministic routines of the React/TypeScript frontend:

- the ingredient name normaliser of the recipe modal;
- the clean-up of the AI-generated recipe details;
- the ingredient picker's state machine;
- the arithmetic of the recipe card and the match badge.

The model states and proves what each routine promises, as functions,
methods and lemmas.

| file | module | models |
|---|---|---|
| `wrappers.dfy` | `Wrappers` | `Option` and `Result` |
| `text.dfy` | `Text` | ASCII case folding, the Python `isspace` and JavaScript `\s` classes, `strip`/`trim`, `split()`, `join` |
| `partition.dfy` | `Partition` | the order-preserving pair of list comprehensions `[x for x in s if p(x)]` / `if not p(x)`, subsequences, selecting by a list of booleans |
| `stable_sort.dfy` | `StableSort` | Python's stable `sort(reverse=True)` / `sorted(..., reverse=True)`; any stable descending sort gives the same list |
| `arith.dfy` | `Arith` | integer quotient, remainder and round-half-to-even of a percentage |
| `py_data.dfy` | `PyData` | Python values of a recipe record, `dict.get`, and the comparison key `x.lower().strip()` |
| `bag_of_words.dfy` | `BagOfWords` | `text_to_vector` and the dot product and zero-magnitude guard of `cosine_similarity` |
| `matcher.dfy` | `Matcher` | the body of `api_match` |
| `simple_matcher.dfy` | `SimpleMatcher` | `calculate_matches` |
| `js_data.dfy` | `JsData` | JavaScript numbers (with `NaN` and the infinities), `Math.round`, falsy values |
| `recipe_modal.dfy` | `RecipeModal` | `normalize` and `ingredientIsMatched` |
| `recipe_details.dfy` | `RecipeDetails` | three steps of the `generate-recipe-details` edge function: the required-field check, the ingredients text and the reply clean-up |
| `picker.dfy` | `Picker` | the `IngredientPicker` component: a class with its state and handlers |
| `recipe_card.dfy` | `RecipeCard` | the card's fallback percentage, relevance and "Missing:" summary |
| `match_badge.dfy` | `MatchBadge` | the clamped badge percentage and its highlight threshold |

Choices that shape the model:

- Python's `int((h / max(1, t)) * 100)` is modelled as `floor(100 h / max(1, t))`.
- Python's `round((h / t) * 100)` is modelled as exact round-half-to-even of
  `100 h / t`.
- JavaScript's `Math.round` is `floor(x + 1/2)` on real numbers.
- Floating-point effects are listed under "Left out".
- A vector similarity `vec_score` is an input of the matcher: one real number per recipe.
- Exceptions that `calculate_matches` can raise on its input are `Failure`
  values:
  - `KeyError` for a missing `"ingredients"` key;
  - `TypeError` for a value that is not iterable;
  - `AttributeError` for an item that is not a string;
  - `ZeroDivisionError` for an empty list.
- In the picker, React runs the filtering effect (lines 43-55) after every
  handler that changes the input, the selection or the catalog. The model
  does the same.

The model follows the code, also where it does less than the frontend
expects of it:

- the backend computes no TF-IDF, fuzzy match or `relevanceScore`, although
  the frontend asks for `sort=tfidf` and reads `relevanceScore`;
- with no usable user ingredient, `api_match` returns every recipe, not an
  empty list (`Matcher.EmptyQueryKeepsAll`);
- the composite percentage is `max(exact, int(vec_score * 100))`.

## Model

| member | source | states |
|---|---|---|
| Text.ToLower | main.py:120 | lower-casing a character leaves no upper-case letter; it moves `A`-`Z` by 32 and leaves every other character alone |
| Text.Lower | main.py:120 | `lower()` keeps the length, leaves no upper-case letter, and leaves text without one unchanged |
| Text.LowerKeepsSpaces | Frontend/src/components/RecipeModal.tsx:58 | lower-casing never turns a whitespace character into a non-space or back, in either language |
| Text.TrimStartSpec | main.py:209 | the left strip removes a prefix made only of whitespace and stops at the first other character |
| Text.TrimEndSpec | main.py:209 | the right strip removes a suffix made only of whitespace and stops at the last other character |
| Text.TrimSpec | main.py:209 | `strip()` returns a slice of its input with no whitespace at either end; it is empty exactly when the input is all whitespace |
| Text.TrimUnchanged | main.py:209 | a string without whitespace at its ends is left as it is by `strip()` |
| Text.TrimIdempotent | main.py:210 | stripping twice is stripping once |
| Text.LowerTrim | main.py:210 | when lower-casing keeps whitespace, lowering then stripping equals stripping then lowering |
| Text.LowerIdempotent | main.py:210 | lower-casing twice is lower-casing once |
| Text.Words | main.py:120 | `split()` yields non-empty words that hold no whitespace |
| Text.WordsKeepText | main.py:120 | the words run together are the input with its whitespace deleted: no other character is lost or reordered |
| Text.WordsSkipSpace | main.py:120 | leading whitespace makes no word |
| Text.WordsCons | main.py:120 | a non-empty run of non-space characters followed by whitespace or the end is the next word, so neighbouring words were separated by whitespace |
| Text.WordCharsFromInput | main.py:120 | a property every character of the input has holds of every character of every word of `split()` |
| Text.NoWordsInSpace | main.py:117-120 | an all-whitespace text has no words |
| Text.OneWord | main.py:120 | a single word without whitespace splits into itself |
| Text.TrimKeepsAll | main.py:209 | a property every character has is kept by stripping |
| Text.JoinLength | Frontend/src/components/RecipeCard.tsx:58 | the text of `join(sep)` is as long as the parts plus one separator between each two neighbours; joining nothing gives "" |
| Text.JoinParts | Frontend/src/components/RecipeCard.tsx:58 | part k of `join(sep)` stands after the first k parts and k separators, a separator follows every part but the last, and the last part ends the text |
| Text.JoinSnoc | Frontend/supabase/functions/generate-recipe-details/index.ts:28 | joining one more part appends the separator and that part |
| Text.ReplaceChar | main.py:120 | `replace(a, b)` keeps the length and leaves no `a`; `b` stands exactly where `a` or `b` stood, other characters stay in place, and a text without `a` is unchanged |
| Partition.Members | main.py:213-214 | an item is in the "kept" list exactly when it is in the input and passes the test, and in the "dropped" list exactly when it fails it |
| Partition.SplitWeaves | main.py:213-214 | interleaving the two lists by the test's verdicts rebuilds the input: order is kept and nothing is lost |
| Partition.SplitCounts | main.py:213-214 | the two lists together hold every item exactly as often as the input: their lengths add up and their multisets sum to the input's |
| Partition.KeepAll | main.py:213 | keeping changes nothing, and dropping leaves nothing, exactly when every item passes |
| Partition.KeepAppend | main.py:199 | filtering a concatenation filters each part |
| Partition.KeepSubsequence | Frontend/supabase/functions/generate-recipe-details/index.ts:108 | filtering only deletes items: the result is a subsequence of the input |
| Partition.SelectSnoc | main.py:237-238 | visiting one more item appends it exactly when it is selected |
| Partition.SelectSound | main.py:237-238 | every selected output item is an input item whose mark is set |
| Partition.SelectComplete | main.py:237-238 | every input item whose mark is set is in the output |
| Partition.SelectAll | main.py:230-231 | with every mark set the output is the input |
| StableSort.Insert | main.py:253 | inserting adds exactly the one element to the multiset |
| StableSort.InsertTies | main.py:253 | inserting puts the new element ahead of the existing elements with its key, which keep their order |
| StableSort.InsertDescending | main.py:253 | inserting into a non-increasing list keeps it non-increasing |
| StableSort.SortDescending | main.py:253 | the sorted list is a permutation of its input, non-increasing by the key, with equal keys in input order |
| StableSort.HeadIsLargest | main.py:253 | the head of a non-increasing permutation has a key no element exceeds |
| StableSort.HeadsAgree | main.py:253 | two stable descending sorts of the same list start with the same element |
| StableSort.TailsAgree | main.py:253 | after a common head the tails of two stable descending sorts are again stable descending sorts of the same list |
| StableSort.StableSortIsUnique | main.py:253 | any two stable descending sorts of the same list are equal |
| Arith.QuotientBounds | main.py:224 | `n == (n // d) * d + n % d`, with the remainder below `d` |
| Arith.QuotientOfMultiple | main.py:224 | `(k d) // d == k` with remainder 0 |
| Arith.PercentQuotient | main.py:224 | `floor(100 h / d)` for `h <= d` lies in [0, 100], is 100 exactly for the whole, and is 0 for nothing |
| Arith.RoundHalfEvenNearest | backend/utils.py:10 | `round(n / d)` is within half of `n / d`, and is even on a tie |
| Arith.RoundedPercent | backend/utils.py:10-11 | `round(100 h / d)` for `h <= d` lies in [0, 100], is 100 for the whole and 0 for nothing, and is positive exactly when `200 h > d` |
| PyData.GetAfterStore | main.py:207 | `d.get(k, default)` gives what was last stored under `k`, is not changed by storing under another key, and gives the default on an empty dict; `d.get(k)` is `d.get(k, None)` |
| PyData.MatchKeyIsKey | main.py:210 | `x.lower().strip()` has no upper-case letter and no whitespace at either end; it is empty exactly when `x.strip()` is |
| PyData.KeyIsFixed | main.py:210 | a key is its own key |
| PyData.MatchKeyStable | backend/utils.py:8 | lower-then-strip equals strip-then-lower, and taking the key twice changes nothing |
| BagOfWords.TotalRemove | main.py:121-123 | the sum of the counts does not depend on the order the keys are taken in |
| BagOfWords.TotalNonNegative | main.py:121-123 | non-negative counts have a non-negative sum, which is zero exactly when every count is |
| BagOfWords.Increment | main.py:123 | `vec[w] = vec.get(w, 0) + 1` raises the total by one |
| BagOfWords.TokensAreWellFormed | main.py:120 | every word is non-empty, lower-case and free of whitespace, `,` and `.` |
| BagOfWords.OccurrencesAbsent | main.py:121-123 | a word that does not occur has no occurrences |
| BagOfWords.CountsStep | main.py:122-123 | counting one more word keeps the vector equal to the occurrence counts |
| BagOfWords.TextToVector | main.py:116-124 | no text or empty text gives the empty map; a key is present exactly when the word occurs; each count is the number of occurrences; the counts sum to the number of words |
| BagOfWords.CountWords | main.py:121-123 | the loop leaves each word's count, and the counts sum to the number of words |
| BagOfWords.VectorKeysAreTokens | main.py:120 | every key of the vector is a well-formed word |
| BagOfWords.DotSymmetric | main.py:128-131 | the dot product over the shared keys is symmetric |
| BagOfWords.DotEmpty | main.py:128-131 | the dot product with an empty vector is 0 |
| BagOfWords.SquaredMagnitude | main.py:133-134 | the squared magnitude is non-negative, and zero exactly when every count is |
| BagOfWords.DotNonNegative | main.py:128-131 | count vectors have a non-negative dot product |
| BagOfWords.DotProduct | main.py:128-131 | the loop's sum is the dot product over the keys both vectors hold |
| BagOfWords.CosineSimilarity | main.py:126-137 | a zero magnitude gives 0; a magnitude is zero exactly when every count is; otherwise the result is the dot product over the product of the magnitudes, never negative for counts |
| Matcher.NotBlankKey | main.py:199 | an item passes `i.strip()` exactly when its key is non-empty |
| Matcher.UserItems | main.py:199 | the user items are at most as many as the inputs |
| Matcher.UserItemsAreKeys | main.py:199 | every user item is a non-empty, lower-cased, stripped key |
| Matcher.UserItemsAppend | main.py:199 | the items of a concatenation are the items of each part in turn: input order is kept |
| Matcher.UserSetMembers | main.py:199-204 | a string is a user key exactly when it is the non-empty key of some input item |
| Matcher.BlankQuery | main.py:199-204 | all-blank input gives the empty user set |
| Matcher.CleanIngredients | main.py:209 | the cleaned list is at most as long as the raw one |
| Matcher.CleanIngredientsStripped | main.py:209 | every cleaned ingredient is stripped, and there is one for each string entry |
| Matcher.ExactPct | main.py:224 | the exact percentage lies in [0, 100], never divides by zero, is 100 exactly for a non-empty recipe with every ingredient matched, and is 0 with nothing matched |
| Matcher.Trunc | main.py:226 | `int(x)` truncates toward zero |
| Matcher.CompositePct | main.py:226 | the composite percentage is at least the exact one and at least `int(vec_score * 100)`, and equals one of them |
| Matcher.ScoreRecipe | main.py:248-249 | `matchedCount == len(has)` and `totalIngredients == len(recipe_ing_clean)` |
| Matcher.ScoreRecipeSplits | main.py:207-249 | has and missing split the cleaned ingredients without loss and in order; an ingredient is in has exactly when its key is a user key; the percentage is at least the exact one; the title falls back to the name |
| Matcher.PercentageBounds | main.py:224-226 | with every ingredient matched the percentage is 100 or more; with a similarity in [0, 1] it lies in [0, 100] |
| Matcher.CollectResults | main.py:203-250 | the loop appends the result dict of exactly the included recipes, in recipe order |
| Matcher.ResultsStep | main.py:237-250 | visiting a recipe appends its dict exactly when it is included |
| Matcher.ApiMatch | main.py:199-253 | the matches are a permutation of the included results, non-increasing by `(matchPercentage, matchedCount)`, with ties in recipe order |
| Matcher.ResultsSound | main.py:229-238 | every result belongs to an included recipe |
| Matcher.ResultsComplete | main.py:229-238 | every included recipe has its result in the output |
| Matcher.EmptyQueryKeepsAll | main.py:230-231 | with an empty user set every recipe is a result, in recipe order |
| Matcher.ResultsAreRelevant | main.py:233-235 | with a non-empty user set each result shares an ingredient with the user or has similarity above 0.20 |
| Matcher.RankingIsDetermined | main.py:253 | any stable descending sort of the results is exactly what `api_match` returns |
| SimpleMatcher.UserSetMembers | backend/utils.py:4 | a string is in the user set exactly when it is the key of some user item, blank ones included |
| SimpleMatcher.IngredientStringsCases | backend/utils.py:7-9 | a missing key raises `KeyError`, a non-iterable value `TypeError`, a non-string item `AttributeError`; otherwise there is one string per item (or per character of a string value) |
| SimpleMatcher.AsDict | backend/utils.py:12-17 | the entry dict keeps every original field and adds `matchPercentage`, `hasIngredients` and `missingIngredients` |
| SimpleMatcher.ScoreSplits | backend/utils.py:7-10 | has and missing split the ingredients without loss, in order, by key membership; the percentage lies in [0, 100], is 100 with nothing missing, is 0 with nothing matched, and is positive exactly when `200 h > t` |
| SimpleMatcher.CollectStep | backend/utils.py:6-17 | visiting a recipe either raises its error or appends its entry exactly when the percentage is positive |
| SimpleMatcher.CalculateMatches | backend/utils.py:3-18 | the result is the loop's first error, or else a permutation of the kept entries, non-increasing by percentage, with ties in recipe order; each returned dict is a copy of an input recipe with its positive `matchPercentage` and the two lists added |
| SimpleMatcher.Returned | backend/utils.py:11-18 | the sorted kept entries are copies of input recipes scored by `Score`, each with a positive percentage written into its dict, in non-increasing percentage order |
| SimpleMatcher.CollectFails | backend/utils.py:6-10 | the matcher fails exactly when some recipe raises |
| SimpleMatcher.CollectFirstError | backend/utils.py:6-10 | a failing matcher reports the error of the first recipe that raises, every earlier recipe having been scored |
| SimpleMatcher.CollectMembers | backend/utils.py:11 | an entry is listed exactly when its recipe scores a positive percentage |
| JsData.Round | Frontend/src/components/MatchBadge.tsx:6 | `Math.round(x)` is the integer `n` with `n - 1/2 <= x < n + 1/2` |
| MatchBadge.Clamp | Frontend/src/components/MatchBadge.tsx:6 | `max(0, min(100, n))` lies in [0, 100], is `n` inside it and the nearer end outside |
| MatchBadge.Pct | Frontend/src/components/MatchBadge.tsx:6 | the badge percentage always lies in [0, 100] |
| MatchBadge.FalsyIsZero | Frontend/src/components/MatchBadge.tsx:6 | `undefined`, `NaN` and 0 show 0 |
| MatchBadge.WholeRelevance | Frontend/src/components/MatchBadge.tsx:6 | an integer relevance shows as itself in [0, 100], 100 above and 0 below |
| MatchBadge.PctMonotone | Frontend/src/components/MatchBadge.tsx:6 | a larger relevance never shows a smaller percentage |
| MatchBadge.HighMatchThreshold | Frontend/src/components/MatchBadge.tsx:6-7 | the badge is highlighted exactly for a finite relevance of at least 79.5 or for positive infinity |
| RecipeCard.MatchPct | Frontend/src/components/RecipeCard.tsx:10-20 | a numeric `matchPercentage` is used as it is; otherwise it is 0 without ingredients and else the whole number within half of `100 hasCount / total` |
| RecipeCard.RoundedShare | Frontend/src/components/RecipeCard.tsx:20 | `Math.round((h / t) * 100)` lies within half of `100 h / t` |
| RecipeCard.RelevanceFallback | Frontend/src/components/RecipeCard.tsx:18-25 | without backend scores the badge relevance is a whole number in [0, 100] when no more ingredients are matched than listed, 0 when none is matched and 100 when all are |
| RecipeCard.Decimal | Frontend/src/components/RecipeCard.tsx:59 | the decimal text of a count is non-empty, made of digits, with no leading zero ("0" for zero) |
| RecipeCard.DecimalRoundTrip | Frontend/src/components/RecipeCard.tsx:59 | the digits written for a count read back as that count |
| RecipeCard.SummaryShape | Frontend/src/components/RecipeCard.tsx:54-59 | the box is shown exactly when something is missing; it lists all of up to three items, or the first three followed by " +N" where N reads back as the number of items left |
| RecipeCard.SummaryLength | Frontend/src/components/RecipeCard.tsx:58 | the listed part holds at most the first three items with ", " between them |
| RecipeModal.Punctuation | Frontend/src/components/RecipeModal.tsx:58 | only word characters and whitespace are left; word characters keep their places and no new one appears; word characters and whitespace are never changed |
| RecipeModal.NormalizeMissing | Frontend/src/components/RecipeModal.tsx:58 | `normalize` of `undefined` or `""` is `""` |
| RecipeModal.CollapseSpec | Frontend/src/components/RecipeModal.tsx:58 | collapsing whitespace runs leaves single-spaced normal characters, empty only for empty input, starting with a space exactly when the input starts with whitespace |
| RecipeModal.CollapseFixed | Frontend/src/components/RecipeModal.tsx:58 | single-spaced normal text is left as it is by collapsing |
| RecipeModal.TrimToCanonical | Frontend/src/components/RecipeModal.tsx:58 | trimming single-spaced normal text gives canonical text |
| RecipeModal.NormalizeIsCanonical | Frontend/src/components/RecipeModal.tsx:58 | the output holds only lower-case ASCII word characters and single spaces, with no space at either end |
| RecipeModal.CanonicalIsFixed | Frontend/src/components/RecipeModal.tsx:58 | `normalize` leaves canonical text alone |
| RecipeModal.NormalizeIdempotent | Frontend/src/components/RecipeModal.tsx:58 | `normalize(normalize(s)) == normalize(s)` |
| RecipeModal.NormalizeOfTrimmedLower | Frontend/src/components/RecipeModal.tsx:58-63 | `normalize(s)` depends on `s` only through `s.trim().toLowerCase()` |
| RecipeModal.MatchedIffSameNormal | Frontend/src/components/RecipeModal.tsx:47-64 | nothing is matched without matched ingredients; an ingredient is matched exactly when some matched name normalizes to the same string, so the second comparison is implied by the first |
| RecipeDetails.Handle | Frontend/supabase/functions/generate-recipe-details/index.ts:16-28 | a falsy `recipeName` or `ingredients` gives the 400 error and nothing else; else a missing key gives the 500 error; else the request goes on with the name and the ingredients text |
| RecipeDetails.IngredientsListShape | Frontend/supabase/functions/generate-recipe-details/index.ts:28 | an array becomes one string holding each item at its offset, ", " after every item but the last, and nothing else (one item stays as it is); any other value passes through unchanged |
| RecipeDetails.IngredientsListSnoc | Frontend/supabase/functions/generate-recipe-details/index.ts:28 | one more array item appends ", " and the item |
| RecipeDetails.EmptyArrayPasses | Frontend/supabase/functions/generate-recipe-details/index.ts:16-28 | an empty array is not falsy: it passes the check and the prompt lists no ingredients |
| RecipeDetails.CleanContent | Frontend/supabase/functions/generate-recipe-details/index.ts:96-108 | the step-by-step clean-up computes the composed clean-up, leaves no control character, and only deletes characters from the trimmed, fence-stripped text |
| RecipeDetails.StripOpeningSpec | Frontend/supabase/functions/generate-recipe-details/index.ts:97-101 | exactly one leading "```json", or else one leading "```", is removed, and only when the text starts with "```" |
| RecipeDetails.StripClosingSpec | Frontend/supabase/functions/generate-recipe-details/index.ts:102-104 | a single trailing "```" is removed exactly when present |
| RecipeDetails.RemovesAllControl | Frontend/supabase/functions/generate-recipe-details/index.ts:108 | no character in \x00-\x08, \x0B, \x0C, \x0E-\x1F or \x7F survives |
| RecipeDetails.RemoveControlOnlyDeletes | Frontend/supabase/functions/generate-recipe-details/index.ts:108 | the result is a subsequence of the input, and every other character occurs as often as before |
| RecipeDetails.KeepsLineBreaks | Frontend/supabase/functions/generate-recipe-details/index.ts:108 | tab, line feed and carriage return are all kept |
| RecipeDetails.RemoveControlIdempotent | Frontend/supabase/functions/generate-recipe-details/index.ts:108 | the removal changes a text exactly when it holds a control character, and a second pass changes nothing |
| Picker.FilterExact | Frontend/src/components/IngredientPicker.tsx:45-49 | a name is suggested exactly when it is in the catalog, its lower-case form contains the lower-cased input, and it is not selected; suggestions keep catalog order |
| Picker.RefreshSpec | Frontend/src/components/IngredientPicker.tsx:43-55 | with non-blank input the suggestions are the filter result and the dropdown opens exactly when there is one; blank input closes the dropdown and keeps the old suggestions; nothing else changes |
| Picker.BlankInputHides | Frontend/src/components/IngredientPicker.tsx:44-53 | typing blank or whitespace-only text hides the suggestions |
| Picker.TypedInputFilters | Frontend/src/components/IngredientPicker.tsx:44-51 | typing non-blank text shows exactly the filtered suggestions, and only when there are some |
| Picker.RefreshOffersNothingSelected | Frontend/src/components/IngredientPicker.tsx:45-50 | filtered suggestions are catalog items that are not selected |
| Picker.AddSpec | Frontend/src/components/IngredientPicker.tsx:57-64 | adding a selected item changes nothing; otherwise the item is appended, the input cleared and the dropdown closed, and the selection stays free of duplicates |
| Picker.RemoveSpec | Frontend/src/components/IngredientPicker.tsx:66-68 | every occurrence of the item is dropped and the others are kept in order, each as often as before |
| Picker.KeepNoDuplicates | Frontend/src/components/IngredientPicker.tsx:67 | filtering a duplicate-free list keeps it duplicate-free |
| Picker.ArrowSteps | Frontend/src/components/IngredientPicker.tsx:82-90 | for any index, ArrowDown steps up below len - 1 and stays put otherwise; ArrowUp steps down above 0 and goes to -1 otherwise |
| Picker.ArrowsKeepRange | Frontend/src/components/IngredientPicker.tsx:82-90 | from an index in [-1, len - 1] both arrows keep it there |
| Picker.StaleIndexFallsBack | Frontend/src/components/IngredientPicker.tsx:43-55 | a refresh leaves the index as it was, also past the end of shorter suggestions, and Enter then adds the first suggestion |
| Picker.EnterPriority | Frontend/src/components/IngredientPicker.tsx:71-81 | Enter adds the highlighted suggestion, else the first suggestion, else the trimmed input; otherwise it searches exactly when something is selected |
| Picker.KeyDownKeepsGood | Frontend/src/components/IngredientPicker.tsx:70-91 | every key keeps the selection free of duplicates and the index at -1 or above; Enter appends at most one new item |
| Picker.HandlersKeepGood | Frontend/src/components/IngredientPicker.tsx:25-68 | loading, typing, focusing and removing keep the selection free of duplicates and the index at -1 or above |
| Picker.StaleSuggestionsAfterAdd | Frontend/src/components/IngredientPicker.tsx:52-81 | after a suggestion is added with Enter, the suggestions are not cleared, so the next Enter on the empty input finds the same, already selected name and neither adds nor searches |
| Picker.IngredientPicker.constructor | Frontend/src/components/IngredientPicker.tsx:17-21 | the picker starts empty with index -1 |
| Picker.IngredientPicker.Effect | Frontend/src/components/IngredientPicker.tsx:43-55 | the effect updates the state as `Refresh` says |
| Picker.IngredientPicker.LoadCatalog | Frontend/src/components/IngredientPicker.tsx:25-41 | loading sets the catalog and refilters |
| Picker.IngredientPicker.Type | Frontend/src/components/IngredientPicker.tsx:121-124 | typing opens the dropdown and refilters changed text |
| Picker.IngredientPicker.FocusInput | Frontend/src/components/IngredientPicker.tsx:126 | focusing opens the dropdown without refiltering |
| Picker.IngredientPicker.AddIngredient | Frontend/src/components/IngredientPicker.tsx:57-64 | the new state is `Add` of the old one, and the state stays good |
| Picker.IngredientPicker.RemoveIngredient | Frontend/src/components/IngredientPicker.tsx:66-68 | the new state is `Remove` of the old one, and the state stays good |
| Picker.IngredientPicker.HandleKeyDown | Frontend/src/components/IngredientPicker.tsx:70-91 | the new state and whether a search was requested are `KeyDown` of the old state |

## Left out

- File and JSON I/O are not modelled: reading and writing the JSON files, loading ingredients and recipes, assigning ids, and the start-up preload (main.py:42-111, 142-158).
- The loader turns a missing or non-list `ingredients` value into a list. The matcher therefore treats any non-list value as no ingredients. It does not iterate the characters of a string (`Matcher.RawIngredients`).
- The FastAPI application, CORS, the other endpoints and the exception-to-HTTP-500 wrapper of `api_match` are transport.
- `vec_score` is an input. The float `math.sqrt` magnitudes and the float division of `cosine_similarity` are not computed. `BagOfWords.CosineSimilarity` takes the magnitudes as inputs that are the square roots of the squared magnitudes, with exact real arithmetic. The `try`/`except` around the call is not modelled.
- Matcher.CompositePct: `int(vec_score * 100)` is taken of the exact real product, where main.py multiplies floats. For the double nearest 0.35 the exact product is just below 35, so the model gives 34 where Python rounds the product to 35.0 and gives 35; the ranking can change.
- Matcher.Included: `vec_score > 0.20` compares with the exact real 1/5. The double nearest 0.2 is slightly above 1/5, so a `vec_score` equal to that double is included here and excluded by Python's float comparison.
- Matcher.ExactPct: uses the exact `floor(100 h / max(1, t))`. The float expression `int((h / t) * 100)` can be one lower, for example 28 for `h = 29, t = 100`.
- Arith.RoundHalfEven: rounds the exact `100 h / t` half to even. The float `(h / t) * 100` can land just off a half, so Python may round such a case the other way.
- RecipeCard.MatchPct: `Math.round` applies to the exact share. Float rounding of `h / t * 100` is not modelled.
- Case folding is ASCII only. `lower()` and `toLowerCase()` on other letters, and `\w` beyond ASCII, are not modelled.
- The backend has no TF-IDF, fuzzy matching or `relevanceScore`. `relevanceScore` appears only as an optional input of the frontend.
- Network and async code are not modelled: the API client, the backend status polling, the recipe modal's generation calls, the AI gateway request in `generate-recipe-details`, its 429/402 and gateway-error responses, the "No content" check, `JSON.parse` and `Deno.env` (the key is an input).
- JSON arrays in a request body are modelled with string elements only. Nested objects are opaque.
- Python dicts in a recipe hold flat values. Nested dicts are not modelled.
- The sorts are modelled on values, as a stable insertion sort on sequences. The in-place `results.sort` and the new list of `sorted` are both returned as a sorted sequence, so aliasing is not modelled.
- React rendering, JSX markup, toasts, `loading` and the disabled input, and focus handling (`inputRef.current?.focus()`) are not modelled. The picker's `onSearch` is a boolean result of the key handler.
- Markup-only components and the type declarations are used only to shape the datatypes.
