/** Frontend/src/components/IngredientPicker.tsx: the ingredient search box.
    Its React state (the catalog, the selected list owned by the page, the
    input text, whether the dropdown is open, the suggestions and the
    highlighted index) is a class; every handler is specified by a pure
    transition on a snapshot of that state. A handler that changes the
    input, the selection or the catalog is followed by the filtering effect
    of lines 43-55, the way React runs it after such a change. */
module Picker {
  import opened Text
  import opened Partition

  // ---------------------------------------------------------------------
  // Filtering
  // ---------------------------------------------------------------------

  /** `part` occurs in `s` at index `i`. */
  predicate OccursAt(s: string, part: string, i: nat) {
    i + |part| <= |s| && s[i..i + |part|] == part
  }

  /** `s.includes(part)` */
  predicate Contains(s: string, part: string) {
    exists i: nat :: i <= |s| && OccursAt(s, part, i)
  }

  /** `input.trim()` is falsy. */
  predicate Blank(input: string) {
    Trim(input, JsSpace) == ""
  }

  /** The test of the `filter` callback on lines 46-48. */
  predicate Suggestible(x: string, input: string, selected: seq<string>) {
    Contains(Lower(x), Lower(input)) && x !in selected
  }

  /** `allIngredients.filter(...)`, lines 45-49. */
  function Filter(catalog: seq<string>, input: string, selected: seq<string>): seq<string>
  {
    Keep(catalog, (x: string) => Suggestible(x, input, selected))
  }

  /** The suggestions are exactly the catalog items whose lower-case form
      contains the lower-cased input and that are not selected yet, in
      catalog order. */
  lemma FilterExact(catalog: seq<string>, input: string, selected: seq<string>, x: string)
    ensures x in Filter(catalog, input, selected) <==>
              x in catalog && Contains(Lower(x), Lower(input)) && x !in selected
    ensures Subsequence(Filter(catalog, input, selected), catalog)
  {
    Members(catalog, (y: string) => Suggestible(y, input, selected), x);
    KeepSubsequence(catalog, (y: string) => Suggestible(y, input, selected));
  }

  // ---------------------------------------------------------------------
  // State and transitions
  // ---------------------------------------------------------------------

  datatype State = State(
    catalog: seq<string>,
    selected: seq<string>,
    input: string,
    showSuggestions: bool,
    suggestions: seq<string>,
    highlighted: int)

  /** The state on mount: nothing loaded, nothing selected (the page starts
      with an empty list), index -1. */
  const Initial := State([], [], "", false, [], -1)

  /** The dropdown is on screen (line 143). */
  predicate DropdownShown(st: State) {
    st.showSuggestions && |st.suggestions| > 0
  }

  predicate NoDuplicates(xs: seq<string>) {
    forall i, j :: 0 <= i < j < |xs| ==> xs[i] != xs[j]
  }

  /** The state every handler keeps. */
  predicate Good(st: State) {
    NoDuplicates(st.selected) && st.highlighted >= -1
  }

  /** The effect of lines 43-55. With blank input it only closes the
      dropdown: the old suggestions stay in place. */
  function Refresh(st: State): State
  {
    if !Blank(st.input) then
      var filtered := Filter(st.catalog, st.input, st.selected);
      st.(suggestions := filtered, showSuggestions := |filtered| > 0)
    else st.(showSuggestions := false)
  }

  /** The catalog arrives from the ingredients request (lines 25-41). */
  function Load(st: State, items: seq<string>): State
  {
    Refresh(st.(catalog := items))
  }

  /** `onChange` (lines 121-124): the dropdown is asked to open, and the
      effect runs when the text changed. */
  function TypeText(st: State, v: string): State
  {
    if v == st.input then st.(showSuggestions := true)
    else Refresh(st.(input := v, showSuggestions := true))
  }

  /** `onFocus` (line 126) opens the dropdown without filtering again. */
  function Focus(st: State): State
  {
    st.(showSuggestions := true)
  }

  /** `addIngredient` (lines 57-64): a new item is appended and the input
      cleared; an item already selected changes nothing. */
  function Add(st: State, x: string): State
  {
    if x in st.selected then st
    else Refresh(st.(selected := st.selected + [x], input := "", showSuggestions := false))
  }

  /** `removeIngredient` (lines 66-68). The page receives a new array, so
      the effect runs. */
  function Remove(st: State, x: string): State
  {
    Refresh(st.(selected := Keep(st.selected, (y: string) => y != x)))
  }

  /** What Enter does (lines 73-81), in order of priority. */
  datatype EnterAction = AddItem(item: string) | Search | Nothing

  function EnterChoice(st: State): (a: EnterAction)
  {
    if 0 <= st.highlighted < |st.suggestions| then AddItem(st.suggestions[st.highlighted])
    else if |st.suggestions| > 0 then AddItem(st.suggestions[0])
    else if !Blank(st.input) then AddItem(Trim(st.input, JsSpace))
    else if |st.selected| > 0 then Search
    else Nothing
  }

  /** Lines 84-86. */
  function ArrowDown(st: State): State
  {
    st.(highlighted := if st.highlighted < |st.suggestions| - 1 then st.highlighted + 1 else st.highlighted)
  }

  /** Line 89. */
  function ArrowUp(st: State): State
  {
    st.(highlighted := if st.highlighted > 0 then st.highlighted - 1 else -1)
  }

  datatype Key = EnterKey | ArrowDownKey | ArrowUpKey | OtherKey

  /** `handleKeyDown`: the new state, and whether `onSearch` was called. */
  function KeyDown(st: State, key: Key): (State, bool)
  {
    match key
    case EnterKey =>
      (match EnterChoice(st)
       case AddItem(x) => (Add(st, x), false)
       case Search => (st, true)
       case Nothing => (st, false))
    case ArrowDownKey => (ArrowDown(st), false)
    case ArrowUpKey => (ArrowUp(st), false)
    case OtherKey => (st, false)
  }

  // ---------------------------------------------------------------------
  // Properties of the transitions
  // ---------------------------------------------------------------------

  /** With text that is not blank the suggestions are the filter result and
      the dropdown opens exactly when there is one; blank text closes it and
      leaves the suggestions as they were. Nothing else changes. */
  lemma RefreshSpec(st: State)
    ensures var r := Refresh(st);
            && r.catalog == st.catalog && r.selected == st.selected && r.input == st.input
            && r.highlighted == st.highlighted
            && (!Blank(st.input) ==> r.suggestions == Filter(st.catalog, st.input, st.selected)
                                     && (r.showSuggestions <==> |r.suggestions| > 0))
            && (Blank(st.input) ==> !DropdownShown(r) && r.suggestions == st.suggestions)
  {
  }

  /** Typing new blank or whitespace-only text closes the dropdown. */
  lemma BlankInputHides(st: State, v: string)
    requires v != st.input && Blank(v)
    ensures !DropdownShown(TypeText(st, v))
  {
  }

  /** Typing new text that is not blank shows exactly the matching, not yet
      selected catalog items, and only when there are some. */
  lemma TypedInputFilters(st: State, v: string)
    requires v != st.input && !Blank(v)
    ensures TypeText(st, v).suggestions == Filter(st.catalog, v, st.selected)
    ensures DropdownShown(TypeText(st, v)) <==> |Filter(st.catalog, v, st.selected)| > 0
  {
  }

  /** The suggestions filtered by the effect never offer a selected item. */
  lemma RefreshOffersNothingSelected(st: State, x: string)
    requires !Blank(st.input) && x in Refresh(st).suggestions
    ensures x !in st.selected && x in st.catalog
  {
    FilterExact(st.catalog, st.input, st.selected, x);
  }

  /** Adding an item already selected changes nothing; otherwise it is
      appended, the input is cleared and the dropdown closed, and the
      selection stays free of duplicates. */
  lemma AddSpec(st: State, x: string)
    requires Good(st)
    ensures x in st.selected ==> Add(st, x) == st
    ensures x !in st.selected ==>
              && Add(st, x).selected == st.selected + [x]
              && Add(st, x).input == ""
              && !Add(st, x).showSuggestions
              && Add(st, x).suggestions == st.suggestions
              && Add(st, x).highlighted == st.highlighted
    ensures Good(Add(st, x))
  {
    if x !in st.selected {
      assert Trim("", JsSpace) == "";
      var s := st.selected + [x];
      forall i, j | 0 <= i < j < |s| ensures s[i] != s[j] {
        if j == |s| - 1 {
          assert s[i] in st.selected;
        }
      }
    }
  }

  /** Removing drops every occurrence of the item and keeps the others, in
      order and as often as before, so the selection stays free of
      duplicates. */
  lemma RemoveSpec(st: State, x: string)
    requires Good(st)
    ensures x !in Remove(st, x).selected
    ensures Subsequence(Remove(st, x).selected, st.selected)
    ensures forall y :: y != x ==> multiset(Remove(st, x).selected)[y] == multiset(st.selected)[y]
    ensures Good(Remove(st, x))
  {
    var p := (y: string) => y != x;
    var r := Keep(st.selected, p);
    Members(st.selected, p, x);
    KeepSubsequence(st.selected, p);
    SplitCounts(st.selected, p);
    forall y | y != x ensures multiset(r)[y] == multiset(st.selected)[y] {
      Members(st.selected, p, y);
    }
    KeepNoDuplicates(st.selected, p);
  }

  lemma {:induction false} KeepNoDuplicates(s: seq<string>, p: string -> bool)
    requires NoDuplicates(s)
    ensures NoDuplicates(Keep(s, p))
  {
    if s != [] {
      var t := s[1..];
      assert NoDuplicates(t) by {
        forall i, j | 0 <= i < j < |t| ensures t[i] != t[j] {
          assert t[i] == s[i + 1] && t[j] == s[j + 1];
        }
      }
      KeepNoDuplicates(t, p);
      var rest := Keep(t, p);
      if p(s[0]) {
        Members(t, p, s[0]);
        assert s[0] !in t by {
          forall k | 0 <= k < |t| ensures t[k] != s[0] {
            assert t[k] == s[k + 1];
          }
        }
        var r := [s[0]] + rest;
        forall i, j | 0 <= i < j < |r| ensures r[i] != r[j] {
          if i == 0 {
            assert r[j] == rest[j - 1];
          } else {
            assert r[i] == rest[i - 1] && r[j] == rest[j - 1];
          }
        }
      }
    }
  }

  /** The arrows step the index for any state, also one whose index a
      refresh has left past the end of a shorter list: ArrowDown moves up
      only below the last suggestion and ArrowUp moves down only above 0,
      going to -1 from 0 or below. */
  lemma ArrowSteps(st: State)
    ensures st.highlighted < |st.suggestions| - 1 ==> ArrowDown(st).highlighted == st.highlighted + 1
    ensures st.highlighted >= |st.suggestions| - 1 ==> ArrowDown(st).highlighted == st.highlighted
    ensures st.highlighted > 0 ==> ArrowUp(st).highlighted == st.highlighted - 1
    ensures st.highlighted <= 0 ==> ArrowUp(st).highlighted == -1
  {
  }

  /** The arrows keep the index in [-1, len - 1] for a list of length len. */
  lemma ArrowsKeepRange(st: State)
    requires -1 <= st.highlighted <= |st.suggestions| - 1
    ensures -1 <= ArrowDown(st).highlighted <= |st.suggestions| - 1
    ensures -1 <= ArrowUp(st).highlighted <= |st.suggestions| - 1
  {
  }

  /** A refresh never resets the index, so after the suggestions shrink it
      can point past their end; Enter then falls back to the first
      suggestion. */
  lemma StaleIndexFallsBack(st: State)
    requires |Refresh(st).suggestions| > 0 && st.highlighted >= |Refresh(st).suggestions|
    ensures Refresh(st).highlighted == st.highlighted
    ensures KeyDown(Refresh(st), EnterKey) == (Add(Refresh(st), Refresh(st).suggestions[0]), false)
  {
  }

  /** Enter adds the highlighted suggestion when the index points into the
      list, else the first suggestion, else the trimmed input when it is not
      blank; otherwise it searches when something is selected and does
      nothing when not. */
  lemma EnterPriority(st: State)
    ensures 0 <= st.highlighted < |st.suggestions| ==>
              KeyDown(st, EnterKey) == (Add(st, st.suggestions[st.highlighted]), false)
    ensures !(0 <= st.highlighted < |st.suggestions|) && |st.suggestions| > 0 ==>
              KeyDown(st, EnterKey) == (Add(st, st.suggestions[0]), false)
    ensures |st.suggestions| == 0 && !Blank(st.input) ==>
              KeyDown(st, EnterKey) == (Add(st, Trim(st.input, JsSpace)), false)
    ensures KeyDown(st, EnterKey).1 <==> |st.suggestions| == 0 && Blank(st.input) && |st.selected| > 0
    ensures |st.suggestions| == 0 && Blank(st.input) ==> KeyDown(st, EnterKey).0 == st
  {
  }

  /** Every key keeps the selection free of duplicates and the index at -1
      or above; Enter either leaves the selection alone or appends one item
      that was not selected. */
  lemma KeyDownKeepsGood(st: State, key: Key)
    requires Good(st)
    ensures Good(KeyDown(st, key).0)
    ensures var r := KeyDown(st, key).0;
            r.selected == st.selected || (|r.selected| == |st.selected| + 1
                                           && r.selected[..|st.selected|] == st.selected
                                           && r.selected[|st.selected|] !in st.selected)
  {
    match EnterChoice(st)
    case AddItem(x) =>
      AddSpec(st, x);
      if x !in st.selected {
        assert (st.selected + [x])[..|st.selected|] == st.selected;
      }
    case _ =>
  }

  /** The other handlers keep the state good. */
  lemma HandlersKeepGood(st: State, items: seq<string>, v: string, x: string)
    requires Good(st)
    ensures Good(Load(st, items)) && Good(TypeText(st, v)) && Good(Focus(st))
    ensures Good(Remove(st, x))
  {
    RemoveSpec(st, x);
  }

  /** The suggestions are not cleared when the input is: after a suggestion
      has been added with Enter, the next Enter on the now empty input picks
      the same suggestion again, which is already selected, so it neither
      adds anything nor searches. */
  lemma StaleSuggestionsAfterAdd()
    ensures var st0 := Load(Initial, ["tomato"]);
            var st1 := TypeText(st0, "tom");
            var (st2, searched2) := KeyDown(st1, EnterKey);
            var (st3, searched3) := KeyDown(st2, EnterKey);
            && st1.suggestions == ["tomato"]
            && st2.selected == ["tomato"] && st2.input == "" && !searched2
            && st3 == st2 && !searched3
  {
    var st0 := Load(Initial, ["tomato"]);
    assert Trim("", JsSpace) == "";
    var st1 := TypeText(st0, "tom");
    assert Trim("tom", JsSpace) == "tom";
    assert Lower("tomato") == "tomato" && Lower("tom") == "tom";
    assert OccursAt("tomato", "tom", 0);
    assert Suggestible("tomato", "tom", []);
    assert Filter(["tomato"], "tom", []) == ["tomato"];
  }

  // ---------------------------------------------------------------------
  // The component
  // ---------------------------------------------------------------------

  class IngredientPicker {
    var catalog: seq<string>
    var selected: seq<string>
    var input: string
    var showSuggestions: bool
    var suggestions: seq<string>
    var highlighted: int

    function Snapshot(): State
      reads this
    {
      State(catalog, selected, input, showSuggestions, suggestions, highlighted)
    }

    ghost predicate Valid()
      reads this
    {
      Good(Snapshot())
    }

    constructor ()
      ensures Snapshot() == Initial && Valid()
    {
      catalog, selected, input := [], [], "";
      showSuggestions, suggestions, highlighted := false, [], -1;
    }

    /** The filtering effect. */
    method Effect()
      modifies this
      ensures Snapshot() == Refresh(old(Snapshot()))
    {
      if Trim(input, JsSpace) != "" {
        var filtered := Filter(catalog, input, selected);
        suggestions := filtered;
        showSuggestions := |filtered| > 0;
      } else {
        showSuggestions := false;
      }
    }

    method LoadCatalog(items: seq<string>)
      requires Valid()
      modifies this
      ensures Snapshot() == Load(old(Snapshot()), items) && Valid()
    {
      catalog := items;
      Effect();
    }

    method Type(v: string)
      requires Valid()
      modifies this
      ensures Snapshot() == TypeText(old(Snapshot()), v) && Valid()
    {
      if v == input {
        showSuggestions := true;
      } else {
        input := v;
        showSuggestions := true;
        Effect();
      }
    }

    method FocusInput()
      requires Valid()
      modifies this
      ensures Snapshot() == Focus(old(Snapshot())) && Valid()
    {
      showSuggestions := true;
    }

    method AddIngredient(x: string)
      requires Valid()
      modifies this
      ensures Snapshot() == Add(old(Snapshot()), x) && Valid()
    {
      AddSpec(Snapshot(), x);
      if x !in selected {
        selected := selected + [x];
        input := "";
        showSuggestions := false;
        Effect();
      }
    }

    method RemoveIngredient(x: string)
      requires Valid()
      modifies this
      ensures Snapshot() == Remove(old(Snapshot()), x) && Valid()
    {
      RemoveSpec(Snapshot(), x);
      selected := Keep(selected, (y: string) => y != x);
      Effect();
    }

    /** `handleKeyDown`; the result says whether `onSearch` was called. */
    method HandleKeyDown(key: Key) returns (searched: bool)
      requires Valid()
      modifies this
      ensures (Snapshot(), searched) == KeyDown(old(Snapshot()), key) && Valid()
    {
      KeyDownKeepsGood(Snapshot(), key);
      searched := false;
      match key
      case EnterKey =>
        if 0 <= highlighted < |suggestions| {
          AddIngredient(suggestions[highlighted]);
        } else if |suggestions| > 0 {
          AddIngredient(suggestions[0]);
        } else if Trim(input, JsSpace) != "" {
          AddIngredient(Trim(input, JsSpace));
        } else if |selected| > 0 {
          searched := true;
        }
      case ArrowDownKey =>
        highlighted := if highlighted < |suggestions| - 1 then highlighted + 1 else highlighted;
      case ArrowUpKey =>
        highlighted := if highlighted > 0 then highlighted - 1 else -1;
      case OtherKey =>
    }
  }
}
