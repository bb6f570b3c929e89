/** Frontend/src/components/RecipeModal.tsx `normalize` and
    `ingredientIsMatched`: the ingredient names of a recipe are compared with
    the ones the backend matched after folding case, turning punctuation
    into spaces and collapsing runs of whitespace. */
module RecipeModal {
  import opened Wrappers
  import opened Text

  /** A character of the JavaScript class `\w`. */
  predicate IsWordChar(c: char) {
    ('a' <= c <= 'z') || ('A' <= c <= 'Z') || ('0' <= c <= '9') || c == '_'
  }

  /** What `normalize` can leave: a lower-case word character or a space. */
  predicate NormalChar(c: char) {
    c == ' ' || ('a' <= c <= 'z') || ('0' <= c <= '9') || c == '_'
  }

  /** Word characters are not whitespace. */
  lemma WordCharIsNotSpace(c: char)
    requires IsWordChar(c)
    ensures !JsSpace(c)
  {
  }

  /** `s.replace(/[^\w\s]/g, " ")`: only word characters and whitespace are
      left; word characters stay exactly where they were, every other
      position holds whitespace, and text made of word characters and
      whitespace is left alone. */
  function Punctuation(s: string): (r: string)
    ensures |r| == |s|
    ensures forall i :: 0 <= i < |r| ==> IsWordChar(r[i]) || JsSpace(r[i])
    ensures forall i :: 0 <= i < |s| ==> (IsWordChar(r[i]) <==> IsWordChar(s[i]))
    ensures forall i :: 0 <= i < |s| ==> IsWordChar(s[i]) || JsSpace(s[i]) ==> r[i] == s[i]
    ensures (forall i :: 0 <= i < |s| ==> IsWordChar(s[i]) || JsSpace(s[i])) ==> r == s
  {
    seq(|s|, i requires 0 <= i < |s| => if IsWordChar(s[i]) || JsSpace(s[i]) then s[i] else ' ')
  }

  /** `s.replace(/\s+/g, " ")`: every maximal run of whitespace becomes one space. */
  function Collapse(s: string): string
    decreases |s|
  {
    if s == [] then []
    else if JsSpace(s[0]) then
      TrimStartSpec(s[1..], JsSpace);
      [' '] + Collapse(TrimStart(s[1..], JsSpace))
    else [s[0]] + Collapse(s[1..])
  }

  /** No two neighbouring spaces. */
  predicate SingleSpaced(s: string) {
    forall i :: 0 <= i < |s| - 1 ==> !(s[i] == ' ' && s[i + 1] == ' ')
  }

  /** The strings `normalize` produces: lower-case word characters separated
      by single spaces, with none at either end. */
  predicate Canonical(s: string) {
    AllChars(s, NormalChar) && SingleSpaced(s) && (s == [] || (s[0] != ' ' && s[|s| - 1] != ' '))
  }

  /** `(s || "").toLowerCase().trim().replace(/[^\w\s]/g, " ").replace(/\s+/g, " ").trim()` */
  function Normalize(s: Option<string>): string
  {
    var text := match s case None => "" case Some(t) => t;
    Clean(Trim(Lower(text), JsSpace))
  }

  /** The last three steps of `normalize`. */
  function Clean(t: string): string
  {
    Trim(Collapse(Punctuation(t)), JsSpace)
  }

  lemma NormalizeMissing()
    ensures Normalize(None) == "" && Normalize(Some("")) == ""
  {
    assert Lower("") == "";
  }

  /** Collapsing a string of whitespace and normal characters leaves normal
      characters, single-spaced, starting with a space exactly when the input
      starts with whitespace. */
  lemma {:induction false} CollapseSpec(s: string)
    requires forall i :: 0 <= i < |s| ==> JsSpace(s[i]) || NormalChar(s[i])
    ensures AllChars(Collapse(s), NormalChar) && SingleSpaced(Collapse(s))
    ensures |Collapse(s)| == 0 <==> |s| == 0
    ensures |s| > 0 ==> (Collapse(s)[0] == ' ' <==> JsSpace(s[0]))
    decreases |s|
  {
    if s != [] {
      var c := Collapse(s);
      if JsSpace(s[0]) {
        var t := TrimStart(s[1..], JsSpace);
        TrimStartSpec(s[1..], JsSpace);
        forall i | 0 <= i < |t| ensures JsSpace(t[i]) || NormalChar(t[i]) {
          assert t[i] == s[|s| - |t| + i];
        }
        CollapseSpec(t);
        assert c == [' '] + Collapse(t);
        if |t| > 0 {
          assert !JsSpace(t[0]);
        }
      } else {
        var t := s[1..];
        forall i | 0 <= i < |t| ensures JsSpace(t[i]) || NormalChar(t[i]) {
          assert t[i] == s[i + 1];
        }
        CollapseSpec(t);
        assert c == [s[0]] + Collapse(t);
      }
    }
  }

  /** A canonical body is left as it is by collapsing. */
  lemma {:induction false} CollapseFixed(s: string)
    requires AllChars(s, NormalChar) && SingleSpaced(s)
    ensures Collapse(s) == s
    decreases |s|
  {
    if s != [] {
      var t := s[1..];
      assert AllChars(t, NormalChar) && SingleSpaced(t) by {
        forall i | 0 <= i < |t| ensures NormalChar(t[i]) {
          assert t[i] == s[i + 1];
        }
        forall i | 0 <= i < |t| - 1 ensures !(t[i] == ' ' && t[i + 1] == ' ') {
          assert t[i] == s[i + 1] && t[i + 1] == s[i + 2];
        }
      }
      if s[0] == ' ' {
        if t != [] {
          assert t[0] == s[1] && s[1] != ' ';
          assert !JsSpace(t[0]);
        }
        assert TrimStart(t, JsSpace) == t;
      } else {
        assert !JsSpace(s[0]);
      }
      CollapseFixed(t);
      assert s == [s[0]] + t;
    }
  }

  lemma SingleSpacedSlice(s: string, a: nat, b: nat)
    requires SingleSpaced(s) && a <= b <= |s|
    ensures SingleSpaced(s[a..b])
  {
    var t := s[a..b];
    forall i | 0 <= i < |t| - 1 ensures !(t[i] == ' ' && t[i + 1] == ' ') {
      assert t[i] == s[a + i] && t[i + 1] == s[a + i + 1];
    }
  }

  /** Trimming a single-spaced string of normal characters makes it canonical. */
  lemma TrimToCanonical(s: string)
    requires AllChars(s, NormalChar) && SingleSpaced(s)
    ensures Canonical(Trim(s, JsSpace))
  {
    TrimSpec(s, JsSpace);
    TrimKeepsAll(s, JsSpace, NormalChar);
    var k := |s| - |TrimStart(s, JsSpace)|;
    SingleSpacedSlice(s, k, k + |Trim(s, JsSpace)|);
  }

  /** Every result of `normalize` is canonical: only lower-case word
      characters and single spaces, no space at either end. */
  lemma NormalizeIsCanonical(s: Option<string>)
    ensures Canonical(Normalize(s))
  {
    var text := match s case None => "" case Some(t) => t;
    var lowered := Lower(text);
    var lowerCase := (c: char) => !IsUpper(c);
    assert AllChars(lowered, lowerCase);
    var trimmed := Trim(lowered, JsSpace);
    TrimKeepsAll(lowered, JsSpace, lowerCase);
    var p := Punctuation(trimmed);
    forall i | 0 <= i < |p| ensures JsSpace(p[i]) || NormalChar(p[i]) {
      assert !IsUpper(trimmed[i]);
    }
    CollapseSpec(p);
    TrimToCanonical(Collapse(p));
  }

  /** `normalize` leaves a canonical string alone. */
  lemma CanonicalIsFixed(s: string)
    requires Canonical(s)
    ensures Normalize(Some(s)) == s
  {
    assert Lower(s) == s;
    if s != [] {
      assert !JsSpace(s[0]) && !JsSpace(s[|s| - 1]);
    }
    TrimUnchanged(s, JsSpace);
    assert Punctuation(s) == s;
    CollapseFixed(s);
  }

  /** `normalize(normalize(s)) == normalize(s)` */
  lemma NormalizeIdempotent(s: Option<string>)
    ensures Normalize(Some(Normalize(s))) == Normalize(s)
  {
    NormalizeIsCanonical(s);
    CanonicalIsFixed(Normalize(s));
  }

  /** `hasIngredientsList.some(h => normalize(h) === normalize(orig) ||
      (h || "").trim().toLowerCase() === (orig || "").trim().toLowerCase())`,
      where `hasIngredientsList` is `hasIngredients || []`. */
  function IngredientIsMatched(hasIngredients: Option<seq<string>>, orig: string): bool
  {
    var list := match hasIngredients case None => [] case Some(l) => l;
    exists i :: 0 <= i < |list| &&
      (Normalize(Some(list[i])) == Normalize(Some(orig))
       || Lower(Trim(list[i], JsSpace)) == Lower(Trim(orig, JsSpace)))
  }

  /** `normalize` depends only on `s.trim().toLowerCase()`. */
  lemma NormalizeOfTrimmedLower(s: string)
    ensures Normalize(Some(s)) == Clean(Lower(Trim(s, JsSpace)))
  {
    forall c ensures JsSpace(ToLower(c)) == JsSpace(c) {
      LowerKeepsSpaces(c);
    }
    LowerTrim(s, JsSpace);
  }

  /** Nothing is matched when the backend matched nothing, and the second
      comparison adds nothing to the first: an ingredient is matched exactly
      when some matched name normalizes to the same string. */
  lemma MatchedIffSameNormal(hasIngredients: Option<seq<string>>, orig: string)
    ensures (hasIngredients == None || hasIngredients == Some([])) ==> !IngredientIsMatched(hasIngredients, orig)
    ensures IngredientIsMatched(hasIngredients, orig) <==>
              hasIngredients.Some?
              && (exists i :: 0 <= i < |hasIngredients.value|
                               && Normalize(Some(hasIngredients.value[i])) == Normalize(Some(orig)))
  {
    if IngredientIsMatched(hasIngredients, orig) {
      var list := hasIngredients.value;
      var i :| 0 <= i < |list| &&
        (Normalize(Some(list[i])) == Normalize(Some(orig))
         || Lower(Trim(list[i], JsSpace)) == Lower(Trim(orig, JsSpace)));
      NormalizeOfTrimmedLower(orig);
      NormalizeOfTrimmedLower(list[i]);
      assert Normalize(Some(list[i])) == Normalize(Some(orig));
    }
    if hasIngredients.Some? && exists i :: 0 <= i < |hasIngredients.value|
                                && Normalize(Some(hasIngredients.value[i])) == Normalize(Some(orig)) {
      var list := hasIngredients.value;
      var i :| 0 <= i < |list| && Normalize(Some(list[i])) == Normalize(Some(orig));
      assert IngredientIsMatched(hasIngredients, orig);
    }
  }
}
