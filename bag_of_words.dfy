/** main.py `text_to_vector` and `cosine_similarity`: a word-count vector for
    a text, and the dot product and zero-magnitude guard of the similarity.
    The square roots and the final division are floating point; the model
    takes each magnitude as a non-negative real whose square is the vector's
    sum of squared counts. */
module BagOfWords {
  import opened Wrappers
  import opened Text

  /** A vector maps words to counts. */
  type Vector = map<string, int>

  // ---------------------------------------------------------------------
  // Sums over maps (specification only; Python iterates in insertion order,
  // and every order gives the same integer sum)
  // ---------------------------------------------------------------------

  /** The sum of the values of `m`. */
  ghost function Total(m: map<string, int>): int
    decreases |m|
  {
    if m == map[] then 0
    else
      var k :| k in m;
      assert |m - {k}| < |m| by { assert (m - {k}).Keys == m.Keys - {k}; }
      m[k] + Total(m - {k})
  }

  /** The sum does not depend on which key is taken out first. */
  lemma {:induction false} TotalRemove(m: map<string, int>, k: string)
    requires k in m
    ensures Total(m) == m[k] + Total(m - {k})
    decreases |m|
  {
    var k' :| k' in m && Total(m) == m[k'] + Total(m - {k'});
    if k' != k {
      assert (m - {k'}).Keys == m.Keys - {k'};
      assert (m - {k}).Keys == m.Keys - {k};
      TotalRemove(m - {k'}, k);
      TotalRemove(m - {k}, k');
      assert m - {k'} - {k} == m - {k} - {k'};
    }
  }

  lemma {:induction false} TotalNonNegative(m: map<string, int>)
    requires forall k :: k in m ==> m[k] >= 0
    ensures Total(m) >= 0
    ensures Total(m) == 0 <==> forall k :: k in m ==> m[k] == 0
    decreases |m|
  {
    if m != map[] {
      var k :| k in m;
      TotalRemove(m, k);
      assert (m - {k}).Keys == m.Keys - {k};
      TotalNonNegative(m - {k});
      if Total(m) == 0 {
        forall j | j in m ensures m[j] == 0 {
          if j != k {
            assert j in m - {k};
          }
        }
      }
    }
  }

  /** Counting one more occurrence of `w` raises the total by one. */
  lemma Increment(m: map<string, int>, w: string)
    ensures Total(m[w := (if w in m then m[w] else 0) + 1]) == Total(m) + 1
  {
    var m' := m[w := (if w in m then m[w] else 0) + 1];
    TotalRemove(m', w);
    if w in m {
      TotalRemove(m, w);
      assert m' - {w} == m - {w};
    } else {
      assert m' - {w} == m;
    }
  }

  // ---------------------------------------------------------------------
  // text_to_vector
  // ---------------------------------------------------------------------

  /** main.py:120: lower-case, turn `,` and `.` into spaces, split on whitespace. */
  function Tokens(text: string): seq<string>
  {
    Words(ReplaceChar(ReplaceChar(Lower(text), ',', ' '), '.', ' '), PythonSpace)
  }

  /** The words `text_to_vector` counts: none for a missing or empty text. */
  function WordsOf(text: Option<string>): seq<string>
  {
    match text
    case None => []
    case Some(t) => if t == "" then [] else Tokens(t)
  }

  function Occurrences(words: seq<string>, w: string): nat
  {
    if words == [] then 0
    else Occurrences(words[..|words| - 1], w) + (if words[|words| - 1] == w then 1 else 0)
  }

  /** A word is a vector key: non-empty, with no upper-case letter, no
      whitespace, no comma and no full stop. */
  predicate IsToken(w: string) {
    w != [] && forall i :: 0 <= i < |w| ==> !IsUpper(w[i]) && !PythonSpace(w[i]) && w[i] != ',' && w[i] != '.'
  }

  lemma TokensAreWellFormed(text: string)
    ensures forall k :: 0 <= k < |Tokens(text)| ==> IsToken(Tokens(text)[k])
  {
    var s := ReplaceChar(ReplaceChar(Lower(text), ',', ' '), '.', ' ');
    var q := (c: char) => !IsUpper(c) && c != ',' && c != '.';
    assert AllChars(s, q);
    WordCharsFromInput(s, PythonSpace, q);
  }

  /** `vec` counts `words`: its keys are the words, each with its number of
      occurrences. */
  ghost predicate Counts(vec: map<string, nat>, words: seq<string>) {
    (forall w :: w in vec <==> w in words)
    && (forall w :: w in vec ==> vec[w] == Occurrences(words, w))
  }

  /** A word that does not occur has no occurrences. */
  lemma {:induction false} OccurrencesAbsent(words: seq<string>, w: string)
    requires w !in words
    ensures Occurrences(words, w) == 0
  {
    if words != [] {
      assert w !in words[..|words| - 1];
      OccurrencesAbsent(words[..|words| - 1], w);
    }
  }

  lemma CountsStep(vec: map<string, nat>, words: seq<string>, w: string)
    requires Counts(vec, words)
    ensures Counts(vec[w := (if w in vec then vec[w] else 0) + 1], words + [w])
  {
    if w !in vec {
      OccurrencesAbsent(words, w);
    }
    var words' := words + [w];
    assert words'[..|words'| - 1] == words;
    forall x ensures Occurrences(words', x) == Occurrences(words, x) + (if x == w then 1 else 0) {
    }
    forall x ensures x in words' <==> x in words || x == w {
    }
  }

  /** main.py:116-124. Every word of the text is a key, every key is a word
      of the text, each count is the word's number of occurrences, and the
      counts add up to the number of words. */
  method TextToVector(text: Option<string>) returns (vec: map<string, nat>)
    ensures text == None || text == Some("") ==> vec == map[]
    ensures forall w :: w in vec <==> w in WordsOf(text)
    ensures forall w :: w in vec ==> vec[w] == Occurrences(WordsOf(text), w)
    ensures Total(vec) == |WordsOf(text)|
  {
    if text == None || text == Some("") {
      return map[];
    }
    var words := WordsOf(text);
    vec := CountWords(words);
  }

  method CountWords(words: seq<string>) returns (vec: map<string, nat>)
    ensures Counts(vec, words)
    ensures Total(vec) == |words|
  {
    vec := map[];
    var i := 0;
    while i < |words|
      invariant 0 <= i <= |words|
      invariant Counts(vec, words[..i])
      invariant Total(vec) == i
    {
      var w := words[i];
      assert words[..i + 1] == words[..i] + [w];
      CountsStep(vec, words[..i], w);
      Increment(vec, w);
      vec := vec[w := (if w in vec then vec[w] else 0) + 1];
      i := i + 1;
    }
    assert words[..i] == words;
  }

  /** Every key `text_to_vector` produces is a well-formed word. */
  lemma VectorKeysAreTokens(text: Option<string>, w: string)
    requires w in WordsOf(text)
    ensures IsToken(w)
  {
    var t := text.value;
    TokensAreWellFormed(t);
  }

  // ---------------------------------------------------------------------
  // cosine_similarity
  // ---------------------------------------------------------------------

  /** The products `v1[k] * v2[k]` for the keys in `keys` both vectors hold. */
  function Products(v1: Vector, v2: Vector, keys: set<string>): map<string, int>
  {
    map k | k in keys && k in v1 && k in v2 :: v1[k] * v2[k]
  }

  /** The dot product: the sum over the keys present in both vectors. */
  ghost function Dot(v1: Vector, v2: Vector): int
  {
    Total(Products(v1, v2, v1.Keys))
  }

  lemma DotSymmetric(v1: Vector, v2: Vector)
    ensures Dot(v1, v2) == Dot(v2, v1)
  {
    assert Products(v1, v2, v1.Keys) == Products(v2, v1, v2.Keys);
  }

  /** A vector shares nothing with the empty vector. */
  lemma DotEmpty(v: Vector)
    ensures Dot(v, map[]) == 0 && Dot(map[], v) == 0
  {
    assert Products(v, map[], v.Keys) == map[];
  }

  /** The squared magnitude `Dot(v, v)` is zero exactly when every count is zero. */
  lemma SquaredMagnitude(v: Vector)
    ensures Dot(v, v) >= 0
    ensures Dot(v, v) == 0 <==> forall k :: k in v ==> v[k] == 0
  {
    var p := Products(v, v, v.Keys);
    forall k | k in p ensures p[k] >= 0 && (p[k] == 0 <==> v[k] == 0) {
      assert p[k] == v[k] * v[k];
    }
    TotalNonNegative(p);
  }

  /** Counts are non-negative, so the dot product is too. */
  lemma DotNonNegative(v1: Vector, v2: Vector)
    requires forall k :: k in v1 ==> v1[k] >= 0
    requires forall k :: k in v2 ==> v2[k] >= 0
    ensures Dot(v1, v2) >= 0
  {
    var p := Products(v1, v2, v1.Keys);
    forall k | k in p ensures p[k] >= 0 {
      assert p[k] == v1[k] * v2[k];
    }
    TotalNonNegative(p);
  }

  /** main.py:127-131: the loop over the items of `v1`, adding a product
      whenever `v2` holds the key too. */
  method DotProduct(v1: Vector, v2: Vector) returns (dot: int)
    ensures dot == Dot(v1, v2)
  {
    dot := 0;
    var rest := v1.Keys;
    while rest != {}
      invariant rest <= v1.Keys
      invariant dot + Total(Products(v1, v2, rest)) == Dot(v1, v2)
      decreases |rest|
    {
      var k :| k in rest;
      var before := Products(v1, v2, rest);
      if k in v2 {
        TotalRemove(before, k);
        assert before - {k} == Products(v1, v2, rest - {k});
        dot := dot + v1[k] * v2[k];
      } else {
        assert before == Products(v1, v2, rest - {k});
      }
      rest := rest - {k};
    }
    assert Products(v1, v2, {}) == map[];
  }

  /** A product of non-negative reals is zero exactly when a factor is. */
  lemma ProductZero(a: real, b: real)
    requires a >= 0.0 && b >= 0.0
    ensures a * b == 0.0 <==> (a == 0.0 || b == 0.0)
  {
  }

  /** Magnitude `mag` is the square root of the sum of squared counts. */
  ghost predicate IsMagnitude(v: Vector, mag: real) {
    mag >= 0.0 && mag * mag == Dot(v, v) as real
  }

  /** main.py:126-137 with the magnitudes given: zero when either vector has
      zero magnitude, otherwise the dot product over the product of the
      magnitudes. A magnitude is zero exactly when every count is zero, and
      for count vectors the result is never negative. */
  method CosineSimilarity(v1: Vector, v2: Vector, mag1: real, mag2: real) returns (sim: real)
    requires IsMagnitude(v1, mag1) && IsMagnitude(v2, mag2)
    ensures (mag1 == 0.0 || mag2 == 0.0) ==> sim == 0.0
    ensures (mag1 == 0.0) <==> forall k :: k in v1 ==> v1[k] == 0
    ensures (mag2 == 0.0) <==> forall k :: k in v2 ==> v2[k] == 0
    ensures mag1 != 0.0 && mag2 != 0.0 ==> sim == Dot(v1, v2) as real / (mag1 * mag2)
    ensures (forall k :: k in v1 ==> v1[k] >= 0) && (forall k :: k in v2 ==> v2[k] >= 0) ==> sim >= 0.0
  {
    SquaredMagnitude(v1);
    SquaredMagnitude(v2);
    ProductZero(mag1, mag1);
    ProductZero(mag2, mag2);
    var dot := DotProduct(v1, v2);
    if mag1 == 0.0 || mag2 == 0.0 {
      return 0.0;
    }
    if (forall k :: k in v1 ==> v1[k] >= 0) && (forall k :: k in v2 ==> v2[k] >= 0) {
      DotNonNegative(v1, v2);
    }
    sim := dot as real / (mag1 * mag2);
  }
}
