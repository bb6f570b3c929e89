/** String routines shared by the Python backend and the TypeScript frontend:
    ASCII case folding, the two languages' whitespace classes, trimming,
    whitespace splitting and joining. Strings are sequences of characters;
    case folding is ASCII only (see README, "Left out"). */
module Text {
  import opened Partition

  // ---------------------------------------------------------------------
  // Characters
  // ---------------------------------------------------------------------

  predicate IsUpper(c: char) { 'A' <= c <= 'Z' }

  /** `lower()` / `toLowerCase()` on one character, restricted to ASCII. */
  function ToLower(c: char): (r: char)
    ensures !IsUpper(r)
    ensures IsUpper(c) ==> r as int == c as int + 32
    ensures !IsUpper(c) ==> r == c
  {
    if IsUpper(c) then (c as int + 32) as char else c
  }

  /** `lower()` / `toLowerCase()`: the result has no upper-case letter, it
      leaves text without one alone, and it changes each character in place. */
  function Lower(s: string): (r: string)
    ensures |r| == |s|
    ensures forall i :: 0 <= i < |r| ==> !IsUpper(r[i])
    ensures (forall i :: 0 <= i < |s| ==> !IsUpper(s[i])) ==> r == s
    ensures forall i :: 0 <= i < |s| ==> r[i] == ToLower(s[i])
  {
    seq(|s|, i requires 0 <= i < |s| => ToLower(s[i]))
  }

  /** The characters Python's `str.isspace()` accepts; `str.strip()` and
      `str.split()` without arguments use them. */
  predicate PythonSpace(c: char) {
    var n := c as int;
    (9 <= n <= 13) || (28 <= n <= 32) || n == 0x85 || n == 0xA0 || n == 0x1680
    || (0x2000 <= n <= 0x200A) || n == 0x2028 || n == 0x2029 || n == 0x202F
    || n == 0x205F || n == 0x3000
  }

  /** The characters of the JavaScript class `\s`; `String.prototype.trim`
      removes exactly these. */
  predicate JsSpace(c: char) {
    var n := c as int;
    (9 <= n <= 13) || n == 32 || n == 0xA0 || n == 0x1680
    || (0x2000 <= n <= 0x200A) || n == 0x2028 || n == 0x2029 || n == 0x202F
    || n == 0x205F || n == 0x3000 || n == 0xFEFF
  }

  /** Lower-casing never turns a space into a non-space or back. */
  lemma LowerKeepsSpaces(c: char)
    ensures PythonSpace(ToLower(c)) == PythonSpace(c)
    ensures JsSpace(ToLower(c)) == JsSpace(c)
  {
  }

  // ---------------------------------------------------------------------
  // Trimming. The functions carry no postconditions of their own, so that a
  // proof which only passes a trimmed string around does not pay for facts
  // about its characters; the lemmas below state those facts.
  // ---------------------------------------------------------------------

  /** Drops the longest prefix of characters in `ws`. */
  function TrimStart(s: string, ws: char -> bool): string
  {
    if s != [] && ws(s[0]) then TrimStart(s[1..], ws) else s
  }

  /** Drops the longest suffix of characters in `ws`. */
  function TrimEnd(s: string, ws: char -> bool): string
  {
    if s != [] && ws(s[|s| - 1]) then TrimEnd(s[..|s| - 1], ws) else s
  }

  /** Python `strip()` with `ws := PythonSpace`, JavaScript `trim()` with
      `ws := JsSpace`. */
  function Trim(s: string, ws: char -> bool): string
  {
    TrimEnd(TrimStart(s, ws), ws)
  }

  /** `TrimStart` removes a prefix made only of `ws` characters and stops at
      the first other character. */
  lemma {:induction false} TrimStartSpec(s: string, ws: char -> bool)
    ensures var r := TrimStart(s, ws);
            |r| <= |s| && r == s[|s| - |r|..] && (r == [] || !ws(r[0]))
            && forall i :: 0 <= i < |s| - |r| ==> ws(s[i])
  {
    if s != [] && ws(s[0]) {
      TrimStartSpec(s[1..], ws);
    }
  }

  /** `TrimEnd` removes a suffix made only of `ws` characters and stops at
      the last other character. */
  lemma {:induction false} TrimEndSpec(s: string, ws: char -> bool)
    ensures var r := TrimEnd(s, ws);
            |r| <= |s| && r == s[..|r|] && (r == [] || !ws(r[|r| - 1]))
            && forall i :: |r| <= i < |s| ==> ws(s[i])
  {
    if s != [] && ws(s[|s| - 1]) {
      TrimEndSpec(s[..|s| - 1], ws);
    }
  }

  /** The trimmed string is a contiguous slice of the input that starts and
      ends with no `ws` character, and it is empty exactly when every
      character of the input is in `ws`. */
  lemma TrimSpec(s: string, ws: char -> bool)
    ensures var r := Trim(s, ws);
            var k := |s| - |TrimStart(s, ws)|;
            && 0 <= k && k + |r| <= |s| && r == s[k..k + |r|]
            && (r == [] || (!ws(r[0]) && !ws(r[|r| - 1])))
            && (|r| == 0 <==> forall i :: 0 <= i < |s| ==> ws(s[i]))
  {
    var t := TrimStart(s, ws);
    TrimStartSpec(s, ws);
    TrimEndSpec(t, ws);
    var r := TrimEnd(t, ws);
    if r != [] {
      assert r[0] == t[0];
    }
  }

  /** A string that does not start or end with `ws` is left alone. */
  lemma TrimUnchanged(s: string, ws: char -> bool)
    requires s == [] || (!ws(s[0]) && !ws(s[|s| - 1]))
    ensures Trim(s, ws) == s
  {
    assert TrimStart(s, ws) == s;
  }

  lemma TrimIdempotent(s: string, ws: char -> bool)
    ensures Trim(Trim(s, ws), ws) == Trim(s, ws)
  {
    TrimSpec(s, ws);
    TrimUnchanged(Trim(s, ws), ws);
  }

  lemma {:induction false} LowerTrimStart(s: string, ws: char -> bool)
    requires forall c :: ws(ToLower(c)) == ws(c)
    ensures Lower(TrimStart(s, ws)) == TrimStart(Lower(s), ws)
  {
    if s != [] {
      assert Lower(s)[0] == ToLower(s[0]);
      assert Lower(s)[1..] == Lower(s[1..]);
      if ws(s[0]) {
        LowerTrimStart(s[1..], ws);
      }
    }
  }

  lemma {:induction false} LowerTrimEnd(s: string, ws: char -> bool)
    requires forall c :: ws(ToLower(c)) == ws(c)
    ensures Lower(TrimEnd(s, ws)) == TrimEnd(Lower(s), ws)
  {
    if s != [] {
      var n := |s| - 1;
      assert Lower(s)[n] == ToLower(s[n]);
      assert Lower(s)[..n] == Lower(s[..n]);
      if ws(s[n]) {
        LowerTrimEnd(s[..n], ws);
      }
    }
  }

  /** Lower-casing and trimming commute, for either whitespace class. */
  lemma LowerTrim(s: string, ws: char -> bool)
    requires forall c :: ws(ToLower(c)) == ws(c)
    ensures Lower(Trim(s, ws)) == Trim(Lower(s), ws)
  {
    LowerTrimStart(s, ws);
    LowerTrimEnd(TrimStart(s, ws), ws);
  }

  /** Lower-casing keeps every character's whitespace class. */
  lemma LowerKeepsAllSpaces(s: string)
    ensures forall i :: 0 <= i < |s| ==> PythonSpace(Lower(s)[i]) == PythonSpace(s[i])
    ensures forall i :: 0 <= i < |s| ==> JsSpace(Lower(s)[i]) == JsSpace(s[i])
  {
    forall i | 0 <= i < |s|
      ensures PythonSpace(Lower(s)[i]) == PythonSpace(s[i]) && JsSpace(Lower(s)[i]) == JsSpace(s[i])
    {
      LowerKeepsSpaces(s[i]);
    }
  }

  lemma LowerIdempotent(s: string)
    ensures Lower(Lower(s)) == Lower(s)
  {
  }

  // ---------------------------------------------------------------------
  // Splitting and joining
  // ---------------------------------------------------------------------

  /** Length of the run of non-`ws` characters at the start of `t`. */
  function WordLength(t: string, ws: char -> bool): (n: nat)
    ensures n <= |t|
    ensures forall j :: 0 <= j < n ==> !ws(t[j])
    ensures n == |t| || ws(t[n])
  {
    if t == [] || ws(t[0]) then 0 else 1 + WordLength(t[1..], ws)
  }

  /** Python `s.split()` with `ws := PythonSpace`: the maximal runs of
      non-space characters, in order; no word is empty or holds a space. */
  function Words(s: string, ws: char -> bool): (r: seq<string>)
    ensures forall k :: 0 <= k < |r| ==> r[k] != []
    ensures forall k, j :: 0 <= k < |r| && 0 <= j < |r[k]| ==> !ws(r[k][j])
    decreases |s|
  {
    TrimStartSpec(s, ws);
    var t := TrimStart(s, ws);
    if t == [] then []
    else
      var n := WordLength(t, ws);
      [t[..n]] + Words(t[n..], ws)
  }

  /** Every character of `s` has the property `q`. */
  predicate AllChars(s: string, q: char -> bool) {
    forall i :: 0 <= i < |s| ==> q(s[i])
  }

  lemma AllCharsSlice(s: string, q: char -> bool, a: nat, b: nat)
    requires AllChars(s, q) && a <= b <= |s|
    ensures AllChars(s[a..b], q)
  {
    forall i | 0 <= i < b - a ensures q(s[a..b][i]) {
      assert s[a..b][i] == s[a + i];
    }
  }

  /** A property of every character survives trimming. */
  lemma TrimKeepsAll(s: string, ws: char -> bool, q: char -> bool)
    requires AllChars(s, q)
    ensures AllChars(Trim(s, ws), q)
  {
    TrimSpec(s, ws);
    var a := |s| - |TrimStart(s, ws)|;
    AllCharsSlice(s, q, a, a + |Trim(s, ws)|);
  }

  /** A property of every character of the input holds of every character
      of every word. */
  lemma {:induction false} WordCharsFromInput(s: string, ws: char -> bool, q: char -> bool)
    requires AllChars(s, q)
    ensures forall k :: 0 <= k < |Words(s, ws)| ==> AllChars(Words(s, ws)[k], q)
    decreases |s|
  {
    var t := TrimStart(s, ws);
    TrimStartSpec(s, ws);
    if t != [] {
      var n := WordLength(t, ws);
      AllCharsSlice(s, q, |s| - |t|, |s|);
      AllCharsSlice(t, q, 0, n);
      AllCharsSlice(t, q, n, |t|);
      WordCharsFromInput(t[n..], ws, q);
      var w := Words(s, ws);
      assert w == [t[..n]] + Words(t[n..], ws);
      assert w[1..] == Words(t[n..], ws);
    }
  }

  /** A string made only of `ws` characters has no words. */
  lemma NoWordsInSpace(s: string, ws: char -> bool)
    requires forall i :: 0 <= i < |s| ==> ws(s[i])
    ensures Words(s, ws) == []
  {
    TrimStartSpec(s, ws);
  }

  /** A string that is a single word splits into itself. */
  lemma OneWord(w: string, ws: char -> bool)
    requires w != [] && forall i :: 0 <= i < |w| ==> !ws(w[i])
    ensures Words(w, ws) == [w]
  {
    assert TrimStart(w, ws) == w;
    var n := WordLength(w, ws);
    assert n == |w|;
    assert w[..n] == w;
    assert w[n..] == [];
    assert Words([], ws) == [];
  }

  /** The test for the characters outside `ws`. */
  function Outside(ws: char -> bool): char -> bool {
    c => !ws(c)
  }

  /** The words run together again. */
  function Concat(words: seq<string>): string {
    if words == [] then "" else words[0] + Concat(words[1..])
  }

  /** A run of `ws` characters skipped, trimming goes on with the rest. */
  lemma {:induction false} TrimStartSkips(g: string, t: string, ws: char -> bool)
    requires forall i :: 0 <= i < |g| ==> ws(g[i])
    ensures TrimStart(g + t, ws) == TrimStart(t, ws)
  {
    if g == [] {
      assert g + t == t;
    } else {
      assert (g + t)[0] == g[0];
      assert (g + t)[1..] == g[1..] + t;
      TrimStartSkips(g[1..], t, ws);
    }
  }

  lemma {:induction false} WordLengthOf(w: string, t: string, ws: char -> bool)
    requires forall i :: 0 <= i < |w| ==> !ws(w[i])
    requires t == [] || ws(t[0])
    ensures WordLength(w + t, ws) == |w|
  {
    if w == [] {
      assert w + t == t;
    } else {
      assert (w + t)[1..] == w[1..] + t;
      WordLengthOf(w[1..], t, ws);
    }
  }

  /** Trimming the start deletes only whitespace. */
  lemma {:induction false} KeepAfterTrim(s: string, ws: char -> bool)
    ensures Keep(TrimStart(s, ws), Outside(ws)) == Keep(s, Outside(ws))
  {
    if s != [] && ws(s[0]) {
      assert !Outside(ws)(s[0]);
      KeepAfterTrim(s[1..], ws);
    }
  }

  /** A leading word is kept whole. */
  lemma KeepWord(t: string, n: nat, ws: char -> bool)
    requires n <= |t| && forall j :: 0 <= j < n ==> !ws(t[j])
    ensures Keep(t, Outside(ws)) == t[..n] + Keep(t[n..], Outside(ws))
  {
    assert t == t[..n] + t[n..];
    KeepAppend(t[..n], t[n..], Outside(ws));
    assert forall i :: 0 <= i < n ==> Outside(ws)(t[..n][i]);
    KeepAll(t[..n], Outside(ws));
  }

  /** `split()` loses no character outside `ws` and reorders nothing: the
      words run together are the input with its whitespace deleted. */
  lemma {:induction false} WordsKeepText(s: string, ws: char -> bool)
    ensures Concat(Words(s, ws)) == Keep(s, Outside(ws))
    decreases |s|
  {
    TrimStartSpec(s, ws);
    KeepAfterTrim(s, ws);
    var t := TrimStart(s, ws);
    if t != [] {
      var n := WordLength(t, ws);
      KeepWord(t, n, ws);
      WordsKeepText(t[n..], ws);
      var w := Words(s, ws);
      assert w == [t[..n]] + Words(t[n..], ws);
      assert w[1..] == Words(t[n..], ws);
    }
  }

  /** Leading whitespace makes no word. */
  lemma WordsSkipSpace(g: string, t: string, ws: char -> bool)
    requires forall i :: 0 <= i < |g| ==> ws(g[i])
    ensures Words(g + t, ws) == Words(t, ws)
  {
    TrimStartSkips(g, t, ws);
  }

  /** A non-empty run of characters outside `ws`, followed by whitespace or
      by the end of the text, is the next word. */
  lemma WordsCons(w: string, t: string, ws: char -> bool)
    requires w != [] && forall i :: 0 <= i < |w| ==> !ws(w[i])
    requires t == [] || ws(t[0])
    ensures Words(w + t, ws) == [w] + Words(t, ws)
  {
    assert TrimStart(w + t, ws) == w + t;
    WordLengthOf(w, t, ws);
    assert (w + t)[..|w|] == w;
    assert (w + t)[|w|..] == t;
  }

  /** JavaScript `Array.prototype.join(sep)` on strings. */
  function Join(parts: seq<string>, sep: string): (r: string)
  {
    if |parts| == 0 then ""
    else if |parts| == 1 then parts[0]
    else parts[0] + sep + Join(parts[1..], sep)
  }

  function TotalLength(parts: seq<string>): nat
  {
    if parts == [] then 0 else |parts[0]| + TotalLength(parts[1..])
  }

  /** The joined string is as long as its parts and the separators between
      neighbours together. */
  lemma {:induction false} JoinLength(parts: seq<string>, sep: string)
    ensures |parts| > 0 ==> |Join(parts, sep)| == TotalLength(parts) + (|parts| - 1) * |sep|
    ensures |parts| == 0 ==> Join(parts, sep) == ""
  {
    if |parts| > 1 {
      JoinLength(parts[1..], sep);
    }
  }

  /** Where part `k` starts in the joined string: after the first `k`
      parts and `k` separators. */
  function Offset(parts: seq<string>, sep: string, k: nat): nat
    requires k <= |parts|
  {
    if k == 0 then 0 else |parts[0]| + |sep| + Offset(parts[1..], sep, k - 1)
  }

  lemma SliceAfter(h: string, r: string, a: nat, b: nat)
    requires a <= b <= |r|
    ensures (h + r)[|h| + a..|h| + b] == r[a..b]
  {
  }

  /** Part `k` of the joined string stands at its offset, a separator
      follows it unless it is the last, and the last part ends the string:
      the joined string holds every part and one separator between
      neighbours, and nothing else. */
  lemma {:induction false} JoinParts(parts: seq<string>, sep: string, k: nat)
    requires k < |parts|
    ensures var o := Offset(parts, sep, k);
            var e := o + |parts[k]|;
            e <= |Join(parts, sep)| && Join(parts, sep)[o..e] == parts[k]
            && (k < |parts| - 1 ==> e + |sep| <= |Join(parts, sep)| && Join(parts, sep)[e..e + |sep|] == sep)
            && (k == |parts| - 1 ==> e == |Join(parts, sep)|)
  {
    if |parts| > 1 {
      var rest := Join(parts[1..], sep);
      var head := parts[0] + sep;
      assert Join(parts, sep) == head + rest;
      if k > 0 {
        JoinParts(parts[1..], sep, k - 1);
        var o := Offset(parts[1..], sep, k - 1);
        var e := o + |parts[k]|;
        assert parts[1..][k - 1] == parts[k];
        SliceAfter(head, rest, o, e);
        if k < |parts| - 1 {
          SliceAfter(head, rest, e, e + |sep|);
        }
      }
    }
  }

  /** Joining one more part appends a separator and that part. */
  lemma {:induction false} JoinSnoc(parts: seq<string>, x: string, sep: string)
    requires |parts| > 0
    ensures Join(parts + [x], sep) == Join(parts, sep) + sep + x
  {
    if |parts| == 1 {
      assert parts + [x] == [parts[0], x];
      assert (parts + [x])[1..] == [x];
    } else {
      assert (parts + [x])[1..] == parts[1..] + [x];
      JoinSnoc(parts[1..], x, sep);
    }
  }

  /** Python `s.replace(a, b)` for one-character `a` and `b`: no `a` is
      left, `b` stands exactly where `a` or `b` stood, every other character
      stays in place, and a text without `a` is left alone. */
  function ReplaceChar(s: string, a: char, b: char): (r: string)
    ensures |r| == |s|
    ensures a != b ==> forall i :: 0 <= i < |r| ==> r[i] != a
    ensures forall i :: 0 <= i < |s| ==> (r[i] == b <==> s[i] == a || s[i] == b)
    ensures forall i :: 0 <= i < |s| ==> r[i] != b ==> r[i] == s[i]
    ensures (forall i :: 0 <= i < |s| ==> s[i] != a) ==> r == s
  {
    seq(|s|, i requires 0 <= i < |s| => if s[i] == a then b else s[i])
  }
}
