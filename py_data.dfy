/** The Python values a recipe record holds after it is read from JSON, and
    the ingredient key both backend matchers compare: `x.lower().strip()`. */
module PyData {
  import opened Text

  /** A JSON value as Python sees it. Nested objects are not modelled. */
  datatype PyValue =
    | PyNone
    | PyBool(b: bool)
    | PyInt(i: int)
    | PyFloat(f: real)
    | PyStr(s: string)
    | PyList(items: seq<PyValue>)

  /** A recipe record: a Python `dict` with string keys. */
  type Dict = map<string, PyValue>

  /** Python truthiness: `None`, `False`, zero, `""` and `[]` are false. */
  predicate Truthy(v: PyValue) {
    match v
    case PyNone => false
    case PyBool(b) => b
    case PyInt(i) => i != 0
    case PyFloat(f) => f != 0.0
    case PyStr(s) => s != ""
    case PyList(items) => items != []
  }

  /** `d.get(k, default)`. */
  function GetOr(d: Dict, k: string, default: PyValue): (v: PyValue)
    ensures k in d ==> v == d[k]
    ensures k !in d ==> v == default
  {
    if k in d then d[k] else default
  }

  /** `d.get(k)`: `None` for a missing key. */
  function Get(d: Dict, k: string): (v: PyValue)
    ensures k in d ==> v == d[k]
    ensures k !in d ==> v == PyNone
  {
    GetOr(d, k, PyNone)
  }

  /** `get` reads what was stored last under its key, is not disturbed by
      storing under another key, gives the default on an empty dict, and
      `get(k)` is `get(k, None)`. */
  lemma GetAfterStore(d: Dict, j: string, k: string, v: PyValue, default: PyValue)
    ensures GetOr(d[k := v], k, default) == v
    ensures j != k ==> GetOr(d[j := v], k, default) == GetOr(d, k, default)
    ensures GetOr(map[], k, default) == default
    ensures Get(d, k) == GetOr(d, k, PyNone)
    ensures Get(d, k) != PyNone ==> k in d
  {
  }

  /** What `strip()` leaves: no whitespace at either end. */
  predicate Stripped(s: string) {
    s == [] || (!PythonSpace(s[0]) && !PythonSpace(s[|s| - 1]))
  }

  /** A possible ingredient key: stripped, with no upper-case letter. */
  predicate IsKey(s: string) {
    Stripped(s) && forall i :: 0 <= i < |s| ==> !IsUpper(s[i])
  }

  /** `s.lower().strip()`: the form in which two ingredient names are compared. */
  function MatchKey(s: string): string {
    Trim(Lower(s), PythonSpace)
  }

  /** A key has no upper-case letter and no whitespace at either end, and it
      is empty exactly when `s.strip()` is. */
  lemma MatchKeyIsKey(s: string)
    ensures IsKey(MatchKey(s))
    ensures |MatchKey(s)| == 0 <==> |Trim(s, PythonSpace)| == 0
  {
    MatchKeyShape(s);
    MatchKeyEmpty(s);
  }

  lemma MatchKeyShape(s: string)
    ensures IsKey(MatchKey(s))
  {
    TrimSpec(Lower(s), PythonSpace);
    var lowerCase := (c: char) => !IsUpper(c);
    assert AllChars(Lower(s), lowerCase);
    TrimKeepsAll(Lower(s), PythonSpace, lowerCase);
  }

  lemma MatchKeyEmpty(s: string)
    ensures |MatchKey(s)| == 0 <==> |Trim(s, PythonSpace)| == 0
  {
    LowerKeepsAllSpaces(s);
    TrimSpec(s, PythonSpace);
    TrimSpec(Lower(s), PythonSpace);
  }

  /** A key is its own key. */
  lemma KeyIsFixed(s: string)
    requires IsKey(s)
    ensures MatchKey(s) == s
  {
    assert Lower(s) == s;
    TrimUnchanged(s, PythonSpace);
  }

  /** Lower-casing before or after stripping gives the same key, and taking
      the key twice changes nothing. */
  lemma MatchKeyStable(s: string)
    ensures MatchKey(s) == Lower(Trim(s, PythonSpace))
    ensures MatchKey(MatchKey(s)) == MatchKey(s)
  {
    forall c ensures PythonSpace(ToLower(c)) == PythonSpace(c) {
      LowerKeepsSpaces(c);
    }
    LowerTrim(s, PythonSpace);
    MatchKeyIsKey(s);
    KeyIsFixed(MatchKey(s));
  }
}
