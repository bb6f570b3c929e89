/** Order-preserving split of a list by a test, as the pair of Python list
    comprehensions `[x for x in s if p(x)]` and `[x for x in s if not p(x)]`. */
module Partition {

  /** `[x for x in s if p(x)]` */
  function Keep<T>(s: seq<T>, p: T -> bool): (r: seq<T>)
    ensures |r| <= |s|
  {
    if s == [] then []
    else
      var rest := Keep(s[1..], p);
      if p(s[0]) then [s[0]] + rest else rest
  }

  /** `[x for x in s if not p(x)]` */
  function Drop<T>(s: seq<T>, p: T -> bool): (r: seq<T>)
    ensures |r| <= |s|
  {
    if s == [] then []
    else
      var rest := Drop(s[1..], p);
      if p(s[0]) then rest else [s[0]] + rest
  }

  /** An element is kept exactly when it is in the list and passes the
      test, and dropped exactly when it is in the list and fails it. */
  lemma {:induction false} Members<T>(s: seq<T>, p: T -> bool, x: T)
    ensures x in Keep(s, p) <==> x in s && p(x)
    ensures x in Drop(s, p) <==> x in s && !p(x)
  {
    if s != [] {
      Members(s[1..], p, x);
      assert s == [s[0]] + s[1..];
    }
  }

  /** `a` is `b` with some elements deleted. */
  predicate Subsequence<T(==)>(a: seq<T>, b: seq<T>)
    decreases |b|
  {
    a == [] || (b != [] && ((a[0] == b[0] && Subsequence(a[1..], b[1..])) || Subsequence(a, b[1..])))
  }

  /** Keeping only some elements deletes the others and reorders nothing. */
  lemma {:induction false} KeepSubsequence<T>(s: seq<T>, p: T -> bool)
    ensures Subsequence(Keep(s, p), s)
  {
    if s != [] {
      KeepSubsequence(s[1..], p);
    }
  }

  /** Rebuilds a list from its two parts: at each position `marks` says
      which part the next element comes from. */
  function Weave<T>(marks: seq<bool>, yes: seq<T>, no: seq<T>): seq<T>
  {
    if marks == [] then []
    else if marks[0] then
      (if yes == [] then [] else [yes[0]] + Weave(marks[1..], yes[1..], no))
    else
      (if no == [] then [] else [no[0]] + Weave(marks[1..], yes, no[1..]))
  }

  function Marks<T>(s: seq<T>, p: T -> bool): (m: seq<bool>)
    ensures |m| == |s| && forall i :: 0 <= i < |s| ==> m[i] == p(s[i])
  {
    seq(|s|, i requires 0 <= i < |s| => p(s[i]))
  }

  /** Every element of `s` lands in exactly one of the two parts, and each
      part keeps the order of `s`: weaving the parts back by the test gives
      `s` again. */
  lemma {:induction false} SplitWeaves<T>(s: seq<T>, p: T -> bool)
    ensures Weave(Marks(s, p), Keep(s, p), Drop(s, p)) == s
  {
    if s != [] {
      SplitWeaves(s[1..], p);
      assert Marks(s, p)[1..] == Marks(s[1..], p);
      if p(s[0]) {
        assert Keep(s, p) == [s[0]] + Keep(s[1..], p);
        assert Drop(s, p) == Drop(s[1..], p);
      } else {
        assert Keep(s, p) == Keep(s[1..], p);
        assert Drop(s, p) == [s[0]] + Drop(s[1..], p);
      }
    }
  }

  /** Nothing is lost or duplicated. */
  lemma {:induction false} SplitCounts<T>(s: seq<T>, p: T -> bool)
    ensures |Keep(s, p)| + |Drop(s, p)| == |s|
    ensures multiset(Keep(s, p)) + multiset(Drop(s, p)) == multiset(s)
  {
    if s != [] {
      SplitCounts(s[1..], p);
      assert s == [s[0]] + s[1..];
    }
  }

  /** The kept part is the whole list exactly when every element passes. */
  lemma {:induction false} KeepAll<T>(s: seq<T>, p: T -> bool)
    ensures Keep(s, p) == s <==> forall i :: 0 <= i < |s| ==> p(s[i])
    ensures Drop(s, p) == [] <==> forall i :: 0 <= i < |s| ==> p(s[i])
  {
    if s != [] {
      var t := s[1..];
      KeepAll(t, p);
      if p(s[0]) {
        assert Keep(s, p) == [s[0]] + Keep(t, p);
        assert Drop(s, p) == Drop(t, p);
        assert s == [s[0]] + t;
        assert (forall i :: 0 <= i < |s| ==> p(s[i])) <==> (forall i :: 0 <= i < |t| ==> p(t[i])) by {
          if forall i :: 0 <= i < |t| ==> p(t[i]) {
            forall i | 0 <= i < |s| ensures p(s[i]) {
              if i > 0 {
                assert s[i] == t[i - 1];
              }
            }
          }
        }
        assert Keep(s, p) == s <==> Keep(t, p) == t by {
          if Keep(s, p) == s {
            assert Keep(t, p) == Keep(s, p)[1..] == t;
          }
        }
      } else {
        assert |Keep(s, p)| <= |t| < |s|;
        assert Drop(s, p) == [s[0]] + Drop(t, p);
      }
    }
  }

  /** `Keep` applies the comprehension to each part of a concatenation. */
  lemma {:induction false} KeepAppend<T>(a: seq<T>, b: seq<T>, p: T -> bool)
    ensures Keep(a + b, p) == Keep(a, p) + Keep(b, p)
  {
    if a == [] {
      assert a + b == b;
    } else {
      assert (a + b)[1..] == a[1..] + b;
      KeepAppend(a[1..], b, p);
    }
  }

  /** Nothing is kept when no element passes. */
  lemma {:induction false} KeepNone<T>(s: seq<T>, p: T -> bool)
    requires forall i :: 0 <= i < |s| ==> !p(s[i])
    ensures Keep(s, p) == []
  {
    if s != [] {
      KeepNone(s[1..], p);
    }
  }

  /** The elements of `xs` whose mark is set, in order: a loop that appends
      `xs[i]` to its output whenever `marks[i]` holds. */
  function Select<T>(xs: seq<T>, marks: seq<bool>): (r: seq<T>)
    requires |marks| == |xs|
    ensures |r| <= |xs|
    decreases |xs|
  {
    if xs == [] then []
    else
      var n := |xs| - 1;
      var rest := Select(xs[..n], marks[..n]);
      if marks[n] then rest + [xs[n]] else rest
  }

  /** One more loop step appends the element when its mark is set. */
  lemma SelectSnoc<T>(xs: seq<T>, marks: seq<bool>, x: T, b: bool)
    requires |marks| == |xs|
    ensures Select(xs + [x], marks + [b]) == Select(xs, marks) + (if b then [x] else [])
  {
    assert (xs + [x])[..|xs|] == xs;
    assert (marks + [b])[..|marks|] == marks;
  }

  /** Every selected element is a marked element of `xs`. */
  lemma {:induction false} SelectSound<T>(xs: seq<T>, marks: seq<bool>, k: nat)
    requires |marks| == |xs| && k < |Select(xs, marks)|
    ensures exists i :: 0 <= i < |xs| && marks[i] && Select(xs, marks)[k] == xs[i]
    decreases |xs|
  {
    var n := |xs| - 1;
    var rest := Select(xs[..n], marks[..n]);
    if k < |rest| {
      SelectSound(xs[..n], marks[..n], k);
      var i :| 0 <= i < n && marks[..n][i] && rest[k] == xs[..n][i];
      assert marks[i] && xs[..n][i] == xs[i];
    }
  }

  /** Every marked element of `xs` is selected. */
  lemma {:induction false} SelectComplete<T>(xs: seq<T>, marks: seq<bool>, i: nat)
    requires |marks| == |xs| && i < |xs| && marks[i]
    ensures xs[i] in Select(xs, marks)
    decreases |xs|
  {
    var n := |xs| - 1;
    if i < n {
      assert xs[..n][i] == xs[i] && marks[..n][i] == marks[i];
      SelectComplete(xs[..n], marks[..n], i);
    }
  }

  /** With every mark set nothing is left out and the order is kept. */
  lemma {:induction false} SelectAll<T>(xs: seq<T>, marks: seq<bool>)
    requires |marks| == |xs| && forall i :: 0 <= i < |marks| ==> marks[i]
    ensures Select(xs, marks) == xs
    decreases |xs|
  {
    if xs != [] {
      var n := |xs| - 1;
      SelectAll(xs[..n], marks[..n]);
      assert xs[..n] + [xs[n]] == xs;
    }
  }
}
