/** Frontend/src/components/MatchBadge.tsx: the badge shows
    `Math.max(0, Math.min(100, Math.round(relevance || 0)))` per cent and is
    highlighted from 80 per cent up. */
module MatchBadge {
  import opened Wrappers
  import opened JsData

  /** `Math.max(0, Math.min(100, n))` on an integer. */
  function Clamp(n: int): (r: int)
    ensures 0 <= r <= 100
    ensures 0 <= n <= 100 ==> r == n
    ensures n > 100 ==> r == 100
    ensures n < 0 ==> r == 0
  {
    if n < 0 then 0 else if n > 100 then 100 else n
  }

  /** The shown percentage for a relevance that may be `undefined` (`None`).
      `relevance || 0` replaces `undefined`, `NaN` and `0` by `0`; the
      infinities survive rounding and are clamped. */
  function Pct(relevance: Option<JsNumber>): (pct: int)
    ensures 0 <= pct <= 100
  {
    match relevance
    case None => 0
    case Some(NaN) => 0
    case Some(PosInfinity) => 100
    case Some(NegInfinity) => 0
    case Some(Finite(x)) => Clamp(Round(x))
  }

  /** `isHighMatch` */
  predicate IsHighMatch(relevance: Option<JsNumber>) {
    Pct(relevance) >= 80
  }

  /** A missing, `NaN` or zero relevance shows 0. */
  lemma FalsyIsZero(relevance: Option<JsNumber>)
    requires relevance == None || relevance == Some(NaN) || relevance == Some(Finite(0.0))
    ensures Pct(relevance) == 0
  {
  }

  /** A whole relevance is shown as it is inside [0, 100] and clamped to
      the nearer end outside it. */
  lemma WholeRelevance(n: int)
    ensures 0 <= n <= 100 ==> Pct(Some(Finite(n as real))) == n
    ensures n > 100 ==> Pct(Some(Finite(n as real))) == 100
    ensures n < 0 ==> Pct(Some(Finite(n as real))) == 0
  {
    assert Round(n as real) == n;
  }

  /** The position of a non-`NaN` number on the extended real line, for
      stating monotonicity: `-inf < every finite x < +inf`. */
  predicate NotAbove(a: JsNumber, b: JsNumber)
    requires a != NaN && b != NaN
  {
    a == NegInfinity || b == PosInfinity || (a.Finite? && b.Finite? && a.x <= b.x)
  }

  /** A larger relevance never shows a smaller percentage. */
  lemma PctMonotone(a: JsNumber, b: JsNumber)
    requires a != NaN && b != NaN && NotAbove(a, b)
    ensures Pct(Some(a)) <= Pct(Some(b))
  {
    if a.Finite? && b.Finite? {
      assert (a.x + 0.5).Floor <= (b.x + 0.5).Floor;
    }
  }

  /** The badge is highlighted exactly when the relevance rounds to 80 or
      more: a finite relevance of at least 79.5, or positive infinity. */
  lemma HighMatchThreshold(relevance: Option<JsNumber>)
    ensures IsHighMatch(relevance) <==>
              relevance == Some(PosInfinity) || (relevance.Some? && relevance.value.Finite? && relevance.value.x >= 79.5)
  {
  }
}
