/**
 ACT/365 simple interest in integer cents (alembic/versions/049_loan_ledger.py).
 The code divides once and corrects the quotient; the specification says which
 integer that is: the one nearest to the exact quotient, ties going to the even
 neighbour (roundTiesToEven, section 4.3.1 of IEEE 754-2019).
 */
module Accrual {
  import opened Common

  // 10_000 basis points times 365 days.
  const DENOMINATOR := 3_650_000

  function AccrueCents(outstanding: int, rateBps: int, days: int): int {
    if days <= 0 || outstanding <= 0 || rateBps <= 0 then
      0
    else
      RoundQuotient(outstanding * rateBps * days)
  }

  // divmod, then the half-even correction on the doubled remainder.
  function RoundQuotient(numerator: nat): int {
    var quotient := numerator / DENOMINATOR;
    var doubled := 2 * (numerator % DENOMINATOR);
    if doubled > DENOMINATOR || (doubled == DENOMINATOR && quotient % 2 == 1) then
      quotient + 1
    else
      quotient
  }

  /** `q` is `numerator / DENOMINATOR` rounded to the nearest integer, ties to even. */
  ghost predicate IsNearestEven(numerator: int, q: int) {
    var error := 2 * (q * DENOMINATOR - numerator);
    && -DENOMINATOR <= error <= DENOMINATOR
    && (Abs(error) == DENOMINATOR ==> q % 2 == 0)
  }

  /** The exact numerator of a span; non-positive inputs contribute nothing. */
  function ExactNumerator(outstanding: int, rateBps: int, days: int): int {
    Max0(outstanding) * Max0(rateBps) * Max0(days)
  }

  /** The result is the correctly rounded one, and no other integer is. */
  lemma AccrualIsCorrectlyRounded(outstanding: int, rateBps: int, days: int, q: int)
    ensures q == AccrueCents(outstanding, rateBps, days)
       <==> IsNearestEven(ExactNumerator(outstanding, rateBps, days), q)
  {
  }

  lemma AccrualNonNegative(outstanding: int, rateBps: int, days: int)
    ensures AccrueCents(outstanding, rateBps, days) >= 0
  {
  }

  lemma NearestEvenIsMonotone(a: int, b: int, p: int, q: int)
    requires a <= b && IsNearestEven(a, p) && IsNearestEven(b, q)
    ensures p <= q
  {
    // p == q + 1 would make both errors half a cent, and then both p and q even.
  }

  lemma ProductMonotone(a: nat, b: nat, c: nat, d: nat)
    requires a <= b && c <= d
    ensures 0 <= a * c <= b * d
  {
  }

  /** More principal, a higher rate or a longer span never accrue less. */
  lemma AccrualIsMonotone(o1: int, o2: int, r1: int, r2: int, d1: int, d2: int)
    requires o1 <= o2 && r1 <= r2 && d1 <= d2
    ensures AccrueCents(o1, r1, d1) <= AccrueCents(o2, r2, d2)
  {
    ProductMonotone(Max0(o1), Max0(o2), Max0(r1), Max0(r2));
    ProductMonotone(Max0(o1) * Max0(r1), Max0(o2) * Max0(r2), Max0(d1), Max0(d2));
    var p, q := AccrueCents(o1, r1, d1), AccrueCents(o2, r2, d2);
    AccrualIsCorrectlyRounded(o1, r1, d1, p);
    AccrualIsCorrectlyRounded(o2, r2, d2, q);
    NearestEvenIsMonotone(ExactNumerator(o1, r1, d1), ExactNumerator(o2, r2, d2), p, q);
  }

  // ------------------------------------------------------------ splitting a span

  function AccrueEach(outstanding: int, rateBps: int, pieces: seq<nat>): int {
    if pieces == [] then 0
    else AccrueEach(outstanding, rateBps, pieces[..|pieces| - 1])
         + AccrueCents(outstanding, rateBps, pieces[|pieces| - 1])
  }

  // Each rounding is off by at most half a cent, so n of them by n halves.
  lemma {:induction false} PiecesErrorBound(outstanding: int, rateBps: int, pieces: seq<nat>)
    ensures Sum(pieces) >= 0
    ensures Abs(2 * (AccrueEach(outstanding, rateBps, pieces) * DENOMINATOR
                     - ExactNumerator(outstanding, rateBps, Sum(pieces)))) <= |pieces| * DENOMINATOR
  {
    if pieces != [] {
      var init, last := pieces[..|pieces| - 1], pieces[|pieces| - 1];
      PiecesErrorBound(outstanding, rateBps, init);
      var one := AccrueCents(outstanding, rateBps, last);
      AccrualIsCorrectlyRounded(outstanding, rateBps, last, one);
      var perDay := Max0(outstanding) * Max0(rateBps);
      assert perDay * (Sum(init) + last) == perDay * Sum(init) + perDay * last;
    }
  }

  /** Accruing a span in n pieces drifts from accruing it whole by at most (n + 1) / 2 cents. */
  lemma SplittingDriftBound(outstanding: int, rateBps: int, pieces: seq<nat>)
    ensures 2 * Abs(AccrueEach(outstanding, rateBps, pieces)
                    - AccrueCents(outstanding, rateBps, Sum(pieces))) <= |pieces| + 1
  {
    PiecesErrorBound(outstanding, rateBps, pieces);
    var whole := AccrueCents(outstanding, rateBps, Sum(pieces));
    AccrualIsCorrectlyRounded(outstanding, rateBps, Sum(pieces), whole);
  }
}
