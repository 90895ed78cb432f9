/**
 The retention cutoff (internal/vault/mutators.go:229): a time minus a number of days, computed in signed
 64-bit nanoseconds, and when that is the moment the setting means.
 */
module Retention {
  const TWO_63: int := 0x8000_0000_0000_0000
  const TWO_64: int := 0x1_0000_0000_0000_0000
  const DAY: int := 24 * 3600 * 1_000_000_000
  const MAX_RETENTION_DAYS: int := 106_751

  /** Signed 64-bit wrap-around. */
  function Wrap64(x: int): (r: int)
    ensures -TWO_63 <= r < TWO_63
  {
    (x + TWO_63) % TWO_64 - TWO_63
  }

  /** now minus the retention, in nanoseconds, computed in 64 bits: -Duration(days) * 24 * Hour. */
  function Cutoff(now: int, days: int): int {
    now + Wrap64(Wrap64(Wrap64(-days) * 24) * (3600 * 1_000_000_000))
  }

  lemma WrapTimes(x: int, k: int)
    ensures Wrap64(Wrap64(x) * k) == Wrap64(x * k)
  {
    var q := (x + TWO_63) / TWO_64;
    assert Wrap64(x) == x - q * TWO_64;
    var y := x * k + TWO_63;
    assert Wrap64(x) * k + TWO_63 == y + (-(q * k)) * TWO_64 by { WrapTimesStep(x, q, k); }
    ModShift(y, -(q * k));
  }

  lemma WrapTimesStep(x: int, q: int, k: int)
    ensures (x - q * TWO_64) * k == x * k + (-(q * k)) * TWO_64
  {
  }

  lemma ModShift(y: int, q: int)
    ensures (y + q * TWO_64) % TWO_64 == y % TWO_64
  {
    var r := y % TWO_64;
    var n := y / TWO_64;
    assert y + q * TWO_64 == (n + q) * TWO_64 + r;
    QuotientIsUnique(y + q * TWO_64, n + q, r);
  }

  lemma QuotientIsUnique(x: int, n: int, r: int)
    requires 0 <= r < TWO_64 && x == n * TWO_64 + r
    ensures x % TWO_64 == r
  {
  }

  lemma CutoffIsWrapped(now: int, days: int)
    ensures Cutoff(now, days) == now + Wrap64(-days * DAY)
  {
    WrapTimes(-days, 24);
    WrapTimes(-days * 24, 3600 * 1_000_000_000);
    assert -days * 24 * (3600 * 1_000_000_000) == -days * DAY;
  }

  /** The cutoff is the moment the setting means exactly when the days fit in 64-bit nanoseconds. */
  lemma CutoffIsExactIff(now: int, days: int)
    ensures Cutoff(now, days) == now - days * DAY <==> -MAX_RETENTION_DAYS <= days <= MAX_RETENTION_DAYS
  {
    CutoffIsWrapped(now, days);
  }

  /** An entry of this time is still to be kept. */
  predicate InsideRetention(now: int, days: int, stamp: int) {
    now - days * DAY <= stamp
  }

  /**
   The promise of the setting - no entry that is still inside its retention lies before the cutoff - is
   kept exactly up to that many days.
   */
  lemma RetainsIff(now: int, days: int)
    requires days >= 0
    ensures (forall stamp: int | InsideRetention(now, days, stamp) :: Cutoff(now, days) <= stamp)
            <==> days <= MAX_RETENTION_DAYS
  {
    CutoffIsWrapped(now, days);
    CutoffIsExactIff(now, days);
    var edge := now - days * DAY;
    assert InsideRetention(now, days, edge);
    assert days > MAX_RETENTION_DAYS ==> edge < Cutoff(now, days);
  }

  /** When the cutoff lies in the future, so that every past entry lies before it. */
  lemma CutoffIsFutureIff(now: int, days: int)
    ensures now < Cutoff(now, days) <==> 0 < (-days * DAY) % TWO_64 < TWO_63
  {
    CutoffIsWrapped(now, days);
    var x := -days * DAY;
    var q, r := x / TWO_64, x % TWO_64;
    if r < TWO_63 {
      QuotientIsUnique(x + TWO_63, q, r + TWO_63);
    } else {
      QuotientIsUnique(x + TWO_63, q + 1, r - TWO_63);
    }
  }
}
