/** NTP conversion and 32-bit timestamp order of the worker's Utils::Time, with doubles taken as reals. */
module NtpTime {

  const NTP_UNIT := 4294967296
  const HALF := 0x8000_0000

  type U32 = n: nat | n < 4294967296

  datatype Ntp = Ntp(seconds: U32, fractions: U32)

  /** The fraction of a second, in NTP units, before it is cut to an integer. */
  ghost function Exact(ms: nat): real {
    (ms % 1000) as real / 1000.0 * 4294967296.0
  }

  function TimeMs2Ntp(ms: nat): Ntp {
    Ntp(ms / 1000 % NTP_UNIT, ((ms % 1000) as real / 1000.0 * 4294967296.0).Floor)
  }

  /** std::round on a value that is not negative. */
  function Round(x: real): int {
    (x + 0.5).Floor
  }

  function Ntp2TimeMs(ntp: Ntp): int {
    ntp.seconds * 1000 + Round(ntp.fractions as real * 1000.0 / 4294967296.0)
  }

  /**
   The millisecond is recovered from any fraction within 2147483 units of the exact one, so rounding errors in
   the double arithmetic cannot matter.
   */
  lemma FractionTolerance(ms: nat, ntp: Ntp)
    requires ntp.seconds == ms / 1000 % NTP_UNIT
    requires Exact(ms) - 2147483.0 <= ntp.fractions as real <= Exact(ms) + 2147483.0
    ensures Ntp2TimeMs(ntp) == ms / 1000 % NTP_UNIT * 1000 + ms % 1000
  {
    var r, f := (ms % 1000) as real, ntp.fractions as real;
    assert r - 0.5 < f * 1000.0 / 4294967296.0 < r + 0.5;
  }

  /** Converting to NTP and back loses exactly the seconds that do not fit 32 bits. */
  lemma NtpRoundTrip(ms: nat)
    ensures Ntp2TimeMs(TimeMs2Ntp(ms)) == ms % (1000 * NTP_UNIT)
    ensures Ntp2TimeMs(TimeMs2Ntp(ms)) == ms <==> ms < 1000 * NTP_UNIT
  {
    FractionTolerance(ms, TimeMs2Ntp(ms));
    var s := ms / 1000;
    var q := s / NTP_UNIT;
    assert ms == 1000 * s + ms % 1000 && s == NTP_UNIT * q + s % NTP_UNIT;
    assert ms == 1000 * NTP_UNIT * q + (s % NTP_UNIT * 1000 + ms % 1000);
  }

  // ----- Order of 32-bit timestamps -----

  /** Subtraction modulo 2^32. */
  function Ahead(a: U32, b: U32): U32 {
    if a >= b then a - b else a + NTP_UNIT - b
  }

  predicate IsNewerTimestamp(timestamp: U32, prev: U32) {
    if Ahead(timestamp, prev) == HALF then timestamp > prev
    else timestamp != prev && Ahead(timestamp, prev) < HALF
  }

  function LatestTimestamp(a: U32, b: U32): U32 {
    if IsNewerTimestamp(a, b) then a else b
  }

  /** Of two distinct timestamps exactly one is newer, also at distance 2^31, where serial arithmetic is undefined. */
  lemma ExactlyOneNewer(a: U32, b: U32)
    ensures a != b ==> IsNewerTimestamp(a, b) != IsNewerTimestamp(b, a)
    ensures LatestTimestamp(a, b) == LatestTimestamp(b, a)
  {}

  function Shift(a: U32, k: U32): U32 {
    (a + k) % NTP_UNIT
  }

  /** Moving both timestamps by the same amount keeps their order, for every amount, exactly off distance 2^31. */
  lemma ShiftKeepsOrder(a: U32, b: U32)
    ensures (forall k: U32 :: IsNewerTimestamp(Shift(a, k), Shift(b, k)) == IsNewerTimestamp(a, b))
            <==> Ahead(a, b) != HALF
  {
    if Ahead(a, b) == HALF {
      var k := Ahead(0, if a > b then a else b);
      assert IsNewerTimestamp(Shift(a, k), Shift(b, k)) != IsNewerTimestamp(a, b);
    }
  }

  /** Less than half the range ahead is newer, across wrap-around; at half the range the larger number is. */
  lemma NewerIsAhead(a: U32, d: U32)
    requires 0 < d
    ensures d < HALF ==> IsNewerTimestamp(Shift(a, d), a) && LatestTimestamp(Shift(a, d), a) == Shift(a, d)
    ensures d > HALF ==> IsNewerTimestamp(a, Shift(a, d)) && LatestTimestamp(a, Shift(a, d)) == a
    ensures d == HALF ==> LatestTimestamp(a, Shift(a, d)) == if a > Shift(a, d) then a else Shift(a, d)
  {
    assert Shift(a, d) == if a + d < NTP_UNIT then a + d else a + d - NTP_UNIT;
  }

  /** The fraction is the largest number of units of 2^-32 seconds that does not exceed the milliseconds. */
  lemma FractionIsFloor(ms: nat)
    ensures var f := TimeMs2Ntp(ms).fractions; f * 1000 <= ms % 1000 * 4294967296 < (f + 1) * 1000
    ensures TimeMs2Ntp(ms).seconds == ms / 1000 % 4294967296
  {
    var r: int, f: int := ms % 1000, TimeMs2Ntp(ms).fractions;
    var x := r as real / 1000.0 * 4294967296.0;
    assert f as real <= x < f as real + 1.0;
    assert x * 1000.0 == (r * 4294967296) as real;
    assert (f * 1000) as real <= (r * 4294967296) as real < ((f + 1) * 1000) as real;
  }

  /** Any NTP time is read to the nearest millisecond, up if there are two. */
  lemma NearestMillisecond(ntp: Ntp)
    ensures var m := Ntp2TimeMs(ntp) - ntp.seconds * 1000;
            (2 * m - 1) * 4294967296 <= 2000 * ntp.fractions < (2 * m + 1) * 4294967296
  {
    var f: int, m: int := ntp.fractions, Ntp2TimeMs(ntp) - ntp.seconds * 1000;
    var x := f as real * 1000.0 / 4294967296.0;
    assert m as real <= x + 0.5 < m as real + 1.0;
    assert 2.0 * x * 4294967296.0 == (2000 * f) as real;
    assert ((2 * m - 1) * 4294967296) as real <= (2000 * f) as real < ((2 * m + 1) * 4294967296) as real;
  }
}
