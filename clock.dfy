/** The scheduler's arithmetic on the 32-bit millisecond counter. */
module Clock {

  const Modulus: int := 0x1_0000_0000

  /** An `unsigned long` on the device: 32 bits. */
  type U32 = x: int | 0 <= x < Modulus

  /** Measurement period in milliseconds (PUBLISH_INTERVAL). */
  const PublishInterval: U32 := 60000

  /** `now - last` computed in unsigned 32-bit arithmetic: the distance
      forward from `last` to `now` on the wrapping counter. */
  function Elapsed(now: U32, last: U32): (d: U32)
    ensures (last + d) % Modulus == now
  {
    (now - last) % Modulus
  }

  /** The measurement-cycle test of the main loop. */
  predicate Due(now: U32, last: U32) {
    Elapsed(now, last) >= PublishInterval
  }

  /** The counter as the device sees it at absolute time `t` (milliseconds
      since boot): `millis()` wraps every 2^32 ms. */
  function Millis(t: nat): U32 {
    t % Modulus
  }

  /** Across any number of counter roll-overs, the wrapped difference is the
      true elapsed time, as long as less than 2^32 ms passed. */
  lemma ElapsedAcrossRollover(tLast: nat, tNow: nat)
    requires tLast <= tNow < tLast + Modulus
    ensures Elapsed(Millis(tNow), Millis(tLast)) == tNow - tLast
  {
    var qa, qb := tLast / Modulus, tNow / Modulus;
    var a, b := Millis(tLast), Millis(tNow);
    assert tLast == qa * Modulus + a;
    assert tNow == qb * Modulus + b;
    var d := tNow - tLast;
    if b >= a {
      assert qb * Modulus - qa * Modulus == d - (b - a);
      assert (qb - qa) * Modulus == d - (b - a);
      assert qb == qa;
    } else {
      assert (qb - qa) * Modulus == d + (a - b);
      assert qb == qa + 1;
      assert b - a + Modulus == d;
    }
  }

  /** The cycle fires exactly when at least one interval of real time has
      passed since the last cycle, roll-over or not. */
  lemma DueAcrossRollover(tLast: nat, tNow: nat)
    requires tLast <= tNow < tLast + Modulus
    ensures Due(Millis(tNow), Millis(tLast)) <==> tNow - tLast >= PublishInterval
  {
    ElapsedAcrossRollover(tLast, tNow);
  }

  /** With the initial `lastPublish` of 0, the first cycle fires once the
      counter reaches one interval. */
  lemma FirstCycle(now: U32)
    ensures Due(now, 0) <==> now >= PublishInterval
  {
  }
}
