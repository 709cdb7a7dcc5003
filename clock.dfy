/** The logical clock `TIME`: a Go `uint64` that the one-second ticker job
    increments. Go's unsigned arithmetic wraps around, so one tick past the
    largest value gives 0. */
module Clock {

  const Modulus: int := 0x1_0000_0000_0000_0000

  newtype uint64 = x: int | 0 <= x < 0x1_0000_0000_0000_0000

  /** `TIME += 1` on a `uint64`. */
  function Inc(t: uint64): (r: uint64)
    ensures r as int == (t as int + 1) % Modulus
  {
    if t as int == Modulus - 1 then 0 else t + 1
  }

  /** The clock after `n` firings of the ticker job, starting from `t`. */
  function Advance(t: uint64, n: nat): (r: uint64)
  {
    if n == 0 then t else Inc(Advance(t, n - 1))
  }

  /** `n` firings add `n` to the clock, modulo 2^64. */
  lemma {:induction false} AdvanceAdds(t: uint64, n: nat)
    ensures Advance(t, n) as int == (t as int + n) % Modulus
  {
    if n > 0 {
      AdvanceAdds(t, n - 1);
      var x := t as int + n - 1;
      assert (x % Modulus + 1) % Modulus == (x + 1) % Modulus by {
        var q := x / Modulus;
        assert x == q * Modulus + x % Modulus;
        if x % Modulus + 1 == Modulus {
          assert x + 1 == (q + 1) * Modulus;
        } else {
          assert x + 1 == q * Modulus + (x % Modulus + 1);
        }
      }
    }
  }

  /** Started from 0, the clock counts the firings until it wraps. */
  lemma CountsFiringsFromZero(n: nat)
    requires n < Modulus
    ensures Advance(0, n) as int == n
  {
    AdvanceAdds(0, n);
  }

  /** Before the wrap the clock never goes backwards. */
  lemma MonotonicBeforeWrap(m: nat, n: nat)
    requires m <= n < Modulus
    ensures Advance(0, m) <= Advance(0, n)
  {
    CountsFiringsFromZero(m);
    CountsFiringsFromZero(n);
  }

  /** After 2^64 firings the clock is back at its starting value. */
  lemma WrapsAfterModulus(t: uint64)
    ensures Advance(t, Modulus) == t
  {
    AdvanceAdds(t, Modulus);
    assert (t as int + Modulus) % Modulus == t as int;
  }
}
