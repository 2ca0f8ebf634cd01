/** Powers of a radix. `Pow` is the integer power used by every exact scaling
    of a mantissa; `RPow` extends it to negative exponents as an exact real, the
    value of `mantissa * radix^exponent` for arbitrary-precision payloads. */
module Powers {

  function Pow(b: int, n: nat): (p: int)
    ensures b >= 1 ==> p >= 1
  {
    if n == 0 then 1 else b * Pow(b, n - 1)
  }

  lemma PowPositive(b: int, n: nat)
    requires b >= 1
    ensures Pow(b, n) >= 1
  {
  }

  lemma MulAssoc(x: int, y: int, z: int)
    ensures x * (y * z) == y * (x * z)
  {
  }

  lemma {:induction false} PowAdd(b: int, m: nat, n: nat)
    ensures Pow(b, m + n) == Pow(b, m) * Pow(b, n)
  {
    if n > 0 {
      PowAdd(b, m, n - 1);
      calc {
        Pow(b, m + n);
        b * Pow(b, m + n - 1);
        b * (Pow(b, m) * Pow(b, n - 1));
        { MulAssoc(b, Pow(b, m), Pow(b, n - 1)); }
        Pow(b, m) * (b * Pow(b, n - 1));
        Pow(b, m) * Pow(b, n);
      }
    }
  }

  /** For a base of at least 2 the powers grow strictly. */
  lemma {:induction false} PowStrictlyIncreasing(b: int, m: nat, n: nat)
    requires b >= 2
    requires m < n
    ensures Pow(b, m) < Pow(b, n)
  {
    PowPositive(b, m);
    PowPositive(b, n - 1);
    if m < n - 1 {
      PowStrictlyIncreasing(b, m, n - 1);
    }
  }

  lemma PowMonotone(b: int, m: nat, n: nat)
    requires b >= 2
    requires m <= n
    ensures Pow(b, m) <= Pow(b, n)
  {
    if m < n {
      PowStrictlyIncreasing(b, m, n);
    }
  }

  /** `r` raised to an integer exponent, as an exact real. */
  function RPow(r: int, e: int): real
    requires r >= 1
  {
    if e >= 0 then Pow(r, e) as real else 1.0 / (Pow(r, -e) as real)
  }

  lemma RPowPositive(r: int, e: int)
    requires r >= 1
    ensures RPow(r, e) > 0.0
  {
    if e >= 0 {
      PowPositive(r, e);
    } else {
      PowPositive(r, -e);
    }
  }
}
