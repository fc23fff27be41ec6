/** Types shared by every component of the model. */
module Common {

  datatype Option<+T> = None | Some(value: T)

  datatype Result<+T, +E> = Ok(value: T) | Err(error: E)

  /** One element of a `Uint8Array`. */
  type byte = x: int | 0 <= x < 256

  function Pow2(n: nat): (p: nat)
    ensures p > 0
  {
    if n == 0 then 1 else 2 * Pow2(n - 1)
  }

  // ---------------------------------------------------------------- dividing twice

  lemma LeTimes(a: nat, b: nat, d: nat)
    ensures a <= b ==> a * d <= b * d
  {
  }

  lemma DivIs(x: nat, d: nat, q: nat, r: nat)
    requires r < d && x == q * d + r
    ensures x / d == q
  {
    LeTimes(x / d + 1, q, d);
    LeTimes(q + 1, x / d, d);
  }

  lemma DivTwice(n: nat, d: nat, p: nat)
    requires d > 0 && p > 0
    ensures d * p > 0 && n / (d * p) == n / d / p
  {
    DivTwiceIs(n, n / d, n % d, n / d / p, n / d % p, d, p);
  }

  lemma DivTwiceIs(n: nat, high: nat, low: nat, q: nat, r: nat, d: nat, p: nat)
    requires n == high * d + low && low < d && high == q * p + r && r < p
    ensures d * p > 0 && n / (d * p) == q
  {
    LeTimes(r + 1, p, d);
    TimesSum(q, p, r, d);
    DivIs(n, d * p, q, r * d + low);
  }

  lemma TimesSum(q: nat, p: nat, r: nat, d: nat)
    ensures (q * p + r) * d == q * (d * p) + r * d
  {
  }

  // ---------------------------------------------------------------- buffers

  predicate AllZero(s: seq<byte>) {
    forall i :: 0 <= i < |s| ==> s[i] == 0
  }

  /** `buffer.fill(0)`: overwrite a key buffer in place. */
  method FillZero(buffer: array<byte>)
    modifies buffer
    ensures AllZero(buffer[..])
  {
    for i := 0 to buffer.Length
      invariant AllZero(buffer[..i])
    {
      buffer[i] := 0;
    }
  }
}
