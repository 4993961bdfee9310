/** Bytes, and sizes of runs of equally long pieces. */
module Bytes {
  type Byte = b: nat | b < 256

  /** A byte string as a number, first byte least significant. */
  function Little(s: seq<Byte>): nat {
    if s == [] then 0 else s[0] + 256 * Little(s[1..])
  }

  /** p pieces of n; a product that unfolds one piece at a time. */
  function Times(p: nat, n: nat): nat {
    if p == 0 then 0 else Times(p - 1, n) + n
  }

  lemma {:induction false} TimesIsProduct(p: nat, n: nat)
    ensures Times(p, n) == p * n
  {
    if p > 0 { TimesIsProduct(p - 1, n); }
  }

  lemma {:induction false} TimesMono(p: nat, q: nat, n: nat)
    requires p <= q
    ensures Times(p, n) <= Times(q, n)
    ensures p < q ==> Times(p, n) + n <= Times(q, n)
  {
    if p < q { TimesMono(p, q - 1, n); }
  }

  lemma {:induction false} TimesAdd(p: nat, q: nat, n: nat)
    ensures Times(p + q, n) == Times(p, n) + Times(q, n)
  {
    if q > 0 { TimesAdd(p, q - 1, n); }
  }

  lemma {:induction false} TimesZero(p: nat)
    ensures Times(p, 0) == 0
  {
    if p > 0 { TimesZero(p - 1); }
  }

  lemma {:induction false} TimesFour(p: nat, n: nat)
    ensures Times(p, 4 * n) == 4 * Times(p, n)
  {
    if p > 0 { TimesFour(p - 1, n); }
  }
}
