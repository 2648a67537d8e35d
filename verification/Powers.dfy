/**
 Powers of two, for the capped exponential delay between attempts of a scan and for the leading
 bits of an address read as an integer.
 */
module Powers {

  function Pow2(n: nat): (p: nat)
    ensures p > 0
  {
    if n == 0 then 1 else 2 * Pow2(n - 1)
  }
}
