/** `Mathf.RoundToInt`, which rounds to the nearest integer and breaks ties towards the even one. */
module Rounding {

  function RoundHalfEven(r: real): (n: int)
    ensures r - 0.5 <= n as real <= r + 0.5
    ensures (n as real - r == 0.5 || r - n as real == 0.5) ==> n % 2 == 0
  {
    var f := r.Floor;
    var frac := r - f as real;
    if frac < 0.5 then f
    else if frac > 0.5 then f + 1
    else if f % 2 == 0 then f
    else f + 1
  }

  /** The two properties above single out one integer. */
  lemma RoundHalfEvenUnique(r: real, m: int)
    requires r - 0.5 <= m as real <= r + 0.5
    requires (m as real - r == 0.5 || r - m as real == 0.5) ==> m % 2 == 0
    ensures m == RoundHalfEven(r)
  {
  }

  lemma RoundOfInteger(k: int)
    ensures RoundHalfEven(k as real) == k
  {
    RoundHalfEvenUnique(k as real, k);
  }
}
