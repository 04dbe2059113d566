/** The ids 0 .. n-1 that the tests insert in a loop. */
module Ranges {
  ghost function Range(n: nat): set<nat> {
    if n == 0 then {} else Range(n - 1) + {n - 1}
  }

  lemma {:induction false} RangeCard(n: nat)
    ensures |Range(n)| == n
    ensures forall k: nat :: k in Range(n) <==> k < n
  {
    if n > 0 {
      RangeCard(n - 1);
    }
  }
}
