/** Fixed-width unsigned integers as bit sequences (least significant bit first). */
module Bits {

  function Pow2(n: nat): (r: nat)
    ensures r >= 1
  {
    if n == 0 then 1 else 2 * Pow2(n - 1)
  }

  /** The number of bits needed to write every value in 0..n. */
  function BitsFor(n: nat): nat
  {
    if n == 0 then 0 else 1 + BitsFor(n / 2)
  }

  lemma {:induction false} BitsForFits(n: nat)
    ensures n < Pow2(BitsFor(n))
  {
    if n > 0 {
      BitsForFits(n / 2);
    }
  }

  /** BitsFor is the least width that fits: one bit fewer would not hold n. */
  lemma {:induction false} BitsForMinimal(n: nat)
    requires n > 0
    ensures Pow2(BitsFor(n) - 1) <= n
  {
    if n / 2 > 0 {
      BitsForMinimal(n / 2);
    }
  }

  lemma {:induction false} BitsForPow2(k: nat)
    ensures BitsFor(Pow2(k) - 1) == k
  {
    if k > 0 {
      BitsForPow2(k - 1);
      assert (Pow2(k) - 1) / 2 == Pow2(k - 1) - 1;
    }
  }

  /** The low k bits of v. */
  function ToBits(v: nat, k: nat): (r: seq<bool>)
    ensures |r| == k
  {
    if k == 0 then [] else [v % 2 == 1] + ToBits(v / 2, k - 1)
  }

  function FromBits(s: seq<bool>): (r: nat)
    ensures r < Pow2(|s|)
  {
    if |s| == 0 then 0 else (if s[0] then 1 else 0) + 2 * FromBits(s[1..])
  }

  lemma {:induction false} FromToBits(v: nat, k: nat)
    requires v < Pow2(k)
    ensures FromBits(ToBits(v, k)) == v
  {
    if k > 0 {
      var s := ToBits(v, k);
      assert s[1..] == ToBits(v / 2, k - 1);
      FromToBits(v / 2, k - 1);
    }
  }
}
