/** The level generator `rand2exp`: a node's top level is drawn from one random
    integer, by counting the zero bits below a forced top bit. The random draw
    itself is a parameter here. */
module Levels {

  function Pow2(k: nat): (p: nat)
    ensures p >= 1
  {
    if k == 0 then 1 else 2 * Pow2(k - 1)
  }

  lemma {:induction false} Pow2Monotone(j: nat, k: nat)
    requires j <= k
    ensures Pow2(j) <= Pow2(k)
  {
    if j < k {
      Pow2Monotone(j, k - 1);
    }
  }

  /** The index of the highest set bit of a positive integer. */
  function HighBit(r: nat): (h: nat)
    requires r >= 1
    ensures Pow2(h) <= r < Pow2(h + 1)
  {
    if r == 1 then 0 else 1 + HighBit(r / 2)
  }

  /** The bounds of `HighBit` determine it. */
  lemma HighBitUnique(r: nat, k: nat)
    requires Pow2(k) <= r < Pow2(k + 1)
    ensures HighBit(r) == k
  {
    var h := HighBit(r);
    if h < k {
      Pow2Monotone(h + 1, k);
    } else if k < h {
      Pow2Monotone(k + 1, h);
    }
  }

  /** For a mask that is a power of two and a value below twice the mask,
      `r & mask == 0` is `r < mask`. */
  lemma MaskBit(r: nat, mask: nat)
    requires mask >= 1 && r < 2 * mask
    ensures (r / mask) % 2 == 0 <==> r < mask
  {
    if r < mask {
      assert r / mask == 0;
    } else {
      assert r == mask + (r - mask) && r - mask < mask;
      assert r / mask == 1;
    }
  }

  /** `rand2exp(ex)`, with `draw` standing for `@randgen.rand(mask - 1)`, a
      number in 0 ... 2^(ex+1) - 2. The loop shifts the mask right until it
      meets a set bit of `r = 1 + draw`; the count of shifts is the result:
      `ex` minus the index of the highest set bit of `r`, so within 0 ... ex. */
  method Rand2Exp(ex: nat, draw: nat) returns (i: nat)
    requires draw < Pow2(ex + 1) - 1
    ensures i <= ex
    ensures i == ex - HighBit(1 + draw)
  {
    var mask := Pow2(ex + 1);
    var r := 1 + draw;
    mask := mask / 2;
    i := 0;
    while (r / mask) % 2 == 0
      invariant i <= ex && mask == Pow2(ex - i)
      invariant 1 <= r < 2 * mask
      decreases ex - i
    {
      MaskBit(r, mask);
      mask := mask / 2;
      i := i + 1;
    }
    MaskBit(r, mask);
    HighBitUnique(r, ex - i);
  }

  predicate InRange(a: int, b: int, d: int) {
    a <= d < b
  }

  lemma {:induction false} RangeSize(a: int, b: int)
    requires a <= b
    ensures |set d: int | a <= d < b && InRange(a, b, d)| == b - a
    decreases b - a
  {
    var s := set d: int | a <= d < b && InRange(a, b, d);
    if a < b {
      var c := b - 1;
      RangeSize(a, c);
      var t := set d: int | a <= d < c && InRange(a, c, d);
      assert s == t + {c};
    } else {
      assert s == {};
    }
  }

  /** Whether the draw `d` makes `rand2exp(ex)` return `i`. */
  predicate Gives(ex: nat, i: nat, d: nat) {
    ex - HighBit(1 + d) == i
  }

  /** A draw gives level i exactly when it lies in 2^(ex-i) - 1 ... 2^(ex-i+1) - 2. */
  lemma GivesIffInRange(ex: nat, i: nat, d: nat)
    requires i <= ex
    ensures Gives(ex, i, d) <==> InRange(Pow2(ex - i) - 1, Pow2(ex - i + 1) - 1, d)
  {
    var k, h := ex - i, HighBit(1 + d);
    if h < k {
      Pow2Monotone(h + 1, k);
    } else if h > k {
      Pow2Monotone(k + 1, h);
    }
  }

  /** The distribution: of the 2^(ex+1) - 1 possible draws, exactly 2^(ex-i)
      give level i, so level 0 takes about a half, level 1 a quarter, and so on. */
  lemma LevelFrequency(ex: nat, i: nat)
    requires i <= ex
    ensures |set d: nat | d < Pow2(ex + 1) - 1 && Gives(ex, i, d)| == Pow2(ex - i)
  {
    var k := ex - i;
    var lo, hi := Pow2(k) - 1, Pow2(k + 1) - 1;
    Pow2Monotone(k + 1, ex + 1);
    var s := set d: nat | d < Pow2(ex + 1) - 1 && Gives(ex, i, d);
    forall d: nat | d < Pow2(ex + 1) - 1
      ensures Gives(ex, i, d) <==> InRange(lo, hi, d)
    {
      GivesIffInRange(ex, i, d);
    }
    assert s == set d: int | lo <= d < hi && InRange(lo, hi, d);
    RangeSize(lo, hi);
  }
}
