/**
 * Bit-level facts about single octets, numbered the way the prefix scan of
 * cidrCalc.c numbers them: bit 0 is the most significant bit (0x80) and
 * bit 7 the least significant (0x01). Counts and bit positions are `bv8`,
 * as the scan's `ui8` counters are. Two octets a and b agree under a mask m
 * when `(a ^ b) & m == 0`, that is, when `a & m == b & m`.
 */
module OctetBits {

  /** Agreement under a mask, read as a clear xor. */
  lemma AgreeIsXorClear(a: bv8, b: bv8, m: bv8)
    ensures a & m == b & m <==> (a ^ b) & m == 0
  {
  }

  /** Bit k of x, kept in place: the value `x & (0x80 >> k)` that the scan compares. */
  function BitAt(x: bv8, k: bv8): bv8
    requires k < 8
  {
    x & (0x80 >> k)
  }

  /** The octet whose n most significant bits are set and whose other bits are clear. */
  function TopBits(n: bv8): bv8
    requires n <= 8
  {
    !(0xFF >> n)
  }

  /** TopBits(n) is the octet `(0xFF << (8 - n)) & 0xFF`, and it sets exactly the bits 0 .. n - 1. */
  lemma TopBitsBits(n: bv8, k: bv8)
    requires n <= 8 && k < 8
    ensures TopBits(n) == 0xFF << (8 - n)
    ensures BitAt(TopBits(n), k) != 0 <==> k < n
  {
  }

  /** TopBits grows by one bit at a time, as the scan's `1 << (7 - i)` adds it. */
  lemma TopBitsStep(i: bv8)
    requires i < 8
    ensures TopBits(i + 1) == TopBits(i) | (1 << (7 - i))
    ensures (1 as bv8 << (7 - i)) == 0x80 >> i
  {
  }

  /**
   * One round of the scan's mask update: ORing bit i in when the round matches
   * extends a mask that already holds TopBits(i) to TopBits(i + 1).
   */
  lemma OrBitStep(o: bv8, n: bv8, i: bv8, eq: bool)
    requires i < 8 && n <= 8 && (eq ==> n == i)
    ensures ((if eq then 1 else 0) << (7 - i)) | (o | TopBits(n)) == o | TopBits(if eq then n + 1 else n)
  {
    TopBitsStep(i);
  }

  /** Two octets agree under TopBits(m) exactly when their m leading bits agree one by one. */
  lemma {:induction false} AgreeUnderTopBits(x: bv8, y: bv8, m: bv8)
    requires m <= 8
    ensures (x ^ y) & TopBits(m) == 0 <==> forall i: bv8 :: i < m ==> BitAt(x, i) == BitAt(y, i)
  {
    if m > 0 {
      AgreeUnderTopBits(x, y, m - 1);
      assert (x ^ y) & TopBits(m) == 0
        <==> (x ^ y) & TopBits(m - 1) == 0 && BitAt(x, m - 1) == BitAt(y, m - 1);
      if forall i: bv8 :: i < m ==> BitAt(x, i) == BitAt(y, i) {
      } else {
        var i: bv8 :| i < m && BitAt(x, i) != BitAt(y, i);
        assert i < m - 1 ==> (x ^ y) & TopBits(m - 1) != 0;
      }
    }
  }

  /**
   * The number of leading (most significant) bits on which a and b agree: the
   * number of leading zeros of a ^ b, read off from its highest set bit.
   */
  function LeadingEqual(a: bv8, b: bv8): (n: bv8)
    ensures n <= 8
  {
    var x := a ^ b;
    if x & 0x80 != 0 then 0 else if x & 0x40 != 0 then 1 else if x & 0x20 != 0 then 2
    else if x & 0x10 != 0 then 3 else if x & 0x08 != 0 then 4 else if x & 0x04 != 0 then 5
    else if x & 0x02 != 0 then 6 else if x & 0x01 != 0 then 7 else 8
  }

  /** a and b agree under TopBits(LeadingEqual(a, b)) and, below that, differ at the next bit. */
  lemma LeadingEqualSpec(a: bv8, b: bv8)
    ensures (a ^ b) & TopBits(LeadingEqual(a, b)) == 0
    ensures LeadingEqual(a, b) < 8 ==> BitAt(a, LeadingEqual(a, b)) != BitAt(b, LeadingEqual(a, b))
  {
  }

  /** Once a and b agree under TopBits(m), they agree under every shorter top mask. */
  lemma {:induction false} AgreeBelow(a: bv8, b: bv8, m: bv8, k: bv8)
    requires k <= m <= 8 && (a ^ b) & TopBits(m) == 0
    ensures (a ^ b) & TopBits(k) == 0
    decreases m - k
  {
    if k < m {
      assert (a ^ b) & TopBits(m - 1) == 0;
      AgreeBelow(a, b, m - 1, k);
    }
  }

  /**
   * LeadingEqual(a, b) is the longest top run on which a and b agree: they agree
   * under TopBits(m) if and only if m is at most LeadingEqual(a, b).
   */
  lemma LeadingEqualIsLongest(a: bv8, b: bv8, m: bv8)
    requires m <= 8
    ensures (a ^ b) & TopBits(m) == 0 <==> m <= LeadingEqual(a, b)
  {
    var n := LeadingEqual(a, b);
    LeadingEqualSpec(a, b);
    if m <= n {
      AgreeBelow(a, b, n, m);
    } else if (a ^ b) & TopBits(m) == 0 {
      AgreeBelow(a, b, m, n + 1);
      assert false;
    }
  }

  /**
   * The bit-by-bit view of LeadingEqual that a scan from the top sees: bit k,
   * for k up to the run's end, is equal in a and b exactly while k is inside the run.
   */
  lemma ScanBitAgrees(a: bv8, b: bv8, k: bv8)
    requires k < 8 && k <= LeadingEqual(a, b)
    ensures BitAt(a, k) == BitAt(b, k) <==> k < LeadingEqual(a, b)
  {
    LeadingEqualSpec(a, b);
    AgreeUnderTopBits(a, b, LeadingEqual(a, b));
  }

  /** LeadingEqual is 8 exactly for equal octets. */
  lemma LeadingEqualIsEightIff(a: bv8, b: bv8)
    ensures LeadingEqual(a, b) == 8 <==> a == b
  {
  }

  /** LeadingEqual is 0 exactly when the most significant bits differ. */
  lemma LeadingEqualIsZeroIff(a: bv8, b: bv8)
    ensures LeadingEqual(a, b) == 0 <==> a & 0x80 != b & 0x80
  {
    var n := LeadingEqual(a, b);
    LeadingEqualSpec(a, b);
    if n != 0 {
      AgreeBelow(a, b, n, 1);
    }
  }

  /** The number of set bits of x from bit k down to bit 7. */
  function PopCountFrom(x: bv8, k: bv8): bv8
    requires k <= 8
    decreases 8 - k
  {
    if k == 8 then 0 else (if BitAt(x, k) != 0 then 1 else 0) + PopCountFrom(x, k + 1)
  }

  /** The number of set bits of x. */
  function PopCount(x: bv8): bv8
  {
    PopCountFrom(x, 0)
  }

  lemma {:induction false} PopCountFromTopBits(n: bv8, k: bv8)
    requires n <= 8 && k <= 8
    ensures PopCountFrom(TopBits(n), k) == if k < n then n - k else 0
    decreases 8 - k
  {
    if k < 8 {
      PopCountFromTopBits(n, k + 1);
      TopBitsBits(n, k);
    }
  }

  /** TopBits(n) has exactly n bits set. */
  lemma PopCountTopBits(n: bv8)
    requires n <= 8
    ensures PopCount(TopBits(n)) == n
  {
    PopCountFromTopBits(n, 0);
  }
}
