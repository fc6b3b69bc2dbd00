/**
 * The calculation cidrCalc.c sets out to make, with the two defects of
 * CidrCalc corrected: the scan stops after the first octet in which the two
 * addresses differ, so that the length and the mask describe the longest
 * common prefix of the two 32-bit addresses; and the address count is
 * computed in 33 bits, so that the /0 block counts 2^32 addresses instead of
 * wrapping to 0.
 */
module CommonPrefix {
  import opened OctetBits
  import opened Addresses
  import opened CidrCalc

  /** The first octet in which the two addresses differ, or 4 when they are equal. */
  function FirstDifferentOctet(field1: IpField, field2: IpField): (q: int)
    ensures 0 <= q <= 4
    ensures forall k :: 0 <= k < q ==> Octet(field1, k) == Octet(field2, k)
    ensures q < 4 ==> Octet(field1, q) != Octet(field2, q)
  {
    if field1.A != field2.A then 0
    else if field1.B != field2.B then 1
    else if field1.C != field2.C then 2
    else if field1.D != field2.D then 3
    else 4
  }

  /**
   * The length of the longest common prefix of the two addresses: the eight
   * bits of every octet before the first differing one, plus the leading
   * equal bits of that octet.
   */
  function CommonPrefixLength(field1: IpField, field2: IpField): int
  {
    var q := FirstDifferentOctet(field1, field2);
    8 * q + if q < 4 then OctetRun(field1, field2, q) as int else 0
  }

  /** Bits of octet k inside the common prefix. */
  function PrefixShare(field1: IpField, field2: IpField, k: int): (n: bv8)
    requires 0 <= k < 4
  {
    var q := FirstDifferentOctet(field1, field2);
    if k < q then 8 else if k == q then OctetRun(field1, field2, k) else 0
  }

  /** The mask of the longest common prefix, octet by octet. */
  function CommonPrefixMask(field1: IpField, field2: IpField): IpMask
  {
    Quad(TopBits(PrefixShare(field1, field2, 0)), TopBits(PrefixShare(field1, field2, 1)),
         TopBits(PrefixShare(field1, field2, 2)), TopBits(PrefixShare(field1, field2, 3)))
  }

  /**
   * Octet k of CommonPrefixMask: all ones before the first differing octet,
   * that octet's leading run at it, and zero after it.
   */
  lemma CommonPrefixMaskOctet(field1: IpField, field2: IpField, k: int)
    requires 0 <= k < 4
    ensures var q := FirstDifferentOctet(field1, field2);
      Octet(CommonPrefixMask(field1, field2), k)
        == if k < q then 0xFF else if k == q then TopBits(OctetRun(field1, field2, k)) else 0
  {
    assert Octet(CommonPrefixMask(field1, field2), k) == TopBits(PrefixShare(field1, field2, k));
  }

  /** Before the first differing octet the leading run is full; at it, it is not. */
  lemma RunIsFullBeforeFirstDifference(field1: IpField, field2: IpField, j: int)
    requires 0 <= j < 4 && j <= FirstDifferentOctet(field1, field2)
    ensures OctetRun(field1, field2, j) == 8 <==> j < FirstDifferentOctet(field1, field2)
  {
    LeadingEqualIsEightIff(Octet(field1, j), Octet(field2, j));
  }

  /**
   * netSlashNotation with the scan stopped after the first octet that differs:
   * the octets before it contribute all their 8 bits, the differing octet its
   * leading run, and the octets after it nothing.
   */
  method CommonPrefixNotation(field1: IpField, field2: IpField, netMask: array<bv8>) returns (result: int)
    requires netMask.Length == 4
    modifies netMask
    ensures result == CommonPrefixLength(field1, field2)
    ensures forall k :: 0 <= k < 4 && k <= FirstDifferentOctet(field1, field2) ==>
      netMask[k] == old(netMask[k]) | TopBits(OctetRun(field1, field2, k))
    ensures forall k :: FirstDifferentOctet(field1, field2) < k < 4 ==> netMask[k] == old(netMask[k])
  {
    ghost var q := FirstDifferentOctet(field1, field2);
    result := 0;
    var mismatch := false;
    var j := 0;
    while j < 4 && !mismatch
      invariant 0 <= j <= 4 && j <= q + 1
      invariant mismatch <==> j == q + 1
      invariant result == if mismatch then CommonPrefixLength(field1, field2) else 8 * j
      invariant forall k :: 0 <= k < j ==> netMask[k] == old(netMask[k]) | TopBits(OctetRun(field1, field2, k))
      invariant forall k :: j <= k < 4 ==> netMask[k] == old(netMask[k])
    {
      var n;
      n, netMask[j] := ScanOctet(Octet(field1, j), Octet(field2, j), netMask[j]);
      PrefixCountStep(field1, field2, j, result, n);
      result := result + n as int;
      mismatch := n < 8;
      j := j + 1;
    }
    assert mismatch || q == 4;
  }

  /**
   * One round of the corrected scan: a full run at octet j means the first
   * difference lies further on; a shorter one means it is at j, and the count
   * is then complete.
   */
  lemma PrefixCountStep(field1: IpField, field2: IpField, j: int, result: int, n: bv8)
    requires 0 <= j < 4 && j <= FirstDifferentOctet(field1, field2)
    requires result == 8 * j && n == OctetRun(field1, field2, j)
    ensures n < 8 <==> j == FirstDifferentOctet(field1, field2)
    ensures n < 8 ==> result + n as int == CommonPrefixLength(field1, field2)
    ensures n == 8 ==> result + n as int == 8 * (j + 1)
  {
    RunIsFullBeforeFirstDifference(field1, field2, j);
  }

  /**
   * What the corrected scan leaves in a zeroed mask buffer, octet by octet, is
   * CommonPrefixMask: for k before the first differing octet the stored run is
   * the full 8 bits.
   */
  lemma StoredOctetIsCommonPrefixMask(field1: IpField, field2: IpField, k: int, b: bv8)
    requires 0 <= k < 4
    requires k <= FirstDifferentOctet(field1, field2) ==> b == TopBits(OctetRun(field1, field2, k))
    requires k > FirstDifferentOctet(field1, field2) ==> b == 0
    ensures b == Octet(CommonPrefixMask(field1, field2), k)
  {
    CommonPrefixMaskOctet(field1, field2, k);
    if k < FirstDifferentOctet(field1, field2) {
      RunIsFullBeforeFirstDifference(field1, field2, k);
    }
  }

  /** The common prefix is between 0 and 32 bits long. */
  lemma CommonPrefixLengthBounds(field1: IpField, field2: IpField)
    ensures 0 <= CommonPrefixLength(field1, field2) <= 32
  {
  }

  /** OctetShare read as an integer: p - base, clamped to the octet's 0 .. 8 bits. */
  lemma OctetShareAsInt(p: bv8, base: bv8)
    requires p <= 32 && base <= 24
    ensures OctetShare(p, base) as int
         == if p as int <= base as int then 0 else if p as int - base as int >= 8 then 8 else p as int - base as int
  {
  }

  /**
   * The arithmetic behind PrefixShareIsOctetShare, over the run as a plain
   * value: the prefix of exactly 8q + runQ bits takes 8 bits from the octets
   * before q, runQ from octet q and none from the octets after it.
   */
  lemma PrefixShareArith(p: bv8, base: bv8, k: int, q: int, runQ: bv8)
    requires p <= 32 && 0 <= k < 4 && base as int == 8 * k && 0 <= q <= 4
    requires q < 4 ==> runQ < 8
    requires p as int == 8 * q + if q < 4 then runQ as int else 0
    ensures OctetShare(p, base) == if k < q then 8 else if k == q then runQ else 0
  {
    OctetShareAsInt(p, base);
  }

  /** Octet k of the common prefix mask keeps as many bits as octet k of the prefix mask of length CommonPrefixLength. */
  lemma PrefixShareIsOctetShare(field1: IpField, field2: IpField, p: bv8, k: int, base: bv8)
    requires p <= 32 && p as int == CommonPrefixLength(field1, field2)
    requires 0 <= k < 4 && base as int == 8 * k
    ensures PrefixShare(field1, field2, k) == OctetShare(p, base)
  {
    var q := FirstDifferentOctet(field1, field2);
    if q < 4 {
      RunIsFullBeforeFirstDifference(field1, field2, q);
    }
    PrefixShareArith(p, base, k, q, if q < 4 then OctetRun(field1, field2, q) else 0);
  }

  /** The corrected mask is contiguous: it is the prefix mask of length CommonPrefixLength. */
  lemma CommonPrefixMaskIsPrefixMask(field1: IpField, field2: IpField, p: bv8)
    requires p <= 32 && p as int == CommonPrefixLength(field1, field2)
    ensures CommonPrefixMask(field1, field2) == PrefixMask(p)
  {
    PrefixShareIsOctetShare(field1, field2, p, 0, 0);
    PrefixShareIsOctetShare(field1, field2, p, 1, 8);
    PrefixShareIsOctetShare(field1, field2, p, 2, 16);
    PrefixShareIsOctetShare(field1, field2, p, 3, 24);
  }

  /**
   * The arithmetic behind ShareWithinRun, over the runs as plain values: a
   * prefix of at most 8q + runQ bits takes at most runK bits from octet k.
   */
  lemma ShareWithinRunArith(p: bv8, base: bv8, k: int, q: int, runK: bv8, runQ: bv8)
    requires p <= 32 && 0 <= k < 4 && base as int == 8 * k && 0 <= q <= 4 && runK <= 8 && runQ <= 8
    requires k < q ==> runK == 8
    requires k == q ==> runK == runQ
    requires p as int <= 8 * q + if q < 4 then runQ as int else 0
    ensures OctetShare(p, base) <= runK
  {
    OctetShareAsInt(p, base);
  }

  /** A prefix no longer than the common prefix takes from each octet no more than its leading run. */
  lemma ShareWithinRun(field1: IpField, field2: IpField, p: bv8, k: int, base: bv8)
    requires p <= 32 && 0 <= k < 4 && base as int == 8 * k && p as int <= CommonPrefixLength(field1, field2)
    ensures OctetShare(p, base) <= OctetRun(field1, field2, k)
  {
    var q := FirstDifferentOctet(field1, field2);
    if k < q {
      RunIsFullBeforeFirstDifference(field1, field2, k);
    }
    ShareWithinRunArith(p, base, k, q, OctetRun(field1, field2, k), if q < 4 then OctetRun(field1, field2, q) else 0);
  }

  /** The arithmetic behind ShareBeyondRun: more than 8q + runQ bits take more than runQ bits from octet q. */
  lemma ShareBeyondRunArith(p: bv8, base: bv8, q: int, runQ: bv8)
    requires p <= 32 && 0 <= q < 4 && base as int == 8 * q && runQ < 8
    requires p as int > 8 * q + runQ as int
    ensures OctetShare(p, base) > runQ
  {
    OctetShareAsInt(p, base);
  }

  /** A prefix longer than the common prefix takes from the first differing octet more than its run. */
  lemma ShareBeyondRun(field1: IpField, field2: IpField, p: bv8)
    requires p <= 32 && p as int > CommonPrefixLength(field1, field2)
    ensures OctetShare(p, 0) > OctetRun(field1, field2, 0) || OctetShare(p, 8) > OctetRun(field1, field2, 1)
         || OctetShare(p, 16) > OctetRun(field1, field2, 2) || OctetShare(p, 24) > OctetRun(field1, field2, 3)
  {
    var q := FirstDifferentOctet(field1, field2);
    if q == 4 {
      assert false;
    }
    RunIsFullBeforeFirstDifference(field1, field2, q);
    if q == 0 {
      ShareBeyondRunArith(p, 0, 0, OctetRun(field1, field2, 0));
    } else if q == 1 {
      ShareBeyondRunArith(p, 8, 1, OctetRun(field1, field2, 1));
    } else if q == 2 {
      ShareBeyondRunArith(p, 16, 2, OctetRun(field1, field2, 2));
    } else {
      ShareBeyondRunArith(p, 24, 3, OctetRun(field1, field2, 3));
    }
  }

  /** Every prefix of length at most CommonPrefixLength puts both addresses in the same network. */
  lemma CommonPrefixShared(field1: IpField, field2: IpField, p: bv8)
    requires p <= 32 && p as int <= CommonPrefixLength(field1, field2)
    ensures Network(field1, PrefixMask(p)) == Network(field2, PrefixMask(p))
  {
    ShareWithinRun(field1, field2, p, 0, 0);
    ShareWithinRun(field1, field2, p, 1, 8);
    ShareWithinRun(field1, field2, p, 2, 16);
    ShareWithinRun(field1, field2, p, 3, 24);
    ShorterRunsShareNetwork(field1, field2, OctetShare(p, 0), OctetShare(p, 8), OctetShare(p, 16), OctetShare(p, 24));
  }

  /** Every longer prefix puts the two addresses in different networks. */
  lemma BeyondCommonPrefixSplits(field1: IpField, field2: IpField, p: bv8)
    requires p <= 32 && p as int > CommonPrefixLength(field1, field2)
    ensures Network(field1, PrefixMask(p)) != Network(field2, PrefixMask(p))
  {
    ShareBeyondRun(field1, field2, p);
    LongerRunSplitsNetwork(field1, field2, OctetShare(p, 0), OctetShare(p, 8), OctetShare(p, 16), OctetShare(p, 24));
  }

  /**
   * The common prefix is never longer than netSlashNotation's count, which adds
   * to it the runs of the octets after the first differing one.
   */
  lemma CommonPrefixWithinSlashLength(field1: IpField, field2: IpField)
    ensures CommonPrefixLength(field1, field2) <= SlashLength(field1, field2)
  {
    SlashLengthIsSum(field1, field2);
    var q := FirstDifferentOctet(field1, field2);
    if 0 < q { RunIsFullBeforeFirstDifference(field1, field2, 0); }
    if 1 < q { RunIsFullBeforeFirstDifference(field1, field2, 1); }
    if 2 < q { RunIsFullBeforeFirstDifference(field1, field2, 2); }
    if 3 < q { RunIsFullBeforeFirstDifference(field1, field2, 3); }
  }

  /**
   * When every octet after the first differing one has a leading run of 0,
   * netSlashNotation's mask octet k is octet k of the common prefix mask.
   */
  lemma SlashOctetIsPrefixOctet(field1: IpField, field2: IpField, k: int)
    requires 0 <= k < 4
    requires forall j :: FirstDifferentOctet(field1, field2) < j < 4 ==> OctetRun(field1, field2, j) == 0
    ensures Octet(SlashMask(field1, field2), k) == Octet(CommonPrefixMask(field1, field2), k)
  {
    SlashMaskOctet(field1, field2, k);
    CommonPrefixMaskOctet(field1, field2, k);
    if k < FirstDifferentOctet(field1, field2) {
      RunIsFullBeforeFirstDifference(field1, field2, k);
    }
  }

  /**
   * netSlashNotation's length is right when every octet after the first
   * differing one already differs in its top bit.
   */
  lemma SlashLengthIsPrefixWhenLaterRunsClear(field1: IpField, field2: IpField)
    requires forall j :: FirstDifferentOctet(field1, field2) < j < 4 ==> OctetRun(field1, field2, j) == 0
    ensures SlashLength(field1, field2) == CommonPrefixLength(field1, field2)
  {
    ShareIsRunWhenLaterRunsClear(field1, field2, 0);
    ShareIsRunWhenLaterRunsClear(field1, field2, 1);
    ShareIsRunWhenLaterRunsClear(field1, field2, 2);
    ShareIsRunWhenLaterRunsClear(field1, field2, 3);
    CommonPrefixLengthIsShareSum(field1, field2);
    SlashLengthIsSum(field1, field2);
  }

  /** When every later octet has a leading run of 0, the common prefix keeps all of octet k's run. */
  lemma ShareIsRunWhenLaterRunsClear(field1: IpField, field2: IpField, k: int)
    requires 0 <= k < 4
    requires forall j :: FirstDifferentOctet(field1, field2) < j < 4 ==> OctetRun(field1, field2, j) == 0
    ensures PrefixShare(field1, field2, k) == OctetRun(field1, field2, k)
  {
    if k < FirstDifferentOctet(field1, field2) {
      RunIsFullBeforeFirstDifference(field1, field2, k);
    }
  }

  /** The common prefix length is the four octets' shares added up. */
  lemma CommonPrefixLengthIsShareSum(field1: IpField, field2: IpField)
    ensures CommonPrefixLength(field1, field2)
        == PrefixShare(field1, field2, 0) as int + PrefixShare(field1, field2, 1) as int
         + PrefixShare(field1, field2, 2) as int + PrefixShare(field1, field2, 3) as int
  {
  }

  /**
   * netSlashNotation is right when every octet after the first differing one
   * already differs in its top bit: its length and mask are then those of the
   * longest common prefix.
   */
  lemma SlashIsCommonPrefixWhenLaterRunsClear(field1: IpField, field2: IpField)
    requires forall j :: FirstDifferentOctet(field1, field2) < j < 4 ==> OctetRun(field1, field2, j) == 0
    ensures SlashLength(field1, field2) == CommonPrefixLength(field1, field2)
    ensures SlashMask(field1, field2) == CommonPrefixMask(field1, field2)
  {
    SlashLengthIsPrefixWhenLaterRunsClear(field1, field2);
    SlashOctetIsPrefixOctet(field1, field2, 0);
    SlashOctetIsPrefixOctet(field1, field2, 1);
    SlashOctetIsPrefixOctet(field1, field2, 2);
    SlashOctetIsPrefixOctet(field1, field2, 3);
  }

  /**
   * An octet after the first differing one with a leading run above 0 makes
   * netSlashNotation report more than the common prefix.
   */
  lemma SlashExceedsCommonPrefix(field1: IpField, field2: IpField, k: int)
    requires FirstDifferentOctet(field1, field2) < k < 4 && OctetRun(field1, field2, k) != 0
    ensures CommonPrefixLength(field1, field2) < SlashLength(field1, field2)
  {
    SlashLengthIsSum(field1, field2);
    var q := FirstDifferentOctet(field1, field2);
    if 0 < q { RunIsFullBeforeFirstDifference(field1, field2, 0); }
    if 1 < q { RunIsFullBeforeFirstDifference(field1, field2, 1); }
    if 2 < q { RunIsFullBeforeFirstDifference(field1, field2, 2); }
  }

  /**
   * The conditional contiguity of netSlashNotation: its length and mask are
   * those of the longest common prefix exactly when every octet after the
   * first differing one differs in its top bit (has a leading run of 0).
   */
  lemma SlashIsCommonPrefixIff(field1: IpField, field2: IpField)
    ensures (SlashLength(field1, field2) == CommonPrefixLength(field1, field2)
             && SlashMask(field1, field2) == CommonPrefixMask(field1, field2)) <==>
      (forall j :: FirstDifferentOctet(field1, field2) < j < 4 ==> OctetRun(field1, field2, j) == 0)
  {
    if forall j :: FirstDifferentOctet(field1, field2) < j < 4 ==> OctetRun(field1, field2, j) == 0 {
      SlashIsCommonPrefixWhenLaterRunsClear(field1, field2);
    } else {
      var k :| FirstDifferentOctet(field1, field2) < k < 4 && OctetRun(field1, field2, k) != 0;
      SlashExceedsCommonPrefix(field1, field2, k);
    }
  }

  /** The common prefix covers all 32 bits exactly for equal addresses. */
  lemma CommonPrefixIs32Iff(field1: IpField, field2: IpField)
    ensures CommonPrefixLength(field1, field2) == 32 <==> field1 == field2
  {
    var q := FirstDifferentOctet(field1, field2);
    if q < 4 {
      RunIsFullBeforeFirstDifference(field1, field2, q);
    }
  }

  /**
   * The number of addresses in the block of `mask`, in 33 bits so that the
   * block of the empty mask, all 2^32 addresses, does not wrap to 0.
   */
  function AddressCount(mask: IpMask): (count: bv33)
    ensures count + Value32(mask) as bv33 == 0x1_0000_0000
  {
    (!Value32(mask)) as bv33 + 1
  }

  /** The block of a prefix of length p holds 2^(32 - p) addresses, for every p from 0 to 32. */
  lemma AddressCountOfPrefix(p: bv8)
    requires p <= 32
    ensures AddressCount(PrefixMask(p)) == 1 << (32 - p)
  {
  }

  /**
   * main's nrIps is the address count cut to 32 bits; the two agree for every
   * mask except the empty one, whose count 2^32 nrIps turns into 0.
   */
  lemma NrIpsIsTruncatedCount(mask: IpMask)
    ensures NrIps(mask) as bv33 == AddressCount(mask) & 0xFFFF_FFFF
    ensures NrIps(mask) as bv33 == AddressCount(mask) <==> mask != Quad(0, 0, 0, 0)
  {
    Value32Injective(mask, Quad(0, 0, 0, 0));
  }

  /** The common prefix keeps no more of an octet than its leading run. */
  lemma PrefixShareWithinRun(field1: IpField, field2: IpField, k: int)
    requires 0 <= k < 4
    ensures PrefixShare(field1, field2, k) <= OctetRun(field1, field2, k)
  {
    if k < FirstDifferentOctet(field1, field2) {
      RunIsFullBeforeFirstDifference(field1, field2, k);
    }
  }

  /** Both addresses lie in the block of the common prefix mask. */
  lemma CommonPrefixMaskSharesNetwork(field1: IpField, field2: IpField)
    ensures Network(field1, CommonPrefixMask(field1, field2)) == Network(field2, CommonPrefixMask(field1, field2))
  {
    PrefixShareWithinRun(field1, field2, 0);
    PrefixShareWithinRun(field1, field2, 1);
    PrefixShareWithinRun(field1, field2, 2);
    PrefixShareWithinRun(field1, field2, 3);
    ShorterRunsShareNetwork(field1, field2, PrefixShare(field1, field2, 0), PrefixShare(field1, field2, 1),
                            PrefixShare(field1, field2, 2), PrefixShare(field1, field2, 3));
  }

  /**
   * The block of the common prefix: its mask is the prefix mask of length
   * CommonPrefixLength and it holds 2^(32 - CommonPrefixLength) addresses.
   */
  lemma CommonPrefixBlock(field1: IpField, field2: IpField, p: bv8)
    requires p <= 32 && p as int == CommonPrefixLength(field1, field2)
    ensures CommonPrefixMask(field1, field2) == PrefixMask(p)
    ensures AddressCount(CommonPrefixMask(field1, field2)) == 1 << (32 - p)
  {
    CommonPrefixMaskIsPrefixMask(field1, field2, p);
    AddressCountOfPrefix(p);
  }

  /**
   * main, corrected: the scan stops at the first differing octet, and the
   * address count is kept in 33 bits. The length, the mask and the count then
   * describe the longest common prefix block, and it holds both addresses.
   */
  method CommonPrefixCidr(field1: IpField, field2: IpField) returns (network: IpField, result: int, count: bv33, mask: IpMask)
    ensures result == CommonPrefixLength(field1, field2) && 0 <= result <= 32
    ensures mask == CommonPrefixMask(field1, field2) && count == AddressCount(mask)
    ensures network == Network(field1, mask) == Network(field2, mask)
  {
    result, mask := CommonPrefixOf(field1, field2);
    CommonPrefixLengthBounds(field1, field2);
    count := AddressCount(mask);
    network := Network(field1, mask);
    CommonPrefixMaskSharesNetwork(field1, field2);
  }

  /** The corrected scan run on a zeroed mask buffer, as main runs netSlashNotation, and the buffer read back. */
  method CommonPrefixOf(field1: IpField, field2: IpField) returns (result: int, mask: IpMask)
    ensures result == CommonPrefixLength(field1, field2)
    ensures mask == CommonPrefixMask(field1, field2)
  {
    var netMask := new bv8[4](_ => 0);
    result := CommonPrefixNotation(field1, field2, netMask);
    mask := Quad(netMask[0], netMask[1], netMask[2], netMask[3]);
    StoredOctetIsCommonPrefixMask(field1, field2, 0, mask.A);
    StoredOctetIsCommonPrefixMask(field1, field2, 1, mask.B);
    StoredOctetIsCommonPrefixMask(field1, field2, 2, mask.C);
    StoredOctetIsCommonPrefixMask(field1, field2, 3, mask.D);
  }

  /**
   * The corrected calculation on the addresses that show both defects: 1.2.3.4
   * and 129.2.3.4 differ in their first bit, so they share only the /0 block
   * of 2^32 addresses. main reports /24 and mask 0.255.255.255 for them; the
   * corrected mask 0.0.0.0 is one whose 32-bit nrIps would be 0.
   */
  lemma CommonPrefixCounterexample()
    ensures var f1, f2 := Quad(1, 2, 3, 4), Quad(129, 2, 3, 4);
      CommonPrefixLength(f1, f2) == 0 && CommonPrefixMask(f1, f2) == Quad(0, 0, 0, 0)
      && AddressCount(Quad(0, 0, 0, 0)) == 0x1_0000_0000 && NrIps(Quad(0, 0, 0, 0)) == 0
  {
  }

  /** On 192.168.1.10 and 192.168.1.20 the corrected calculation agrees with main: a /27 of 32 addresses. */
  lemma CommonPrefixSameSubnetExample()
    ensures var f1, f2 := Quad(192, 168, 1, 10), Quad(192, 168, 1, 20);
      CommonPrefixLength(f1, f2) == 27 && CommonPrefixMask(f1, f2) == Quad(255, 255, 255, 224)
      && AddressCount(CommonPrefixMask(f1, f2)) == 32
  {
  }
}
