/**
 * The computation at the heart of cidrCalc.c: netSlashNotation, which counts
 * the leading bits two addresses share octet by octet and ORs those bits into
 * the mask buffer; the network address printed by cidrIpToString; and the
 * address count `nrIps` that main derives from the mask.
 *
 * The scan works on each octet on its own: it never stops at the first octet
 * that differs, so the mask it builds is the octet-wise concatenation of the
 * four per-octet leading runs, not in general a contiguous prefix mask.
 */
module CidrCalc {
  import opened OctetBits
  import opened Addresses

  /** The leading-equal count netSlashNotation finds in octet j. */
  function OctetRun(field1: IpField, field2: IpField, j: int): (n: bv8)
    requires 0 <= j < 4
  {
    LeadingEqual(Octet(field1, j), Octet(field2, j))
  }

  /**
   * The sum of the leading-equal counts of octets 0 .. j - 1. netSlashNotation
   * adds them up in a `ui8`; the sum never exceeds 8 per octet, so it is an
   * integer here.
   */
  function PartialCount(field1: IpField, field2: IpField, j: int): (n: int)
    requires 0 <= j <= 4
    ensures 0 <= n <= 8 * j
  {
    if j == 0 then 0 else PartialCount(field1, field2, j - 1) + OctetRun(field1, field2, j - 1) as int
  }

  /** The value netSlashNotation returns: all four per-octet counts added up. */
  function SlashLength(field1: IpField, field2: IpField): (n: int)
    ensures 0 <= n <= 32
  {
    PartialCount(field1, field2, 4)
  }

  /** SlashLength is the four octets' runs added up. */
  lemma SlashLengthIsSum(field1: IpField, field2: IpField)
    ensures SlashLength(field1, field2)
        == OctetRun(field1, field2, 0) as int + OctetRun(field1, field2, 1) as int
         + OctetRun(field1, field2, 2) as int + OctetRun(field1, field2, 3) as int
  {
    assert PartialCount(field1, field2, 1) == OctetRun(field1, field2, 0) as int;
    assert PartialCount(field1, field2, 2) == PartialCount(field1, field2, 1) + OctetRun(field1, field2, 1) as int;
    assert PartialCount(field1, field2, 3) == PartialCount(field1, field2, 2) + OctetRun(field1, field2, 2) as int;
  }

  /**
   * The bits netSlashNotation ORs into the mask: each octet's leading-equal
   * run. Under it both addresses have the same network, the one printed for
   * the first address.
   */
  function SlashMask(field1: IpField, field2: IpField): (m: IpMask)
    ensures Network(field1, m) == Network(field2, m)
  {
    ShorterRunsShareNetwork(field1, field2,
      OctetRun(field1, field2, 0), OctetRun(field1, field2, 1),
      OctetRun(field1, field2, 2), OctetRun(field1, field2, 3));
    Quad(TopBits(OctetRun(field1, field2, 0)), TopBits(OctetRun(field1, field2, 1)),
         TopBits(OctetRun(field1, field2, 2)), TopBits(OctetRun(field1, field2, 3)))
  }

  /** Octet j of SlashMask is the top run of octet j. */
  lemma SlashMaskOctet(field1: IpField, field2: IpField, j: int)
    requires 0 <= j < 4
    ensures Octet(SlashMask(field1, field2), j) == TopBits(OctetRun(field1, field2, j))
  {
  }

  /**
   * The inner loop of netSlashNotation on octet j: a and b are the two
   * address octets and maskByte the mask byte `*mask` as the loop finds it;
   * the byte the loop leaves behind is returned in newMask. The comparison
   * that guards each round is the one made in the round before (bit 0 at the
   * start), so the loop reads bit i, ORs it into the mask byte when it matches
   * and counts it, and stops after the first bit that differs. The C code
   * widens the byte to `unsigned int` and masks with 0xFFFF before storing it
   * back; neither changes the stored byte.
   */
  method ScanOctet(a: bv8, b: bv8, maskByte: bv8) returns (n: bv8, newMask: bv8)
    ensures n == LeadingEqual(a, b)
    ensures newMask == maskByte | TopBits(n)
  {
    ghost var run := LeadingEqual(a, b);
    n := 0;
    newMask := maskByte;
    var c := a & 0x80;
    var d := b & 0x80;
    if run > 0 {
      ScanBitAgrees(a, b, 0);
    }
    var i: bv8 := 0;
    while c == d && i < 8
      invariant i <= 8 && i <= run + 1
      invariant n == if i <= run then i else run
      invariant c == d <==> if i == 0 then 0 < run else i <= run
      invariant newMask == maskByte | TopBits(n)
    {
      c := BitAt(a, i);
      d := BitAt(b, i);
      ScanBitAgrees(a, b, i);
      OrBitStep(maskByte, n, i, c == d);
      newMask := ((if c == d then 1 else 0) << (7 - i)) | newMask;
      n := n + if c == d then 1 else 0;
      i := i + 1;
    }
  }

  /**
   * netSlashNotation: scans all four octets, each on its own, ORs each
   * octet's run into the mask buffer and adds the runs up.
   */
  method NetSlashNotation(field1: IpField, field2: IpField, netMask: array<bv8>) returns (result: int)
    requires netMask.Length == 4
    modifies netMask
    ensures result == SlashLength(field1, field2)
    ensures forall k :: 0 <= k < 4 ==> netMask[k] == old(netMask[k]) | Octet(SlashMask(field1, field2), k)
  {
    ghost var runs := SlashMask(field1, field2);
    result := 0;
    var j := 0;
    while j < 4
      invariant 0 <= j <= 4
      invariant result == PartialCount(field1, field2, j)
      invariant forall k :: 0 <= k < j ==> netMask[k] == old(netMask[k]) | Octet(runs, k)
      invariant forall k :: j <= k < 4 ==> netMask[k] == old(netMask[k])
    {
      var n;
      n, netMask[j] := ScanOctet(Octet(field1, j), Octet(field2, j), netMask[j]);
      SlashMaskOctet(field1, field2, j);
      result := result + n as int;
      j := j + 1;
    }
  }

  /**
   * The mask netSlashNotation builds consists of top runs, so it has one set
   * bit per counted bit: the returned length is the number of ones in the mask.
   */
  lemma SlashLengthCountsMaskBits(field1: IpField, field2: IpField)
    ensures var m := SlashMask(field1, field2);
      SlashLength(field1, field2)
        == PopCount(m.A) as int + PopCount(m.B) as int + PopCount(m.C) as int + PopCount(m.D) as int
  {
    SlashLengthIsSum(field1, field2);
    PopCountTopBits(OctetRun(field1, field2, 0));
    PopCountTopBits(OctetRun(field1, field2, 1));
    PopCountTopBits(OctetRun(field1, field2, 2));
    PopCountTopBits(OctetRun(field1, field2, 3));
  }

  /** The length is 32 exactly when the two addresses are the same. */
  lemma SlashLengthIs32Iff(field1: IpField, field2: IpField)
    ensures SlashLength(field1, field2) == 32 <==> field1 == field2
  {
    SlashLengthIsSum(field1, field2);
    LeadingEqualIsEightIff(field1.A, field2.A);
    LeadingEqualIsEightIff(field1.B, field2.B);
    LeadingEqualIsEightIff(field1.C, field2.C);
    LeadingEqualIsEightIff(field1.D, field2.D);
    FourRunsSumTo32(OctetRun(field1, field2, 0), OctetRun(field1, field2, 1),
      OctetRun(field1, field2, 2), OctetRun(field1, field2, 3));
    if SlashLength(field1, field2) == 32 {
      assert field1.A == field2.A && field1.B == field2.B && field1.C == field2.C && field1.D == field2.D;
    }
  }

  /** Four runs of at most 8 bits add up to 32 only when each is 8. */
  lemma FourRunsSumTo32(a: bv8, b: bv8, c: bv8, d: bv8)
    requires a <= 8 && b <= 8 && c <= 8 && d <= 8
    ensures a as int + b as int + c as int + d as int == 32 <==> a == 8 && b == 8 && c == 8 && d == 8
  {
  }

  /** Two equal addresses give the full mask 255.255.255.255 and length 32. */
  lemma SameAddressGivesHostMask(field: IpField)
    ensures SlashMask(field, field) == Quad(0xFF, 0xFF, 0xFF, 0xFF)
    ensures SlashLength(field, field) == 32
  {
    SlashLengthIs32Iff(field, field);
  }

  /** A mask octet is 0 exactly when the two address octets differ in their top bit. */
  lemma TopBitMismatchClearsOctet(field1: IpField, field2: IpField, j: int)
    requires 0 <= j < 4
    ensures Octet(SlashMask(field1, field2), j) == 0
        <==> Octet(field1, j) & 0x80 != Octet(field2, j) & 0x80
  {
    SlashMaskOctet(field1, field2, j);
    LeadingEqualIsZeroIff(Octet(field1, j), Octet(field2, j));
  }

  /**
   * A mask made of one top run per octet, each no longer than the run
   * netSlashNotation found there, keeps the two networks equal.
   */
  lemma ShorterRunsShareNetwork(field1: IpField, field2: IpField, nA: bv8, nB: bv8, nC: bv8, nD: bv8)
    requires nA <= OctetRun(field1, field2, 0) && nB <= OctetRun(field1, field2, 1)
    requires nC <= OctetRun(field1, field2, 2) && nD <= OctetRun(field1, field2, 3)
    ensures var m := Quad(TopBits(nA), TopBits(nB), TopBits(nC), TopBits(nD));
      Network(field1, m) == Network(field2, m)
  {
    LeadingEqualIsLongest(field1.A, field2.A, nA);
    LeadingEqualIsLongest(field1.B, field2.B, nB);
    LeadingEqualIsLongest(field1.C, field2.C, nC);
    LeadingEqualIsLongest(field1.D, field2.D, nD);
    AgreeIsXorClear(field1.A, field2.A, TopBits(nA));
    AgreeIsXorClear(field1.B, field2.B, TopBits(nB));
    AgreeIsXorClear(field1.C, field2.C, TopBits(nC));
    AgreeIsXorClear(field1.D, field2.D, TopBits(nD));
  }

  /**
   * SlashMask cannot be widened in any octet: a top run longer than the run
   * netSlashNotation found in that octet separates the two networks.
   */
  lemma LongerRunSplitsNetwork(field1: IpField, field2: IpField, nA: bv8, nB: bv8, nC: bv8, nD: bv8)
    requires nA <= 8 && nB <= 8 && nC <= 8 && nD <= 8
    requires nA > OctetRun(field1, field2, 0) || nB > OctetRun(field1, field2, 1)
          || nC > OctetRun(field1, field2, 2) || nD > OctetRun(field1, field2, 3)
    ensures var m := Quad(TopBits(nA), TopBits(nB), TopBits(nC), TopBits(nD));
      Network(field1, m) != Network(field2, m)
  {
    if nA > OctetRun(field1, field2, 0) {
      LeadingEqualIsLongest(field1.A, field2.A, nA);
      AgreeIsXorClear(field1.A, field2.A, TopBits(nA));
    } else if nB > OctetRun(field1, field2, 1) {
      LeadingEqualIsLongest(field1.B, field2.B, nB);
      AgreeIsXorClear(field1.B, field2.B, TopBits(nB));
    } else if nC > OctetRun(field1, field2, 2) {
      LeadingEqualIsLongest(field1.C, field2.C, nC);
      AgreeIsXorClear(field1.C, field2.C, TopBits(nC));
    } else {
      LeadingEqualIsLongest(field1.D, field2.D, nD);
      AgreeIsXorClear(field1.D, field2.D, TopBits(nD));
    }
  }

  /**
   * The address count main prints: the complement of the mask read as a
   * 32-bit big-endian word, plus one, in `unsigned int` arithmetic. It is the
   * number that added to the mask's value wraps to 0, that is 2^32 minus the
   * mask's value, taken modulo 2^32.
   */
  function NrIps(mask: IpMask): (count: bv32)
    ensures count + Value32(mask) == 0
  {
    !Value32(mask) + 1
  }

  /** For a prefix mask of length 1 to 32, NrIps counts the 2^(32 - p) addresses of the block. */
  lemma NrIpsOfPrefix(p: bv8)
    requires 0 < p <= 32
    ensures NrIps(PrefixMask(p)) == 1 << (32 - p)
  {
  }

  /**
   * For the all-zero mask, which a length of 0 comes with, NrIps wraps around
   * to 0. The scan produces that mask for 1.1.1.1 and 129.129.129.129, which
   * differ in the top bit of every octet.
   */
  lemma NrIpsOfEmptyMask()
    ensures NrIps(Quad(0, 0, 0, 0)) == 0
    ensures SlashMask(Quad(1, 1, 1, 1), Quad(129, 129, 129, 129)) == Quad(0, 0, 0, 0)
  {
  }

  /**
   * main's computation of `nrIps` from the mask buffer: each octet's
   * complement (`~x & 0xFF`) shifted into place and ORed into an
   * `unsigned int`, then 1 added with wrap-around.
   */
  method ComputeNrIps(netMask: array<bv8>) returns (nrIps: bv32)
    requires netMask.Length == 4
    ensures nrIps == NrIps(Quad(netMask[0], netMask[1], netMask[2], netMask[3]))
  {
    nrIps := 0;
    nrIps := nrIps | ((!netMask[0]) as bv32 << 24);
    nrIps := nrIps | ((!netMask[1]) as bv32 << 16);
    nrIps := nrIps | ((!netMask[2]) as bv32 << 8);
    nrIps := nrIps | (!netMask[3]) as bv32;
    nrIps := nrIps + 1;
    ComplementValue32(Quad(netMask[0], netMask[1], netMask[2], netMask[3]));
  }

  /**
   * The calculation main performs on two parsed addresses: a zeroed mask
   * buffer, netSlashNotation over it, the address count, and the network
   * address cidrIpToString prints for the first address.
   */
  method Cidr(field1: IpField, field2: IpField) returns (network: IpField, result: int, nrIps: bv32, mask: IpMask)
    ensures mask == SlashMask(field1, field2)
    ensures result == SlashLength(field1, field2) && 0 <= result <= 32
    ensures nrIps == NrIps(mask)
    ensures network == Network(field1, mask) == Network(field2, mask)
  {
    var netMask := new bv8[4](_ => 0);
    result := NetSlashNotation(field1, field2, netMask);
    nrIps := ComputeNrIps(netMask);
    mask := Quad(netMask[0], netMask[1], netMask[2], netMask[3]);
    ghost var runs := SlashMask(field1, field2);
    assert mask.A == Octet(runs, 0) && mask.B == Octet(runs, 1);
    assert mask.C == Octet(runs, 2) && mask.D == Octet(runs, 3);
    network := Network(field1, mask);
  }

  /**
   * 192.168.1.10 and 192.168.1.20 differ first in bit 3 of the last octet, so
   * the calculation gives length 27, mask 255.255.255.224, 32 addresses and
   * network 192.168.1.0.
   */
  lemma SameSubnetExample()
    ensures var f1, f2 := Quad(192, 168, 1, 10), Quad(192, 168, 1, 20);
      SlashLength(f1, f2) == 27 && SlashMask(f1, f2) == Quad(255, 255, 255, 224)
      && NrIps(SlashMask(f1, f2)) == 32 && Network(f1, SlashMask(f1, f2)) == Quad(192, 168, 1, 0)
  {
    SlashLengthIsSum(Quad(192, 168, 1, 10), Quad(192, 168, 1, 20));
  }

  /**
   * 1.2.3.4 and 129.2.3.4 differ in the very first bit, yet the scan goes on
   * through the equal octets B, C and D: it reports length 24 with the mask
   * 0.255.255.255, from which main counts 0xFF000001 addresses, and the two
   * addresses do not share the /24 network.
   */
  lemma PerOctetScanCounterexample()
    ensures var f1, f2 := Quad(1, 2, 3, 4), Quad(129, 2, 3, 4);
      SlashLength(f1, f2) == 24 && SlashMask(f1, f2) == Quad(0, 255, 255, 255)
      && NrIps(SlashMask(f1, f2)) == 0xFF00_0001
      && Network(f1, PrefixMask(24)) != Network(f2, PrefixMask(24))
  {
    SlashLengthIsSum(Quad(1, 2, 3, 4), Quad(129, 2, 3, 4));
  }

  /** The mask reported for 1.2.3.4 and 129.2.3.4 is not the mask of any prefix length. */
  lemma PerOctetMaskIsNoPrefix(p: bv8)
    requires p <= 32
    ensures SlashMask(Quad(1, 2, 3, 4), Quad(129, 2, 3, 4)) != PrefixMask(p)
  {
  }
}
