/**
 * Addresses and masks as cidrCalc.c holds them: the `ipField` and `ipMask`
 * structs, four octets named A to D, most significant first, which the code
 * also walks as a 4-byte buffer. Their 32-bit big-endian reading is Value32.
 */
module Addresses {
  import opened OctetBits

  /** Four octets, A most significant: the shape shared by `ipField` and `ipMask`. */
  datatype Quad = Quad(A: bv8, B: bv8, C: bv8, D: bv8)

  /** An address, as parsed from the command line. */
  type IpField = Quad

  /** A mask, as netSlashNotation fills it in. */
  type IpMask = Quad

  /**
   * Octet j of q, as `(ui8 *) &q.A + j` reaches it. Walking the struct as a
   * buffer meets the octets in big-endian order: octet j is byte 3 - j of the
   * 32-bit value.
   */
  function Octet(q: Quad, j: int): (r: bv8)
    requires 0 <= j < 4
  {
    if j == 0 then q.A else if j == 1 then q.B else if j == 2 then q.C else q.D
  }

  /** The 32-bit big-endian value of q: octet A in the top byte, D in the bottom byte. */
  function Value32(q: Quad): (r: bv32)
    ensures r >> 24 == q.A as bv32 && (r >> 16) & 0xFF == q.B as bv32
    ensures (r >> 8) & 0xFF == q.C as bv32 && r & 0xFF == q.D as bv32
  {
    (q.A as bv32 << 24) | (q.B as bv32 << 16) | (q.C as bv32 << 8) | q.D as bv32
  }

  /** Each octet can be read back from the 32-bit value, so Value32 loses nothing. */
  lemma Value32Injective(x: Quad, y: Quad)
    ensures x == y <==> Value32(x) == Value32(y)
  {
  }

  /** Complementing the 32-bit value complements each octet in its place. */
  lemma ComplementValue32(q: Quad)
    ensures !Value32(q) == ((!q.A) as bv32 << 24) | ((!q.B) as bv32 << 16) | ((!q.C) as bv32 << 8) | (!q.D) as bv32
  {
  }

  /** The 32-bit mask whose p most significant bits are set. */
  function Top32(p: bv8): bv32
    requires p <= 32
  {
    !(0xFFFF_FFFF >> p)
  }

  /** How many of the first p bits of an address fall into the octet that starts at bit `base`. */
  function OctetShare(p: bv8, base: bv8): (n: bv8)
    requires p <= 32 && base <= 24
    ensures n <= 8
  {
    if p <= base then 0 else if p - base >= 8 then 8 else p - base
  }

  /** The contiguous mask of prefix length p, octet by octet: its value is Top32(p). */
  function PrefixMask(p: bv8): (m: IpMask)
    requires p <= 32
    ensures Value32(m) == Top32(p)
  {
    Quad(TopBits(OctetShare(p, 0)), TopBits(OctetShare(p, 8)), TopBits(OctetShare(p, 16)), TopBits(OctetShare(p, 24)))
  }

  /**
   * The network address of `field` under `mask`: the octet-wise AND that
   * cidrIpToString prints. Read as 32-bit words it is the AND of the two values.
   */
  function Network(field: IpField, mask: IpMask): (n: IpField)
    ensures Value32(n) == Value32(field) & Value32(mask)
  {
    Quad(field.A & mask.A, field.B & mask.B, field.C & mask.C, field.D & mask.D)
  }

  /** Two addresses share a network exactly when, octet by octet, they differ nowhere under the mask. */
  lemma NetworkSharedIff(f1: IpField, f2: IpField, mask: IpMask)
    ensures Network(f1, mask) == Network(f2, mask) <==>
      ((f1.A ^ f2.A) & mask.A == 0 && (f1.B ^ f2.B) & mask.B == 0 &&
       (f1.C ^ f2.C) & mask.C == 0 && (f1.D ^ f2.D) & mask.D == 0)
  {
  }
}
