# CIDR-calc: the prefix engine of cidrCalc.c in Dafny

cidrCalc is a command-line tool. It takes two IPv4 addresses and reports a
"slash notation" length, a netmask, a network address and an address count
for the pair. This project models the computation behind those four numbers
and proves what it does:

- `netSlashNotation` compares the two addresses octet by octet. In each octet
  it counts the leading (most significant) bits on which they agree. It ORs
  those bits into the caller's 4-byte mask buffer and returns the sum of the
  counts.
- `cidrIpToString` prints the network address: the octet-wise AND of the
  first address with the mask.
- `main` zeroes the mask, runs the scan, and derives the address count
  `nrIps`: the complement of the mask read as a 32-bit big-endian word, plus
  one, in `unsigned int` arithmetic.

The scan's outer loop never stops at the first octet that differs. Each
octet's run is counted on its own, so the mask is in general not a
contiguous prefix mask. For example, 1.2.3.4 and 129.2.3.4 give length 24 and
mask 0.255.255.255. The model states this per-octet behaviour as the
contract. The contiguous-prefix reading is proved only where it holds, and a
corrected scan is modelled beside the original (see "## Findings").

For 192.168.1.10 and 192.168.1.20 the code gives /27, mask 255.255.255.224
and 32 addresses: 10 = 00001010 and 20 = 00010100 share only 3 leading bits
(`CidrCalc.SameSubnetExample`).

Layout:

- `octet_bits.dfy` (module `OctetBits`): bit facts about one octet. It
  defines `LeadingEqual`, the leading-equal count of two octets, and
  `TopBits(n)`, the octet whose top n bits are set.
- `addresses.dfy` (module `Addresses`): the `ipField`/`ipMask` structs as
  `Quad`, their 32-bit value, prefix masks and the network AND.
- `cidr_calc.dfy` (module `CidrCalc`): the code as written. The inner bit loop
  is `ScanOctet`, the outer octet loop over an `array<bv8>` mask is
  `NetSlashNotation`, the `nrIps` computation is `ComputeNrIps`, and main's
  composition is `Cidr`.
- `common_prefix.dfy` (module `CommonPrefix`): the corrected scan, which stops
  after the first differing octet, and an address count kept in 33 bits.

The addresses are inputs that are only read (the C code takes them through
`const` pointers). The mask is an `array<bv8>` of length 4 that the scan
updates in place.

## Model

| member | source | states |
|---|---|---|
| `OctetBits.LeadingEqual` | cidrCalc.c:56-64 | the per-octet count of leading equal bits is at most 8 |
| `OctetBits.LeadingEqualSpec` | cidrCalc.c:56-64 | the two octets agree on the counted top bits and, when fewer than 8 are counted, differ at the next bit |
| `OctetBits.LeadingEqualIsLongest` | cidrCalc.c:56-64 | the octets agree under the top-m mask if and only if m is at most the count: the count is the longest agreeing top run |
| `OctetBits.ScanBitAgrees` | cidrCalc.c:58-61 | during the scan, bit k compares equal exactly while k is inside the run, so the loop stops after the first differing bit |
| `OctetBits.AgreeUnderTopBits` | cidrCalc.c:58-63 | agreement under the top-m mask is the same as agreement of each of the m leading bits |
| `OctetBits.LeadingEqualIsEightIff` | cidrCalc.c:58-64 | an octet contributes 8 if and only if the two octets are equal |
| `OctetBits.LeadingEqualIsZeroIff` | cidrCalc.c:56-58 | an octet contributes 0 if and only if the most significant bits differ, so the inner loop body never runs |
| `OctetBits.TopBitsBits` | cidrCalc.c:62 | the mask octet for run n is `(0xFF << (8 - n)) & 0xFF`, and it sets exactly bits 0 .. n - 1 |
| `OctetBits.TopBitsStep` | cidrCalc.c:62 | ORing `1 << (7 - i)` into the top-i mask gives the top-(i + 1) mask |
| `OctetBits.OrBitStep` | cidrCalc.c:62-63 | one round of the mask update: a matching round extends the top run by one bit, a differing round ORs in 0 |
| `OctetBits.PopCountTopBits` | cidrCalc.c:62-63 | the mask octet of run n has exactly n bits set |
| `Addresses.Octet` | cidrCalc.c:52-54 | octet j of a struct, reached as byte j of the buffer that starts at field A (a plain definition with no contract of its own) |
| `Addresses.Value32` | cidrCalc.c:182-185 | the big-endian reading of the four octets: A is the top byte of the 32-bit word, then B and C, and D the bottom byte |
| `Addresses.Value32Injective` | cidrCalc.c:182-185 | two quads are equal if and only if their 32-bit big-endian values are equal |
| `Addresses.ComplementValue32` | cidrCalc.c:182-185 | complementing the 32-bit value complements each octet in its byte position, as the four ORed lines build it |
| `Addresses.Network` | cidrCalc.c:74-78 | the octet-wise AND that cidrIpToString prints is, read as a 32-bit word, the AND of the address and the mask |
| `Addresses.NetworkSharedIff` | cidrCalc.c:74-78 | two addresses have the same network under a mask if and only if they differ in no masked bit |
| `CidrCalc.ScanOctet` | cidrCalc.c:56-64 | the inner loop counts LeadingEqual of the two octets and leaves the mask byte ORed with exactly that top run |
| `CidrCalc.NetSlashNotation` | cidrCalc.c:44-69 | returns SlashLength, the sum of the four per-octet runs; each mask byte becomes its old value ORed with its octet's top run, so bits are only added |
| `CidrCalc.SlashLength` | cidrCalc.c:47-68 | the value netSlashNotation returns lies in 0 .. 32, so the `ui8` sum never wraps |
| `CidrCalc.SlashLengthIsSum` | cidrCalc.c:47-65 | the returned length is the four per-octet counts added up |
| `CidrCalc.SlashMask` | cidrCalc.c:54-62 | the mask the scan builds from each octet's run gives both addresses the same network, the one cidrIpToString prints for the first |
| `CidrCalc.SlashMaskOctet` | cidrCalc.c:54-62 | mask octet j is the top run of octet j |
| `CidrCalc.SlashLengthCountsMaskBits` | cidrCalc.c:62-65 | the returned length is the number of set bits of the mask |
| `CidrCalc.SlashLengthIs32Iff` | cidrCalc.c:58-65 | the length is 32 if and only if the two addresses are equal |
| `CidrCalc.SameAddressGivesHostMask` | cidrCalc.c:58-64 | equal addresses give length 32 and mask 255.255.255.255 |
| `CidrCalc.TopBitMismatchClearsOctet` | cidrCalc.c:56-58 | a mask octet is 0 if and only if the two octets differ in their top bit |
| `CidrCalc.ShorterRunsShareNetwork` | cidrCalc.c:74-78 | any mask of top runs no longer than the scan's runs gives both addresses the same network |
| `CidrCalc.LongerRunSplitsNetwork` | cidrCalc.c:74-78 | a mask whose top run in some octet is longer than the scan's run separates the two networks: the scan's mask is maximal octet by octet |
| `CidrCalc.NrIps` | cidrCalc.c:181-186 | nrIps plus the mask's 32-bit value is 0 modulo 2^32 |
| `CidrCalc.NrIpsOfPrefix` | cidrCalc.c:181-186 | for a prefix mask of length p in 1 .. 32, nrIps is 2^(32 - p) |
| `CidrCalc.NrIpsOfEmptyMask` | cidrCalc.c:181-186 | for the all-zero mask, nrIps wraps around to 0; 1.1.1.1 and 129.129.129.129 give that mask |
| `CidrCalc.ComputeNrIps` | cidrCalc.c:181-186 | the four shifted complements ORed together plus one are NrIps of the mask buffer |
| `CidrCalc.Cidr` | cidrCalc.c:159-186 | after the memset and the scan, the mask is SlashMask, the length is in 0 .. 32, nrIps is NrIps of the mask, and both addresses have the printed network |
| `CidrCalc.SameSubnetExample` | cidrCalc.c:44-69 | 192.168.1.10 and 192.168.1.20 give /27, mask 255.255.255.224, 32 addresses and network 192.168.1.0 |
| `CidrCalc.PerOctetScanCounterexample` | cidrCalc.c:49-66 | 1.2.3.4 and 129.2.3.4 give length 24, mask 0.255.255.255 and a 32-bit nrIps of 0xFF000001 (4278190081), yet they are not in the same /24 network |
| `CidrCalc.PerOctetMaskIsNoPrefix` | cidrCalc.c:49-66 | the mask reported for that pair is not the mask of any prefix length 0 .. 32 |
| `CommonPrefix.FirstDifferentOctet` | cidrCalc.c:49-58 | the index of the first octet in which the addresses differ: all earlier octets are equal, and it differs unless it is 4 |
| `CommonPrefix.RunIsFullBeforeFirstDifference` | cidrCalc.c:56-64 | up to the first differing octet, an octet's run is 8 if and only if it lies before that octet |
| `CommonPrefix.CommonPrefixMaskOctet` | cidrCalc.c:49-66 | the corrected mask is 0xFF before the first differing octet, that octet's top run at it, and 0 after it |
| `CommonPrefix.CommonPrefixNotation` | cidrCalc.c:44-69 | the corrected scan returns CommonPrefixLength; it ORs each octet's run into the mask up to the first differing octet and leaves the later octets unchanged |
| `CommonPrefix.PrefixCountStep` | cidrCalc.c:56-65 | one round of the corrected scan: a run shorter than 8 occurs exactly at the first differing octet, and the count is then CommonPrefixLength |
| `CommonPrefix.StoredOctetIsCommonPrefixMask` | cidrCalc.c:161 | on a zeroed buffer, what the corrected scan stores in octet k is octet k of CommonPrefixMask |
| `CommonPrefix.CommonPrefixMaskIsPrefixMask` | cidrCalc.c:49-66 | the corrected mask is the contiguous prefix mask of length CommonPrefixLength |
| `CommonPrefix.CommonPrefixShared` | cidrCalc.c:74-78 | every prefix length up to CommonPrefixLength puts both addresses in the same network |
| `CommonPrefix.BeyondCommonPrefixSplits` | cidrCalc.c:74-78 | every longer prefix length puts them in different networks, so CommonPrefixLength is the longest shared prefix |
| `CommonPrefix.CommonPrefixMaskSharesNetwork` | cidrCalc.c:74-78 | both addresses have the same network under the corrected mask |
| `CommonPrefix.CommonPrefixWithinSlashLength` | cidrCalc.c:65 | the common prefix length never exceeds the per-octet sum the code returns |
| `CommonPrefix.SlashOctetIsPrefixOctet` | cidrCalc.c:54-62 | when every octet after the first differing one differs in its top bit, each octet of the scan's mask is that octet of the common prefix mask |
| `CommonPrefix.SlashLengthIsPrefixWhenLaterRunsClear` | cidrCalc.c:49-65 | under the same condition, the returned length is CommonPrefixLength |
| `CommonPrefix.SlashIsCommonPrefixWhenLaterRunsClear` | cidrCalc.c:49-66 | under the same condition, both the returned length and the mask are those of the longest common prefix |
| `CommonPrefix.SlashExceedsCommonPrefix` | cidrCalc.c:49-65 | an octet after the first differing one whose top bits agree makes the returned length exceed the common prefix |
| `CommonPrefix.SlashIsCommonPrefixIff` | cidrCalc.c:49-66 | the code's length and mask are the longest common prefix and its mask if and only if every octet after the first differing one differs in its top bit |
| `CommonPrefix.CommonPrefixIs32Iff` | cidrCalc.c:58-65 | the common prefix covers 32 bits if and only if the addresses are equal |
| `CommonPrefix.AddressCount` | cidrCalc.c:181-186 | the 33-bit address count plus the mask's value is exactly 2^32 |
| `CommonPrefix.AddressCountOfPrefix` | cidrCalc.c:181-186 | the prefix of length p in 0 .. 32 has 2^(32 - p) addresses, the /0 block included |
| `CommonPrefix.NrIpsIsTruncatedCount` | cidrCalc.c:181-186 | nrIps is the address count cut to 32 bits, and the two agree if and only if the mask is not all zero |
| `CommonPrefix.CommonPrefixBlock` | cidrCalc.c:159-186 | the corrected mask is the prefix mask of the corrected length, and its block holds 2^(32 - length) addresses |
| `CommonPrefix.CommonPrefixOf` | cidrCalc.c:159-179 | the corrected scan on a zeroed buffer returns CommonPrefixLength and leaves CommonPrefixMask |
| `CommonPrefix.CommonPrefixCidr` | cidrCalc.c:159-186 | corrected main: length in 0 .. 32, the common prefix mask, its 33-bit address count, and a network both addresses share |
| `CommonPrefix.CommonPrefixCounterexample` | cidrCalc.c:49-66 | for 1.2.3.4 and 129.2.3.4 the corrected length is 0 and the mask 0.0.0.0, a block of 2^32 addresses whose 32-bit nrIps would be 0 (main itself reports /24 for this pair) |
| `CommonPrefix.CommonPrefixSameSubnetExample` | cidrCalc.c:44-69 | for 192.168.1.10 and 192.168.1.20 the corrected calculation agrees with the code: /27, mask 255.255.255.224, 32 addresses |

## Left out

- Command-line handling is not modelled, because it is plumbing around the core: `getopt` options, the print style, `printUsage` and the exit codes (cidrCalc.c:94-157).
- The `regcomp`/`regexec` address check is not modelled, because it is a foreign library call (cidrCalc.c:112-130). Its pattern's unescaped `.` matches any character, so the check is looser than it looks.
- Octet parsing with `strtok_r`, `atoi` and the truncating `(ui8)` cast is not modelled (cidrCalc.c:164-177). The model takes the two addresses as already-parsed octets. A missing token is undefined behaviour in C.
- Output is not modelled: the `sprintf`/`printf` rendering, the static buffers of `cidrIpToString` and `cidrIpMaskToString`, and the printing of `nrIps` with `%d` as a signed number (cidrCalc.c:71-92, 188-207). Only the AND that produces the network octets is modelled.
- CidrCalc.ScanOctet: the C code stores the mask byte through the pointer in every round. The model keeps the byte in a local and stores it once per octet. No other code reads the byte during the loop, so the final buffer is the same.
- CidrCalc.ScanOctet: the widening to `unsigned int` and the `& 0xFFFF` before the store are not modelled, because they leave the stored byte unchanged.
- CidrCalc.NetSlashNotation: the `ui8` result is an `int` in the model. `CidrCalc.SlashLength` states it never exceeds 32, so the `ui8` sum never wraps.
- CidrCalc.ComputeNrIps: `(~x & 0xFF) << 24` is shifted as a signed `int` in C, which is undefined when the result exceeds INT_MAX. The model uses the two's-complement result that compilers produce.

## Findings

| source | as written | input that shows it | evidently intended | confidence | as-written member | corrected member |
|---|---|---|---|---|---|---|
| cidrCalc.c:49-66 | the outer loop goes on after the first differing octet, so runs of later octets are added and ORed into the mask | 1.2.3.4 and 129.2.3.4 give /24, mask 0.255.255.255 and a count of 0xFF000001 addresses, although the two addresses are not in one /24 | the length of the longest common prefix of the 32-bit addresses with its contiguous mask: /0 and 0.0.0.0 here | medium, not executed | `CidrCalc.PerOctetScanCounterexample` | `CommonPrefix.CommonPrefixNotation` |
| cidrCalc.c:181-186 | the address count is computed in a 32-bit `unsigned int`, so the all-zero mask gives `0xFFFFFFFF + 1`, which wraps to 0 | the all-zero mask, which every pair differing in the top bit of every octet produces (1.1.1.1 and 129.129.129.129), and which the corrected scan gives for 1.2.3.4 and 129.2.3.4 | 2^32 addresses for the /0 block, as 2^(32 - p) for every other length | medium, not executed | `CidrCalc.NrIpsOfEmptyMask` | `CommonPrefix.AddressCountOfPrefix` |
