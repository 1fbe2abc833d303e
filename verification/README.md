# Address and AS number sets of rpki.net, in Dafny

This project models the set algebra that the RPKI engine of rpki.net runs on:
`resource_set`, a list of closed ranges of AS numbers or IP addresses that is
kept in the canonical form of RFC 3779 (sorted, disjoint, non-adjacent), the
conversions between such sets and ROA prefix lists, the C code in `ext/POW.c`
that deletes nested ROA prefixes, encodes and decodes them and converts
integers, and the streaming merge of `potpourri/whack-ripe-prefixes.py`.
`dafny verify dfyconfig.toml` checks all of it.

## How it is built

| file | models |
|---|---|
| Ranges.dfy | ranges, the point set of a list, canonical form and its uniqueness |
| Sorting.dfy | `list.sort` with a total order |
| Canonizing.dfy | what `canonize` computes and when it raises |
| SetAlgebra.dfy | the loops of `_comm` and `union` on lists |
| SetOperations.dfy | the operations with their clones and exceptions, and their algebra |
| ResourceSets.dfy | the class: methods that mutate `ranges` and `canonical`, proved against the above |
| SetRuns.dfy | whole histories of one set object |
| Bits.dfy, Bytes.dfy | powers of two, `&`, `\|`, `^` on integers; big-endian byte strings and `memcmp` |
| Prefixes.dfy | `prefixlen`, `make_prefix`, `chop_into_prefixes` |
| RoaPrefixes.dfy | `roa_prefix_set`, `to_resource_set`, `to_roa_prefix_set` |
| CheckRoa.dfy | the loop of `check_roa` that deletes nested prefixes |
| RoaBitStrings.dfy | the BIT STRING encoder and the two decoders |
| Asn1Integers.dfy | `PyLong_to_ASN1_INTEGER` and back |
| RangeStream.dfy | the streaming merge |
| Options.dfy | absent values: NULL and `None` |

A loop that updates lists is a method over fields; it is tied to a function of
the old state, and what the source promises is proved about that function. The
meaning of a list is `Points`, the set of integers it denotes. Exceptions are
values: `Raised(ResourceOverlap)`, `Raised(OverflowError)`, `Raised(MustBePrefix)`.
A Python or C assertion is a proof obligation at the place where it stands, so
that a method that verifies trips none of them. The exception is the first one of
`chop_into_prefixes`, which can fail; it raises `Raised(AssertionError)`.

AS numbers are unbounded integers, as Python longs are. Addresses are numbers of
a fixed width `bits`; an addition or subtraction of addresses whose result does
not fit raises `OverflowError`, as `ipaddress_object_number_binary_helper`
(`ext/POW.c:2534-2586`) does. Where the surrounding code relies on such a result
to fit, the model passes it through `Checked` or `Number`, whose precondition is
that it fits.

`int(math.log(n, 2))` in `chop_into_prefixes` is computed in floating point,
which can round up when n is just below a large power of two. The model takes
the logarithm as a parameter that may be any function of n. What holds only for
some logarithms says so, and asks for it only up to the counts the loop can meet:
`ExactLog(log, top)` is the floor of the true logarithm for all n up to `top`,
`NeverShort(log, top)` is not below it there.

## What the code does where its documentation promises otherwise

- `union` is partial. {1-5, 8-20} and {3-10} raise ResourceOverlap
  (`UnionIsPartial`); the exact condition is `UnionMeaning`.
- `canonize` of an address set can raise OverflowError instead of
  ResourceOverlap, and can raise it even with `allow_overlap`
  (`AllowOverlapRaises`): exactly when a range that ends at the all-ones address
  sorts before another range (`CanonizeRaises`). Such ranges
  always overlap (`OverflowNeedsOverlap`), so disjoint input is safe.
- `chop_into_prefixes`, and with it `to_roa_prefix_set`, raises OverflowError
  exactly on a range that is not a prefix and ends at the all-ones address when
  the logarithm is exact (`OutputExact`, `UnchoppableLast`, `ChopRaises`). All its
  prefixes have been appended by then.
- An estimate of the logarithm above the exact one stops `chop_into_prefixes` half
  way: with an assertion failure where the block of that size still fits the
  address space, else with OverflowError (`FirstPiece`). For a logarithm that never
  falls short this happens exactly when the estimate is too large at a piece of the
  greedy decomposition (`StopsExact`, `ChopRaisesExactly`). ::1 to ::ffff:ffff:ffff
  is such a range: in double precision the logarithm of 2^48 - 1 is rounded to 48
  (`RoundingUpRaises`).
- `to_resource_set` relies on the order its constructor leaves, which list methods
  can break. In any order it raises exactly when some prefix straddles those before
  it: the addresses so far run across the end of the prefix, and inside it one of
  them is followed by a gap (`UniteAllExact`, `ToResourceSet`). 0/32, 2/31, 4/31,
  0/30 is such a list; `UnsortedRaises` has one for every width from 3.
- `issubset` of an empty set neither checks nor canonizes its argument
  (`IsSubset`).
- The streaming merge treats 0 as "no value" and loses every range that starts at
  0 (`StreamLosesZero`); `StreamIsCanonize` is the exact condition.
- `setPrefixes` cuts a length to 32 bits before it checks it, so that 2^32 + 8
  passes as 8 (`EncodeWraps`). It accepts exactly the lengths in range if and only
  if no other pair of multiples of 2^32 brings the two lengths into range, or one
  of them is beyond a C long (`EncodeExact`, `EncodeExactAlone`).
- An empty BIT STRING that announces unused bits decodes to a prefix length near
  2^32 (`DecodedIsPrefix`): 2^32 - 1 for one unused bit (`EmptyWithUnusedBit`).

## Model

| member | source | states |
|---|---|---|
| Ranges.CanonicalUnique | rpki/resource_set.py:339-360 | Two canonical lists with the same points are the same list. |
| Ranges.IntervalInside | rpki/resource_set.py:482-505 | An interval whose points all lie in a canonical set lies inside a single range of it, which is why looking at one range suffices. |
| Sorting.SortUnique | rpki/resource_set.py:347 | Whatever the sorting routine, the sorted list is the same, since the comparison is a total order. |
| Canonizing.CoalescePoints | rpki/resource_set.py:348-356 | The merging loop loses and invents no point, even when an addition raises half way. |
| Canonizing.CoalesceOverflow | rpki/resource_set.py:348-356 | The loop raises OverflowError exactly when a range other than the last ends at the all-ones address. |
| Canonizing.CoalesceKeepsOverlap | rpki/resource_set.py:348-356 | Merging adjacent ranges neither hides an overlap nor makes one. |
| Canonizing.CoalesceCanonical | rpki/resource_set.py:348-360 | When overlaps are absent or allowed, the loop leaves sorted, disjoint, non-adjacent ranges. |
| Canonizing.ScanFindsOverlap | rpki/resource_set.py:357-359 | Comparing neighbours finds an overlap whenever any two ranges share a point. |
| Canonizing.OverflowNeedsOverlap | rpki/resource_set.py:349-354 | Fixed-width safety: among pairwise disjoint address ranges no addition of canonize leaves the address space. |
| Canonizing.CanonizeMeaning | rpki/resource_set.py:339-360 | canonize keeps the points even when it raises; it raises OverflowError or ResourceOverlap exactly when the unsorted input calls for it; otherwise the list is canonical, and the flag says so exactly then. |
| Canonizing.CanonizeRaises | rpki/resource_set.py:339-360 | When canonize raises, by the numbers in the list: OverflowError exactly when a range that ends at the all-ones address has a smaller first address than another one or is there twice; otherwise ResourceOverlap exactly when two ranges share a number and overlaps are not allowed. |
| Canonizing.CanonizeLeaves | rpki/resource_set.py:347-356 | A canonize that raises leaves the same numbers, sorted by first and then last number, and merged up to the first range that ends at the all-ones address. |
| Canonizing.CanonizeRetry | rpki/resource_set.py:339-360 | A canonize that raised changes nothing a retry can see: with either argument, it ends as on the original list, and one that returns leaves the same list. |
| SetAlgebra.HalvesPartition | rpki/resource_set.py:278-298 | A split replaces a range by two that hold exactly its points and keep the list disjoint and sorted; the cut is before that.min or after that.max. |
| SetAlgebra.CommParts | rpki/resource_set.py:388-420 | The three-way loop, splits and all, sorts every point into only-first, only-second or both, each list disjoint and sorted. |
| SetAlgebra.CommMirror | rpki/resource_set.py:1125-1127 | Exchanging the operands of _comm exchanges the first two results. |
| SetAlgebra.UnionPoints | rpki/resource_set.py:422-450 | The list union builds holds exactly the points of both operands, whether or not the constructor then rejects it. |
| SetAlgebra.UnionOverlap | rpki/resource_set.py:431-450 | That list overlaps exactly when a range of one operand meets two of the other and the later of them runs past it. |
| SetAlgebra.UnionOrder | rpki/resource_set.py:431-450 | union appends in sorted order and with strictly ascending last addresses, which is why its constructor can raise nothing but ResourceOverlap. |
| SetOperations.MakeMeaning | rpki/resource_set.py:321-337 | A construction that returns gives the canonical list of the given points. |
| SetOperations.MakeIsCanonize | rpki/resource_set.py:321-360 | The declarative result of construction is the one the sorting and merging code computes; it raises exactly when canonize does and the same exception. |
| SetOperations.AllowOverlapRaises | rpki/resource_set.py:349-351 | With allow_overlap, the whole address space followed by one address still raises OverflowError. |
| SetOperations.CommMeaning | rpki/resource_set.py:388-420 | On canonical operands _comm raises nothing and returns the canonical lists of A-B, B-A and A&B. |
| SetOperations.CommReduces | rpki/resource_set.py:388-420 | On any operands _comm raises only what cloning one of them raises, the first one first, and otherwise equals _comm of their canonical forms. |
| SetOperations.DerivedReduce | rpki/resource_set.py:454-480 | Intersection, difference and XOR raise exactly what cloning one of the operands raises, the first one first, and nothing else. |
| SetOperations.UnionMeaning | rpki/resource_set.py:422-450 | union of canonical sets raises ResourceOverlap if and only if they clash, raises nothing else, and otherwise is canonical with exactly the united points. |
| SetOperations.UnionReduces | rpki/resource_set.py:422-450 | On any operands union raises exactly when cloning one of them does or their canonical forms clash, and otherwise equals the union of those forms. |
| SetOperations.UnionIsPartial | rpki/resource_set.py:438-450 | {1-5, 8-20} united with {3-10} raises ResourceOverlap. |
| SetOperations.UnionCommutes | rpki/resource_set.py:1134-1136 | union gives the same result or the same exception in either order. |
| SetOperations.DisjointUnion | rpki/resource_set.py:422-450 | Disjoint canonical sets can always be united. |
| SetOperations.SubsetUnion | rpki/resource_set.py:422-450 | A set united with one it includes is unchanged, and nothing is raised. |
| SetOperations.SymmetricDifferenceMeaning | rpki/resource_set.py:472-480 | XOR of canonical sets never raises and holds the points of exactly one operand. |
| SetOperations.XorTwice | rpki/resource_set.py:472-480 | (A ^ B) ^ B is A. |
| SetOperations.Rejoin | rpki/resource_set.py:454-470 | (A - B) \| (A & B) is A. |
| SetOperations.Absorption | rpki/resource_set.py:422-461 | A \| (A & B) is A. |
| SetOperations.Mirrors | rpki/resource_set.py:1118-1149 | The symmetries the repository's own checks assert on examples: _comm mirrored, union and XOR commutative. |
| ResourceSets.ResourceSet.New | rpki/resource_set.py:321-337 | Construction: raises as stated, else a fresh canonical set with the given points. |
| ResourceSets.ResourceSet.Append | rpki/resource_set.py:362-368 | Adds at the end and clears the flag. |
| ResourceSets.ResourceSet.Extend | rpki/resource_set.py:370-376 | Adds a list at the end and clears the flag. |
| ResourceSets.ResourceSet.Canonize | rpki/resource_set.py:339-360 | The in-place code reaches exactly the specified state and outcome, points unchanged. |
| ResourceSets.Rsplit | rpki/resource_set.py:278-298 | Splits the first range in place; neither that.min - 1 nor that.max + 1 leaves the number type. |
| ResourceSets.ResourceSet.SplitAndSort | rpki/resource_set.py:399-419 | The loop of _comm terminates although splits lengthen its lists, trips no assertion, and computes the specified three lists. |
| ResourceSets.ResourceSet.Comm | rpki/resource_set.py:388-420 | Three fresh canonical sets with the points of A-B, B-A and A&B; the operands are untouched; never raises on canonical operands. |
| ResourceSets.ResourceSet.Union | rpki/resource_set.py:422-450 | A fresh canonical set with the united points, or ResourceOverlap exactly on a clash. |
| ResourceSets.ResourceSet.MergeFronts | rpki/resource_set.py:437-449 | Merges the first ranges and deletes what they cover; both inner assertions hold. |
| ResourceSets.ResourceSet.Intersection | rpki/resource_set.py:454-459 | The points in both operands. |
| ResourceSets.ResourceSet.Difference | rpki/resource_set.py:463-468 | The points of this set outside the other. |
| ResourceSets.ResourceSet.SymmetricDifference | rpki/resource_set.py:472-478 | The points of exactly one operand; never raises on canonical operands. |
| ResourceSets.ResourceSet.Contains | rpki/resource_set.py:482-505 | A single number: true exactly when it is in the set; a range: exactly when every number of it is. Makes the set canonical first and raises exactly when that does. |
| ResourceSets.Search | rpki/resource_set.py:496-505 | The binary search on upper ends decides inclusion of the whole range in a canonical list. |
| ResourceSets.ResourceSet.IsSubset | rpki/resource_set.py:509-517 | Exactly point inclusion, for any two sets, the same object included; raises exactly when this set is non-empty and the other cannot be made canonical. |
| ResourceSets.Equal | rpki/resource_set.py:536-546 | List equality and no inheritance; on canonical sets, equality of points. |
| SetRuns.Perform | rpki/resource_set.py:321-376 | Every operation of the class is the step of the state machine. |
| SetRuns.RunsAreFaithful | rpki/resource_set.py:321-376 | Over every run of append, extend, canonize and contains: the flag is truthful, the points are exactly those added, and contains answers like a plain set for a number and for a range; an exception is the one canonize raises on the list as it stands; canonize and contains raise exactly when a range added since a canonize last returned overlaps another range ever added (with allow_overlap only then, and only OverflowError); unless overlaps were ever asked to be merged, that is when two of all the ranges ever added overlap. |
| SetRuns.OverlapCat | rpki/resource_set.py:339-376 | A list extended by another overlaps exactly when one of the two does or they share a point. |
| Prefixes.PrefixLenMeaning | rpki/resource_set.py:142-158 | The XOR mask and its shifts return p exactly for an aligned block of 2^(bits-p) addresses. |
| Prefixes.PrefixLength | rpki/resource_set.py:142-158 | The loop returns a length p between 0 and bits with 2^(bits-p) addresses in the range and the first a multiple of that, or MustBePrefix when the size is no power of two that divides the first address. |
| Prefixes.MakePrefix | rpki/resource_set.py:206-216 | The range of an aligned prefix starts at it, holds 2^(bits-prefixlen) addresses and stays in the address space. |
| Prefixes.PrefixInverse | rpki/resource_set.py:142-216 | prefixlen and make_prefix are inverse. |
| Prefixes.FirstPiece | rpki/resource_set.py:230-238 | With any estimate of the logarithm: both assertions hold, and the largest aligned block up to the estimate is found, if and only if the estimate is not above the exact logarithm; otherwise the assertion fails, or the addition before it overflows, exactly as the address space decides. |
| Prefixes.ChopIntoPrefixes | rpki/resource_set.py:218-240 | With any logarithm: appends the aligned blocks up to the first estimate that is too large, none being too large all of them, and raises exactly there or at the end of the address space. |
| Prefixes.StopsExact | rpki/resource_set.py:229-240 | A logarithm that never falls short stops the loop if and only if its estimate is too large at some piece of the greedy decomposition; it stops at the first such piece, with exactly the pieces before it appended. |
| Prefixes.ChopRaisesExactly | rpki/resource_set.py:218-240 | With such a logarithm an exception is raised if and only if the range is no prefix and either an estimate is too large at one of its greedy pieces or it ends at the all-ones address; the first such piece decides between AssertionError and OverflowError and what was appended. |
| Prefixes.RoundingUpRaises | rpki/resource_set.py:231-234 | The range from 1 to 2^k - 1 fails the assertion if the logarithm of its length is rounded up to k, for every k from 2 below the width, 48 in IPv6 included. |
| Prefixes.OutputGreedy | rpki/resource_set.py:218-240 | With a logarithm that never falls short, unless an estimate is too large, what is appended is the greedy decomposition. |
| Prefixes.EmittedTiles | rpki/resource_set.py:229-240 | With any logarithm the blocks appended are prefixes that tile the range from its first address up to where the loop stops, and it stops short only at an estimate that is too large. |
| Prefixes.EmittedStartsChop | rpki/resource_set.py:229-240 | A logarithm that errs only upwards on the counts of the range appends a beginning of the greedy decomposition; what is missing is the decomposition of the rest. |
| Prefixes.OutputMeaning | rpki/resource_set.py:218-240 | With any logarithm, unless an estimate is too large, the pieces are prefixes that partition exactly the given range in ascending order. |
| Prefixes.OutputExact | rpki/resource_set.py:218-240 | With a logarithm exact up to the length of the range the pieces are the greedy decomposition, and OverflowError is raised exactly on a range that is no prefix and ends at the all-ones address. |
| Prefixes.ChopMeaning | rpki/resource_set.py:218-240 | The pieces of the greedy decomposition are prefixes that partition exactly the given range in ascending order. |
| Prefixes.ChopShortest | rpki/resource_set.py:218-240 | No list of prefixes with exactly those addresses, in any order and with any overlaps, is shorter. |
| Prefixes.ChopCount | rpki/resource_set.py:218-240 | One piece, or at most 2 * bits - 2. |
| Prefixes.ChopWorst | rpki/resource_set.py:218-240 | That bound is reached, for every width, by the space without its first and last address. |
| Prefixes.ChopRaises | rpki/resource_set.py:240 | The space without its first address makes it raise OverflowError, for every width from 2, although the logarithm is exact up to its length. |
| RoaPrefixes.RoaPrefixSet.constructor | rpki/resource_set.py:870-977 | The given prefixes, ascending by prefix, then length, then maximum length. |
| RoaPrefixes.SortedRanges | rpki/resource_set.py:870-977 | In that order the least specific of the prefixes with one first address comes first, as the C code asks for, and equal ranges ascend by maximum length. |
| RoaPrefixes.RoaPrefixSet.ToResourceSet | rpki/resource_set.py:995-1011 | Folds the prefixes with union: in any order raises ResourceOverlap exactly when some prefix straddles those before it, and nothing else, and otherwise gives exactly their addresses; in the constructor's order it never raises. |
| RoaPrefixes.ToResourceRange | rpki/resource_set.py:891-898 | The range of a prefix is that prefix. |
| RoaPrefixes.NoClashAtEnd | rpki/resource_set.py:995-1011 | A range that starts no earlier than the last range of a canonical set cannot make union raise. |
| RoaPrefixes.ClashIsStraddle | rpki/resource_set.py:422-450 | A range clashes with a canonical set exactly when the points of the set run across its end and leave a gap inside it. |
| RoaPrefixes.UniteAllMeaning | rpki/resource_set.py:995-1011 | Uniting ranges in the order of their first addresses never raises and is canonical with exactly their points. |
| RoaPrefixes.UniteAllExact | rpki/resource_set.py:995-1011 | Uniting ranges in any order raises if and only if some range straddles the ranges before it, and then ResourceOverlap; otherwise it is canonical with exactly their points. |
| RoaPrefixes.ToResourceSetMeaning | rpki/resource_set.py:870-1011 | Any ROA prefixes, nested, repeated, with any maximum lengths, convert to the canonical set of their addresses. |
| RoaPrefixes.UnsortedRaises | rpki/resource_set.py:995-1011 | Out of order, 0/n, 2/(n-1), 4/(n-1), 0/(n-2) raise ResourceOverlap, for every width n from 3. |
| RoaPrefixes.ToRoaPrefixSet | rpki/resource_set.py:596-607 | With any logarithm: a sorted prefix set with exactly the addresses, every maximum length equal to the prefix length; or the exception of the first range that cannot be chopped. prefixlen never raises in it. |
| RoaPrefixes.UnchoppableLast | rpki/resource_set.py:596-607 | For a canonical set and a logarithm exact up to the size of the address space some range cannot be chopped exactly when the last one is no prefix and ends at the all-ones address. |
| RoaPrefixes.UnchoppableExact | rpki/resource_set.py:596-607 | For any set and a logarithm that never falls short, a range cannot be chopped exactly when it is no prefix and ends at the all-ones address or has a greedy piece at which the estimate is too large. |
| RoaPrefixes.PiecesMeaning | rpki/resource_set.py:596-607 | With any logarithm that stops no range half way, the prefixes hold exactly the set's addresses. |
| RoaPrefixes.PiecesShortest | rpki/resource_set.py:596-607 | No prefix list for the addresses of a canonical set is shorter, for every logarithm that neither falls short nor stops a range half way. |
| RoaPrefixes.ThereAndBack | rpki/resource_set.py:1164-1175 | The two conversions one after the other, with any logarithm: a canonical set comes back as the same list, any set with the same addresses, unless some range cannot be chopped. |
| RoaPrefixes.RoundTrip | rpki/resource_set.py:596-1011 | With any logarithm that stops no range half way, to prefixes and back gives the canonical form, and a canonical set unchanged. |
| CheckRoa.AddressStack.DeleteNested | ext/POW.c:1606-1636 | In a list sorted by the RFC 3779 rules exactly the maximal prefixes stay: disjoint, covering the same addresses. |
| CheckRoa.KeepMeaning | ext/POW.c:1616-1634 | The loop keeps each maximal prefix once, in order, and no other. |
| CheckRoa.BothWaysAgree | ext/POW.c:1598-1640 | Made canonical, what it leaves is the result of to_resource_set on the same prefixes. |
| Bytes.MemCmpNumeric | ext/POW.c:1629 | memcmp on addresses of one length is comparison of numbers. |
| RoaBitStrings.SetPrefix | ext/POW.c:8940-8983 | Which of the three failures is reported, by the lengths; otherwise what is stored: the octets that the length needs, the bits past it zero and counted in the flag word, maxLength only if it differs. It decodes to the cleared address and both lengths, as C unsigned ints. |
| RoaBitStrings.EncodeAccepts | ext/POW.c:8940-8963 | Accepted, among all integers, are exactly those in a C long which some multiples of 2^32 taken off bring to 0 <= p <= m <= bits; for C int arguments that is 0 <= p <= m <= bits. |
| RoaBitStrings.EncodeExact | ext/POW.c:8940-8963 | The checks accept exactly the lengths in range if and only if no multiples of 2^32, other than none, bring the lengths into range, or one of the lengths is beyond a C long. |
| RoaBitStrings.EncodeExactAlone | ext/POW.c:8940-8963 | The same without a maximum length: one multiple of 2^32 decides. |
| RoaBitStrings.EncodePeriodic | ext/POW.c:8940-8951 | Within a C long a length is taken modulo 2^32. |
| RoaBitStrings.EncodeWraps | ext/POW.c:8940-8951 | 2^32 + 8 is accepted and encodes as 8. |
| RoaBitStrings.ExtractRoaPrefix | ext/POW.c:1487-1523 | Extracted are exactly the entries of at most 4 or 16 octets with an absent maxLength or one from 0 to 32 or 128. Each octet of the buffer: as given, the unused bits of the last one cleared, then zeros; the prefix length modulo 2^32; maxLength as it stands or the prefix length. The buffer is untouched on failure. |
| RoaBitStrings.GetPrefix | ext/POW.c:8816-8842 | Fails exactly beyond 4 or 16 octets; otherwise an address of that many octets, as the other decoder fills it, the same prefix length, and maxLength or None. |
| RoaBitStrings.EntryRoundTrip | ext/POW.c:8959-8983 | For p <= m <= bits, decoding an encoded prefix gives p, m (None when equal to p) and the address with the bits past p cleared. |
| RoaBitStrings.DecodedIsPrefix | ext/POW.c:1487-1523 | Whatever the BIT STRING, the decoded address has no bits past the decoded length; the length is out of range exactly for an empty string with unused bits. |
| RoaBitStrings.EmptyWithUnusedBit | ext/POW.c:1515-1523 | No octets and one unused bit decode to the length 2^32 - 1. |
| RoaBitStrings.ReencodeExact | ext/POW.c:8816-8983 | Encoding a decoded entry gives it back exactly when its unused bits are zero, BITS_LEFT is set and maxLength is present only if larger than the length. |
| Asn1Integers.FromPyLong | ext/POW.c:1021-1091 | Accepts exactly 0 <= n < 2^159, in at most 20 octets without a leading zero octet, which read back as n. |
| Asn1Integers.OctetsDetermined | ext/POW.c:994-1007 | Octet strings without a leading zero octet that read the same are the same. |
| Asn1Integers.ManifestRange | ext/POW.c:1452-1454 | check_manifest allows exactly the numbers that can be converted. |
| Asn1Integers.TwentyOctets | ext/POW.c:10356 | The largest allowed manifest number is 2^159 - 1. |
| RangeStream.Whacker.Whack | potpourri/whack-ripe-prefixes.py:79-97 | The script's variables and loop write, for lines sorted by their first numbers, the canonical list of those that start above 0. |
| RangeStream.StreamIsCoalesce | potpourri/whack-ripe-prefixes.py:83-97 | On lines that start above 0 the script's loop is the merging loop of canonize with overlaps allowed. |
| RangeStream.StreamIsCanonize | potpourri/whack-ripe-prefixes.py:83-97 | It equals canonize(allow_overlap = True) over unbounded numbers if and only if no line starts at 0. |
| RangeStream.StreamLosesZero | potpourri/whack-ripe-prefixes.py:79-81 | A range that starts at 0 is lost. |

## Left out

- ChopIntoPrefixes: which way and for which n the floating-point `math.log` errs is not modelled; the contract covers every logarithm, ChopRaisesExactly those that never fall short, and OutputExact the exact one.
- FirstPiece: the same, for the single estimate it is given.
- UnchoppableLast, OutputExact and ChopRaises ask for a logarithm that is exact up to the stated count; UnchoppableExact and ChopRaisesExactly say what one that errs upwards does.
- StopsExact, ChopRaisesExactly, OutputGreedy, EmittedStartsChop, UnchoppableExact and PiecesShortest ask for a logarithm that does not fall short up to the stated count; for one that does, ChopIntoPrefixes and OutputMeaning hold.
- StreamIsCanonize: lines are ranges with min <= max sorted by min; the script's text parsing, the `sort` process and address formatting are not modelled, and reversed ranges are not considered.
- ToResourceSet: the assertions of `make_prefix` (aligned prefix, length within the width) are preconditions on the prefixes.
- DeleteNested: `v3_addr_get_range`, `sk_IPAddressOrRange_sort` and `v3_addr_canonize` are OpenSSL; the first gives the ends of the prefix, the second the stated order, the third is represented by the modelled construction.
- SetPrefix: a C long has 64 bits, as on 64-bit Unix; the other Python argument checks (sequence length, IPAddress type) and out-of-memory paths are not modelled.
- FromPyLong: `PyNumber_Long` failures, lengths beyond size_t and out-of-memory are not modelled.
- RFC 3779 inheritance: `inherit` is a field that the operations require to be false where the source asserts so, and `!=` treats as always unequal; nothing else is said about it.
- Direct use of inherited list methods (`insert`, `pop`, item assignment) on a set, which does not clear `canonical`, is not an operation of the run model; `_rsplit` and the loops of `_comm` and `union` do it on private clones.
- `__lt__` and `__gt__`, which mean "not a superset" and "not a subset".
- Text forms of ranges, sets and prefixes: regular expressions, `long()` parsing and `inet_pton`.
- `resource_bag`: its operations apply the modelled ones to three sets.
- Django and SQL constructors, and everything in `ext/POW.c` that is OpenSSL or Python object handling.
- rpki/up_down.py, rpki/pubd.py, rpki/irdbd.py and the other daemons: message plumbing, not part of this model.
