/** Address ranges that are prefixes, and the decomposition of a range into
    prefixes. */
module Prefixes {
  import opened Bits
  import opened Ranges
  import opened Canonizing

  /** The range is an aligned block of 2^c addresses. */
  predicate Block(r: ResourceRange, c: nat) {
    r.min >= 0 && Multiple(r.min, c) && r.max == r.min + Pow2(c) - 1
  }

  /** The range is the prefix of length p in an address space of the given width. */
  predicate IsPrefix(bits: nat, r: ResourceRange, p: nat) {
    p <= bits && Block(r, bits - p)
  }

  /** The range is a prefix. */
  ghost predicate SomePrefix(bits: nat, r: ResourceRange) {
    exists p: nat :: IsPrefix(bits, r, p)
  }

  // ----- prefixlen

  /** How often the loop of prefixlen shifts, and the mask it ends with. */
  function StripOnes(mask: nat): (nat, nat) {
    if mask % 2 == 1 then var (n, rest) := StripOnes(mask / 2); (n + 1, rest) else (0, mask)
  }

  /** The prefix length of a range, or MustBePrefix. */
  function PrefixLen(bits: nat, r: ResourceRange): (out: Outcome<int>)
    requires RangeFits(Address(bits), r)
  {
    var mask := Xor(r.min, r.max);
    var (n, rest) := StripOnes(mask);
    if And(r.min, mask) != 0 || rest != 0 then Raised(MustBePrefix) else Returned(bits - n)
  }

  lemma XorHalf(a: nat, b: nat)
    ensures Xor(a, b) % 2 == (if a % 2 == b % 2 then 0 else 1) && Xor(a, b) / 2 == Xor(a / 2, b / 2)
  {
  }

  lemma AndHalf(a: nat, b: nat)
    ensures And(a, b) % 2 == (if a % 2 == 1 && b % 2 == 1 then 1 else 0) && And(a, b) / 2 == And(a / 2, b / 2)
  {
  }

  lemma {:induction false} XorZero(a: nat, b: nat)
    ensures Xor(a, b) == 0 <==> a == b
    decreases a + b
  {
    if a > 0 || b > 0 {
      XorHalf(a, b);
      XorZero(a / 2, b / 2);
    }
  }

  /** Stripping the trailing ones empties the mask exactly when it is of the
      form 2^k - 1, and counts k. */
  lemma {:induction false} StripOnesMeaning(mask: nat, k: nat)
    ensures mask == Pow2(k) - 1 <==> StripOnes(mask) == (k, 0)
  {
    if mask % 2 == 1 {
      if k > 0 { StripOnesMeaning(mask / 2, k - 1); }
    }
  }

  /** The two mask conditions say that the range is an aligned block. */
  lemma {:induction false} MaskMeaning(lo: nat, hi: nat, k: nat)
    ensures And(lo, Xor(lo, hi)) == 0 && Xor(lo, hi) == Pow2(k) - 1
      <==> Multiple(lo, k) && hi == lo + Pow2(k) - 1
  {
    if k == 0 {
      XorZero(lo, hi);
    } else {
      XorHalf(lo, hi);
      AndHalf(lo, Xor(lo, hi));
      MaskMeaning(lo / 2, hi / 2, k - 1);
    }
  }

  /** prefixlen returns p exactly when the range is the prefix of length p. */
  lemma PrefixLenMeaning(bits: nat, r: ResourceRange, p: nat)
    requires RangeFits(Address(bits), r) && p <= bits
    ensures PrefixLen(bits, r) == Returned(p) <==> IsPrefix(bits, r, p)
  {
    MaskMeaning(r.min, r.max, bits - p);
    StripOnesMeaning(Xor(r.min, r.max), bits - p);
  }

  /** The length it returns is never out of range, and when it raises no length
      would do. */
  lemma PrefixLenRange(bits: nat, r: ResourceRange)
    requires RangeFits(Address(bits), r)
    ensures match PrefixLen(bits, r)
      case Returned(p) => 0 <= p <= bits && IsPrefix(bits, r, p)
      case Raised(e) => e == MustBePrefix && !SomePrefix(bits, r)
  {
    var (n, rest) := StripOnes(Xor(r.min, r.max));
    if PrefixLen(bits, r).Returned? {
      StripOnesMeaning(Xor(r.min, r.max), n);
      MaskMeaning(r.min, r.max, n);
      if n > bits { Pow2Monotone(bits, n); }
      PrefixLenMeaning(bits, r, bits - n);
    } else {
      forall p: nat ensures !IsPrefix(bits, r, p) {
        if p <= bits { PrefixLenMeaning(bits, r, p); }
      }
    }
  }

  /** The definitions of a prefix in plain arithmetic. */
  lemma PrefixNumbers(bits: nat, r: ResourceRange)
    requires RangeFits(Address(bits), r)
    ensures forall p: nat :: IsPrefix(bits, r, p) ==>
      r.max - r.min + 1 == Pow2(bits - p) && r.min % Pow2(bits - p) == 0
    ensures forall k: nat :: r.max - r.min + 1 == Pow2(k) && r.min % Pow2(k) == 0 ==> SomePrefix(bits, r)
  {
    forall p: nat | IsPrefix(bits, r, p) ensures r.min % Pow2(bits - p) == 0 { MultipleMeaning(r.min, bits - p); }
    forall k: nat | r.max - r.min + 1 == Pow2(k) && r.min % Pow2(k) == 0 ensures SomePrefix(bits, r) {
      MultipleMeaning(r.min, k);
      if k > bits { Pow2Monotone(bits, k); }
      assert IsPrefix(bits, r, bits - k);
    }
  }

  /** resource_range_ip.prefixlen, with its loop. */
  method PrefixLength(bits: nat, r: ResourceRange) returns (out: Outcome<int>)
    requires RangeFits(Address(bits), r)
    ensures out == PrefixLen(bits, r)
    ensures out.Returned? ==> 0 <= out.value <= bits && IsPrefix(bits, r, out.value)
    ensures out.Raised? ==> out.error == MustBePrefix && !SomePrefix(bits, r)
    ensures out.Returned? ==>
      var size := Pow2(bits - out.value); r.max - r.min + 1 == size && r.min % size == 0
    ensures out.Raised? ==> forall k: nat :: r.max - r.min + 1 == Pow2(k) ==> r.min % Pow2(k) != 0
  {
    hide Xor, SomePrefix;
    PrefixLenRange(bits, r);
    PrefixNumbers(bits, r);
    var mask: nat := Xor(r.min, r.max);
    if And(r.min, mask) != 0 { return Raised(MustBePrefix); }
    var prefixlen: int := bits;
    while true
      invariant (bits - prefixlen) + StripOnes(mask).0 == StripOnes(Xor(r.min, r.max)).0
      invariant StripOnes(mask).1 == StripOnes(Xor(r.min, r.max)).1
      decreases mask
    {
      AndLowMask(mask, 1);
      if And(mask, 1) == 0 { break; }
      prefixlen := prefixlen - 1;
      mask := mask / 2;
    }
    assert StripOnes(mask) == (0, mask);
    if mask != 0 { return Raised(MustBePrefix); }
    out := Returned(prefixlen);
  }

  // ----- make_prefix

  /** The range of a prefix; the arguments meet the two assertions. */
  function MakePrefix(bits: nat, prefix: nat, prefixlen: nat): (r: ResourceRange)
    requires prefix < Pow2(bits) && prefixlen <= bits && And(prefix, Pow2(bits - prefixlen) - 1) == 0
    ensures IsPrefix(bits, r, prefixlen) && RangeFits(Address(bits), r)
    ensures r.min == prefix && r.max == prefix + Pow2(bits - prefixlen) - 1
  {
    var k := bits - prefixlen;
    AndLowMask(prefix, k);
    MultipleMeaning(prefix, k);
    OrLowMask(prefix, k);
    MultipleRoom(prefix, k, bits);
    Range(prefix, Or(prefix, Pow2(k) - 1))
  }

  /** make_prefix and prefixlen are inverse to each other. */
  lemma PrefixInverse(bits: nat, r: ResourceRange, prefixlen: nat)
    requires RangeFits(Address(bits), r) && prefixlen <= bits
    ensures PrefixLen(bits, r) == Returned(prefixlen) <==>
      And(r.min, Pow2(bits - prefixlen) - 1) == 0 && MakePrefix(bits, r.min, prefixlen) == r
  {
    PrefixLenMeaning(bits, r, prefixlen);
    AndLowMask(r.min, bits - prefixlen);
    MultipleMeaning(r.min, bits - prefixlen);
  }

  // ----- chop_into_prefixes

  /** The inner loop: the first b, counting down, for which the block of 2^b at
      lo is aligned. */
  function FitBits(lo: nat, b: nat): (r: nat)
    ensures r <= b && Multiple(lo, r)
    ensures forall c: nat :: c <= b && Multiple(lo, c) ==> c <= r
  {
    AndLowMask(lo, b);
    MultipleMeaning(lo, b);
    if And(lo, Pow2(b) - 1) == 0 then b
    else FitBits(lo, b - 1)
  }

  /** The aligned block of 2^b addresses at lo ends at or before hi. */
  predicate FitsAt(lo: nat, hi: int, b: nat) {
    Multiple(lo, b) && lo + Pow2(b) - 1 <= hi
  }

  ghost predicate LargestAt(lo: nat, hi: int, b: nat) {
    FitsAt(lo, hi, b) && forall c: nat :: FitsAt(lo, hi, c) ==> c <= b
  }

  /** What the logarithm and the inner loop find: the largest block that fits. */
  lemma SearchFindsLargest(lo: nat, hi: int)
    requires lo <= hi
    ensures LargestAt(lo, hi, FitBits(lo, FloorLog2(hi - lo + 1)))
  {
    var n := hi - lo + 1;
    var b := FitBits(lo, FloorLog2(n));
    Log2Bounds(n, b);
    forall c: nat | FitsAt(lo, hi, c) ensures c <= b { Log2Bounds(n, c); }
  }

  /** The size, as a power of two, of the largest block that fits. */
  ghost function FirstBits(lo: nat, hi: int): (b: nat)
    requires lo <= hi
    ensures FitsAt(lo, hi, b)
  {
    SearchFindsLargest(lo, hi);
    var b: nat :| LargestAt(lo, hi, b);
    b
  }

  lemma FirstBitsLargest(lo: nat, hi: int, c: nat)
    requires lo <= hi && FitsAt(lo, hi, c)
    ensures c <= FirstBits(lo, hi)
  {
  }

  ghost function FirstBlock(lo: nat, hi: int): ResourceRange
    requires lo <= hi
  {
    Range(lo, lo + Pow2(FirstBits(lo, hi)) - 1)
  }

  /** The greedy decomposition: the largest block that fits at lo, and so on. */
  ghost function Chop(lo: nat, hi: int): seq<ResourceRange>
    decreases hi - lo + 1
  {
    if hi < lo then [] else
      var first := FirstBlock(lo, hi);
      [first] + Chop(first.max + 1, hi)
  }

  ghost predicate IsBlock(r: ResourceRange) {
    exists c: nat :: Block(r, c)
  }

  ghost predicate AllBlocks(rs: seq<ResourceRange>) {
    forall k :: 0 <= k < |rs| ==> IsBlock(rs[k])
  }

  /** The first piece, named by its size, and the rest. */
  lemma ChopStep(lo: nat, hi: int, b: nat)
    requires lo <= hi && b == FirstBits(lo, hi)
    ensures Chop(lo, hi) == [Range(lo, lo + Pow2(b) - 1)] + Chop(lo + Pow2(b), hi)
    ensures |Chop(lo, hi)| == 1 + |Chop(lo + Pow2(b), hi)|
  {
  }

  /** Each piece starts where the one before it ends. */
  predicate Tiles(rs: seq<ResourceRange>, lo: int, hi: int) {
    if rs == [] then lo == hi + 1
    else rs[0].min == lo && Tiles(rs[1..], rs[0].max + 1, hi)
  }

  lemma {:induction false} TilesMeaning(rs: seq<ResourceRange>, lo: int, hi: int)
    requires Tiles(rs, lo, hi)
    ensures Separated(rs) && lo <= hi + 1
    ensures forall x :: Has(rs, x) <==> lo <= x <= hi
  {
    if rs != [] {
      TilesMeaning(rs[1..], rs[0].max + 1, hi);
      forall x ensures Has(rs, x) <==> lo <= x <= hi { HasHead(rs, x); }
      forall j | 0 < j < |rs| ensures rs[0].max < rs[j].min {
        assert Within(rs[1..][j - 1], rs[j].min) && Has(rs[1..], rs[j].min);
      }
      forall i, j | 0 <= i < j < |rs| ensures rs[i].max < rs[j].min {
        if i > 0 { assert rs[1..][i - 1] == rs[i] && rs[1..][j - 1] == rs[j]; }
      }
    }
  }

  lemma ConsBlocks(r: ResourceRange, rs: seq<ResourceRange>)
    requires AllBlocks(rs) && IsBlock(r)
    ensures AllBlocks([r] + rs)
  {
  }

  /** The pieces are aligned blocks that partition the range in ascending
      order. */
  lemma {:induction false} ChopPartitions(lo: nat, hi: int)
    requires lo <= hi + 1
    ensures AllBlocks(Chop(lo, hi)) && Tiles(Chop(lo, hi), lo, hi)
    decreases hi - lo + 1
  {
    if lo <= hi {
      var first := FirstBlock(lo, hi);
      assert Block(first, FirstBits(lo, hi));
      ChopPartitions(first.max + 1, hi);
      ConsBlocks(first, Chop(first.max + 1, hi));
    }
  }

  /** Aligned blocks that tile an address range are prefixes that partition it. */
  lemma TiledMeaning(bits: nat, r: ResourceRange, pieces: seq<ResourceRange>)
    requires RangeFits(Address(bits), r) && AllBlocks(pieces) && Tiles(pieces, r.min, r.max)
    ensures Separated(pieces) && AllFit(Address(bits), pieces) && Points(pieces) == Points([r])
    ensures forall k :: 0 <= k < |pieces| ==> SomePrefix(bits, pieces[k])
  {
    TilesMeaning(pieces, r.min, r.max);
    forall x ensures x in Points(pieces) <==> x in Points([r]) { HasOne(r, x); }
    forall k | 0 <= k < |pieces|
      ensures RangeFits(Address(bits), pieces[k]) && SomePrefix(bits, pieces[k]) {
      assert Within(pieces[k], pieces[k].min) && Has(pieces, pieces[k].min);
      assert Within(pieces[k], pieces[k].max) && Has(pieces, pieces[k].max);
      assert IsBlock(pieces[k]);
      var c: nat :| Block(pieces[k], c);
      BlockIsPrefix(bits, pieces[k], c);
    }
  }

  /** The greedy decomposition consists of prefixes of the address space that
      partition exactly the given range, in ascending order. */
  lemma ChopMeaning(bits: nat, r: ResourceRange)
    requires RangeFits(Address(bits), r)
    ensures var pieces := Chop(r.min, r.max);
      && Tiles(pieces, r.min, r.max) && Separated(pieces) && AllFit(Address(bits), pieces)
      && Points(pieces) == Points([r])
      && (forall k :: 0 <= k < |pieces| ==> SomePrefix(bits, pieces[k]))
  {
    ChopPartitions(r.min, r.max);
    TiledMeaning(bits, r, Chop(r.min, r.max));
  }

  /** A range that is an aligned block is a single piece. */
  lemma ChopBlock(r: ResourceRange, c: nat)
    requires Block(r, c)
    ensures Chop(r.min, r.max) == [r]
  {
    var b := FirstBits(r.min, r.max);
    FirstBitsLargest(r.min, r.max, c);
    Pow2Monotone(c, b);
  }

  /** The first piece swallows every aligned block of the range that meets it. */
  lemma FirstSwallows(lo: nat, hi: int, q: ResourceRange, c: nat)
    requires lo <= q.min && q.max <= hi && Block(q, c)
    ensures q.min <= FirstBlock(lo, hi).max ==> q.max <= FirstBlock(lo, hi).max
  {
    var b := FirstBits(lo, hi);
    if q.min <= FirstBlock(lo, hi).max {
      if c <= b {
        BlocksNest(q.min, c, lo, b);
      } else {
        BlocksNest(lo, b, q.min, c);
        FirstBitsLargest(lo, hi, c);
      }
    }
  }

  // ----- No shorter list of prefixes

  /** The ranges of a list that start beyond m, in order. */
  function StartingAfter(rs: seq<ResourceRange>, m: int): (s: seq<ResourceRange>)
    ensures |s| <= |rs|
    ensures forall r :: r in s <==> r in rs && r.min > m
    ensures (exists r :: r in rs && r.min <= m) ==> |s| < |rs|
  {
    if rs == [] then []
    else
      assert forall r :: r in rs <==> r == rs[0] || r in rs[1..];
      if rs[0].min > m then [rs[0]] + StartingAfter(rs[1..], m) else StartingAfter(rs[1..], m)
  }

  /** No list of prefixes with exactly the points of the range, in any order and
      with any overlaps, is shorter than the one chop_into_prefixes emits. */
  lemma {:induction false} ChopShortest(lo: nat, hi: int, other: seq<ResourceRange>)
    requires lo <= hi + 1 && AllBlocks(other)
    requires forall x :: Has(other, x) <==> lo <= x <= hi
    ensures |Chop(lo, hi)| <= |other|
    decreases hi - lo + 1
  {
    hide FirstBits, StartingAfter, AllBlocks, Has;
    if lo <= hi {
      var first := FirstBlock(lo, hi);
      assert lo <= first.max <= hi;
      SplitAtFirst(lo, hi, other);
      ChopFirst(lo, hi);
      ChopShortest(first.max + 1, hi, StartingAfter(other, first.max));
    }
  }

  lemma SplitAtFirst(lo: nat, hi: int, other: seq<ResourceRange>)
    requires lo <= hi && AllBlocks(other)
    requires forall x :: Has(other, x) <==> lo <= x <= hi
    ensures var m := FirstBlock(lo, hi).max; var rest := StartingAfter(other, m);
      && AllBlocks(rest) && |rest| < |other|
      && (forall x :: Has(rest, x) <==> m + 1 <= x <= hi)
  {
    var m := FirstBlock(lo, hi).max;
    var rest := StartingAfter(other, m);
    forall k | 0 <= k < |rest| ensures IsBlock(rest[k]) { assert rest[k] in other; }
    assert Has(other, lo);
    forall x ensures Has(rest, x) <==> m + 1 <= x <= hi {
      if Has(rest, x) {
        var k :| 0 <= k < |rest| && Within(rest[k], x);
        assert rest[k] in other;
        assert Has(other, x);
      }
      if m + 1 <= x <= hi {
        assert Has(other, x);
        var k :| 0 <= k < |other| && Within(other[k], x);
        StartsAfterFirst(lo, hi, other, k);
        assert other[k] in rest;
      }
    }
  }

  /** A block of the list that is not inside the first piece starts after it. */
  lemma StartsAfterFirst(lo: nat, hi: int, other: seq<ResourceRange>, k: nat)
    requires lo <= hi && AllBlocks(other) && k < |other|
    requires forall x :: Has(other, x) ==> lo <= x <= hi
    ensures other[k].max > FirstBlock(lo, hi).max ==> other[k].min > FirstBlock(lo, hi).max
  {
    assert Within(other[k], other[k].min) && Has(other, other[k].min);
    assert Within(other[k], other[k].max) && Has(other, other[k].max);
    assert IsBlock(other[k]);
    var c: nat :| Block(other[k], c);
    FirstSwallows(lo, hi, other[k], c);
  }

  // ----- The number of prefixes

  /** From an aligned start, a range shorter than 2^c takes at most c pieces. */
  lemma {:induction false} ChopDescending(lo: nat, hi: int, c: nat)
    requires Multiple(lo, c) && lo <= hi + 1 && hi - lo + 1 < Pow2(c)
    ensures |Chop(lo, hi)| <= c
    decreases c
  {
    if lo <= hi {
      var n := hi - lo + 1;
      var b := FirstBits(lo, hi);
      var t := FloorLog2(n);
      if t >= c { Pow2Monotone(c, t); }
      MultipleDown(lo, c, t);
      Log2Bounds(n, t);
      FirstBitsLargest(lo, hi, t);
      Log2Bounds(n, b);
      MultipleNext(lo, b);
      ChopStep(lo, hi, b);
      ChopDescending(lo + Pow2(b), hi, b);
    }
  }

  /** From a start that is a multiple of 2^a the pieces first grow, each at
      least twice as aligned as the one before, then shrink. */
  lemma {:induction false} ChopAscending(lo: nat, hi: int, a: nat, bits: nat)
    requires bits >= 2 && a <= bits - 1
    requires 0 < lo <= hi + 1 && hi < Pow2(bits) && Multiple(lo, a)
    ensures |Chop(lo, hi)| <= 2 * bits - 2 - a
    decreases bits - a
  {
    if lo <= hi {
      var b := FirstBits(lo, hi);
      if Multiple(lo, b + 1) {
        if hi - lo + 1 >= Pow2(b + 1) { FirstBitsLargest(lo, hi, b + 1); }
        MultipleRoom(lo, b + 1, bits);
        if b + 1 >= bits { Pow2Monotone(bits, b + 1); }
        ChopDescending(lo, hi, b + 1);
      } else {
        if b < a { MultipleDown(lo, a, b + 1); }
        MultipleNext(lo, b);
        var next := lo + Pow2(b);
        ChopStep(lo, hi, b);
        if b + 1 <= bits - 1 {
          ChopAscending(next, hi, b + 1, bits);
        } else {
          MultipleRoom(lo, b, bits);
          Pow2Monotone(bits - 1, b);
          assert next > hi;
        }
      }
    }
  }

  /** A range that is not a prefix takes at most 2 * bits - 2 of them. */
  lemma ChopCount(bits: nat, r: ResourceRange)
    requires RangeFits(Address(bits), r)
    ensures |Chop(r.min, r.max)| == 1 || |Chop(r.min, r.max)| <= 2 * bits - 2
  {
    if c: nat :| Block(r, c) {
      ChopBlock(r, c);
    } else {
      NotBlockBits(bits, r);
      if r.min == 0 {
        MultipleZero(bits);
        assert !Block(r, bits);
        ChopDescending(0, r.max, bits);
      } else {
        ChopAscending(r.min, r.max, 0, bits);
      }
    }
  }

  lemma NotBlockBits(bits: nat, r: ResourceRange)
    requires RangeFits(Address(bits), r) && forall c: nat :: !Block(r, c)
    ensures bits >= 2
  {
    MultipleZero(1);
    assert !Block(r, 0) && !Block(r, 1);
    assert bits == 1 ==> Pow2(bits) == 2;
    assert bits == 0 ==> Pow2(bits) == 1;
    assert Pow2(1) == 2;
  }

  /** The bound is reached: everything but the first and the last address. */
  lemma {:induction false} ChopWorst(bits: nat)
    requires bits >= 2
    ensures |Chop(1, Pow2(bits) - 2)| == 2 * bits - 2
  {
    ChopWorstUp(bits, 0, Pow2(bits) - 2);
  }

  lemma {:induction false} ChopWorstUp(bits: nat, a: nat, hi: int)
    requires bits >= 2 && a <= bits - 1 && hi == Pow2(bits) - 2
    ensures |Chop(Pow2(a), hi)| == 2 * bits - 2 - a
    decreases bits - a
  {
    if a == bits - 1 {
      MultiplePower(a, a);
      ChopFullDescent(Pow2(a), hi, a);
    } else {
      Pow2Monotone(a + 1, bits - 1);
      FirstAtPower(a, hi);
      ChopStep(Pow2(a), hi, a);
      ChopWorstUp(bits, a + 1, hi);
    }
  }

  /** At 2^a the first block is no larger than 2^a, given room for a larger one. */
  lemma FirstAtPower(a: nat, hi: int)
    requires Pow2(a + 1) <= hi + 1
    ensures FirstBits(Pow2(a), hi) == a
  {
    var lo := Pow2(a);
    var b := FirstBits(lo, hi);
    MultiplePower(a, a);
    FirstBitsLargest(lo, hi, a);
    MultipleRoom(lo, b, a + 1);
    if b > a { Pow2Monotone(a + 1, b); }
  }

  lemma FirstOfShort(lo: nat, hi: int, c: nat)
    requires c > 0 && Multiple(lo, c) && hi == lo + Pow2(c) - 2
    ensures lo <= hi && FirstBits(lo, hi) == c - 1
    ensures Multiple(lo + Pow2(c - 1), c - 1)
  {
    MultipleDown(lo, c, c - 1);
    FirstBitsLargest(lo, hi, c - 1);
    MultipleNext(lo, c - 1);
    var b := FirstBits(lo, hi);
    if b > c - 1 { Pow2Monotone(c, b); }
  }

  /** A range one short of an aligned block takes one piece for each size. */
  lemma {:induction false} ChopFullDescent(lo: nat, hi: int, c: nat)
    requires Multiple(lo, c) && hi == lo + Pow2(c) - 2
    ensures |Chop(lo, hi)| == c
    decreases c
  {
    if c > 0 {
      FirstOfShort(lo, hi, c);
      ChopStep(lo, hi, c - 1);
      ChopFullDescent(lo + Pow2(c - 1), hi, c - 1);
    }
  }

  // ----- The method's list

  /** A Python list of ranges that chop_into_prefixes appends to. */
  class RangeList {
    var items: seq<ResourceRange>

    constructor ()
      ensures items == []
    {
      items := [];
    }
  }

  /** A block in an address space is one of its prefixes. */
  lemma BlockIsPrefix(bits: nat, r: ResourceRange, c: nat)
    requires RangeFits(Address(bits), r) && Block(r, c)
    ensures c <= bits && IsPrefix(bits, r, bits - c)
  {
    if c > bits { Pow2Monotone(bits, c); }
  }

  // ----- Any logarithm

  /** The logarithm is the exact one for all counts up to top. The source computes
      it in floating point, which can miss by one for large counts; nothing below
      asks for this unless it says so. */
  ghost predicate ExactLog(log: nat -> nat, top: int) {
    forall n: nat :: 0 < n <= top ==> log(n) == FloorLog2(n)
  }

  /** The logarithm never falls short of the exact one for counts up to top. */
  ghost predicate NeverShort(log: nat -> nat, top: int) {
    forall n: nat :: 0 < n <= top ==> log(n) >= FloorLog2(n)
  }

  ghost predicate LargestAligned(lo: nat, g: nat, b: nat) {
    b <= g && Multiple(lo, b) && forall c: nat :: c <= g && Multiple(lo, c) ==> c <= b
  }

  /** Counting down from g, the first size for which the block at lo is aligned. */
  ghost function AlignedBits(lo: nat, g: nat): (b: nat)
    ensures LargestAligned(lo, g, b)
  {
    assert LargestAligned(lo, g, FitBits(lo, g));
    var b: nat :| LargestAligned(lo, g, b);
    b
  }

  /** The estimate for the range is larger than the exact logarithm. */
  predicate TooLarge(log: nat -> nat, lo: nat, hi: int)
    requires lo <= hi
  {
    log(hi - lo + 1) > FloorLog2(hi - lo + 1)
  }

  ghost function EstimatedBlock(log: nat -> nat, lo: nat, hi: int): ResourceRange
    requires lo <= hi
  {
    Range(lo, lo + Pow2(AlignedBits(lo, log(hi - lo + 1))) - 1)
  }

  /** The pieces appended before the loop ends or an estimate is too large. */
  ghost function Emitted(log: nat -> nat, lo: nat, hi: int): seq<ResourceRange>
    decreases hi - lo + 1
  {
    if hi < lo || TooLarge(log, lo, hi) then [] else
      var first := EstimatedBlock(log, lo, hi);
      [first] + Emitted(log, first.max + 1, hi)
  }

  /** The address the loop has reached by then. */
  ghost function StopsAt(log: nat -> nat, lo: nat, hi: int): nat
    decreases hi - lo + 1
  {
    if hi < lo || TooLarge(log, lo, hi) then lo
    else StopsAt(log, EstimatedBlock(log, lo, hi).max + 1, hi)
  }

  /** A block no larger than the estimate allows ends inside the range. */
  lemma EstimatedFits(log: nat -> nat, lo: nat, hi: int)
    requires lo <= hi && !TooLarge(log, lo, hi)
    ensures Block(EstimatedBlock(log, lo, hi), AlignedBits(lo, log(hi - lo + 1)))
    ensures lo == EstimatedBlock(log, lo, hi).min && EstimatedBlock(log, lo, hi).max <= hi
  {
    Log2Bounds(hi - lo + 1, AlignedBits(lo, log(hi - lo + 1)));
  }

  /** Whatever the logarithm, the pieces are aligned blocks that tile the range
      up to where the loop stops. */
  lemma {:induction false} EmittedTiles(log: nat -> nat, lo: nat, hi: int)
    requires lo <= hi + 1
    ensures AllBlocks(Emitted(log, lo, hi)) && StopsAt(log, lo, hi) <= hi + 1
    ensures Tiles(Emitted(log, lo, hi), lo, StopsAt(log, lo, hi) - 1)
    ensures StopsAt(log, lo, hi) <= hi ==> TooLarge(log, StopsAt(log, lo, hi), hi)
    decreases hi - lo + 1
  {
    if lo <= hi && !TooLarge(log, lo, hi) {
      EstimatedFits(log, lo, hi);
      var first := EstimatedBlock(log, lo, hi);
      EmittedTiles(log, first.max + 1, hi);
      ConsBlocks(first, Emitted(log, first.max + 1, hi));
    }
  }

  /** With an exact estimate the block is the largest that fits. */
  lemma ExactBlock(log: nat -> nat, lo: nat, hi: int)
    requires lo <= hi && NeverShort(log, hi - lo + 1) && !TooLarge(log, lo, hi)
    ensures EstimatedBlock(log, lo, hi) == FirstBlock(lo, hi)
  {
    var n := hi - lo + 1;
    var b, c := AlignedBits(lo, log(n)), FirstBits(lo, hi);
    Log2Bounds(n, b);
    Log2Bounds(n, c);
    FirstBitsLargest(lo, hi, b);
  }

  /** One iteration of the outer loop, or none. */
  lemma EmittedStep(log: nat -> nat, lo: nat, hi: int)
    ensures if hi < lo || TooLarge(log, lo, hi) then Emitted(log, lo, hi) == [] && StopsAt(log, lo, hi) == lo
      else var first := EstimatedBlock(log, lo, hi);
        && Emitted(log, lo, hi) == [first] + Emitted(log, first.max + 1, hi)
        && StopsAt(log, lo, hi) == StopsAt(log, first.max + 1, hi)
  {
  }

  lemma ChopFirst(lo: nat, hi: int)
    requires lo <= hi
    ensures Chop(lo, hi) == [FirstBlock(lo, hi)] + Chop(FirstBlock(lo, hi).max + 1, hi)
  {
  }

  /** A logarithm that never falls short goes astray only by stopping: what it has
      emitted is the start of the greedy decomposition. */
  lemma {:induction false} EmittedStartsChop(log: nat -> nat, lo: nat, hi: int)
    requires lo <= hi + 1 && NeverShort(log, hi - lo + 1)
    ensures Chop(lo, hi) == Emitted(log, lo, hi) + Chop(StopsAt(log, lo, hi), hi)
    decreases hi - lo + 1
  {
    hide Emitted, StopsAt, Chop, TooLarge, FirstBlock, EstimatedBlock;
    EmittedStep(log, lo, hi);
    if lo <= hi && !TooLarge(log, lo, hi) {
      var next := EstimatedBlock(log, lo, hi).max + 1;
      ExactBlock(log, lo, hi);
      EstimatedFits(log, lo, hi);
      ChopFirst(lo, hi);
      EmittedStartsChop(log, next, hi);
      CatAssoc([FirstBlock(lo, hi)], Emitted(log, next, hi), Chop(StopsAt(log, next, hi), hi));
    }
  }

  /** The exact logarithm is never too large. */
  lemma {:induction false} ExactNeverStops(log: nat -> nat, lo: nat, hi: int)
    requires lo <= hi + 1 && ExactLog(log, hi - lo + 1)
    ensures StopsAt(log, lo, hi) == hi + 1
  {
    EmittedTiles(log, lo, hi);
    TilesMeaning(Emitted(log, lo, hi), lo, StopsAt(log, lo, hi) - 1);
  }

  /** The estimate for what is left from piece k of the greedy decomposition on is
      larger than the exact logarithm. */
  ghost predicate PieceTooLarge(log: nat -> nat, lo: nat, hi: int, k: int) {
    0 <= k < |Chop(lo, hi)| && lo <= Chop(lo, hi)[k].min <= hi && TooLarge(log, Chop(lo, hi)[k].min, hi)
  }

  ghost predicate FirstTooLarge(log: nat -> nat, lo: nat, hi: int, k: int) {
    PieceTooLarge(log, lo, hi, k) && forall j :: 0 <= j < k ==> !PieceTooLarge(log, lo, hi, j)
  }

  /** No piece is appended on an estimate that is too large. */
  lemma {:induction false} EmittedOnGoodEstimates(log: nat -> nat, lo: nat, hi: int, k: nat)
    requires lo <= hi + 1 && k < |Emitted(log, lo, hi)|
    ensures lo <= Emitted(log, lo, hi)[k].min <= hi && !TooLarge(log, Emitted(log, lo, hi)[k].min, hi)
    decreases hi - lo + 1
  {
    hide StopsAt, TooLarge, EstimatedBlock;
    if lo <= hi && !TooLarge(log, lo, hi) && k > 0 {
      EstimatedFits(log, lo, hi);
      EmittedOnGoodEstimates(log, EstimatedBlock(log, lo, hi).max + 1, hi, k - 1);
    } else if lo <= hi && !TooLarge(log, lo, hi) {
      EstimatedFits(log, lo, hi);
    }
  }

  /** A logarithm that never falls short stops the loop exactly when its estimate
      is too large at some piece of the greedy decomposition, and at the first
      such piece. */
  lemma StopsExact(log: nat -> nat, lo: nat, hi: int)
    requires lo <= hi + 1 && NeverShort(log, hi - lo + 1)
    ensures StopsAt(log, lo, hi) <= hi <==> exists k :: PieceTooLarge(log, lo, hi, k)
    ensures forall k :: FirstTooLarge(log, lo, hi, k) ==>
      StopsAt(log, lo, hi) == Chop(lo, hi)[k].min && Emitted(log, lo, hi) == Chop(lo, hi)[..k]
    ensures StopsAt(log, lo, hi) <= hi ==> FirstTooLarge(log, lo, hi, |Emitted(log, lo, hi)|)
  {
    hide Emitted, StopsAt, Chop, TooLarge, FirstBlock, AllBlocks;
    var pieces, at := Emitted(log, lo, hi), StopsAt(log, lo, hi);
    EmittedTiles(log, lo, hi);
    TilesMeaning(pieces, lo, at - 1);
    EmittedStartsChop(log, lo, hi);
    forall j | 0 <= j < |pieces| ensures !PieceTooLarge(log, lo, hi, j) {
      EmittedOnGoodEstimates(log, lo, hi, j);
    }
    if at <= hi {
      ChopFirst(at, hi);
      assert FirstBlock(at, hi).min == at by { FirstStarts(at, hi); }
      assert PieceTooLarge(log, lo, hi, |pieces|);
    } else {
      ChopDone(at, hi);
    }
  }

  lemma ExactNeverTooLarge(log: nat -> nat, lo: nat, hi: int)
    requires lo <= hi && ExactLog(log, hi - lo + 1)
    ensures forall k :: !PieceTooLarge(log, lo, hi, k)
  {
  }

  lemma FirstStarts(lo: nat, hi: int)
    requires lo <= hi
    ensures FirstBlock(lo, hi).min == lo
  {
  }

  lemma ChopDone(lo: nat, hi: int)
    requires hi < lo
    ensures Chop(lo, hi) == []
  {
  }

  /** What chop_into_prefixes appends. */
  ghost function Output(log: nat -> nat, bits: nat, r: ResourceRange): seq<ResourceRange>
    requires RangeFits(Address(bits), r)
  {
    if SomePrefix(bits, r) then [r] else Emitted(log, r.min, r.max)
  }

  /** The exception of the first mask: beyond the address space if adding it
      overflows, else that of the assertion. */
  ghost function MaskError(log: nat -> nat, bits: nat, at: nat, hi: nat): Error
    requires at <= hi
  {
    if at + Pow2(log(hi - at + 1)) - 1 < Pow2(bits) then AssertionError else OverflowError
  }

  /** Whether chop_into_prefixes returns: on a prefix always; else it raises at the
      first estimate that is too large, or at the end of the address space. */
  ghost function ChopOutcome(log: nat -> nat, bits: nat, r: ResourceRange): Outcome<()>
    requires RangeFits(Address(bits), r)
  {
    var at := StopsAt(log, r.min, r.max);
    if SomePrefix(bits, r) then Returned(())
    else if at <= r.max then Raised(MaskError(log, bits, at, r.max))
    else if r.max + 1 < Pow2(bits) then Returned(())
    else Raised(OverflowError)
  }

  /** Whatever the logarithm: if chop_into_prefixes returns, or raises only at the
      end of the address space, it has appended prefixes that partition exactly
      the given range, in ascending order. */
  lemma OutputMeaning(log: nat -> nat, bits: nat, r: ResourceRange)
    requires RangeFits(Address(bits), r)
    requires SomePrefix(bits, r) || StopsAt(log, r.min, r.max) > r.max
    ensures var pieces := Output(log, bits, r);
      && Tiles(pieces, r.min, r.max) && Separated(pieces) && AllFit(Address(bits), pieces)
      && Points(pieces) == Points([r])
      && (forall k :: 0 <= k < |pieces| ==> SomePrefix(bits, pieces[k]))
  {
    if SomePrefix(bits, r) {
      assert [r][1..] == [];
    } else {
      EmittedTiles(log, r.min, r.max);
      TiledMeaning(bits, r, Emitted(log, r.min, r.max));
    }
  }

  /** With a logarithm that never falls short, a range that is no prefix makes it
      raise exactly when the estimate is too large at a piece of the greedy
      decomposition or the range ends at the all-ones address. The first estimate
      that is too large decides what has been appended and what is raised. */
  lemma ChopRaisesExactly(log: nat -> nat, bits: nat, r: ResourceRange)
    requires RangeFits(Address(bits), r) && NeverShort(log, r.max - r.min + 1)
    ensures ChopOutcome(log, bits, r).Raised? <==>
      !SomePrefix(bits, r) && (r.max == Pow2(bits) - 1 || exists k :: PieceTooLarge(log, r.min, r.max, k))
    ensures forall k :: !SomePrefix(bits, r) && FirstTooLarge(log, r.min, r.max, k) ==>
      && Output(log, bits, r) == Chop(r.min, r.max)[..k]
      && ChopOutcome(log, bits, r) == Raised(MaskError(log, bits, Chop(r.min, r.max)[k].min, r.max))
    ensures SomePrefix(bits, r) || (forall k :: !PieceTooLarge(log, r.min, r.max, k)) ==>
      Output(log, bits, r) == Chop(r.min, r.max)
  {
    hide Chop, Emitted, StopsAt, MaskError, TooLarge;
    if p: nat :| IsPrefix(bits, r, p) { ChopBlock(r, bits - p); }
    StopsExact(log, r.min, r.max);
    EmittedStartsChop(log, r.min, r.max);
    if StopsAt(log, r.min, r.max) > r.max { ChopDone(StopsAt(log, r.min, r.max), r.max); }
  }

  /** Unless such a logarithm stops it, it appends the greedy decomposition. */
  lemma OutputGreedy(log: nat -> nat, bits: nat, r: ResourceRange)
    requires RangeFits(Address(bits), r) && NeverShort(log, r.max - r.min + 1)
    requires SomePrefix(bits, r) || StopsAt(log, r.min, r.max) > r.max
    ensures Output(log, bits, r) == Chop(r.min, r.max)
  {
    StopsExact(log, r.min, r.max);
    ChopRaisesExactly(log, bits, r);
  }

  /** With the exact logarithm it appends the greedy decomposition, and raises
      exactly on a range that is no prefix and ends at the all-ones address. */
  lemma OutputExact(log: nat -> nat, bits: nat, r: ResourceRange)
    requires RangeFits(Address(bits), r) && ExactLog(log, r.max - r.min + 1)
    ensures Output(log, bits, r) == Chop(r.min, r.max)
    ensures ChopOutcome(log, bits, r) ==
      if SomePrefix(bits, r) || r.max + 1 < Pow2(bits) then Returned(()) else Raised(OverflowError)
  {
    ExactNeverStops(log, r.min, r.max);
    OutputGreedy(log, bits, r);
  }

  // ----- The method

  /** The inner loop of chop_into_prefixes, from an estimate of the logarithm. Its
      assertion on the mask fails, or the addition before it overflows, exactly
      when the estimate is larger than the exact logarithm; the other one never
      fails. */
  method FirstPiece(bits: nat, lo: nat, hi: nat, estimate: nat) returns (out: Outcome<nat>)
    requires lo <= hi < Pow2(bits)
    ensures out.Returned? <==> estimate <= FloorLog2(hi - lo + 1)
    ensures out.Returned? ==> out.value == AlignedBits(lo, estimate)
    ensures out.Raised? ==>
      out.error == if lo + Pow2(estimate) - 1 < Pow2(bits) then AssertionError else OverflowError
  {
    var b: nat := estimate;
    Log2Bounds(hi - lo + 1, b);
    while true
      invariant b <= estimate && (b == estimate || Pow2(estimate) <= hi - lo + 1)
      invariant forall c: nat :: b < c <= estimate ==> !Multiple(lo, c)
      decreases b
    {
      var mask := Pow2(b) - 1;
      Pow2Monotone(b, estimate);
      if !Fits(Address(bits), lo + mask) { return Raised(OverflowError); }
      if !(lo + mask <= hi) { return Raised(AssertionError); }
      AndLowMask(lo, b);
      MultipleMeaning(lo, b);
      if And(lo, mask) == 0 { break; }
      assert b > 0;
      b := b - 1;
    }
    out := Returned(b);
  }

  /** The piece the outer loop appends. */
  method NextPiece(bits: nat, lo: nat, hi: nat, log: nat -> nat) returns (out: Outcome<ResourceRange>)
    requires lo <= hi < Pow2(bits) && hi - lo + 1 < Pow2(bits)
    ensures out == if TooLarge(log, lo, hi) then Raised(MaskError(log, bits, lo, hi))
                   else Returned(EstimatedBlock(log, lo, hi))
  {
    var n := Checked(Address(bits), Checked(Address(bits), hi - lo) + 1);
    var b := FirstPiece(bits, lo, hi, log(n));
    if b.Raised? { return Raised(b.error); }
    EstimatedFits(log, lo, hi);
    if b.value > bits { Pow2Monotone(bits, b.value); }
    AndLowMask(lo, b.value);
    MultipleMeaning(lo, b.value);
    out := Returned(MakePrefix(bits, lo, bits - b.value));
  }

  /** resource_range_ip.chop_into_prefixes, with whatever logarithm. When it raises
      at the end of the address space the whole decomposition has been appended. */
  method ChopIntoPrefixes(bits: nat, r: ResourceRange, log: nat -> nat, result: RangeList)
    returns (out: Outcome<()>)
    requires RangeFits(Address(bits), r)
    modifies result
    ensures result.items == old(result.items) + Output(log, bits, r)
    ensures out == ChopOutcome(log, bits, r)
  {
    var len := PrefixLength(bits, r);
    if len.Returned? {
      result.items := result.items + [r];
      return Returned(());
    }
    NotWhole(bits, r);
    out := ChopLoop(bits, r, log, result);
  }

  /** Its outer loop. */
  method ChopLoop(bits: nat, r: ResourceRange, log: nat -> nat, result: RangeList) returns (out: Outcome<()>)
    requires RangeFits(Address(bits), r) && !SomePrefix(bits, r) && r.max - r.min + 1 < Pow2(bits)
    modifies result
    ensures result.items == old(result.items) + Emitted(log, r.min, r.max)
    ensures out == ChopOutcome(log, bits, r)
  {
    hide Emitted, StopsAt, EstimatedBlock, TooLarge, MaskError;
    var rangeMin: nat, rangeMax: nat := r.min, r.max;
    ghost var whole := result.items + Emitted(log, r.min, r.max);
    while rangeMax >= rangeMin
      invariant r.min <= rangeMin <= rangeMax + 1 && rangeMax == r.max && rangeMin < Pow2(bits)
      invariant result.items + Emitted(log, rangeMin, rangeMax) == whole
      invariant StopsAt(log, rangeMin, rangeMax) == StopsAt(log, r.min, r.max)
      decreases rangeMax + 1 - rangeMin
    {
      EmittedStep(log, rangeMin, rangeMax);
      var piece := NextPiece(bits, rangeMin, rangeMax, log);
      if piece.Raised? { return Raised(piece.error); }
      EstimatedFits(log, rangeMin, rangeMax);
      CatAssoc(result.items, [piece.value], Emitted(log, piece.value.max + 1, rangeMax));
      result.items := result.items + [piece.value];
      // rangeMin + mask is the last address of the piece
      var next := Checked(Address(bits), piece.value.max) + 1;
      if !Fits(Address(bits), next) {
        EmittedStep(log, next, rangeMax);
        return Raised(OverflowError);
      }
      rangeMin := next;
    }
    EmittedStep(log, rangeMin, rangeMax);
    out := Returned(());
  }

  /** With the exact logarithm everything but the first address makes
      chop_into_prefixes raise. */
  lemma ChopRaises(log: nat -> nat, bits: nat, r: ResourceRange)
    requires bits >= 2 && r == Range(1, Pow2(bits) - 1) && ExactLog(log, Pow2(bits) - 1)
    ensures RangeFits(Address(bits), r) && ChopOutcome(log, bits, r) == Raised(OverflowError)
  {
    Pow2Monotone(2, bits);
    forall p: nat ensures !IsPrefix(bits, r, p) { }
    OutputExact(log, bits, r);
  }

  /** The range from 1 to 2^k - 1 fails the assertion if the logarithm of its
      length is rounded up. In double precision that happens for k == 48. */
  lemma RoundingUpRaises(log: nat -> nat, bits: nat, k: nat, r: ResourceRange)
    requires 2 <= k < bits && r == Range(1, Pow2(k) - 1) && log(Pow2(k) - 1) == k
    ensures RangeFits(Address(bits), r) && ChopOutcome(log, bits, r) == Raised(AssertionError)
  {
    Pow2Monotone(2, k);
    Pow2Monotone(k, bits);
    Pow2Monotone(k + 1, bits);
    forall p: nat ensures !IsPrefix(bits, r, p) { }
    Log2Bounds(Pow2(k) - 1, k);
    EmittedStep(log, r.min, r.max);
  }

  /** The whole address space is a prefix. */
  lemma NotWhole(bits: nat, r: ResourceRange)
    requires RangeFits(Address(bits), r) && !SomePrefix(bits, r)
    ensures r.max - r.min + 1 < Pow2(bits)
  {
    MultipleZero(bits);
    assert !IsPrefix(bits, r, 0);
  }
}
