/** roa_prefix, roa_prefix_set and the conversions between prefix sets and
    resource sets. */
module RoaPrefixes {
  import opened Bits
  import opened Ranges
  import opened Sorting
  import opened Canonizing
  import opened SetAlgebra
  import opened SetOperations
  import opened ResourceSets
  import opened Prefixes

  datatype RawRoaPrefix = RoaPrefix(prefix: nat, prefixlen: nat, maxPrefixlen: nat)

  /** A prefix whose constructor assertion holds. */
  type RoaPrefix = p: RawRoaPrefix | p.prefixlen <= p.maxPrefixlen witness RoaPrefix(0, 0, 0)

  /** What the assertions of make_prefix ask of a prefix. */
  predicate WellFormed(bits: nat, p: RoaPrefix) {
    p.prefix < Pow2(bits) && p.prefixlen <= bits && And(p.prefix, Pow2(bits - p.prefixlen) - 1) == 0
  }

  predicate AllWellFormed(bits: nat, ps: seq<RoaPrefix>) {
    forall p :: p in ps ==> WellFormed(bits, p)
  }

  /** cmp(a, b) <= 0: by prefix, then prefixlen, then max_prefixlen. */
  predicate PrefixBefore(a: RoaPrefix, b: RoaPrefix) {
    a.prefix < b.prefix || (a.prefix == b.prefix &&
      (a.prefixlen < b.prefixlen || (a.prefixlen == b.prefixlen && a.maxPrefixlen <= b.maxPrefixlen)))
  }

  /** The order that the stack of check_roa is sorted in as well: by first address,
      then shorter prefixes (larger ranges) first. */
  predicate LeastSpecificFirst(a: ResourceRange, b: ResourceRange) {
    a.min < b.min || (a.min == b.min && a.max >= b.max)
  }

  function ToResourceRange(bits: nat, p: RoaPrefix): (r: ResourceRange)
    requires WellFormed(bits, p)
    ensures r.min == p.prefix && r.max == p.prefix + Pow2(bits - p.prefixlen) - 1
    ensures IsPrefix(bits, r, p.prefixlen) && RangeFits(Address(bits), r)
  {
    MakePrefix(bits, p.prefix, p.prefixlen)
  }

  /** The ranges of a list of prefixes, in the list's order. */
  ghost function RangesOf(bits: nat, ps: seq<RoaPrefix>): (rs: seq<ResourceRange>)
    requires AllWellFormed(bits, ps)
    ensures |rs| == |ps| && forall i :: 0 <= i < |ps| ==> ps[i] in ps && rs[i] == ToResourceRange(bits, ps[i])
    ensures AllFit(Address(bits), rs)
  {
    seq(|ps|, i requires 0 <= i < |ps| => assert ps[i] in ps; ToResourceRange(bits, ps[i]))
  }

  /** The addresses of a list of prefixes. */
  ghost function Addresses(bits: nat, ps: seq<RoaPrefix>): iset<int>
    requires AllWellFormed(bits, ps)
  {
    Points(RangesOf(bits, ps))
  }

  class RoaPrefixSet {
    const bits: nat
    var prefixes: seq<RoaPrefix>

    constructor (bits: nat, ini: seq<RoaPrefix>)
      ensures this.bits == bits && prefixes == Sort(PrefixBefore, ini)
      ensures SortedBy(PrefixBefore, prefixes) && multiset(prefixes) == multiset(ini)
      ensures forall i, j :: 0 <= i < j < |prefixes| ==>
        var p, q := prefixes[i], prefixes[j];
        && p.prefix <= q.prefix && (p.prefix == q.prefix ==> p.prefixlen <= q.prefixlen)
        && (p.prefix == q.prefix && p.prefixlen == q.prefixlen ==> p.maxPrefixlen <= q.maxPrefixlen)
    {
      this.bits := bits;
      prefixes := Sort(PrefixBefore, ini);
      PrefixBeforeIsTotal();
      SortSorted(PrefixBefore, ini);
      SortedKeys(Sort(PrefixBefore, ini));
    }

    /** Converts to a resource set by uniting the prefixes one after the other.
        On a list in the constructor's order it never raises; on any other it
        raises exactly when some prefix straddles the ones before it. */
    method ToResourceSet() returns (out: Outcome<ResourceSet>)
      requires AllWellFormed(bits, prefixes)
      ensures match out
        case Raised(e) => UniteAll(Address(bits), [], RangesOf(bits, prefixes)) == Raised(e)
        case Returned(r) =>
          && fresh(r) && r.IsResult(Address(bits))
          && UniteAll(Address(bits), [], RangesOf(bits, prefixes)) == Returned(r.ranges)
      ensures out.Raised? <==> SomeStraddles(RangesOf(bits, prefixes))
      ensures out.Raised? ==> out.error == ResourceOverlap
      ensures out.Returned? ==> Points(out.value.ranges) == Addresses(bits, prefixes)
      ensures SortedBy(PrefixBefore, prefixes) ==> out.Returned?
    {
      UniteAllExact(Address(bits), RangesOf(bits, prefixes));
      if SortedBy(PrefixBefore, prefixes) {
        SortedPrefixesByMin(bits, prefixes);
        UniteAllMeaning(Address(bits), [], RangesOf(bits, prefixes));
      }
      out := UniteInOrder();
    }

    /** The loop of to_resource_set, over the list as it stands. */
    method UniteInOrder() returns (out: Outcome<ResourceSet>)
      requires AllWellFormed(bits, prefixes)
      ensures match out
        case Raised(e) => UniteAll(Address(bits), [], RangesOf(bits, prefixes)) == Raised(e)
        case Returned(r) =>
          && fresh(r) && r.IsResult(Address(bits))
          && UniteAll(Address(bits), [], RangesOf(bits, prefixes)) == Returned(r.ranges)
    {
      ghost var rs := RangesOf(bits, prefixes);
      UniteFromEnds(Address(bits), rs);
      var r := NoAddresses(bits);
      var s := new ResourceSet.Empty(Address(bits));
      for i := 0 to |prefixes|
        invariant fresh(r) && fresh(s) && r.IsResult(Address(bits))
        invariant !s.canonical && !s.inherit && s.family == Address(bits)
        invariant UniteFrom(Address(bits), [], rs, 0) == UniteFrom(Address(bits), r.ranges, rs, i)
      {
        UniteAllStep(Address(bits), r.ranges, rs, i);
        var u := UniteOne(r, s, prefixes[i]);
        if u.Raised? { return Raised(u.error); }
        r := u.value;
      }
      out := Returned(r);
    }

    /** The empty set that the fold starts from. */
    static method NoAddresses(bits: nat) returns (r: ResourceSet)
      ensures fresh(r) && r.IsResult(Address(bits)) && r.ranges == []
    {
      MakeCanonical(Address(bits), false, []);
      var empty := ResourceSet.Build(Address(bits), []);
      r := empty.value;
    }

    /** Puts the prefix's range into the one-range set and unites the two. */
    method UniteOne(r: ResourceSet, s: ResourceSet, p: RoaPrefix) returns (u: Outcome<ResourceSet>)
      requires WellFormed(bits, p) && r.IsResult(Address(bits))
      requires !s.canonical && !s.inherit && s.family == Address(bits) && r != s
      modifies s`ranges
      ensures match u
        case Raised(e) => UnionOf(Address(bits), r.ranges, [ToResourceRange(bits, p)]) == Raised(e)
        case Returned(v) =>
          && fresh(v) && v.IsResult(Address(bits))
          && UnionOf(Address(bits), r.ranges, [ToResourceRange(bits, p)]) == Returned(v.ranges)
    {
      s.ranges := [ToResourceRange(bits, p)];
      u := r.Union(s);
    }
  }

  ghost function UniteFrom(f: Family, acc: seq<ResourceRange>, rs: seq<ResourceRange>, i: nat)
    : Outcome<seq<ResourceRange>>
    requires i <= |rs|
  {
    UniteAll(f, acc, rs[i..])
  }

  lemma UniteFromEnds(f: Family, rs: seq<ResourceRange>)
    ensures UniteFrom(f, [], rs, 0) == UniteAll(f, [], rs)
    ensures forall acc :: UniteFrom(f, acc, rs, |rs|) == Returned(acc)
  {
    assert rs[0..] == rs;
  }

  lemma UniteAllStep(f: Family, acc: seq<ResourceRange>, rs: seq<ResourceRange>, i: nat)
    requires i < |rs|
    ensures UniteFrom(f, acc, rs, i) ==
      match UnionOf(f, acc, [rs[i]])
      case Raised(e) => Raised(e)
      case Returned(u) => UniteFrom(f, u, rs, i + 1)
  {
    assert rs[i..][0] == rs[i] && rs[i..][1..] == rs[i + 1..];
  }

  /** What the loop of to_resource_set makes of the prefixes still to come. */
  ghost function UniteAll(f: Family, acc: seq<ResourceRange>, rs: seq<ResourceRange>): Outcome<seq<ResourceRange>>
    decreases |rs|
  {
    if rs == [] then Returned(acc)
    else match UnionOf(f, acc, [rs[0]])
      case Raised(e) => Raised(e)
      case Returned(u) => UniteAll(f, u, rs[1..])
  }

  lemma GapBefore(rs: seq<ResourceRange>, k: nat)
    requires Canonical(rs) && k < |rs|
    ensures !Has(rs, rs[k].min - 1)
  {
  }

  /** A range that starts no earlier than the last range of a canonical list
      can meet no other range of it. */
  lemma NoClashAtEnd(acc: seq<ResourceRange>, s: ResourceRange)
    requires Canonical(acc) && (acc != [] ==> acc[|acc| - 1].min <= s.min)
    ensures !Clash([s], acc) && !Clash(acc, [s])
  {
    forall j | 0 <= j < |acc| - 1 ensures !Meet(s, acc[j]) { LastStartsAfter(acc, j); }
  }

  /** So the two can be united, and the result's last range starts no later. */
  lemma UniteAtEnd(f: Family, acc: seq<ResourceRange>, s: ResourceRange)
    requires AllFit(f, acc) && Canonical(acc) && RangeFits(f, s)
    requires acc != [] ==> acc[|acc| - 1].min <= s.min
    ensures UnionOf(f, acc, [s]).Returned?
    ensures var u := UnionOf(f, acc, [s]).value;
      && AllFit(f, u) && Canonical(u) && Points(u) == Points(acc) + Points([s])
      && u != [] && u[|u| - 1].min <= s.min
  {
    NoClashAtEnd(acc, s);
    UnionMeaning(f, acc, [s]);
    LastOfUnion(acc, s, UnionOf(f, acc, [s]).value);
  }

  lemma LastStartsAfter(acc: seq<ResourceRange>, j: nat)
    requires Canonical(acc) && j < |acc| - 1
    ensures acc[j].max + 1 < acc[|acc| - 1].min
  {
  }

  lemma LastOfUnion(acc: seq<ResourceRange>, s: ResourceRange, u: seq<ResourceRange>)
    requires Canonical(acc) && Canonical(u) && Points(u) == Points(acc) + Points([s])
    requires acc != [] ==> acc[|acc| - 1].min <= s.min
    ensures u != [] && u[|u| - 1].min <= s.min
  {
    PointsOne(s);
    assert s.min in Points(u);
    var m := |u| - 1;
    var x := u[m].min;
    GapBefore(u, m);
    assert x - 1 !in Points(u);
    assert Within(u[m], x) && x in Points(u);
    PointPastLast(acc, x);
  }

  /** A point past the start of the last range has its predecessor in the set. */
  lemma PointPastLast(acc: seq<ResourceRange>, x: int)
    requires Canonical(acc)
    ensures acc != [] && Has(acc, x) && acc[|acc| - 1].min < x ==> Has(acc, x - 1)
  {
    if acc != [] && Has(acc, x) && acc[|acc| - 1].min < x {
      var k :| 0 <= k < |acc| && Within(acc[k], x);
      assert k == |acc| - 1;
      assert Within(acc[k], x - 1);
    }
  }

  /** The canonical list of exactly the points of the two lists. */
  ghost predicate IsUnion(f: Family, a: seq<ResourceRange>, b: seq<ResourceRange>, r: Outcome<seq<ResourceRange>>) {
    r.Returned? && AllFit(f, r.value) && Canonical(r.value) && Points(r.value) == Points(a) + Points(b)
  }

  lemma UnionsCompose(f: Family, acc: seq<ResourceRange>, rs: seq<ResourceRange>, u: seq<ResourceRange>,
                      r: Outcome<seq<ResourceRange>>)
    requires rs != [] && Points(u) == Points(acc) + Points([rs[0]]) && IsUnion(f, u, rs[1..], r)
    ensures IsUnion(f, acc, rs, r)
  {
    HeadPoints(rs);
    assert Points(u) + Points(rs[1..]) == Points(acc) + Points(rs);
  }

  /** Uniting ranges in the order of their first addresses never raises, and
      gives the canonical list of exactly their points. */
  lemma {:induction false} UniteAllMeaning(f: Family, acc: seq<ResourceRange>, rs: seq<ResourceRange>)
    requires AllFit(f, rs) && SortedByMin(rs) && AllFit(f, acc) && Canonical(acc)
    requires acc != [] && rs != [] ==> acc[|acc| - 1].min <= rs[0].min
    ensures IsUnion(f, acc, rs, UniteAll(f, acc, rs))
    decreases |rs|
  {
    if rs != [] {
      assert RangeFits(f, rs[0]);
      UniteAtEnd(f, acc, rs[0]);
      var u := UnionOf(f, acc, [rs[0]]).value;
      MinTail(rs);
      UniteAllMeaning(f, u, rs[1..]);
      UnionsCompose(f, acc, rs, u, UniteAll(f, u, rs[1..]));
    }
  }

  lemma MinTail(rs: seq<ResourceRange>)
    requires SortedByMin(rs) && rs != []
    ensures SortedByMin(rs[1..]) && (|rs| > 1 ==> rs[0].min <= rs[1].min)
  {
  }

  lemma PrefixBeforeIsTotal()
    ensures TotalOrder(PrefixBefore)
  {
  }

  lemma SortedKeys(ps: seq<RoaPrefix>)
    requires SortedBy(PrefixBefore, ps)
    ensures forall i, j :: 0 <= i < j < |ps| ==>
      var p, q := ps[i], ps[j];
      && p.prefix <= q.prefix && (p.prefix == q.prefix ==> p.prefixlen <= q.prefixlen)
      && (p.prefix == q.prefix && p.prefixlen == q.prefixlen ==> p.maxPrefixlen <= q.maxPrefixlen)
  {
    forall i, j | 0 <= i < j < |ps|
      ensures var p, q := ps[i], ps[j];
        && p.prefix <= q.prefix && (p.prefix == q.prefix ==> p.prefixlen <= q.prefixlen)
        && (p.prefix == q.prefix && p.prefixlen == q.prefixlen ==> p.maxPrefixlen <= q.maxPrefixlen) {
      assert PrefixBefore(ps[i], ps[j]);
    }
  }

  /** The constructor's order puts the least specific prefix first, as the order of
      the C code does, and among equal ranges the smaller maximum length. */
  lemma SortedRanges(bits: nat, ini: seq<RoaPrefix>)
    requires AllWellFormed(bits, ini)
    ensures var ps := Sort(PrefixBefore, ini);
      && AllWellFormed(bits, ps) && SortedBy(LeastSpecificFirst, RangesOf(bits, ps))
      && forall i, j :: 0 <= i < j < |ps| && RangesOf(bits, ps)[i] == RangesOf(bits, ps)[j] ==>
           ps[i].maxPrefixlen <= ps[j].maxPrefixlen
  {
    var ps := Sort(PrefixBefore, ini);
    PrefixBeforeIsTotal();
    SortSorted(PrefixBefore, ini);
    SortKeepsAddresses(bits, ini, ps);
    hide WellFormed, LeastSpecificFirst, ToResourceRange, Sort;
    var rs := RangesOf(bits, ps);
    forall i, j | 0 <= i < j < |rs|
      ensures LeastSpecificFirst(rs[i], rs[j]) && (rs[i] == rs[j] ==> ps[i].maxPrefixlen <= ps[j].maxPrefixlen) {
      RangesInOrder(bits, ps[i], ps[j]);
    }
  }

  lemma RangesInOrder(bits: nat, p: RoaPrefix, q: RoaPrefix)
    requires WellFormed(bits, p) && WellFormed(bits, q) && PrefixBefore(p, q)
    ensures var r, s := ToResourceRange(bits, p), ToResourceRange(bits, q);
      LeastSpecificFirst(r, s) && (r == s ==> p.maxPrefixlen <= q.maxPrefixlen)
  {
    hide ToResourceRange, IsPrefix, Pow2;
    var c, d := bits - p.prefixlen, bits - q.prefixlen;
    if d <= c { Pow2Monotone(d, c); } else { Pow2Monotone(c, d); }
  }

  lemma SortedPrefixesByMin(bits: nat, ps: seq<RoaPrefix>)
    requires AllWellFormed(bits, ps) && SortedBy(PrefixBefore, ps)
    ensures SortedByMin(RangesOf(bits, ps))
  {
    var rs := RangesOf(bits, ps);
    forall i, j | 0 <= i < j < |rs| ensures rs[i].min <= rs[j].min {
      assert PrefixBefore(ps[i], ps[j]);
    }
  }

  lemma SortKeepsAddresses(bits: nat, ps: seq<RoaPrefix>, qs: seq<RoaPrefix>)
    requires AllWellFormed(bits, ps) && multiset(ps) == multiset(qs)
    ensures AllWellFormed(bits, qs) && Addresses(bits, qs) == Addresses(bits, ps)
  {
    assert forall p :: p in qs ==> p in multiset(ps);
    assert forall p :: p in ps ==> p in multiset(qs);
    SameAddresses(bits, ps, qs);
    SameAddresses(bits, qs, ps);
  }

  lemma SameAddresses(bits: nat, ps: seq<RoaPrefix>, qs: seq<RoaPrefix>)
    requires AllWellFormed(bits, ps) && AllWellFormed(bits, qs) && forall p :: p in ps ==> p in qs
    ensures Addresses(bits, ps) <= Addresses(bits, qs)
  {
    forall x | x in Addresses(bits, ps) ensures x in Addresses(bits, qs) {
      var i :| 0 <= i < |ps| && Within(RangesOf(bits, ps)[i], x);
      assert ps[i] in qs;
      var j :| 0 <= j < |qs| && qs[j] == ps[i];
      assert Within(RangesOf(bits, qs)[j], x);
    }
  }

  /** Every prefix set that the constructor can make, nested or repeated
      prefixes and all, converts to the canonical set of its addresses. */
  lemma ToResourceSetMeaning(bits: nat, ini: seq<RoaPrefix>)
    requires AllWellFormed(bits, ini)
    ensures var ps := Sort(PrefixBefore, ini);
      && AllWellFormed(bits, ps)
      && var r := UniteAll(Address(bits), [], RangesOf(bits, ps));
         r.Returned? && AllFit(Address(bits), r.value) && Canonical(r.value) && Points(r.value) == Addresses(bits, ini)
  {
    var ps := Sort(PrefixBefore, ini);
    PrefixBeforeIsTotal();
    SortSorted(PrefixBefore, ini);
    SortKeepsAddresses(bits, ini, ps);
    SortedPrefixesByMin(bits, ps);
    UniteAllMeaning(Address(bits), [], RangesOf(bits, ps));
  }

  // ----- Any order

  ghost predicate GapInside(points: iset<int>, s: ResourceRange, x: int, y: int) {
    s.min <= x < y <= s.max && x in points && y !in points
  }

  /** The points run across the end of s, and inside s a point is followed by a
      gap: s meets two separate stretches, the later of which leaves it. */
  ghost predicate Straddles(points: iset<int>, s: ResourceRange) {
    s.max in points && s.max + 1 in points && exists x, y :: GapInside(points, s, x, y)
  }

  /** Some range straddles the ranges before it. */
  ghost predicate SomeStraddles(rs: seq<ResourceRange>) {
    exists k :: 0 <= k < |rs| && Straddles(Points(rs[..k]), rs[k])
  }

  /** A single range clashes with a canonical list exactly when it straddles it. */
  lemma ClashIsStraddle(acc: seq<ResourceRange>, s: ResourceRange)
    requires Canonical(acc)
    ensures Clash([s], acc) || Clash(acc, [s]) <==> Straddles(Points(acc), s)
  {
    if Clash([s], acc) {
      var i: nat, j: nat, k: nat :| ClashAt([s], acc, i, j, k);
      StraddleFromClash(acc, s, j, k);
    }
    if Straddles(Points(acc), s) {
      ClashFromStraddle(acc, s);
    }
  }

  lemma StraddleFromClash(acc: seq<ResourceRange>, s: ResourceRange, j: nat, k: nat)
    requires Canonical(acc) && ClashAt([s], acc, 0, j, k)
    ensures Straddles(Points(acc), s)
  {
    assert Within(acc[k], s.max) && Within(acc[k], s.max + 1);
    GapAfter(acc, j);
    var x, y := Max(s.min, acc[j].min), acc[j].max + 1;
    assert Within(acc[j], x);
    assert acc[j].max + 1 < acc[k].min;
    assert GapInside(Points(acc), s, x, y);
  }

  lemma ClashFromStraddle(acc: seq<ResourceRange>, s: ResourceRange)
    requires Canonical(acc) && Straddles(Points(acc), s)
    ensures Clash([s], acc)
  {
    hide Canonical, Clash;
    var x, y :| GapInside(Points(acc), s, x, y);
    var j :| 0 <= j < |acc| && Within(acc[j], x);
    var k :| 0 <= k < |acc| && Within(acc[k], s.max);
    GapAfter(acc, k);
    assert !Within(acc[j], y);
    assert acc[k].max > s.max by { assert Has(acc, s.max + 1) && !Has(acc, acc[k].max + 1); }
    BothMeet(acc, s, j, k, x, y);
  }

  lemma BothMeet(acc: seq<ResourceRange>, s: ResourceRange, j: nat, k: nat, x: int, y: int)
    requires Canonical(acc) && j < |acc| && k < |acc|
    requires s.min <= x < y <= s.max && Within(acc[j], x) && Within(acc[k], s.max)
    requires acc[j].max < y && acc[k].max > s.max
    ensures Clash([s], acc)
  {
    hide Clash;
    IsClash([s], acc, 0, j, k);
  }

  lemma IsClash(a: seq<ResourceRange>, b: seq<ResourceRange>, i: nat, j: nat, k: nat)
    requires ClashAt(a, b, i, j, k)
    ensures Clash(a, b)
  {
  }

  /** SomeStraddles with points already there. */
  ghost predicate StraddlesOver(points: iset<int>, rs: seq<ResourceRange>) {
    exists k :: 0 <= k < |rs| && Straddles(points + Points(rs[..k]), rs[k])
  }

  lemma StraddlesOverHead(points: iset<int>, rs: seq<ResourceRange>)
    requires rs != []
    ensures StraddlesOver(points, rs) <==> Straddles(points, rs[0]) || StraddlesOver(points + Points([rs[0]]), rs[1..])
  {
    var t := rs[1..];
    assert points + Points(rs[..0]) == points;
    forall k | 0 <= k < |t|
      ensures points + Points([rs[0]]) + Points(t[..k]) == points + Points(rs[..k + 1]) && t[k] == rs[k + 1] {
      assert rs[..k + 1] == [rs[0]] + t[..k];
      PointsCat([rs[0]], t[..k]);
    }
    if StraddlesOver(points, rs) {
      var k :| 0 <= k < |rs| && Straddles(points + Points(rs[..k]), rs[k]);
      if k > 0 { assert Straddles(points + Points([rs[0]]) + Points(t[..k - 1]), t[k - 1]); }
    }
    if StraddlesOver(points + Points([rs[0]]), t) {
      var k :| 0 <= k < |t| && Straddles(points + Points([rs[0]]) + Points(t[..k]), t[k]);
      assert Straddles(points + Points(rs[..k + 1]), rs[k + 1]);
    }
  }

  lemma {:induction false} UniteAllOver(f: Family, acc: seq<ResourceRange>, rs: seq<ResourceRange>)
    requires AllFit(f, rs) && AllFit(f, acc) && Canonical(acc)
    ensures var r := UniteAll(f, acc, rs);
      && (r.Raised? <==> StraddlesOver(Points(acc), rs))
      && (r.Raised? ==> r.error == ResourceOverlap)
      && (r.Returned? ==> IsUnion(f, acc, rs, r))
    decreases |rs|
  {
    if rs != [] {
      assert RangeFits(f, rs[0]);
      UnionMeaning(f, acc, [rs[0]]);
      ClashIsStraddle(acc, rs[0]);
      StraddlesOverHead(Points(acc), rs);
      if UnionOf(f, acc, [rs[0]]).Returned? {
        var u := UnionOf(f, acc, [rs[0]]).value;
        UniteAllOver(f, u, rs[1..]);
        if UniteAll(f, u, rs[1..]).Returned? { UnionsCompose(f, acc, rs, u, UniteAll(f, u, rs[1..])); }
      }
    }
  }

  /** In whatever order the ranges come, uniting them one after the other raises
      exactly when one of them straddles the ones before it, raises nothing but
      ResourceOverlap, and otherwise gives the canonical list of their points. */
  lemma UniteAllExact(f: Family, rs: seq<ResourceRange>)
    requires AllFit(f, rs)
    ensures var r := UniteAll(f, [], rs);
      && (r.Raised? <==> SomeStraddles(rs))
      && (r.Raised? ==> r.error == ResourceOverlap)
      && (r.Returned? ==> AllFit(f, r.value) && Canonical(r.value) && Points(r.value) == Points(rs))
  {
    UniteAllOver(f, [], rs);
    assert Points([]) == iset{};
    assert forall k :: 0 <= k < |rs| ==> iset{} + Points(rs[..k]) == Points(rs[..k]);
  }

  /** The four prefixes 0/n, 2/(n-1), 4/(n-1) and 0/(n-2) of an n-bit space. */
  function Shuffled(bits: nat): (ps: seq<RoaPrefix>)
    requires bits >= 3
    ensures |ps| == 4
  {
    [RoaPrefix(0, bits, bits), RoaPrefix(2, bits - 1, bits - 1),
     RoaPrefix(4, bits - 1, bits - 1), RoaPrefix(0, bits - 2, bits - 2)]
  }

  /** The order matters, for IPv4, IPv6 and every other width: these prefixes,
      in this order, which list methods can leave but the constructor cannot,
      make to_resource_set raise. */
  lemma UnsortedRaises(bits: nat)
    requires bits >= 3
    ensures AllWellFormed(bits, Shuffled(bits))
    ensures UniteAll(Address(bits), [], RangesOf(bits, Shuffled(bits))) == Raised(ResourceOverlap)
  {
    hide Shuffled, WellFormed, ToResourceRange, RangesOf, UniteAll, SomeStraddles, IsPrefix, Block, Pow2;
    var ps := Shuffled(bits);
    forall p | p in ps ensures WellFormed(bits, p) {
      var i :| 0 <= i < |ps| && ps[i] == p;
      ShuffledRange(bits, i);
    }
    var rs := RangesOf(bits, ps);
    ShuffledRange(bits, 0);
    ShuffledRange(bits, 1);
    ShuffledRange(bits, 2);
    ShuffledRange(bits, 3);
    ShuffledStraddles(rs);
    UniteAllExact(Address(bits), rs);
  }

  /** Each of them is well formed, with the range that is meant. */
  lemma ShuffledRange(bits: nat, i: nat)
    requires bits >= 3 && i < |Shuffled(bits)|
    ensures var p := Shuffled(bits)[i];
      WellFormed(bits, p) && ToResourceRange(bits, p) == [Range(0, 0), Range(2, 3), Range(4, 5), Range(0, 3)][i]
  {
    hide ToResourceRange;
    var p := Shuffled(bits)[i];
    var c := bits - p.prefixlen;
    assert c == 0 || c == 1 || c == 2;
    Pow2Monotone(3, bits);
    AndLowMask(p.prefix, c);
    RangeOfPrefix(bits, p, c, if c == 0 then 1 else 2 * c);
  }

  lemma RangeOfPrefix(bits: nat, p: RoaPrefix, c: nat, size: nat)
    requires WellFormed(bits, p) && p.prefixlen == bits - c && c <= 2
    requires size == if c == 0 then 1 else 2 * c
    ensures ToResourceRange(bits, p) == Range(p.prefix, p.prefix + size - 1)
  {
    hide WellFormed, ToResourceRange;
    assert Pow2(c) == size by { assert c == 0 || c == 1 || c == 2; }
  }

  lemma ShuffledStraddles(rs: seq<ResourceRange>)
    requires |rs| == 4 && rs[0] == Range(0, 0) && rs[1] == Range(2, 3) && rs[2] == Range(4, 5) && rs[3] == Range(0, 3)
    ensures SomeStraddles(rs)
  {
    var t := rs[..3];
    assert Within(t[0], 0) && Within(t[1], 3) && Within(t[2], 4);
    assert GapInside(Points(t), rs[3], 0, 1);
  }

  // ----- to_roa_prefix_set

  ghost predicate AllPrefixes(bits: nat, rs: seq<ResourceRange>) {
    AllFit(Address(bits), rs) && forall k :: 0 <= k < |rs| ==> SomePrefix(bits, rs[k])
  }

  /** The prefixes of all ranges, each range in turn. */
  ghost function Pieces(log: nat -> nat, bits: nat, rs: seq<ResourceRange>): (ps: seq<ResourceRange>)
    requires AllFit(Address(bits), rs)
  {
    if rs == [] then []
    else
      assert RangeFits(Address(bits), rs[0]);
      Output(log, bits, rs[0]) + Pieces(log, bits, rs[1..])
  }

  /** chop_into_prefixes raises on range k. */
  ghost predicate UnchoppableAt(log: nat -> nat, bits: nat, rs: seq<ResourceRange>, k: int) {
    0 <= k < |rs| && RangeFits(Address(bits), rs[k]) && ChopOutcome(log, bits, rs[k]).Raised?
  }

  ghost predicate Unchoppable(log: nat -> nat, bits: nat, rs: seq<ResourceRange>) {
    exists k :: UnchoppableAt(log, bits, rs, k)
  }

  /** No estimate of the logarithm stops the decomposition of a range. */
  ghost predicate Complete(log: nat -> nat, bits: nat, rs: seq<ResourceRange>)
    requires AllFit(Address(bits), rs)
  {
    forall k :: 0 <= k < |rs| ==> CompleteOn(log, bits, rs[k])
  }

  ghost predicate CompleteOn(log: nat -> nat, bits: nat, r: ResourceRange) {
    RangeFits(Address(bits), r) && (SomePrefix(bits, r) || StopsAt(log, r.min, r.max) > r.max)
  }

  lemma CompleteWhen(log: nat -> nat, bits: nat, rs: seq<ResourceRange>)
    requires AllFit(Address(bits), rs)
    ensures ExactLog(log, Pow2(bits)) || !Unchoppable(log, bits, rs) ==> Complete(log, bits, rs)
  {
    if ExactLog(log, Pow2(bits)) || !Unchoppable(log, bits, rs) {
      forall k | 0 <= k < |rs| ensures CompleteOn(log, bits, rs[k]) {
        assert RangeFits(Address(bits), rs[k]);
        if ExactLog(log, Pow2(bits)) { ExactNeverStops(log, rs[k].min, rs[k].max); } else {
          assert !UnchoppableAt(log, bits, rs, k);
        }
      }
    }
  }

  /** The pieces are prefixes, with exactly the points of the ranges. */
  lemma {:induction false} PiecesMeaning(log: nat -> nat, bits: nat, rs: seq<ResourceRange>)
    requires AllFit(Address(bits), rs) && Complete(log, bits, rs)
    ensures AllPrefixes(bits, Pieces(log, bits, rs)) && Points(Pieces(log, bits, rs)) == Points(rs)
  {
    if rs != [] {
      assert CompleteOn(log, bits, rs[0]);
      OutputMeaning(log, bits, rs[0]);
      PiecesMeaning(log, bits, rs[1..]);
      PointsCat(Output(log, bits, rs[0]), Pieces(log, bits, rs[1..]));
      HeadPoints(rs);
    }
  }

  lemma {:induction false} PiecesCat(log: nat -> nat, bits: nat, a: seq<ResourceRange>, b: seq<ResourceRange>)
    requires AllFit(Address(bits), a) && AllFit(Address(bits), b)
    ensures AllFit(Address(bits), a + b)
    ensures Pieces(log, bits, a + b) == Pieces(log, bits, a) + Pieces(log, bits, b)
  {
    if a == [] {
      assert a + b == b;
    } else {
      assert (a + b)[1..] == a[1..] + b;
      PiecesCat(log, bits, a[1..], b);
    }
  }

  /** The roa_prefix of a range that is a prefix. */
  ghost function Labelled(bits: nat, r: ResourceRange): (p: RoaPrefix)
    requires RangeFits(Address(bits), r) && SomePrefix(bits, r)
    ensures WellFormed(bits, p) && ToResourceRange(bits, p) == r && p.maxPrefixlen == p.prefixlen
  {
    PrefixLenRange(bits, r);
    var n := PrefixLen(bits, r).value;
    PrefixInverse(bits, r, n);
    RoaPrefix(r.min, n, n)
  }

  ghost function LabelAll(bits: nat, rs: seq<ResourceRange>): (ps: seq<RoaPrefix>)
    requires AllPrefixes(bits, rs)
    ensures AllWellFormed(bits, ps) && RangesOf(bits, ps) == rs
    ensures forall p :: p in ps ==> p.maxPrefixlen == p.prefixlen
  {
    var ps := seq(|rs|, i requires 0 <= i < |rs| => assert RangeFits(Address(bits), rs[i]); Labelled(bits, rs[i]));
    LabelsMeaning(bits, rs, ps);
    ps
  }

  lemma LabelsMeaning(bits: nat, rs: seq<ResourceRange>, ps: seq<RoaPrefix>)
    requires |ps| == |rs| && forall i :: 0 <= i < |ps| ==>
      WellFormed(bits, ps[i]) && ToResourceRange(bits, ps[i]) == rs[i] && ps[i].maxPrefixlen == ps[i].prefixlen
    ensures AllWellFormed(bits, ps) && RangesOf(bits, ps) == rs
    ensures forall p :: p in ps ==> p.maxPrefixlen == p.prefixlen
  {
    hide WellFormed, ToResourceRange, IsPrefix, Pow2;
    forall p | p in ps ensures WellFormed(bits, p) && p.maxPrefixlen == p.prefixlen {
      var i :| 0 <= i < |ps| && ps[i] == p;
    }
    assert RangesOf(bits, ps) == rs;
  }

  /** The sorted prefix list of the ranges. */
  ghost function PrefixListOf(log: nat -> nat, bits: nat, rs: seq<ResourceRange>): seq<RoaPrefix>
    requires AllFit(Address(bits), rs) && Complete(log, bits, rs)
  {
    PiecesMeaning(log, bits, rs);
    Sort(PrefixBefore, LabelAll(bits, Pieces(log, bits, rs)))
  }

  /** resource_set_ip.to_roa_prefix_set, with whatever logarithm: raises what
      chop_into_prefixes raises on the first range it raises on. */
  method ToRoaPrefixSet(bits: nat, s: ResourceSet, log: nat -> nat) returns (out: Outcome<RoaPrefixSet>)
    requires s.Valid() && s.family == Address(bits)
    ensures match out
      case Raised(e) =>
        && (exists k :: FirstFailure(log, bits, s.ranges, k, e))
        && exists k :: 0 <= k < |s.ranges| && ChopOutcome(log, bits, s.ranges[k]) == Raised(e)
             && forall j :: 0 <= j < k ==> ChopOutcome(log, bits, s.ranges[j]).Returned?
      case Returned(t) =>
        && !Unchoppable(log, bits, s.ranges) && Complete(log, bits, s.ranges)
        && fresh(t) && t.bits == bits && t.prefixes == PrefixListOf(log, bits, s.ranges)
        && AllWellFormed(bits, t.prefixes) && Addresses(bits, t.prefixes) == Points(s.ranges)
        && forall p :: p in t.prefixes ==> p.maxPrefixlen == p.prefixlen
  {
    hide Output, ChopOutcome, Pieces, Complete, AllPrefixes, LabelAll;
    NoPieces(log, bits);
    var list := new RangeList();
    var i := 0;
    while i < |s.ranges|
      invariant 0 <= i <= |s.ranges| && AllFit(Address(bits), s.ranges[..i])
      invariant fresh(list) && list.items == Pieces(log, bits, s.ranges[..i])
      invariant forall k :: 0 <= k < i ==> !UnchoppableAt(log, bits, s.ranges, k)
    {
      assert RangeFits(Address(bits), s.ranges[i]);
      PiecesGrow(log, bits, s.ranges, i);
      var c := ChopIntoPrefixes(bits, s.ranges[i], log, list);
      if c.Raised? {
        assert FirstFailure(log, bits, s.ranges, i, c.error);
        FirstFailureMeaning(log, bits, s.ranges, i, c.error);
        return Raised(c.error);
      }
      i := i + 1;
    }
    assert s.ranges[..i] == s.ranges;
    CompleteWhen(log, bits, s.ranges);
    PiecesMeaning(log, bits, s.ranges);
    var labels := Label(bits, list.items);
    var t := new RoaPrefixSet(bits, labels);
    SortKeepsAddresses(bits, labels, t.prefixes);
    assert forall p :: p in t.prefixes ==> p in multiset(labels);
    out := Returned(t);
  }

  /** Range k is the first that cannot be chopped, and raises e. */
  ghost predicate FirstFailure(log: nat -> nat, bits: nat, rs: seq<ResourceRange>, k: int, e: Error) {
    && UnchoppableAt(log, bits, rs, k) && ChopOutcome(log, bits, rs[k]) == Raised(e)
    && forall j :: 0 <= j < k ==> !UnchoppableAt(log, bits, rs, j)
  }

  lemma FirstFailureMeaning(log: nat -> nat, bits: nat, rs: seq<ResourceRange>, k: int, e: Error)
    requires AllFit(Address(bits), rs) && FirstFailure(log, bits, rs, k, e)
    ensures 0 <= k < |rs| && ChopOutcome(log, bits, rs[k]) == Raised(e)
    ensures forall j :: 0 <= j < k ==> ChopOutcome(log, bits, rs[j]).Returned?
  {
    hide ChopOutcome;
    forall j | 0 <= j < k ensures ChopOutcome(log, bits, rs[j]).Returned? {
      assert RangeFits(Address(bits), rs[j]) && !UnchoppableAt(log, bits, rs, j);
    }
  }

  lemma NoPieces(log: nat -> nat, bits: nat)
    ensures Pieces(log, bits, []) == []
  {
  }

  lemma PiecesGrow(log: nat -> nat, bits: nat, rs: seq<ResourceRange>, i: nat)
    requires AllFit(Address(bits), rs) && i < |rs|
    ensures AllFit(Address(bits), rs[..i + 1])
    ensures Pieces(log, bits, rs[..i + 1]) == Pieces(log, bits, rs[..i]) + Output(log, bits, rs[i])
  {
    assert RangeFits(Address(bits), rs[i]);
    assert rs[..i + 1] == rs[..i] + [rs[i]];
    PiecesCat(log, bits, rs[..i], [rs[i]]);
    assert Pieces(log, bits, [rs[i]]) == Output(log, bits, rs[i]) + Pieces(log, bits, []);
  }

  /** The list comprehension that calls prefixlen on every piece; none raises. */
  method Label(bits: nat, rs: seq<ResourceRange>) returns (ps: seq<RoaPrefix>)
    requires AllPrefixes(bits, rs)
    ensures ps == LabelAll(bits, rs)
  {
    ps := [];
    for i := 0 to |rs|
      invariant ps == LabelAll(bits, rs)[..i]
    {
      assert RangeFits(Address(bits), rs[i]) && SomePrefix(bits, rs[i]);
      var n := PrefixLength(bits, rs[i]);
      ps := ps + [RoaPrefix(rs[i].min, n.value, n.value)];
    }
  }

  /** Converting a set to prefixes and back gives its canonical form; a
      canonical set comes back unchanged. */
  lemma RoundTrip(log: nat -> nat, bits: nat, rs: seq<ResourceRange>)
    requires AllFit(Address(bits), rs) && Complete(log, bits, rs)
    ensures var ps := PrefixListOf(log, bits, rs);
      AllWellFormed(bits, ps) && UniteAll(Address(bits), [], RangesOf(bits, ps)) == Returned(CanonicalForm(rs))
    ensures Canonical(rs) ==> CanonicalForm(rs) == rs
  {
    PiecesMeaning(log, bits, rs);
    ToResourceSetMeaning(bits, LabelAll(bits, Pieces(log, bits, rs)));
    CanonicalUnique(UniteAll(Address(bits), [], RangesOf(bits, PrefixListOf(log, bits, rs))).value, CanonicalForm(rs));
    if Canonical(rs) { CanonicalUnique(rs, CanonicalForm(rs)); }
  }

  /** With the exact logarithm only the last range of a canonical set can stand
      in the way. */
  lemma UnchoppableLast(log: nat -> nat, bits: nat, rs: seq<ResourceRange>)
    requires AllFit(Address(bits), rs) && Canonical(rs) && ExactLog(log, Pow2(bits))
    ensures Unchoppable(log, bits, rs) <==>
      rs != [] && rs[|rs| - 1].max == Pow2(bits) - 1 && !SomePrefix(bits, rs[|rs| - 1])
  {
    hide UnchoppableAt, SomePrefix, TooLarge;
    if rs != [] { UnchoppableExact(log, bits, rs, |rs| - 1); }
    if Unchoppable(log, bits, rs) {
      var k :| UnchoppableAt(log, bits, rs, k);
      UnchoppableExact(log, bits, rs, k);
      assert RangeFits(Address(bits), rs[k]) && RangeFits(Address(bits), rs[|rs| - 1]);
      ExactNeverTooLarge(log, rs[k].min, rs[k].max);
      assert k == |rs| - 1;
    }
  }

  /** With a logarithm that never falls short, a range that is no prefix stands in
      the way exactly when it ends at the all-ones address or the estimate is too
      large at one of its pieces. */
  lemma UnchoppableExact(log: nat -> nat, bits: nat, rs: seq<ResourceRange>, k: int)
    requires AllFit(Address(bits), rs) && NeverShort(log, Pow2(bits))
    ensures UnchoppableAt(log, bits, rs, k) <==>
      && 0 <= k < |rs| && RangeFits(Address(bits), rs[k]) && !SomePrefix(bits, rs[k])
      && (rs[k].max == Pow2(bits) - 1 || exists j :: PieceTooLarge(log, rs[k].min, rs[k].max, j))
  {
    hide ChopOutcome, SomePrefix, PieceTooLarge;
    if 0 <= k < |rs| {
      assert RangeFits(Address(bits), rs[k]);
      ChopRaisesExactly(log, bits, rs[k]);
    }
  }

  // ----- No shorter prefix list for a whole set

  /** The ranges of a list that start at or before m, in order. */
  function StartingUpTo(rs: seq<ResourceRange>, m: int): (s: seq<ResourceRange>)
    ensures |s| + |StartingAfter(rs, m)| == |rs|
    ensures forall r :: r in s <==> r in rs && r.min <= m
  {
    if rs == [] then []
    else
      assert forall r :: r in rs <==> r == rs[0] || r in rs[1..];
      if rs[0].min <= m then [rs[0]] + StartingUpTo(rs[1..], m) else StartingUpTo(rs[1..], m)
  }

  /** No list of prefixes with exactly the points of a canonical set, in any
      order and with any overlaps, is shorter than to_roa_prefix_set's, unless an
      estimate of the logarithm falls short or stops it. */
  lemma {:induction false} PiecesShortest(log: nat -> nat, bits: nat, rs: seq<ResourceRange>, other: seq<ResourceRange>)
    requires AllFit(Address(bits), rs) && Canonical(rs) && AllBlocks(other) && Points(other) == Points(rs)
    requires NeverShort(log, Pow2(bits)) && Complete(log, bits, rs)
    ensures |Pieces(log, bits, rs)| <= |other|
    decreases |rs|
  {
    if rs != [] {
      var m := rs[0].max;
      assert RangeFits(Address(bits), rs[0]);
      assert CompleteOn(log, bits, rs[0]);
      OutputGreedy(log, bits, rs[0]);
      SplitAtRange(rs, other);
      ChopShortest(rs[0].min, rs[0].max, StartingUpTo(other, m));
      PiecesShortest(log, bits, rs[1..], StartingAfter(other, m));
    }
  }

  lemma SplitAtRange(rs: seq<ResourceRange>, other: seq<ResourceRange>)
    requires rs != [] && Canonical(rs) && AllBlocks(other) && Points(other) == Points(rs)
    ensures var m := rs[0].max; var first, rest := StartingUpTo(other, m), StartingAfter(other, m);
      && AllBlocks(first) && AllBlocks(rest) && Points(rest) == Points(rs[1..])
      && (forall x :: Has(first, x) <==> rs[0].min <= x <= rs[0].max)
  {
    var m := rs[0].max;
    var first, rest := StartingUpTo(other, m), StartingAfter(other, m);
    forall k | 0 <= k < |first| ensures IsBlock(first[k]) { assert first[k] in other; }
    forall k | 0 <= k < |rest| ensures IsBlock(rest[k]) { assert rest[k] in other; }
    HeadOfCanonical(rs);
    forall r | r in other ensures rs[0].min <= r.min && (r.min <= m ==> r.max <= m) { InsideFirst(rs, other, r); }
    forall x ensures Has(other, x) <==> Has(first, x) || Has(rest, x) {
      MembersCover(other, first, x);
      MembersCover(other, rest, x);
      if Has(other, x) {
        var k :| 0 <= k < |other| && Within(other[k], x);
        assert other[k] in first || other[k] in rest;
      }
    }
    forall x ensures (Has(first, x) <==> rs[0].min <= x <= rs[0].max) && (Has(rest, x) <==> Has(rs[1..], x)) {
      assert Has(other, x) <==> x in Points(other);
      assert Has(rs, x) <==> x in Points(rs);
      HasHead(rs, x);
    }
  }

  lemma MembersCover(other: seq<ResourceRange>, part: seq<ResourceRange>, x: int)
    requires forall r :: r in part ==> r in other
    ensures Has(part, x) ==> Has(other, x)
  {
    if Has(part, x) {
      var k :| 0 <= k < |part| && Within(part[k], x);
      assert part[k] in other;
    }
  }

  /** A member of the list lies in one range of the set. */
  lemma InsideFirst(rs: seq<ResourceRange>, other: seq<ResourceRange>, r: ResourceRange)
    requires rs != [] && Canonical(rs) && Points(other) == Points(rs) && r in other
    ensures rs[0].min <= r.min && (r.min <= rs[0].max ==> r.max <= rs[0].max)
  {
    forall x | Within(r, x) ensures Has(rs, x) {
      assert Has(other, x);
      assert x in Points(other);
    }
    var k := IntervalInside(rs, r);
    if k > 0 { assert rs[0].max + 1 < rs[k].min; }
  }

  /** The conversion there and back, as the repository's own checks make it: with
      whatever logarithm, if it returns, it returns the same addresses. */
  method ThereAndBack(bits: nat, s: ResourceSet, log: nat -> nat) returns (out: Outcome<ResourceSet>)
    requires s.Valid() && s.family == Address(bits)
    ensures out.Raised? <==> Unchoppable(log, bits, s.ranges)
    ensures out.Raised? && ExactLog(log, Pow2(bits)) ==> out.error == OverflowError
    ensures out.Returned? ==> fresh(out.value) && out.value.IsResult(Address(bits))
    ensures out.Returned? ==> Points(out.value.ranges) == Points(s.ranges)
    ensures out.Returned? && s.canonical ==> out.value.ranges == s.ranges
  {
    var p := ToRoaPrefixSet(bits, s, log);
    if p.Raised? {
      ghost var k :| FirstFailure(log, bits, s.ranges, k, p.error);
      if ExactLog(log, Pow2(bits)) { OutputExact(log, bits, s.ranges[k]); }
      return Raised(p.error);
    }
    RoundTrip(log, bits, s.ranges);
    out := p.value.ToResourceSet();
  }
}
