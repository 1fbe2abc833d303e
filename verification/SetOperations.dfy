/** The set operations as their callers see them: on whatever lists of ranges,
    with the exceptions they raise. */
module SetOperations {
  import opened Bits
  import opened Ranges
  import opened Canonizing
  import opened SetAlgebra

  lemma CanonicalExists(rs: seq<ResourceRange>)
    ensures exists c: seq<ResourceRange> :: Canonical(c) && Points(c) == Points(rs)
  {
    OverlapsMerge(rs);
    assert Canonical(Merged(Asn, true, rs).ranges) && Points(Merged(Asn, true, rs).ranges) == Points(rs);
  }

  /** With overlaps allowed and unbounded numbers every list has a canonical form. */
  lemma OverlapsMerge(rs: seq<ResourceRange>)
    ensures var m := Merged(Asn, true, rs); !m.overflow && Canonical(m.ranges) && Points(m.ranges) == Points(rs)
  {
    MergedFacts(Asn, true, rs);
  }

  /** The one canonical list with the given points. */
  ghost function CanonicalForm(rs: seq<ResourceRange>): (c: seq<ResourceRange>)
    ensures Canonical(c) && Points(c) == Points(rs)
  {
    CanonicalExists(rs);
    var c: seq<ResourceRange> :| Canonical(c) && Points(c) == Points(rs);
    c
  }

  /** Construction from a list of ranges. */
  ghost function Make(f: Family, allowOverlap: bool, rs: seq<ResourceRange>): Outcome<seq<ResourceRange>> {
    match CanonizeOutcome(f, allowOverlap, rs)
    case Raised(e) => Raised(e)
    case Returned(_) => Returned(CanonicalForm(rs))
  }

  /** The three lists the loop of _comm makes of two clones. */
  ghost function CommListsOf(f: Family, a: seq<ResourceRange>, b: seq<ResourceRange>): Outcome<Parts> {
    match (Make(f, false, a), Make(f, false, b))
    case (Raised(e), _) => Raised(e)
    case (_, Raised(e)) => Raised(e)
    case (Returned(a'), Returned(b')) => Returned(Comm(a', b'))
  }

  /** Construction of the three results of _comm. */
  ghost function MakeParts(f: Family, p: Parts): Outcome<Parts> {
    match (Make(f, false, p.only1), Make(f, false, p.only2), Make(f, false, p.both))
    case (Raised(e), _, _) => Raised(e)
    case (_, Raised(e), _) => Raised(e)
    case (_, _, Raised(e)) => Raised(e)
    case (Returned(x), Returned(y), Returned(z)) => Returned(Parts(x, y, z))
  }

  ghost function CommOf(f: Family, a: seq<ResourceRange>, b: seq<ResourceRange>): Outcome<Parts> {
    match CommListsOf(f, a, b)
    case Raised(e) => Raised(e)
    case Returned(p) => MakeParts(f, p)
  }

  /** The list the loop of union makes of two clones. */
  ghost function UnionListOf(f: Family, a: seq<ResourceRange>, b: seq<ResourceRange>): Outcome<seq<ResourceRange>> {
    match (Make(f, false, a), Make(f, false, b))
    case (Raised(e), _) => Raised(e)
    case (_, Raised(e)) => Raised(e)
    case (Returned(a'), Returned(b')) => Returned(UnionList(a', b'))
  }

  ghost function UnionOf(f: Family, a: seq<ResourceRange>, b: seq<ResourceRange>): Outcome<seq<ResourceRange>> {
    match UnionListOf(f, a, b)
    case Raised(e) => Raised(e)
    case Returned(u) => Make(f, false, u)
  }

  ghost function IntersectionOf(f: Family, a: seq<ResourceRange>, b: seq<ResourceRange>): Outcome<seq<ResourceRange>> {
    match CommOf(f, a, b)
    case Raised(e) => Raised(e)
    case Returned(p) => Returned(p.both)
  }

  ghost function DifferenceOf(f: Family, a: seq<ResourceRange>, b: seq<ResourceRange>): Outcome<seq<ResourceRange>> {
    match CommOf(f, a, b)
    case Raised(e) => Raised(e)
    case Returned(p) => Returned(p.only1)
  }

  ghost function SymmetricDifferenceOf(f: Family, a: seq<ResourceRange>, b: seq<ResourceRange>)
    : Outcome<seq<ResourceRange>>
  {
    match CommOf(f, a, b)
    case Raised(e) => Raised(e)
    case Returned(p) => UnionOf(f, p.only1, p.only2)
  }

  // ----- Construction

  /** Construction raises exactly when, and what, canonize raises on the freshly
      extended list, and otherwise has the list canonize leaves. */
  lemma MakeIsCanonize(f: Family, allow: bool, rs: seq<ResourceRange>)
    requires AllFit(f, rs)
    ensures var (t, out) := Canonized(f, allow, SetState(rs, false));
      Make(f, allow, rs) == (if out.Returned? then Returned(t.ranges) else Raised(out.error))
  {
    CanonizeMeaning(f, allow, SetState(rs, false));
    var (t, out) := Canonized(f, allow, SetState(rs, false));
    if out.Returned? { CanonicalUnique(t.ranges, CanonicalForm(rs)); }
  }

  /** A construction that returns yields the canonical list with the points it was
      given, and they fit the family's numbers. */
  lemma MakeMeaning(f: Family, allow: bool, rs: seq<ResourceRange>)
    requires AllFit(f, rs)
    ensures var r := Make(f, allow, rs);
      r.Returned? ==> AllFit(f, r.value) && Canonical(r.value) && Points(r.value) == Points(rs)
  {
    var c := CanonicalForm(rs);
    forall x | Has(c, x) ensures Fits(f, x) {
      assert x in Points(c) && x in Points(rs);
      PointsFit(f, rs, x);
    }
    FitFromPoints(f, c);
  }

  /** With allow_overlap an address set can still raise: the whole space and any
      later single address. */
  lemma AllowOverlapRaises(bits: nat, rs: seq<ResourceRange>)
    requires bits >= 1 && rs == [Range(0, Pow2(bits) - 1), Range(1, 1)]
    ensures AllFit(Address(bits), rs) && Make(Address(bits), true, rs) == Raised(OverflowError)
  {
    assert Tops(Address(bits), rs[0], rs[1]);
  }

  lemma MakeSeparated(f: Family, allow: bool, rs: seq<ResourceRange>)
    requires AllFit(f, rs) && Separated(rs)
    ensures Make(f, allow, rs).Returned?
  {
    MakeMeaning(f, allow, rs);
    CanonicalQuiet(f, rs);
  }

  /** Cloning a canonical list gives it back. */
  lemma MakeCanonical(f: Family, allow: bool, rs: seq<ResourceRange>)
    requires AllFit(f, rs) && Canonical(rs)
    ensures Make(f, allow, rs) == Returned(rs)
  {
    MakeSeparated(f, allow, rs);
    MakeMeaning(f, allow, rs);
    CanonicalUnique(Make(f, allow, rs).value, rs);
  }

  lemma FitFromPoints(f: Family, rs: seq<ResourceRange>)
    requires forall x :: Has(rs, x) ==> Fits(f, x)
    ensures AllFit(f, rs)
  {
    forall k | 0 <= k < |rs| ensures RangeFits(f, rs[k]) {
      assert Within(rs[k], rs[k].min) && Within(rs[k], rs[k].max);
    }
  }

  lemma PartsFit(f: Family, a: seq<ResourceRange>, b: seq<ResourceRange>, rs: seq<ResourceRange>)
    requires AllFit(f, a) && AllFit(f, b) && Points(rs) <= Points(a) + Points(b)
    ensures AllFit(f, rs)
  {
    forall x | Has(rs, x) ensures Fits(f, x) {
      assert x in Points(rs);
      if Has(a, x) { PointsFit(f, a, x); } else { assert x in Points(b); PointsFit(f, b, x); }
    }
    FitFromPoints(f, rs);
  }

  // ----- _comm, intersection, difference

  /** On canonical operands _comm never raises, and its three results are the
      canonical lists of the points of one only, of the other only, and of both. */
  lemma CommMeaning(f: Family, a: seq<ResourceRange>, b: seq<ResourceRange>)
    requires AllFit(f, a) && AllFit(f, b) && Canonical(a) && Canonical(b)
    ensures CommOf(f, a, b).Returned?
    ensures var p := CommOf(f, a, b).value;
      && AllFit(f, p.only1) && Canonical(p.only1) && Points(p.only1) == Points(a) - Points(b)
      && AllFit(f, p.only2) && Canonical(p.only2) && Points(p.only2) == Points(b) - Points(a)
      && AllFit(f, p.both) && Canonical(p.both) && Points(p.both) == Points(a) * Points(b)
  {
    MakeCanonical(f, false, a);
    MakeCanonical(f, false, b);
    CommParts(a, b);
    var p := Comm(a, b);
    PartsFit(f, a, b, p.only1);
    PartsFit(f, a, b, p.only2);
    PartsFit(f, a, b, p.both);
    MakeSeparated(f, false, p.only1);
    MakeSeparated(f, false, p.only2);
    MakeSeparated(f, false, p.both);
    MakeMeaning(f, false, p.only1);
    MakeMeaning(f, false, p.only2);
    MakeMeaning(f, false, p.both);
  }

  /** On arbitrary operands the only exceptions are those of the clones, of the
      first operand's before the second's. */
  lemma CommReduces(f: Family, a: seq<ResourceRange>, b: seq<ResourceRange>)
    requires AllFit(f, a) && AllFit(f, b)
    ensures CommOf(f, a, b).Returned? <==> Make(f, false, a).Returned? && Make(f, false, b).Returned?
    ensures Make(f, false, a).Returned? && Make(f, false, b).Returned? ==>
      CommOf(f, a, b) == CommOf(f, Make(f, false, a).value, Make(f, false, b).value)
    ensures Make(f, false, a).Raised? ==> CommOf(f, a, b) == Raised(Make(f, false, a).error)
    ensures Make(f, false, a).Returned? && Make(f, false, b).Raised? ==>
      CommOf(f, a, b) == Raised(Make(f, false, b).error)
  {
    MakeMeaning(f, false, a);
    MakeMeaning(f, false, b);
    if Make(f, false, a).Returned? && Make(f, false, b).Returned? {
      var a', b' := Make(f, false, a).value, Make(f, false, b).value;
      MakeCanonical(f, false, a');
      MakeCanonical(f, false, b');
      CommMeaning(f, a', b');
    }
  }

  /** Intersection, difference and XOR raise the same, and no other exception. */
  lemma DerivedReduce(f: Family, a: seq<ResourceRange>, b: seq<ResourceRange>)
    requires AllFit(f, a) && AllFit(f, b)
    ensures Make(f, false, a).Raised? ==>
      var e := Make(f, false, a).error;
      && IntersectionOf(f, a, b) == Raised(e) && DifferenceOf(f, a, b) == Raised(e)
      && SymmetricDifferenceOf(f, a, b) == Raised(e)
    ensures Make(f, false, a).Returned? && Make(f, false, b).Raised? ==>
      var e := Make(f, false, b).error;
      && IntersectionOf(f, a, b) == Raised(e) && DifferenceOf(f, a, b) == Raised(e)
      && SymmetricDifferenceOf(f, a, b) == Raised(e)
    ensures Make(f, false, a).Returned? && Make(f, false, b).Returned? ==>
      IntersectionOf(f, a, b).Returned? && DifferenceOf(f, a, b).Returned? && SymmetricDifferenceOf(f, a, b).Returned?
  {
    CommReduces(f, a, b);
    if Make(f, false, a).Returned? && Make(f, false, b).Returned? {
      MakeMeaning(f, false, a);
      MakeMeaning(f, false, b);
      CommMeaning(f, Make(f, false, a).value, Make(f, false, b).value);
      SymmetricDifferenceMeaning(f, Make(f, false, a).value, Make(f, false, b).value);
    }
  }

  // ----- union

  /** union on canonical operands raises ResourceOverlap exactly when they
      clash, raises nothing else, and otherwise returns the canonical list of
      the union of the points. */
  lemma UnionMeaning(f: Family, a: seq<ResourceRange>, b: seq<ResourceRange>)
    requires AllFit(f, a) && AllFit(f, b) && Canonical(a) && Canonical(b)
    ensures var r := UnionOf(f, a, b);
      && (Clash(a, b) || Clash(b, a) ==> r == Raised(ResourceOverlap))
      && (!Clash(a, b) && !Clash(b, a) ==> r.Returned?)
      && (r.Returned? ==> AllFit(f, r.value) && Canonical(r.value) && Points(r.value) == Points(a) + Points(b))
  {
    MakeCanonical(f, false, a);
    MakeCanonical(f, false, b);
    var u := UnionList(a, b);
    UnionPoints(a, b);
    UnionOverlap(a, b);
    UnionOrder(a, b);
    PartsFit(f, a, b, u);
    AscendingNeverTops(f, u);
    MakeMeaning(f, false, u);
  }

  lemma AscendingNeverTops(f: Family, u: seq<ResourceRange>)
    requires AllFit(f, u) && Sorted(u) && MaxAscending(u)
    ensures !TopFollowed(f, u)
  {
    TopOfSorted(f, u);
    forall k | 0 <= k < |u| - 1 ensures Fits(f, u[k].max + 1) {
      assert RangeFits(f, u[k]) && RangeFits(f, u[k + 1]) && u[k].max < u[k + 1].max;
    }
  }

  /** On arbitrary operands union raises exactly when cloning one of them does or
      their canonical forms clash, and otherwise is the union of those forms. */
  lemma UnionReduces(f: Family, a: seq<ResourceRange>, b: seq<ResourceRange>)
    requires AllFit(f, a) && AllFit(f, b)
    ensures Make(f, false, a).Raised? ==> UnionOf(f, a, b) == Raised(Make(f, false, a).error)
    ensures Make(f, false, a).Returned? && Make(f, false, b).Raised? ==>
      UnionOf(f, a, b) == Raised(Make(f, false, b).error)
    ensures Make(f, false, a).Returned? && Make(f, false, b).Returned? ==>
      var a', b' := Make(f, false, a).value, Make(f, false, b).value;
      && UnionOf(f, a, b) == UnionOf(f, a', b')
      && (UnionOf(f, a, b).Raised? <==> Clash(a', b') || Clash(b', a'))
  {
    MakeMeaning(f, false, a);
    MakeMeaning(f, false, b);
    if Make(f, false, a).Returned? && Make(f, false, b).Returned? {
      var a', b' := Make(f, false, a).value, Make(f, false, b).value;
      MakeCanonical(f, false, a');
      MakeCanonical(f, false, b');
      UnionMeaning(f, a', b');
    }
  }

  /** union is commutative, exceptions included. */
  lemma UnionCommutes(f: Family, a: seq<ResourceRange>, b: seq<ResourceRange>)
    requires AllFit(f, a) && AllFit(f, b) && Canonical(a) && Canonical(b)
    ensures UnionOf(f, a, b) == UnionOf(f, b, a)
  {
    MakeCanonical(f, false, a);
    MakeCanonical(f, false, b);
    UnionMirror(a, b);
  }

  /** The example that shows union is partial: {1-5, 8-20} and {3-10}. */
  lemma UnionIsPartial()
    ensures UnionOf(Asn, [Range(1, 5), Range(8, 20)], [Range(3, 10)]) == Raised(ResourceOverlap)
  {
    var a: seq<ResourceRange>, b: seq<ResourceRange> := [Range(1, 5), Range(8, 20)], [Range(3, 10)];
    assert ClashAt(b, a, 0, 0, 1);
    UnionMeaning(Asn, a, b);
  }

  lemma ClashShares(a: seq<ResourceRange>, b: seq<ResourceRange>)
    ensures Clash(a, b) ==> exists x :: x in Points(a) && x in Points(b)
  {
    if Clash(a, b) {
      var i: nat, j: nat, k: nat :| ClashAt(a, b, i, j, k);
      var x := Max(a[i].min, b[j].min);
      assert Within(a[i], x) && Within(b[j], x);
      assert x in Points(a) && x in Points(b);
    }
  }

  /** Disjoint operands never clash. */
  lemma DisjointUnion(f: Family, a: seq<ResourceRange>, b: seq<ResourceRange>)
    requires AllFit(f, a) && AllFit(f, b) && Canonical(a) && Canonical(b)
    requires Points(a) !! Points(b)
    ensures UnionOf(f, a, b).Returned?
  {
    ClashShares(a, b);
    ClashShares(b, a);
    UnionMeaning(f, a, b);
  }

  /** Nor does a set with one that includes it: the union is the larger one. */
  lemma SubsetUnion(f: Family, a: seq<ResourceRange>, b: seq<ResourceRange>)
    requires AllFit(f, a) && AllFit(f, b) && Canonical(a) && Canonical(b)
    requires Points(b) <= Points(a)
    ensures UnionOf(f, a, b) == Returned(a)
  {
    UnionMeaning(f, a, b);
    if Clash(b, a) {
      var i: nat, j: nat, k: nat :| ClashAt(b, a, i, j, k);
      var m := InsideOne(a, b, i);
      assert false;
    }
    if Clash(a, b) {
      var i: nat, j: nat, k: nat :| ClashAt(a, b, i, j, k);
      var m := InsideOne(a, b, k);
      assert false;
    }
    CanonicalUnique(UnionOf(f, a, b).value, a);
  }

  lemma InsideOne(a: seq<ResourceRange>, b: seq<ResourceRange>, i: nat) returns (m: nat)
    requires Canonical(a) && i < |b| && Points(b) <= Points(a)
    ensures m < |a| && a[m].min <= b[i].min && b[i].max <= a[m].max
    ensures forall k :: 0 <= k < |a| && Meet(b[i], a[k]) ==> k == m
  {
    forall x | Within(b[i], x) ensures Has(a, x) { assert x in Points(b); }
    m := IntervalInside(a, b[i]);
  }

  // ----- Algebra

  /** symmetric_difference never raises on canonical sets, and holds the points
      of exactly one operand. */
  lemma SymmetricDifferenceMeaning(f: Family, a: seq<ResourceRange>, b: seq<ResourceRange>)
    requires AllFit(f, a) && AllFit(f, b) && Canonical(a) && Canonical(b)
    ensures var r := SymmetricDifferenceOf(f, a, b);
      r.Returned? && AllFit(f, r.value) && Canonical(r.value)
      && Points(r.value) == (Points(a) - Points(b)) + (Points(b) - Points(a))
  {
    CommMeaning(f, a, b);
    var p := CommOf(f, a, b).value;
    DisjointUnion(f, p.only1, p.only2);
    UnionMeaning(f, p.only1, p.only2);
  }

  lemma XorPoints(p: iset<int>, q: iset<int>, x: iset<int>)
    requires x == (p - q) + (q - p)
    ensures (x - q) + (q - x) == p
  {
  }

  /** (A ^ B) ^ B is A. */
  lemma XorTwice(f: Family, a: seq<ResourceRange>, b: seq<ResourceRange>)
    requires AllFit(f, a) && AllFit(f, b) && Canonical(a) && Canonical(b)
    ensures SymmetricDifferenceOf(f, a, b).Returned?
    ensures SymmetricDifferenceOf(f, SymmetricDifferenceOf(f, a, b).value, b) == Returned(a)
  {
    SymmetricDifferenceMeaning(f, a, b);
    var x := SymmetricDifferenceOf(f, a, b).value;
    SymmetricDifferenceMeaning(f, x, b);
    XorPoints(Points(a), Points(b), Points(x));
    CanonicalUnique(SymmetricDifferenceOf(f, x, b).value, a);
  }

  lemma DifferencePoints(p: iset<int>, q: iset<int>)
    ensures (p - q) + p * q == p
  {
  }

  /** (A - B) | (A & B) is A. */
  lemma Rejoin(f: Family, a: seq<ResourceRange>, b: seq<ResourceRange>)
    requires AllFit(f, a) && AllFit(f, b) && Canonical(a) && Canonical(b)
    ensures DifferenceOf(f, a, b).Returned? && IntersectionOf(f, a, b).Returned?
    ensures UnionOf(f, DifferenceOf(f, a, b).value, IntersectionOf(f, a, b).value) == Returned(a)
  {
    CommMeaning(f, a, b);
    var p := CommOf(f, a, b).value;
    DisjointUnion(f, p.only1, p.both);
    UnionMeaning(f, p.only1, p.both);
    DifferencePoints(Points(a), Points(b));
    CanonicalUnique(UnionOf(f, p.only1, p.both).value, a);
  }

  /** A | (A & B) is A. */
  lemma Absorption(f: Family, a: seq<ResourceRange>, b: seq<ResourceRange>)
    requires AllFit(f, a) && AllFit(f, b) && Canonical(a) && Canonical(b)
    ensures IntersectionOf(f, a, b).Returned?
    ensures UnionOf(f, a, IntersectionOf(f, a, b).value) == Returned(a)
  {
    CommMeaning(f, a, b);
    SubsetUnion(f, a, CommOf(f, a, b).value.both);
  }

  /** The repository's own checks: a|b and b|a, a^b and b^a, a&b and b&a agree,
      and the two differences are each other's mirror image. */
  lemma Mirrors(f: Family, a: seq<ResourceRange>, b: seq<ResourceRange>)
    requires AllFit(f, a) && AllFit(f, b) && Canonical(a) && Canonical(b)
    ensures CommOf(f, a, b).Returned? && CommOf(f, b, a) == Returned(Swap(CommOf(f, a, b).value))
    ensures UnionOf(f, a, b) == UnionOf(f, b, a)
    ensures SymmetricDifferenceOf(f, a, b) == SymmetricDifferenceOf(f, b, a)
  {
    MakeCanonical(f, false, a);
    MakeCanonical(f, false, b);
    CommMeaning(f, a, b);
    CommMirror(a, b);
    UnionCommutes(f, a, b);
    var p := CommOf(f, a, b).value;
    UnionCommutes(f, p.only1, p.only2);
  }
}
