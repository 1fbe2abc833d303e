/** Closed integer ranges, lists of ranges and the sets of points they denote. */
module Ranges {
  import opened Bits

  datatype RawRange = Range(min: int, max: int)

  /** A range whose constructor assertion holds. */
  type ResourceRange = r: RawRange | r.min <= r.max witness Range(0, 0)

  /** AS numbers are unbounded longs; addresses are numbers of a fixed width. */
  datatype Family = Asn | Address(bits: nat)

  /** A value the family's number type can hold. Arithmetic whose result does
      not fit raises OverflowError. */
  predicate Fits(f: Family, n: int) {
    f.Address? ==> 0 <= n < Pow2(f.bits)
  }

  /** The result of an operation on the family's numbers that the surrounding
      code relies on not to raise. */
  function Checked(f: Family, n: int): int
    requires Fits(f, n)
  {
    n
  }

  predicate RangeFits(f: Family, r: ResourceRange) {
    Fits(f, r.min) && Fits(f, r.max)
  }

  predicate AllFit(f: Family, rs: seq<ResourceRange>) {
    forall k :: 0 <= k < |rs| ==> RangeFits(f, rs[k])
  }

  predicate Within(r: ResourceRange, x: int) {
    r.min <= x <= r.max
  }

  /** The two ranges share a point. */
  predicate Meet(a: ResourceRange, b: ResourceRange) {
    a.min <= b.max && b.min <= a.max
  }

  ghost predicate Has(rs: seq<ResourceRange>, x: int) {
    exists k :: 0 <= k < |rs| && Within(rs[k], x)
  }

  /** The integers denoted by a list of ranges. */
  ghost function Points(rs: seq<ResourceRange>): iset<int> {
    iset x: int | Has(rs, x)
  }

  /** Sorted and disjoint, every range ending before the next one starts. */
  ghost predicate Separated(rs: seq<ResourceRange>) {
    forall i, j :: 0 <= i < j < |rs| ==> rs[i].max < rs[j].min
  }

  /** The canonical form of RFC 3779: sorted, disjoint and non-adjacent. */
  ghost predicate Canonical(rs: seq<ResourceRange>) {
    forall i, j :: 0 <= i < j < |rs| ==> rs[i].max + 1 < rs[j].min
  }

  /** The given ranges, in whatever order, include two that share a point. */
  ghost predicate Overlapping(rs: seq<ResourceRange>) {
    exists i, j :: 0 <= i < j < |rs| && Meet(rs[i], rs[j])
  }

  lemma CatAssoc(a: seq<ResourceRange>, b: seq<ResourceRange>, c: seq<ResourceRange>)
    ensures a + (b + c) == a + b + c
  {
  }

  lemma HasCat(a: seq<ResourceRange>, b: seq<ResourceRange>, x: int)
    ensures Has(a + b, x) <==> Has(a, x) || Has(b, x)
  {
    var c := a + b;
    if Has(a, x) {
      var k :| 0 <= k < |a| && Within(a[k], x);
      assert Within(c[k], x);
    }
    if Has(b, x) {
      var k :| 0 <= k < |b| && Within(b[k], x);
      assert Within(c[|a| + k], x);
    }
    if Has(c, x) {
      var k :| 0 <= k < |c| && Within(c[k], x);
      if k < |a| { assert Within(a[k], x); } else { assert Within(b[k - |a|], x); }
    }
  }

  lemma HasOne(r: ResourceRange, x: int)
    ensures Has([r], x) <==> Within(r, x)
  {
    if Within(r, x) { assert Within([r][0], x); }
  }

  lemma HasHead(rs: seq<ResourceRange>, x: int)
    requires rs != []
    ensures Has(rs, x) <==> Within(rs[0], x) || Has(rs[1..], x)
  {
    assert rs == [rs[0]] + rs[1..];
    HasCat([rs[0]], rs[1..], x);
    HasOne(rs[0], x);
  }

  lemma HasCons(r: ResourceRange, rs: seq<ResourceRange>, x: int)
    ensures Has([r] + rs, x) <==> Within(r, x) || Has(rs, x)
  {
    HasCat([r], rs, x);
    HasOne(r, x);
  }

  lemma PointsCat(a: seq<ResourceRange>, b: seq<ResourceRange>)
    ensures Points(a + b) == Points(a) + Points(b)
  {
    forall x ensures x in Points(a + b) <==> x in Points(a) + Points(b) { HasCat(a, b, x); }
  }

  lemma PointsOne(r: ResourceRange)
    ensures Points([r]) == iset x: int | Within(r, x)
  {
    forall x ensures x in Points([r]) <==> Within(r, x) { HasOne(r, x); }
  }

  lemma PointsFit(f: Family, rs: seq<ResourceRange>, x: int)
    requires AllFit(f, rs) && Has(rs, x)
    ensures Fits(f, x)
  {
    var k :| 0 <= k < |rs| && Within(rs[k], x);
    assert RangeFits(f, rs[k]);
  }

  /** In a canonical list the first range holds exactly the points up to the
      first gap. */
  lemma HeadOfCanonical(rs: seq<ResourceRange>)
    requires rs != [] && Canonical(rs)
    ensures Has(rs, rs[0].min) && !Has(rs, rs[0].max + 1)
    ensures forall x :: Has(rs, x) ==> rs[0].min <= x
    ensures forall x :: Has(rs[1..], x) ==> rs[0].max + 1 < x
  {
    assert Within(rs[0], rs[0].min);
    forall x | Has(rs[1..], x) ensures rs[0].max + 1 < x {
      var k :| 0 <= k < |rs[1..]| && Within(rs[1..][k], x);
      assert rs[0].max + 1 < rs[k + 1].min;
    }
    forall x | Has(rs, x) ensures rs[0].min <= x && x != rs[0].max + 1 { HasHead(rs, x); }
  }

  /** Canonical form is unique: equal point sets have equal canonical lists. */
  lemma {:induction false} CanonicalUnique(a: seq<ResourceRange>, b: seq<ResourceRange>)
    requires Canonical(a) && Canonical(b) && Points(a) == Points(b)
    ensures a == b
  {
    assert forall x :: Has(a, x) <==> x in Points(a);
    assert forall x :: Has(b, x) <==> x in Points(b);
    if a == [] {
      if b != [] { HeadOfCanonical(b); }
    } else if b == [] {
      HeadOfCanonical(a);
    } else {
      SameHead(a, b);
      forall x ensures Has(a[1..], x) <==> Has(b[1..], x) {
        HasHead(a, x);
        HasHead(b, x);
        HeadOfCanonical(a);
        HeadOfCanonical(b);
      }
      assert Points(a[1..]) == Points(b[1..]);
      CanonicalUnique(a[1..], b[1..]);
      assert a == [a[0]] + a[1..];
      assert b == [b[0]] + b[1..];
    }
  }

  lemma SameHead(a: seq<ResourceRange>, b: seq<ResourceRange>)
    requires a != [] && b != [] && Canonical(a) && Canonical(b)
    requires forall x :: Has(a, x) <==> Has(b, x)
    ensures a[0] == b[0]
  {
    HeadOfCanonical(a);
    HeadOfCanonical(b);
    assert a[0].min == b[0].min;
    if a[0].max < b[0].max { assert Within(b[0], a[0].max + 1); }
    if b[0].max < a[0].max { assert Within(a[0], b[0].max + 1); }
  }

  lemma GapAfter(rs: seq<ResourceRange>, k: nat)
    requires Canonical(rs) && k < |rs|
    ensures !Has(rs, rs[k].max + 1)
  {
  }

  /** An interval whose points all lie in a canonical list lies inside one of
      its ranges. */
  lemma IntervalInside(rs: seq<ResourceRange>, item: ResourceRange) returns (k: nat)
    requires Canonical(rs)
    requires forall x :: Within(item, x) ==> Has(rs, x)
    ensures k < |rs| && rs[k].min <= item.min && item.max <= rs[k].max
  {
    assert Within(item, item.min);
    k :| 0 <= k < |rs| && Within(rs[k], item.min);
    if rs[k].max < item.max {
      GapAfter(rs, k);
      assert false;
    }
  }
}
