/** resource_set: the mutable list of ranges and its operations. */
module ResourceSets {
  import opened Ranges
  import opened Sorting
  import opened Canonizing
  import opened SetAlgebra
  import opened SetOperations

  /** What contains accepts: a range, or a single number. */
  datatype Item = RangeItem(range: ResourceRange) | NumberItem(number: int)

  function ItemRange(item: Item): ResourceRange {
    match item
    case RangeItem(r) => r
    case NumberItem(n) => Range(n, n)
  }

  /** Item i replaced and the item after it deleted. */
  function SetAndDeleteNext(rs: seq<ResourceRange>, i: nat, r: ResourceRange): seq<ResourceRange>
    requires i + 1 < |rs|
  {
    rs[..i] + [r] + rs[i + 2..]
  }

  class ResourceSet {
    const family: Family
    var ranges: seq<ResourceRange>
    var canonical: bool
    var inherit: bool

    /** If the flag says so, the list really is in canonical form. */
    ghost predicate Valid()
      reads this
    {
      ValidState(family, State()) && (inherit ==> ranges == [])
    }

    ghost function State(): SetState
      reads this
    {
      SetState(ranges, canonical)
    }

    constructor Empty(family: Family)
      ensures Valid() && this.family == family && ranges == [] && !canonical && !inherit
    {
      this.family := family;
      ranges, canonical, inherit := [], false, false;
    }

    /** Construction from a list of ranges. */
    static method New(family: Family, ini: seq<ResourceRange>, allowOverlap: bool) returns (r: Outcome<ResourceSet>)
      requires AllFit(family, ini)
      ensures r.Raised? <==> CanonizeOutcome(family, allowOverlap, ini).Raised?
      ensures r.Raised? ==> Raised(r.error) == CanonizeOutcome(family, allowOverlap, ini)
      ensures r.Returned? ==> fresh(r.value) && r.value.Valid() && r.value.family == family && !r.value.inherit
      ensures r.Returned? ==> r.value.canonical && Canonical(r.value.ranges) && Points(r.value.ranges) == Points(ini)
      ensures match r case Raised(e) => Make(family, allowOverlap, ini) == Raised(e)
                      case Returned(s) => Make(family, allowOverlap, ini) == Returned(s.ranges)
    {
      var s := new ResourceSet.Empty(family);
      s.Extend(ini);
      assert s.ranges == ini;
      MakeIsCanonize(family, allowOverlap, ini);
      var out := s.Canonize(allowOverlap);
      r := if out.Returned? then Returned(s) else Raised(out.error);
    }

    /** A finished set: canonical, and not inheriting. */
    ghost predicate IsResult(f: Family)
      reads this
    {
      Valid() && family == f && canonical && !inherit
    }

    /** Construction without allowing overlaps, as the set operations use it. */
    static method Build(family: Family, ini: seq<ResourceRange>) returns (r: Outcome<ResourceSet>)
      requires AllFit(family, ini)
      ensures match r
        case Raised(e) => Make(family, false, ini) == Raised(e)
        case Returned(s) => fresh(s) && s.IsResult(family) && Make(family, false, ini) == Returned(s.ranges)
    {
      r := New(family, ini, false);
    }

    method Append(item: ResourceRange)
      requires Valid() && RangeFits(family, item) && !inherit
      modifies this
      ensures Valid() && ranges == old(ranges) + [item] && !canonical && !inherit
    {
      ranges := ranges + [item];
      canonical := false;
    }

    method Extend(items: seq<ResourceRange>)
      requires Valid() && AllFit(family, items) && !inherit
      modifies this
      ensures Valid() && ranges == old(ranges) + items && !canonical && !inherit
    {
      ranges := ranges + items;
      canonical := false;
    }

    /** Brings the list into canonical form in place, or raises. */
    method Canonize(allowOverlap: bool) returns (out: Outcome<()>)
      requires Valid()
      modifies this`ranges, this`canonical
      ensures Valid()
      ensures (State(), out) == Canonized(family, allowOverlap, old(State()))
      ensures Points(ranges) == old(Points(ranges))
      ensures out == CanonizeOutcome(family, allowOverlap, old(ranges))
      ensures canonical <==> out.Returned?
    {
      CanonizeMeaning(family, allowOverlap, State());
      if canonical {
        out := Returned(());
      } else {
        out := SortAndMerge(allowOverlap);
      }
    }

    /** The body of canonize for a list not known to be canonical. */
    method SortAndMerge(allowOverlap: bool) returns (out: Outcome<()>)
      requires !canonical
      modifies this`ranges, this`canonical
      ensures (State(), out) == Canonized(family, allowOverlap, old(State()))
    {
      ranges := Sort(Before, ranges);
      MergeAtStart(family, allowOverlap, ranges);
      var overflow := MergeNeighbours(allowOverlap);
      assert Merge(ranges, overflow) == Merged(family, allowOverlap, old(ranges));
      if overflow { return Raised(OverflowError); }
      var disjoint := ScanNeighbours();
      if !disjoint { return Raised(ResourceOverlap); }
      canonical := true;
      out := Returned(());
    }

    /** The loop of canonize that looks for a range reaching the next one. */
    method ScanNeighbours() returns (disjoint: bool)
      ensures disjoint == NoneReachNext(ranges)
    {
      var i := 0;
      while i < |ranges| - 1
        invariant i == 0 || 0 < i < |ranges|
        invariant forall j :: 0 <= j < i ==> !ReachesNext(ranges, j)
      {
        if ranges[i].max >= ranges[i + 1].min {
          assert ReachesNext(ranges, i);
          return false;
        }
        i := i + 1;
      }
      disjoint := true;
    }

    /** The merging loop of canonize; overflow tells that an addition raised. */
    method MergeNeighbours(allowOverlap: bool) returns (overflow: bool)
      modifies this`ranges
      ensures Merge(ranges, overflow) == MergeAt(family, allowOverlap, old(ranges), 0)
    {
      ghost var m := MergeAt(family, allowOverlap, ranges, 0);
      var i := 0;
      while i + 1 < |ranges|
        invariant 0 <= i <= |ranges| && (i == |ranges| ==> ranges == [])
        invariant m == MergeAt(family, allowOverlap, ranges, i)
        decreases |ranges| - i
      {
        MergeAtStep(family, allowOverlap, ranges, i);
        var first, next := ranges[i], ranges[i + 1];
        if !Fits(family, first.max + 1) {
          return true;
        } else if allowOverlap && first.max + 1 >= next.min {
          ranges := SetAndDeleteNext(ranges, i, Range(first.min, Max(first.max, next.max)));
        } else if first.max + 1 == next.min {
          ranges := SetAndDeleteNext(ranges, i, Range(first.min, next.max));
        } else {
          i := i + 1;
        }
      }
      MergeAtEnd(family, allowOverlap, ranges, i);
      overflow := false;
    }

    // ----- _comm

    /** The numbers of this set only, of the other only, and of both, as three new
        sets; the operands are left as they were. */
    method Comm(other: ResourceSet) returns (r: Outcome<(ResourceSet, ResourceSet, ResourceSet)>)
      requires Valid() && other.Valid() && other.family == family && !inherit
      ensures match r
        case Raised(e) => CommOf(family, ranges, other.ranges) == Raised(e)
        case Returned((x, y, z)) =>
          && fresh(x) && fresh(y) && fresh(z)
          && x.IsResult(family) && y.IsResult(family) && z.IsResult(family)
          && CommOf(family, ranges, other.ranges) == Returned(Parts(x.ranges, y.ranges, z.ranges))
          && Points(x.ranges) == Points(ranges) - Points(other.ranges)
          && Points(y.ranges) == Points(other.ranges) - Points(ranges)
          && Points(z.ranges) == Points(ranges) * Points(other.ranges)
      ensures canonical && other.canonical ==> r.Returned?
    {
      CommFacts(family, State(), other.State());
      var lists := CommLists(other);
      if lists.Raised? { return Raised(lists.error); }
      r := BuildThree(family, lists.value);
    }

    /** The clones and the loop of _comm. */
    method CommLists(other: ResourceSet) returns (r: Outcome<Parts>)
      requires Valid() && other.Valid() && other.family == family && !inherit
      ensures r == CommListsOf(family, ranges, other.ranges)
      ensures r.Returned? ==> AllFit(family, r.value.only1) && AllFit(family, r.value.only2)
      ensures r.Returned? ==> AllFit(family, r.value.both)
    {
      var r1 := Build(family, ranges);
      if r1.Raised? { return Raised(r1.error); }
      var r2 := Build(family, other.ranges);
      if r2.Raised? { return Raised(r2.error); }
      var only1, only2, both := SplitAndSort(r1.value, r2.value);
      r := Returned(Parts(only1, only2, both));
    }

    /** The three constructions that end _comm. */
    static method BuildThree(f: Family, p: Parts) returns (r: Outcome<(ResourceSet, ResourceSet, ResourceSet)>)
      requires AllFit(f, p.only1) && AllFit(f, p.only2) && AllFit(f, p.both)
      ensures match r
        case Raised(e) => MakeParts(f, p) == Raised(e)
        case Returned((x, y, z)) =>
          && fresh(x) && fresh(y) && fresh(z)
          && x.IsResult(f) && y.IsResult(f) && z.IsResult(f)
          && MakeParts(f, p) == Returned(Parts(x.ranges, y.ranges, z.ranges))
    {
      var x := Build(f, p.only1);
      if x.Raised? { return Raised(x.error); }
      var y := Build(f, p.only2);
      if y.Raised? { return Raised(y.error); }
      var z := Build(f, p.both);
      if z.Raised? { return Raised(z.error); }
      r := Returned((x.value, y.value, z.value));
    }

    /** The loop of _comm, which uses up its two operands. */
    static method SplitAndSort(set1: ResourceSet, set2: ResourceSet)
      returns (only1: seq<ResourceRange>, only2: seq<ResourceRange>, both: seq<ResourceRange>)
      requires set1 != set2 && set1.family == set2.family
      requires AllFit(set1.family, set1.ranges) && AllFit(set2.family, set2.ranges)
      modifies set1`ranges, set2`ranges
      ensures Parts(only1, only2, both) == SetAlgebra.Comm(old(set1.ranges), old(set2.ranges))
      ensures AllFit(set1.family, only1) && AllFit(set1.family, only2) && AllFit(set1.family, both)
    {
      only1, only2, both := [], [], [];
      ghost var parts := SetAlgebra.Comm(set1.ranges, set2.ranges);
      while set1.ranges != [] || set2.ranges != []
        invariant parts == After(only1, only2, both, SetAlgebra.Comm(set1.ranges, set2.ranges))
        invariant AllFit(set1.family, set1.ranges) && AllFit(set2.family, set2.ranges)
        invariant AllFit(set1.family, only1) && AllFit(set1.family, only2) && AllFit(set1.family, both)
        decreases Size(set1.ranges) + Size(set2.ranges), if SplitNext(set1.ranges, set2.ranges) then 1 else 0
      {
        ghost var a, b := set1.ranges, set2.ranges;
        AfterStep(only1, only2, both, a, b);
        if set1.ranges != [] && (set2.ranges == [] || set1.ranges[0].max < set2.ranges[0].min) {
          only1 := only1 + [set1.ranges[0]];
          set1.ranges := set1.ranges[1..];
        } else if set2.ranges != [] && (set1.ranges == [] || set2.ranges[0].max < set1.ranges[0].min) {
          only2 := only2 + [set2.ranges[0]];
          set2.ranges := set2.ranges[1..];
        } else if set1.ranges[0].min < set2.ranges[0].min {
          Rsplit(set1, set2.ranges[0]);
        } else if set2.ranges[0].min < set1.ranges[0].min {
          Rsplit(set2, set1.ranges[0]);
        } else if set1.ranges[0].max < set2.ranges[0].max {
          Rsplit(set2, set1.ranges[0]);
        } else if set2.ranges[0].max < set1.ranges[0].max {
          Rsplit(set1, set2.ranges[0]);
        } else {
          assert set1.ranges[0] == set2.ranges[0];
          both := both + [set1.ranges[0]];
          set1.ranges, set2.ranges := set1.ranges[1..], set2.ranges[1..];
        }
      }
      assert After(only1, only2, both, Parts([], [], [])) == Parts(only1, only2, both);
    }

    // ----- union and the operations built on _comm

    /** Set union; the operands are left as they were. */
    method Union(other: ResourceSet) returns (r: Outcome<ResourceSet>)
      requires Valid() && other.Valid() && other.family == family && !inherit
      ensures match r
        case Raised(e) => UnionOf(family, ranges, other.ranges) == Raised(e)
        case Returned(u) =>
          && fresh(u) && u.IsResult(family)
          && UnionOf(family, ranges, other.ranges) == Returned(u.ranges)
          && Points(u.ranges) == Points(ranges) + Points(other.ranges)
      ensures canonical && other.canonical ==>
        (r == Raised(ResourceOverlap) <==> Clash(ranges, other.ranges) || Clash(other.ranges, ranges))
      ensures canonical && other.canonical ==> (r.Raised? ==> r.error == ResourceOverlap)
    {
      UnionFacts(family, State(), other.State());
      var list := UnionLists(other);
      if list.Raised? { return Raised(list.error); }
      r := Build(family, list.value);
    }

    /** The clones and the loop of union. */
    method UnionLists(other: ResourceSet) returns (r: Outcome<seq<ResourceRange>>)
      requires Valid() && other.Valid() && other.family == family && !inherit
      ensures r == UnionListOf(family, ranges, other.ranges)
      ensures r.Returned? ==> AllFit(family, r.value)
    {
      var r1 := Build(family, ranges);
      if r1.Raised? { return Raised(r1.error); }
      var r2 := Build(family, other.ranges);
      if r2.Raised? { return Raised(r2.error); }
      CanonicalSeparated(r1.value.ranges);
      CanonicalSeparated(r2.value.ranges);
      UnionListFits(family, r1.value.ranges, r2.value.ranges);
      var result := MergeMeeting(r1.value, r2.value);
      r := Returned(result);
    }

    /** The loop of union, which uses up its two operands. */
    static method MergeMeeting(set1: ResourceSet, set2: ResourceSet) returns (result: seq<ResourceRange>)
      requires set1 != set2 && set1.family == set2.family
      requires Separated(set1.ranges) && Separated(set2.ranges)
      modifies set1`ranges, set2`ranges
      ensures result == UnionList(old(set1.ranges), old(set2.ranges))
    {
      result := [];
      ghost var whole := UnionList(set1.ranges, set2.ranges);
      while set1.ranges != [] || set2.ranges != []
        invariant whole == result + UnionList(set1.ranges, set2.ranges)
        invariant Separated(set1.ranges) && Separated(set2.ranges)
        decreases |set1.ranges| + |set2.ranges|
      {
        UnionLoopStep(result, set1.ranges, set2.ranges);
        TailsSeparated(set1.ranges, set2.ranges);
        if set1.ranges != [] && (set2.ranges == [] || set1.ranges[0].max < set2.ranges[0].min) {
          result := result + [set1.ranges[0]];
          set1.ranges := set1.ranges[1..];
        } else if set2.ranges != [] && (set1.ranges == [] || set2.ranges[0].max < set1.ranges[0].min) {
          result := result + [set2.ranges[0]];
          set2.ranges := set2.ranges[1..];
        } else {
          var merged := MergeFronts(set1, set2);
          result := result + [merged];
        }
      }
    }

    /** Takes the first ranges of both sets, which meet, merges them and deletes
        what the merged range covers. */
    static method MergeFronts(set1: ResourceSet, set2: ResourceSet) returns (merged: ResourceRange)
      requires set1 != set2 && set1.family == set2.family
      requires set1.ranges != [] && set2.ranges != [] && Meet(set1.ranges[0], set2.ranges[0])
      requires Separated(set1.ranges) && Separated(set2.ranges)
      modifies set1`ranges, set2`ranges
      ensures merged == Hull(old(set1.ranges)[0], old(set2.ranges)[0])
      ensures set1.ranges == Beyond(old(set1.ranges)[1..], merged.max) && Separated(set1.ranges)
      ensures set2.ranges == Beyond(old(set2.ranges)[1..], merged.max) && Separated(set2.ranges)
    {
      var first, that := set1.ranges[0], set2.ranges[0];
      merged := Range(Min(first.min, that.min), Max(first.max, that.max));
      CoveredInside(set1.ranges, merged);
      CoveredInside(set2.ranges, merged);
      SuffixSeparated(set1.ranges, 1);
      SuffixSeparated(set2.ranges, 1);
      set1.ranges := set1.ranges[1..];
      set2.ranges := set2.ranges[1..];
      DeleteCovered(set1, merged);
      DeleteCovered(set2, merged);
    }

    /** The inner loops of union: deletes the leading ranges that end inside the
        merged range. */
    static method DeleteCovered(rset: ResourceSet, merged: ResourceRange)
      requires Separated(rset.ranges)
      requires forall k :: 0 <= k < Covered(rset.ranges, merged.max) ==> rset.ranges[k].min >= merged.min
      modifies rset`ranges
      ensures rset.ranges == Beyond(old(rset.ranges), merged.max)
      ensures Separated(rset.ranges)
    {
      ghost var n := Covered(rset.ranges, merged.max);
      ghost var rs := rset.ranges;
      ghost var k := 0;
      while rset.ranges != [] && rset.ranges[0].max <= merged.max
        invariant 0 <= k <= n && rset.ranges == rs[k..]
        decreases |rset.ranges|
      {
        assert rset.ranges[0].min >= merged.min by { assert rset.ranges[0] == rs[k]; }
        rset.ranges := rset.ranges[1..];
        k := k + 1;
      }
      assert k == n;
      SuffixSeparated(rs, n);
    }

    /** Set intersection. */
    method Intersection(other: ResourceSet) returns (r: Outcome<ResourceSet>)
      requires Valid() && other.Valid() && other.family == family && !inherit
      ensures match r
        case Raised(e) => IntersectionOf(family, ranges, other.ranges) == Raised(e)
        case Returned(u) =>
          && fresh(u) && u.IsResult(family)
          && IntersectionOf(family, ranges, other.ranges) == Returned(u.ranges)
          && Points(u.ranges) == Points(ranges) * Points(other.ranges)
      ensures canonical && other.canonical ==> r.Returned?
    {
      var com := Comm(other);
      r := match com case Raised(e) => Raised(e) case Returned((_, _, both)) => Returned(both);
    }

    /** Set difference. */
    method Difference(other: ResourceSet) returns (r: Outcome<ResourceSet>)
      requires Valid() && other.Valid() && other.family == family && !inherit
      ensures match r
        case Raised(e) => DifferenceOf(family, ranges, other.ranges) == Raised(e)
        case Returned(u) =>
          && fresh(u) && u.IsResult(family)
          && DifferenceOf(family, ranges, other.ranges) == Returned(u.ranges)
          && Points(u.ranges) == Points(ranges) - Points(other.ranges)
      ensures canonical && other.canonical ==> r.Returned?
    {
      var com := Comm(other);
      r := match com case Raised(e) => Raised(e) case Returned((only1, _, _)) => Returned(only1);
    }

    /** Set symmetric difference (XOR). */
    method SymmetricDifference(other: ResourceSet) returns (r: Outcome<ResourceSet>)
      requires Valid() && other.Valid() && other.family == family && !inherit
      ensures match r
        case Raised(e) => SymmetricDifferenceOf(family, ranges, other.ranges) == Raised(e)
        case Returned(u) =>
          && fresh(u) && u.IsResult(family)
          && SymmetricDifferenceOf(family, ranges, other.ranges) == Returned(u.ranges)
          && Points(u.ranges) == (Points(ranges) - Points(other.ranges)) + (Points(other.ranges) - Points(ranges))
      ensures canonical && other.canonical ==> r.Returned?
    {
      var com := Comm(other);
      if com.Raised? { return Raised(com.error); }
      var (only1, only2, _) := com.value;
      DisjointUnion(family, only1.ranges, only2.ranges);
      UnionMeaning(family, only1.ranges, only2.ranges);
      r := only1.Union(only2);
    }

    // ----- Membership, inclusion, equality

    /** Set membership test: first makes this set canonical, then searches. */
    method Contains(item: Item) returns (r: Outcome<bool>)
      requires Valid() && !inherit
      modifies this`ranges, this`canonical
      ensures Valid() && State() == Canonized(family, false, old(State())).0
      ensures Points(ranges) == old(Points(ranges)) && (canonical <==> r.Returned?)
      ensures match r
        case Raised(e) => CanonizeOutcome(family, false, old(ranges)) == Raised(e)
        case Returned(b) =>
          && CanonizeOutcome(family, false, old(ranges)).Returned?
          && (b <==> Inside(ItemRange(item), old(Points(ranges))))
      ensures r.Returned? && item.NumberItem? ==> (r.value <==> item.number in old(Points(ranges)))
      ensures r.Returned? && item.RangeItem? ==>
        (r.value <==> forall x :: item.range.min <= x <= item.range.max ==> x in old(Points(ranges)))
    {
      ItemNumbers(item, Points(ranges));
      var out := Canonize(false);
      if out.Raised? { return Raised(out.error); }
      var found := Search(ranges, ItemRange(item));
      assert forall x :: Has(ranges, x) <==> x in Points(ranges);
      r := Returned(found);
    }

    /** True iff every number of this set is in the other one, which is made
        canonical on the way. The operands may be the same object. */
    method IsSubset(other: ResourceSet) returns (r: Outcome<bool>)
      requires Valid() && other.Valid() && other.family == family
      requires ranges != [] ==> !other.inherit
      modifies other`ranges, other`canonical
      ensures Valid() && other.Valid()
      ensures Points(ranges) == old(Points(ranges)) && Points(other.ranges) == old(Points(other.ranges))
      ensures other.State() == if old(ranges) == [] then old(other.State())
                               else Canonized(family, false, old(other.State())).0
      ensures match r
        case Raised(e) => old(ranges) != [] && CanonizeOutcome(family, false, old(other.ranges)) == Raised(e)
        case Returned(b) =>
          && (old(ranges) == [] || CanonizeOutcome(family, false, old(other.ranges)).Returned?)
          && (b <==> old(Points(ranges)) <= old(Points(other.ranges)))
    {
      hide CanonizeOutcome, Canonical, Merged, NoneReachNext, ItemRange;
      ghost var mine, theirs := Points(ranges), Points(other.ranges);
      ghost var before := other.State();
      var i := 0;
      while i < |ranges|
        invariant Valid() && other.Valid()
        invariant Points(ranges) == mine && Points(other.ranges) == theirs
        invariant this != other ==> ranges == old(ranges)
        invariant i == 0 ==> other.State() == before && ranges == old(ranges)
        invariant i > 0 ==> old(ranges) != [] && other.State() == Canonized(family, false, before).0 && other.canonical
        invariant i > 0 ==> CanonizeOutcome(family, false, before.ranges).Returned?
        invariant forall k :: 0 <= k < i && k < |ranges| ==> Inside(ranges[k], theirs)
        decreases i == 0, |ranges| - i
      {
        var item := ranges[i];
        var c := other.Contains(RangeItem(item));
        if c.Raised? { return Raised(c.error); }
        if !c.value { return Returned(false); }
        i := i + 1;
      }
      assert mine <= theirs;
      r := Returned(true);
    }
  }

  /** A number is asked for itself, a range for each of its numbers. */
  lemma ItemNumbers(item: Item, points: iset<int>)
    ensures item.NumberItem? ==> (Inside(ItemRange(item), points) <==> item.number in points)
    ensures item.RangeItem? ==> (Inside(ItemRange(item), points) <==>
      forall x :: item.range.min <= x <= item.range.max ==> x in points)
  {
    if item.NumberItem? {
      assert Within(ItemRange(item), item.number);
    } else if forall x :: item.range.min <= x <= item.range.max ==> x in points {
      assert Inside(item.range, points);
    }
  }

  ghost predicate Inside(r: ResourceRange, points: iset<int>) {
    forall x :: Within(r, x) ==> x in points
  }

  /** The binary search of contains, on the upper ends of a canonical list. */
  method Search(ranges: seq<ResourceRange>, item: ResourceRange) returns (found: bool)
    requires Canonical(ranges)
    ensures found <==> forall x :: Within(item, x) ==> Has(ranges, x)
  {
    var lo, hi := 0, |ranges|;
    while lo < hi
      invariant 0 <= lo <= hi <= |ranges|
      invariant forall k :: 0 <= k < lo ==> ranges[k].max < item.max
      invariant forall k :: hi <= k < |ranges| ==> item.max <= ranges[k].max
    {
      var mid := (lo + hi) / 2;
      MaxesAscend(ranges, mid);
      if ranges[mid].max < item.max { lo := mid + 1; } else { hi := mid; }
    }
    found := lo < |ranges| && ranges[lo].min <= item.min && ranges[lo].max >= item.max;
    if found {
      assert forall x :: Within(item, x) ==> Within(ranges[lo], x);
    } else if forall x :: Within(item, x) ==> Has(ranges, x) {
      ghost var k := IntervalInside(ranges, item);
      assert false;
    }
  }

  lemma MaxesAscend(rs: seq<ResourceRange>, m: nat)
    requires Canonical(rs) && m < |rs|
    ensures forall k :: 0 <= k <= m ==> rs[k].max <= rs[m].max
    ensures forall k :: m <= k < |rs| ==> rs[m].max <= rs[k].max
  {
    forall k | 0 <= k < m ensures rs[k].max <= rs[m].max { assert rs[k].max + 1 < rs[m].min; }
    forall k | m < k < |rs| ensures rs[m].max <= rs[k].max { assert rs[m].max + 1 < rs[k].min; }
  }

  /** a == b: equal lists, and neither set inherits. */
  method Equal(a: ResourceSet, b: ResourceSet) returns (r: bool)
    requires a.Valid() && b.Valid() && a.family == b.family
    ensures r <==> !a.inherit && !b.inherit && a.ranges == b.ranges
    ensures a.canonical && b.canonical && !a.inherit && !b.inherit ==>
      (r <==> Points(a.ranges) == Points(b.ranges))
  {
    r := !(a.inherit || b.inherit || a.ranges != b.ranges);
    if a.canonical && b.canonical && Points(a.ranges) == Points(b.ranges) {
      CanonicalUnique(a.ranges, b.ranges);
    }
  }

  /** Splits the first range of rset in place. */
  method Rsplit(rset: ResourceSet, that: ResourceRange)
    requires rset.ranges != [] && Splits(rset.ranges[0], that)
    requires AllFit(rset.family, rset.ranges) && RangeFits(rset.family, that)
    modifies rset`ranges
    ensures rset.ranges == Halves(old(rset.ranges)[0], that) + old(rset.ranges)[1..]
    ensures AllFit(rset.family, rset.ranges)
  {
    var first := rset.ranges[0];
    rset.ranges := rset.ranges[1..];
    if first.min < that.min {
      rset.ranges := [Range(first.min, Checked(rset.family, that.min - 1))] + rset.ranges;
      rset.ranges := rset.ranges[..1] + [Range(that.min, first.max)] + rset.ranges[1..];
    } else {
      assert first.max > that.max;
      rset.ranges := [Range(first.min, that.max)] + rset.ranges;
      rset.ranges := rset.ranges[..1] + [Range(Checked(rset.family, that.max + 1), first.max)] + rset.ranges[1..];
    }
  }

  /** The three lists once the parts still to come are appended. */
  ghost function After(only1: seq<ResourceRange>, only2: seq<ResourceRange>, both: seq<ResourceRange>, p: Parts)
    : Parts
  {
    Parts(only1 + p.only1, only2 + p.only2, both + p.both)
  }

  /** One iteration of the loop of _comm. */
  lemma AfterStep(o1: seq<ResourceRange>, o2: seq<ResourceRange>, bo: seq<ResourceRange>,
                  a: seq<ResourceRange>, b: seq<ResourceRange>)
    requires a != [] || b != []
    ensures After(o1, o2, bo, SetAlgebra.Comm(a, b)) ==
      if FirstAlone(a, b) then After(o1 + [a[0]], o2, bo, SetAlgebra.Comm(a[1..], b))
      else if FirstAlone(b, a) then After(o1, o2 + [b[0]], bo, SetAlgebra.Comm(a, b[1..]))
      else if a[0] == b[0] then After(o1, o2, bo + [a[0]], SetAlgebra.Comm(a[1..], b[1..]))
      else if SplitsFirst(a[0], b[0]) then After(o1, o2, bo, SetAlgebra.Comm(Halves(a[0], b[0]) + a[1..], b))
      else After(o1, o2, bo, SetAlgebra.Comm(a, Halves(b[0], a[0]) + b[1..]))
    ensures SplitNext(a, b) && SplitsFirst(a[0], b[0]) ==>
      Size(Halves(a[0], b[0]) + a[1..]) == Size(a) && !SplitNext(Halves(a[0], b[0]) + a[1..], b)
    ensures SplitNext(a, b) && !SplitsFirst(a[0], b[0]) ==>
      Size(Halves(b[0], a[0]) + b[1..]) == Size(b) && !SplitNext(a, Halves(b[0], a[0]) + b[1..])
  {
    if FirstAlone(a, b) {
      var p := SetAlgebra.Comm(a[1..], b);
      assert o1 + ([a[0]] + p.only1) == o1 + [a[0]] + p.only1;
    } else if FirstAlone(b, a) {
      var p := SetAlgebra.Comm(a, b[1..]);
      assert o2 + ([b[0]] + p.only2) == o2 + [b[0]] + p.only2;
    } else if a[0] == b[0] {
      var p := SetAlgebra.Comm(a[1..], b[1..]);
      assert bo + ([a[0]] + p.both) == bo + [a[0]] + p.both;
    } else if SplitsFirst(a[0], b[0]) {
      SizeOfSplit(a, b[0]);
    } else {
      SizeOfSplit(b, a[0]);
    }
  }

  /** One iteration of the loop of union. */
  lemma UnionLoopStep(result: seq<ResourceRange>, a: seq<ResourceRange>, b: seq<ResourceRange>)
    requires a != [] || b != []
    ensures result + UnionList(a, b) ==
      if FirstAlone(a, b) then result + [a[0]] + UnionList(a[1..], b)
      else if FirstAlone(b, a) then result + [b[0]] + UnionList(a, b[1..])
      else var h := Hull(a[0], b[0]); result + [h] + UnionList(Beyond(a[1..], h.max), Beyond(b[1..], h.max))
  {
    if FirstAlone(a, b) {
      CatAssoc(result, [a[0]], UnionList(a[1..], b));
    } else if FirstAlone(b, a) {
      CatAssoc(result, [b[0]], UnionList(a, b[1..]));
    } else {
      var h := Hull(a[0], b[0]);
      CatAssoc(result, [h], UnionList(Beyond(a[1..], h.max), Beyond(b[1..], h.max)));
    }
  }

  lemma CanonicalSeparated(rs: seq<ResourceRange>)
    requires Canonical(rs)
    ensures Separated(rs)
  {
  }

  lemma TailsSeparated(a: seq<ResourceRange>, b: seq<ResourceRange>)
    requires Separated(a) && Separated(b)
    ensures a != [] ==> Separated(a[1..])
    ensures b != [] ==> Separated(b[1..])
  {
  }

  lemma UnionListFits(f: Family, a: seq<ResourceRange>, b: seq<ResourceRange>)
    requires AllFit(f, a) && AllFit(f, b) && Separated(a) && Separated(b)
    ensures AllFit(f, UnionList(a, b))
  {
    UnionPoints(a, b);
    PartsFit(f, a, b, UnionList(a, b));
  }

  /** What UnionOf promises about sets that satisfy the class invariant. */
  lemma UnionFacts(f: Family, s: SetState, t: SetState)
    requires ValidState(f, s) && ValidState(f, t)
    ensures var r := UnionOf(f, s.ranges, t.ranges);
      r.Returned? ==> Points(r.value) == Points(s.ranges) + Points(t.ranges)
    ensures s.canonical && t.canonical ==>
      (UnionOf(f, s.ranges, t.ranges) == Raised(ResourceOverlap) <==>
        Clash(s.ranges, t.ranges) || Clash(t.ranges, s.ranges))
    ensures s.canonical && t.canonical ==>
      (UnionOf(f, s.ranges, t.ranges).Raised? ==> UnionOf(f, s.ranges, t.ranges).error == ResourceOverlap)
  {
    MakeMeaning(f, false, s.ranges);
    MakeMeaning(f, false, t.ranges);
    if s.canonical && t.canonical {
      UnionMeaning(f, s.ranges, t.ranges);
    }
    if UnionOf(f, s.ranges, t.ranges).Returned? {
      var a, b := Make(f, false, s.ranges).value, Make(f, false, t.ranges).value;
      MakeCanonical(f, false, a);
      MakeCanonical(f, false, b);
      UnionMeaning(f, a, b);
    }
  }

  /** What CommOf promises about sets that satisfy the class invariant. */
  lemma CommFacts(f: Family, s: SetState, t: SetState)
    requires ValidState(f, s) && ValidState(f, t)
    ensures s.canonical && t.canonical ==> CommOf(f, s.ranges, t.ranges).Returned?
    ensures CommOf(f, s.ranges, t.ranges).Returned? ==>
      var p := CommOf(f, s.ranges, t.ranges).value;
      && Points(p.only1) == Points(s.ranges) - Points(t.ranges)
      && Points(p.only2) == Points(t.ranges) - Points(s.ranges)
      && Points(p.both) == Points(s.ranges) * Points(t.ranges)
  {
    CommReduces(f, s.ranges, t.ranges);
    MakeMeaning(f, false, s.ranges);
    MakeMeaning(f, false, t.ranges);
    if s.canonical { MakeCanonical(f, false, s.ranges); }
    if t.canonical { MakeCanonical(f, false, t.ranges); }
    if CommOf(f, s.ranges, t.ranges).Returned? {
      CommMeaning(f, Make(f, false, s.ranges).value, Make(f, false, t.ranges).value);
    }
  }

  /** What the merging loop is on its way to when it stands at index i. */
  ghost function MergeAt(f: Family, allow: bool, rs: seq<ResourceRange>, i: nat): Merge
    requires i <= |rs| && (i == |rs| ==> rs == [])
  {
    if rs == [] then Merge([], false)
    else var m := Coalesce(f, allow, rs[i], rs[i + 1..]); Merge(rs[..i] + m.ranges, m.overflow)
  }

  lemma MergeAtStart(f: Family, allow: bool, rs: seq<ResourceRange>)
    ensures MergeAt(f, allow, rs, 0) == if rs == [] then Merge([], false) else Coalesce(f, allow, rs[0], rs[1..])
  {
    if rs != [] {
      var m := Coalesce(f, allow, rs[0], rs[1..]);
      assert rs[..0] + m.ranges == m.ranges;
    }
  }

  /** One iteration of the merging loop, in each of its four cases. */
  lemma MergeAtStep(f: Family, allow: bool, rs: seq<ResourceRange>, i: nat)
    requires i + 1 < |rs|
    ensures var m := MergeAt(f, allow, rs, i);
      var cur, next := rs[i], rs[i + 1];
      if !Fits(f, cur.max + 1) then m == Merge(rs, true)
      else if Joins(allow, cur, next) then
        m == MergeAt(f, allow, SetAndDeleteNext(rs, i, Joined(cur, next)), i)
      else m == MergeAt(f, allow, rs, i + 1)
  {
    var cur, next := rs[i], rs[i + 1];
    var rest := rs[i + 1..];
    assert rest[0] == next && rest[1..] == rs[i + 2..];
    if !Fits(f, cur.max + 1) {
      assert rs == rs[..i] + ([cur] + rest);
    } else if Joins(allow, cur, next) {
      CoalesceStep(f, allow, cur, rest);
      var t := SetAndDeleteNext(rs, i, Joined(cur, next));
      assert t[i] == Joined(cur, next) && t[..i] == rs[..i] && t[i + 1..] == rs[i + 2..];
    } else {
      var m := Coalesce(f, allow, next, rs[i + 2..]);
      assert rs[..i] + ([cur] + m.ranges) == rs[..i + 1] + m.ranges;
    }
  }

  lemma MergeAtEnd(f: Family, allow: bool, rs: seq<ResourceRange>, i: nat)
    requires i <= |rs| && (i == |rs| ==> rs == []) && i + 1 >= |rs|
    ensures MergeAt(f, allow, rs, i) == Merge(rs, false)
  {
    if rs != [] { assert rs == rs[..i] + [rs[i]]; }
  }
}
