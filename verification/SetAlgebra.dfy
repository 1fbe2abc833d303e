/** The two merge loops of resource_set, _comm and union, on lists of ranges. */
module SetAlgebra {
  import opened Ranges
  import opened Canonizing

  function Size(rs: seq<ResourceRange>): nat {
    if rs == [] then 0 else rs[0].max - rs[0].min + 1 + Size(rs[1..])
  }

  lemma {:induction false} SizeCat(a: seq<ResourceRange>, b: seq<ResourceRange>)
    ensures Size(a + b) == Size(a) + Size(b)
  {
    if a == [] {
      assert a + b == b;
    } else {
      assert (a + b)[1..] == a[1..] + b;
      SizeCat(a[1..], b);
    }
  }

  /** What the assertions of _rsplit and of the constructor ask of splitting one
      range by that. */
  predicate Splits(split: ResourceRange, that: ResourceRange) {
    if split.min < that.min then that.min <= split.max
    else split.min <= that.max < split.max
  }

  /** The two ranges _rsplit puts in the place of the one it splits. */
  function Halves(split: ResourceRange, that: ResourceRange): (h: seq<ResourceRange>)
    requires Splits(split, that)
  {
    if split.min < that.min then [Range(split.min, that.min - 1), Range(that.min, split.max)]
    else [Range(split.min, that.max), Range(that.max + 1, split.max)]
  }

  /** The two halves are exactly the range that was split, and at the front of
      a sorted disjoint list they leave it sorted and disjoint. */
  lemma HalvesPartition(split: ResourceRange, that: ResourceRange, rest: seq<ResourceRange>)
    requires Splits(split, that)
    ensures Points(Halves(split, that) + rest) == Points([split] + rest)
    ensures Size(Halves(split, that) + rest) == Size([split] + rest)
    ensures Separated([split] + rest) ==> Separated(Halves(split, that) + rest)
    ensures var h := Halves(split, that);
      |h| == 2 && h[1].min == h[0].max + 1 == if split.min < that.min then that.min else that.max + 1
  {
    var h := Halves(split, that);
    assert h == [h[0]] + [h[1]];
    SizeCat(h, rest);
    SizeCat([split], rest);
    forall x ensures x in Points(h + rest) <==> x in Points([split] + rest) {
      HasCat(h, rest, x);
      HasCons(h[0], [h[1]], x);
      HasOne(h[1], x);
      HasCons(split, rest, x);
    }
    if Separated([split] + rest) {
      var s := [split] + rest;
      forall i, j | 0 <= i < j < |h + rest| ensures (h + rest)[i].max < (h + rest)[j].min {
        if j >= 2 {
          assert s[j - 1] == rest[j - 2];
          if i >= 2 { assert s[i - 1] == rest[i - 2]; } else { assert s[0].max < s[j - 1].min; }
        }
      }
    }
  }

  /** The three lists _comm collects. */
  datatype Parts = Parts(only1: seq<ResourceRange>, only2: seq<ResourceRange>, both: seq<ResourceRange>)

  predicate FirstAlone(a: seq<ResourceRange>, b: seq<ResourceRange>) {
    a != [] && (b == [] || a[0].max < b[0].min)
  }

  /** The next step of _comm is a split. */
  predicate SplitNext(a: seq<ResourceRange>, b: seq<ResourceRange>) {
    a != [] && b != [] && !FirstAlone(a, b) && !FirstAlone(b, a) && a[0] != b[0]
  }

  /** The loop of _comm splits the front of the first list, not of the second. */
  predicate SplitsFirst(x: ResourceRange, y: ResourceRange) {
    x.min < y.min || (x.min == y.min && x.max > y.max)
  }

  /** The loop of _comm from the point where set1 and set2 hold a and b. */
  function Comm(a: seq<ResourceRange>, b: seq<ResourceRange>): Parts
    decreases Size(a) + Size(b), if SplitNext(a, b) then 1 else 0
  {
    if a == [] && b == [] then Parts([], [], [])
    else if FirstAlone(a, b) then
      var p := Comm(a[1..], b); p.(only1 := [a[0]] + p.only1)
    else if FirstAlone(b, a) then
      var p := Comm(a, b[1..]); p.(only2 := [b[0]] + p.only2)
    else if a[0] == b[0] then
      var p := Comm(a[1..], b[1..]); p.(both := [a[0]] + p.both)
    else if SplitsFirst(a[0], b[0]) then
      SizeOfSplit(a, b[0]);
      Comm(Halves(a[0], b[0]) + a[1..], b)
    else
      SizeOfSplit(b, a[0]);
      Comm(a, Halves(b[0], a[0]) + b[1..])
  }

  lemma SizeOfSplit(a: seq<ResourceRange>, that: ResourceRange)
    requires a != [] && Splits(a[0], that)
    ensures Size(Halves(a[0], that) + a[1..]) == Size(a)
  {
    HalvesPartition(a[0], that, a[1..]);
    assert a == [a[0]] + a[1..];
  }

  lemma SeparatedTail(rs: seq<ResourceRange>)
    requires rs != [] && Separated(rs)
    ensures Separated(rs[1..])
    ensures forall x :: Has(rs[1..], x) ==> rs[0].max < x
    ensures forall x :: Has(rs, x) ==> rs[0].min <= x
  {
    forall x | Has(rs[1..], x) ensures rs[0].max < x {
      var k :| 0 <= k < |rs[1..]| && Within(rs[1..][k], x);
      assert rs[0].max < rs[k + 1].min;
    }
    forall x | Has(rs, x) ensures rs[0].min <= x { HasHead(rs, x); }
  }

  lemma SeparatedCons(r: ResourceRange, rs: seq<ResourceRange>)
    requires Separated(rs) && forall x :: Has(rs, x) ==> r.max < x
    ensures Separated([r] + rs)
  {
    var s := [r] + rs;
    forall i, j | 0 <= i < j < |s| ensures s[i].max < s[j].min {
      assert s[j] == rs[j - 1];
      if i == 0 { assert Within(rs[j - 1], rs[j - 1].min) && Has(rs, s[j].min); } else { assert s[i] == rs[i - 1]; }
    }
  }

  /** The three lists are disjoint sorted lists that sort the points of the two
      operands into those of one only, of the other only, and of both. */
  ghost predicate Parted(a: seq<ResourceRange>, b: seq<ResourceRange>, p: Parts) {
    && Separated(p.only1) && Separated(p.only2) && Separated(p.both)
    && Points(p.only1) == Points(a) - Points(b)
    && Points(p.only2) == Points(b) - Points(a)
    && Points(p.both) == Points(a) * Points(b)
  }

  function Swap(p: Parts): Parts {
    Parts(p.only2, p.only1, p.both)
  }

  /** Exchanging the operands exchanges the first two lists. */
  lemma {:induction false} CommMirror(a: seq<ResourceRange>, b: seq<ResourceRange>)
    ensures Comm(b, a) == Swap(Comm(a, b))
    decreases Size(a) + Size(b), if SplitNext(a, b) then 1 else 0
  {
    if a == [] && b == [] {
    } else if FirstAlone(a, b) {
      CommMirror(a[1..], b);
    } else if FirstAlone(b, a) {
      CommMirror(a, b[1..]);
    } else if a[0] == b[0] {
      CommMirror(a[1..], b[1..]);
    } else if SplitsFirst(a[0], b[0]) {
      SizeOfSplit(a, b[0]);
      CommMirror(Halves(a[0], b[0]) + a[1..], b);
    } else {
      SizeOfSplit(b, a[0]);
      CommMirror(a, Halves(b[0], a[0]) + b[1..]);
    }
  }

  lemma PartedAlone(a: seq<ResourceRange>, b: seq<ResourceRange>, p: Parts)
    requires Separated(a) && Separated(b) && FirstAlone(a, b) && Parted(a[1..], b, p)
    ensures Parted(a, b, p.(only1 := [a[0]] + p.only1))
  {
    SeparatedTail(a);
    forall x ensures Within(a[0], x) ==> !Has(b, x) { if b != [] { SeparatedTail(b); } }
    assert forall x :: Has(p.only1, x) ==> x in Points(p.only1);
    SeparatedCons(a[0], p.only1);
    HeadPoints(a);
    PointsCat([a[0]], p.only1);
  }

  lemma HeadPoints(a: seq<ResourceRange>)
    requires a != []
    ensures Points(a) == Points([a[0]]) + Points(a[1..])
    ensures forall x :: x in Points([a[0]]) <==> Within(a[0], x)
  {
    assert a == [a[0]] + a[1..];
    PointsCat([a[0]], a[1..]);
    PointsOne(a[0]);
  }

  lemma PartedBoth(a: seq<ResourceRange>, b: seq<ResourceRange>, p: Parts)
    requires Separated(a) && Separated(b) && a != [] && b != [] && a[0] == b[0] && Parted(a[1..], b[1..], p)
    ensures Parted(a, b, p.(both := [a[0]] + p.both))
  {
    SeparatedTail(a);
    SeparatedTail(b);
    assert forall x :: Has(p.both, x) ==> x in Points(p.both);
    SeparatedCons(a[0], p.both);
    HeadPoints(a);
    HeadPoints(b);
    PointsCat([a[0]], p.both);
  }

  /** On disjoint sorted operands the loop sorts every point into its list. */
  lemma {:induction false} CommParts(a: seq<ResourceRange>, b: seq<ResourceRange>)
    requires Separated(a) && Separated(b)
    ensures Parted(a, b, Comm(a, b))
    decreases Size(a) + Size(b), if SplitNext(a, b) then 1 else 0
  {
    if a == [] && b == [] {
    } else if FirstAlone(a, b) {
      CommParts(a[1..], b);
      PartedAlone(a, b, Comm(a[1..], b));
    } else if FirstAlone(b, a) {
      CommParts(a, b[1..]);
      PartedAlone(b, a, Swap(Comm(a, b[1..])));
    } else if a[0] == b[0] {
      CommParts(a[1..], b[1..]);
      PartedBoth(a, b, Comm(a[1..], b[1..]));
    } else if SplitsFirst(a[0], b[0]) {
      assert a == [a[0]] + a[1..];
      HalvesPartition(a[0], b[0], a[1..]);
      CommParts(Halves(a[0], b[0]) + a[1..], b);
    } else {
      assert b == [b[0]] + b[1..];
      HalvesPartition(b[0], a[0], b[1..]);
      CommParts(a, Halves(b[0], a[0]) + b[1..]);
    }
  }

  // ----- union

  /** The number of leading ranges that end at or before m. */
  function Covered(rs: seq<ResourceRange>, m: int): (n: nat)
    ensures n <= |rs|
    ensures forall k :: 0 <= k < n ==> rs[k].max <= m
    ensures n < |rs| ==> rs[n].max > m
  {
    if rs == [] || rs[0].max > m then 0 else 1 + Covered(rs[1..], m)
  }

  function Hull(a: ResourceRange, b: ResourceRange): ResourceRange {
    Range(Min(a.min, b.min), Max(a.max, b.max))
  }

  /** What is left of a list after the inner loop has deleted from it. */
  function Beyond(rs: seq<ResourceRange>, m: int): seq<ResourceRange> {
    rs[Covered(rs, m)..]
  }

  /** The list the loop of union builds, from the point where set1 and set2 hold
      a and b. */
  function UnionList(a: seq<ResourceRange>, b: seq<ResourceRange>): seq<ResourceRange>
    decreases |a| + |b|
  {
    if a == [] && b == [] then []
    else if FirstAlone(a, b) then [a[0]] + UnionList(a[1..], b)
    else if FirstAlone(b, a) then [b[0]] + UnionList(a, b[1..])
    else
      var h := Hull(a[0], b[0]);
      [h] + UnionList(Beyond(a[1..], h.max), Beyond(b[1..], h.max))
  }

  lemma {:induction false} UnionMirror(a: seq<ResourceRange>, b: seq<ResourceRange>)
    ensures UnionList(a, b) == UnionList(b, a)
    decreases |a| + |b|
  {
    if a == [] && b == [] {
    } else if FirstAlone(a, b) {
      UnionMirror(a[1..], b);
    } else if FirstAlone(b, a) {
      UnionMirror(a, b[1..]);
    } else {
      var m := Hull(a[0], b[0]).max;
      UnionMirror(Beyond(a[1..], m), Beyond(b[1..], m));
    }
  }

  lemma SuffixSeparated(rs: seq<ResourceRange>, n: nat)
    requires Separated(rs) && n <= |rs|
    ensures Separated(rs[n..])
  {
  }

  /** The inner loop deletes only ranges that lie inside the merged range. */
  lemma CoveredInside(a: seq<ResourceRange>, h: ResourceRange)
    requires a != [] && Separated(a) && h.min <= a[0].min
    ensures forall k :: 0 <= k < Covered(a[1..], h.max) ==> h.min <= a[1..][k].min && a[1..][k].max <= h.max
  {
    forall k | 0 <= k < Covered(a[1..], h.max) ensures h.min <= a[1..][k].min {
      assert a[1..][k] == a[k + 1] && a[0].max < a[k + 1].min;
    }
  }

  /** So they add nothing to its points. */
  lemma BeyondPoints(a: seq<ResourceRange>, h: ResourceRange, x: int)
    requires a != [] && Separated(a) && h.min <= a[0].min && a[0].max <= h.max
    ensures Within(h, x) || Has(a, x) <==> Within(h, x) || Has(Beyond(a[1..], h.max), x)
  {
    var t := a[1..];
    var n := Covered(t, h.max);
    CoveredInside(a, h);
    assert t == t[..n] + t[n..];
    HasHead(a, x);
    HasCat(t[..n], t[n..], x);
  }

  /** The points of the list union builds are exactly those of its operands,
      whether or not the list turns out to overlap. */
  lemma {:induction false} UnionPoints(a: seq<ResourceRange>, b: seq<ResourceRange>)
    requires Separated(a) && Separated(b)
    ensures Points(UnionList(a, b)) == Points(a) + Points(b)
    decreases |a| + |b|
  {
    if a == [] && b == [] {
    } else if FirstAlone(a, b) {
      SeparatedTail(a);
      UnionPoints(a[1..], b);
      HeadPoints(a);
      PointsCat([a[0]], UnionList(a[1..], b));
    } else if FirstAlone(b, a) {
      SeparatedTail(b);
      UnionPoints(a, b[1..]);
      HeadPoints(b);
      PointsCat([b[0]], UnionList(a, b[1..]));
    } else {
      var m := Hull(a[0], b[0]).max;
      SuffixSeparated(a, 1);
      SuffixSeparated(b, 1);
      SuffixSeparated(a[1..], Covered(a[1..], m));
      SuffixSeparated(b[1..], Covered(b[1..], m));
      UnionPoints(Beyond(a[1..], m), Beyond(b[1..], m));
      HullPoints(a, b, UnionList(Beyond(a[1..], m), Beyond(b[1..], m)));
    }
  }

  /** The merged range and what is left hold the points of both operands. */
  lemma HullPoints(a: seq<ResourceRange>, b: seq<ResourceRange>, u: seq<ResourceRange>)
    requires Separated(a) && Separated(b) && a != [] && b != [] && Meet(a[0], b[0])
    requires var m := Hull(a[0], b[0]).max; Points(u) == Points(Beyond(a[1..], m)) + Points(Beyond(b[1..], m))
    ensures Points([Hull(a[0], b[0])] + u) == Points(a) + Points(b)
  {
    var h := Hull(a[0], b[0]);
    forall x ensures x in Points([h] + u) <==> x in Points(a) + Points(b) {
      HasCons(h, u, x);
      assert Has(u, x) <==> x in Points(u);
      BeyondPoints(a, h, x);
      BeyondPoints(b, h, x);
      HasHead(a, x);
      HasHead(b, x);
    }
  }

  /** Range i of a meets ranges j and k of b, the later of which runs past it. */
  predicate ClashAt(a: seq<ResourceRange>, b: seq<ResourceRange>, i: nat, j: nat, k: nat) {
    i < |a| && j < k < |b| && Meet(a[i], b[j]) && Meet(a[i], b[k]) && b[k].max > a[i].max
  }

  ghost predicate Clash(a: seq<ResourceRange>, b: seq<ResourceRange>) {
    exists i: nat, j: nat, k: nat :: ClashAt(a, b, i, j, k)
  }

  /** A clash of two suffixes is one of the lists. */
  lemma ClashShift(a: seq<ResourceRange>, b: seq<ResourceRange>, m: nat, n: nat)
    requires m <= |a| && n <= |b|
    ensures Clash(a[m..], b[n..]) ==> Clash(a, b)
  {
    if Clash(a[m..], b[n..]) {
      var i: nat, j: nat, k: nat :| ClashAt(a[m..], b[n..], i, j, k);
      assert ClashAt(a, b, i + m, j + n, k + n);
    }
  }

  /** A range that meets nothing of the other list takes part in no clash. */
  lemma ClashAlone(a: seq<ResourceRange>, b: seq<ResourceRange>)
    requires a != [] && forall k :: 0 <= k < |b| ==> !Meet(a[0], b[k])
    ensures Clash(a, b) <==> Clash(a[1..], b)
    ensures Clash(b, a) <==> Clash(b, a[1..])
  {
    assert b[0..] == b;
    ClashShift(a, b, 1, 0);
    ClashShift(b, a, 0, 1);
    if Clash(a, b) {
      var i: nat, j: nat, k: nat :| ClashAt(a, b, i, j, k);
      assert ClashAt(a[1..], b, i - 1, j, k);
    }
    if Clash(b, a) {
      var i: nat, j: nat, k: nat :| ClashAt(b, a, i, j, k);
      assert ClashAt(b, a[1..], i, j - 1, k - 1);
    }
  }

  /** b, once the ranges up to m are deleted behind its first one, still reaches
      back to m. */
  ghost predicate Reaches(b: seq<ResourceRange>, m: int)
    requires b != []
  {
    var t := Beyond(b[1..], m);
    t != [] && t[0].min <= m
  }

  /** When the first ranges meet and a's is the one that runs further, a clash
      is either a range of b reaching past it or a clash of what is left. */
  lemma ClashMerge(a: seq<ResourceRange>, b: seq<ResourceRange>)
    requires Separated(a) && Separated(b) && a != [] && b != [] && Meet(a[0], b[0]) && b[0].max <= a[0].max
    ensures var m := a[0].max; var t := Beyond(b[1..], m);
      Clash(a, b) || Clash(b, a) <==> Reaches(b, m) || Clash(a[1..], t) || Clash(t, a[1..])
  {
    var m := a[0].max;
    var n := 1 + Covered(b[1..], m);
    assert Beyond(b[1..], m) == b[n..];
    CoveredAll(b, m);
    ClashShift(a, b, 1, n);
    ClashShift(b, a, n, 1);
    if Reaches(b, m) {
      assert b[n..][0] == b[n] && b[n] == b[1..][n - 1] && b[0].max < b[n].min;
      assert ClashAt(a, b, 0, 0, n);
    }
    if Clash(a, b) {
      var i: nat, j: nat, k: nat :| ClashAt(a, b, i, j, k);
      ClashForward(a, b, n, i, j, k);
    }
    if Clash(b, a) {
      var i: nat, j: nat, k: nat :| ClashAt(b, a, i, j, k);
      ClashBackward(a, b, n, i, j, k);
    }
  }

  lemma CoveredAll(b: seq<ResourceRange>, m: int)
    requires b != [] && b[0].max <= m
    ensures forall k :: 0 <= k < 1 + Covered(b[1..], m) ==> b[k].max <= m
  {
    forall k | 0 <= k < 1 + Covered(b[1..], m) ensures b[k].max <= m {
      if k > 0 { assert b[k] == b[1..][k - 1]; }
    }
  }

  lemma ClashForward(a: seq<ResourceRange>, b: seq<ResourceRange>, n: nat, i: nat, j: nat, k: nat)
    requires Separated(a) && Separated(b) && a != [] && 1 <= n <= |b|
    requires forall k :: 0 <= k < n ==> b[k].max <= a[0].max
    requires ClashAt(a, b, i, j, k)
    ensures (n < |b| && b[n].min <= a[0].max) || Clash(a[1..], b[n..])
  {
    if i == 0 {
      if n < k { assert b[n].max < b[k].min; }
    } else {
      assert a[0].max < a[i].min;
      assert ClashAt(a[1..], b[n..], i - 1, j - n, k - n);
    }
  }

  lemma ClashBackward(a: seq<ResourceRange>, b: seq<ResourceRange>, n: nat, i: nat, j: nat, k: nat)
    requires Separated(a) && Separated(b) && a != [] && 1 <= n <= |b|
    requires forall k :: 0 <= k < n ==> b[k].max <= a[0].max
    requires ClashAt(b, a, i, j, k)
    ensures (n < |b| && b[n].min <= a[0].max) || Clash(b[n..], a[1..])
  {
    assert a[0].max < a[k].min;
    if j == 0 {
      if n < i { assert b[n].max < b[i].min; }
    } else {
      assert ClashAt(b[n..], a[1..], i - n, j - 1, k - 1);
    }
  }

  /** The list union builds overlaps exactly when the operands clash. */
  lemma {:induction false} UnionOverlap(a: seq<ResourceRange>, b: seq<ResourceRange>)
    requires Separated(a) && Separated(b)
    ensures OverlapsIffClash(a, b)
    decreases |a| + |b|
  {
    if a == [] && b == [] {
    } else if FirstAlone(a, b) {
      UnionOverlapAlone(a, b);
      SeparatedTail(a);
      UnionOverlap(a[1..], b);
    } else if FirstAlone(b, a) {
      UnionMirror(a, b);
      UnionMirror(a, b[1..]);
      UnionOverlapAlone(b, a);
      SeparatedTail(b);
      UnionOverlap(a, b[1..]);
    } else {
      SuffixSeparated(a, 1);
      SuffixSeparated(b, 1);
      var m := Hull(a[0], b[0]).max;
      BeyondPast(a[1..], m);
      BeyondPast(b[1..], m);
      UnionOverlap(Beyond(a[1..], m), Beyond(b[1..], m));
      UnionOverlapMeet(a, b);
    }
  }

  ghost predicate OverlapsIffClash(a: seq<ResourceRange>, b: seq<ResourceRange>) {
    Overlapping(UnionList(a, b)) <==> Clash(a, b) || Clash(b, a)
  }

  lemma OverlapsIffClashMirror(a: seq<ResourceRange>, b: seq<ResourceRange>)
    ensures OverlapsIffClash(a, b) <==> OverlapsIffClash(b, a)
  {
    UnionMirror(a, b);
  }

  /** UnionOverlap when the first ranges meet, given what is left. */
  lemma UnionOverlapMeet(a: seq<ResourceRange>, b: seq<ResourceRange>)
    requires Separated(a) && Separated(b) && a != [] && b != [] && Meet(a[0], b[0])
    requires var m := Hull(a[0], b[0]).max; OverlapsIffClash(Beyond(a[1..], m), Beyond(b[1..], m))
    ensures OverlapsIffClash(a, b)
  {
    if b[0].max <= a[0].max {
      UnionOverlapMerge(a, b);
    } else {
      var m := Hull(a[0], b[0]).max;
      OverlapsIffClashMirror(Beyond(a[1..], m), Beyond(b[1..], m));
      UnionOverlapMerge(b, a);
      OverlapsIffClashMirror(a, b);
    }
  }

  lemma UnionOverlapAlone(a: seq<ResourceRange>, b: seq<ResourceRange>)
    requires Separated(a) && Separated(b) && FirstAlone(a, b)
    ensures Overlapping(UnionList(a, b)) <==> Overlapping(UnionList(a[1..], b))
    ensures Clash(a, b) <==> Clash(a[1..], b)
    ensures Clash(b, a) <==> Clash(b, a[1..])
  {
    var u := UnionList(a[1..], b);
    SeparatedTail(a);
    if b != [] { SeparatedTail(b); }
    forall k | 0 <= k < |b| ensures !Meet(a[0], b[k]) { assert Within(b[k], b[k].min); }
    ClashAlone(a, b);
    UnionPoints(a[1..], b);
    assert forall x :: Has(u, x) <==> x in Points(a[1..]) + Points(b);
    OverlapHead(a[0], u);
  }

  lemma UnionOverlapMerge(a: seq<ResourceRange>, b: seq<ResourceRange>)
    requires Separated(a) && Separated(b) && a != [] && b != [] && Meet(a[0], b[0]) && b[0].max <= a[0].max
    requires var m := Hull(a[0], b[0]).max; OverlapsIffClash(Beyond(a[1..], m), Beyond(b[1..], m))
    ensures OverlapsIffClash(a, b)
  {
    var h := Hull(a[0], b[0]);
    var a', b' := Beyond(a[1..], h.max), Beyond(b[1..], h.max);
    assert a' == a[1..] by { if |a| > 1 { assert a[0].max < a[1].min; } }
    OverlapHead(h, UnionList(a', b'));
    ReachesPoints(a, b);
    ClashMerge(a, b);
  }

  /** The merged range shares a point with what follows it exactly when the
      shorter operand reaches back. */
  lemma ReachesPoints(a: seq<ResourceRange>, b: seq<ResourceRange>)
    requires Separated(a) && Separated(b) && a != [] && b != [] && Meet(a[0], b[0]) && b[0].max <= a[0].max
    ensures var h := Hull(a[0], b[0]);
      Reaches(b, h.max) <==> exists x :: Within(h, x) && Has(UnionList(a[1..], Beyond(b[1..], h.max)), x)
  {
    var h := Hull(a[0], b[0]);
    var s, t := a[1..], Beyond(b[1..], h.max);
    var u := UnionList(s, t);
    SeparatedTail(a);
    SuffixSeparated(b, 1);
    BeyondPast(b[1..], h.max);
    UnionPoints(s, t);
    assert forall x :: Has(u, x) <==> x in Points(s) + Points(t);
    if t != [] {
      SeparatedTail(t);
      var x := Max(t[0].min, h.min);
      if Reaches(b, h.max) {
        assert Within(t[0], x);
        assert Within(h, x) && Has(u, x);
      }
    }
    if x :| Within(h, x) && Has(u, x) { assert Has(t, x); }
  }

  // ----- the order of the list union builds

  ghost predicate AllPast(rs: seq<ResourceRange>, m: int) {
    forall k :: 0 <= k < |rs| ==> rs[k].max > m
  }

  ghost predicate MaxAscending(rs: seq<ResourceRange>) {
    forall i, j :: 0 <= i < j < |rs| ==> rs[i].max < rs[j].max
  }

  lemma {:induction false} UnionPast(a: seq<ResourceRange>, b: seq<ResourceRange>, m: int)
    requires AllPast(a, m) && AllPast(b, m)
    ensures AllPast(UnionList(a, b), m)
    decreases |a| + |b|
  {
    if a == [] && b == [] {
    } else if FirstAlone(a, b) {
      UnionPast(a[1..], b, m);
    } else if FirstAlone(b, a) {
      UnionPast(a, b[1..], m);
    } else {
      var h := Hull(a[0], b[0]);
      UnionPast(Beyond(a[1..], h.max), Beyond(b[1..], h.max), m);
    }
  }

  lemma BeyondPast(rs: seq<ResourceRange>, m: int)
    requires Separated(rs)
    ensures AllPast(Beyond(rs, m), m) && Separated(Beyond(rs, m))
  {
    var n := Covered(rs, m);
    forall k | n <= k < |rs| ensures rs[k].max > m { if n < k { assert rs[n].max < rs[k].min; } }
  }

  lemma TailPast(rs: seq<ResourceRange>)
    requires rs != [] && Separated(rs)
    ensures AllPast(rs[1..], rs[0].max) && Separated(rs[1..])
  {
    forall k | 1 <= k < |rs| ensures rs[k].max > rs[0].max { assert rs[0].max < rs[k].min; }
  }

  /** The list is appended to in order: both ends of its ranges ascend. */
  lemma {:induction false} UnionOrder(a: seq<ResourceRange>, b: seq<ResourceRange>)
    requires Separated(a) && Separated(b)
    ensures Sorted(UnionList(a, b)) && MaxAscending(UnionList(a, b))
    decreases |a| + |b|
  {
    if a == [] && b == [] {
    } else if FirstAlone(a, b) {
      TailPast(a);
      if b != [] { SeparatedPast(b, a[0].max); }
      UnionOrder(a[1..], b);
      UnionStep(a, b, a[0], a[1..], b);
    } else if FirstAlone(b, a) {
      TailPast(b);
      if a != [] { SeparatedPast(a, b[0].max); }
      UnionOrder(a, b[1..]);
      UnionStep(a, b, b[0], a, b[1..]);
    } else {
      var h := Hull(a[0], b[0]);
      TailPast(a);
      TailPast(b);
      BeyondPast(a[1..], h.max);
      BeyondPast(b[1..], h.max);
      UnionOrder(Beyond(a[1..], h.max), Beyond(b[1..], h.max));
      forall x ensures (Has(Beyond(a[1..], h.max), x) ==> Within(h, x) || Has(a, x))
        && (Has(Beyond(b[1..], h.max), x) ==> Within(h, x) || Has(b, x)) {
        BeyondPoints(a, h, x);
        BeyondPoints(b, h, x);
      }
      UnionStep(a, b, h, Beyond(a[1..], h.max), Beyond(b[1..], h.max));
    }
  }

  lemma SeparatedPast(rs: seq<ResourceRange>, m: int)
    requires rs != [] && Separated(rs) && m < rs[0].min
    ensures AllPast(rs, m)
  {
    forall k | 0 <= k < |rs| ensures rs[k].max > m { if k > 0 { assert rs[0].max < rs[k].min; } }
  }

  lemma UnionStep(a: seq<ResourceRange>, b: seq<ResourceRange>, h: ResourceRange,
                  a': seq<ResourceRange>, b': seq<ResourceRange>)
    requires Separated(a') && Separated(b') && AllPast(a', h.max) && AllPast(b', h.max)
    requires Separated(a) && Separated(b)
    requires a != [] ==> h.min <= a[0].min
    requires b != [] ==> h.min <= b[0].min
    requires forall x :: Has(a', x) ==> Within(h, x) || Has(a, x)
    requires forall x :: Has(b', x) ==> Within(h, x) || Has(b, x)
    requires Sorted(UnionList(a', b')) && MaxAscending(UnionList(a', b'))
    ensures Sorted([h] + UnionList(a', b')) && MaxAscending([h] + UnionList(a', b'))
  {
    var u := UnionList(a', b');
    UnionPast(a', b', h.max);
    UnionPoints(a', b');
    if a != [] { SeparatedTail(a); }
    if b != [] { SeparatedTail(b); }
    forall k | 0 <= k < |u| ensures h.min <= u[k].min && h.max < u[k].max {
      var x := u[k].min;
      assert Within(u[k], x);
      assert x in Points(u);
      assert x in Points(a') + Points(b');
    }
    OrderCons(h, u);
  }

  lemma OrderCons(h: ResourceRange, u: seq<ResourceRange>)
    requires Sorted(u) && MaxAscending(u)
    requires forall k :: 0 <= k < |u| ==> h.min <= u[k].min && h.max < u[k].max
    ensures Sorted([h] + u) && MaxAscending([h] + u)
  {
    var s := [h] + u;
    forall i, j | 0 <= i < j < |s| ensures Before(s[i], s[j]) && s[i].max < s[j].max {
      assert s[j] == u[j - 1];
      if i > 0 { assert s[i] == u[i - 1]; assert Before(u[i - 1], u[j - 1]); }
    }
  }
}
