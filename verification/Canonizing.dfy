/** What canonize computes from a list of ranges, and what that result means. */
module Canonizing {
  import opened Bits
  import opened Ranges
  import opened Sorting

  datatype Error = ResourceOverlap | OverflowError | MustBePrefix | AssertionError

  datatype Outcome<+T> = Returned(value: T) | Raised(error: Error)

  /** cmp(a, b) <= 0: by min, then by max. */
  predicate Before(a: ResourceRange, b: ResourceRange) {
    a.min < b.min || (a.min == b.min && a.max <= b.max)
  }

  ghost predicate Sorted(rs: seq<ResourceRange>) {
    SortedBy(Before, rs)
  }

  ghost predicate SortedByMin(rs: seq<ResourceRange>) {
    forall i, j :: 0 <= i < j < |rs| ==> rs[i].min <= rs[j].min
  }

  lemma BeforeIsTotal()
    ensures TotalOrder(Before)
  {
  }

  // ----- Properties of a list that do not depend on its order

  ghost predicate SomePair(related: (ResourceRange, ResourceRange) -> bool, rs: seq<ResourceRange>) {
    exists i, j :: 0 <= i < j < |rs| && related(rs[i], rs[j])
  }

  ghost predicate SomeWith(related: (ResourceRange, ResourceRange) -> bool, r: ResourceRange, rs: seq<ResourceRange>) {
    exists s :: s in rs && related(r, s)
  }

  lemma SomePairHead(related: (ResourceRange, ResourceRange) -> bool, r: ResourceRange, rs: seq<ResourceRange>)
    ensures SomePair(related, [r] + rs) <==> SomeWith(related, r, rs) || SomePair(related, rs)
  {
    var t := [r] + rs;
    if SomePair(related, rs) {
      var i, j :| 0 <= i < j < |rs| && related(rs[i], rs[j]);
      assert related(t[i + 1], t[j + 1]);
    }
    if SomeWith(related, r, rs) {
      var s :| s in rs && related(r, s);
      var k :| 0 <= k < |rs| && rs[k] == s;
      assert related(t[0], t[k + 1]);
    }
    if SomePair(related, t) {
      var i, j :| 0 <= i < j < |t| && related(t[i], t[j]);
      if i == 0 { assert rs[j - 1] in rs; } else { assert related(rs[i - 1], rs[j - 1]); }
    }
  }

  lemma {:induction false} SomePairInsert(related: (ResourceRange, ResourceRange) -> bool,
                                          r: ResourceRange, rs: seq<ResourceRange>)
    requires forall a, b :: related(a, b) == related(b, a)
    ensures SomePair(related, Insert(Before, r, rs)) <==> SomePair(related, [r] + rs)
  {
    if rs != [] && !Before(r, rs[0]) {
      var t := rs[1..];
      assert rs == [rs[0]] + t;
      SomePairInsert(related, r, t);
      SomePairHead(related, rs[0], Insert(Before, r, t));
      SomePairHead(related, rs[0], t);
      SomePairHead(related, r, rs);
      SomePairHead(related, r, t);
      assert forall s :: s in Insert(Before, r, t) <==> s == r || s in t by {
        forall s ensures s in Insert(Before, r, t) <==> s == r || s in t {
          assert s in Insert(Before, r, t) <==> s in multiset(Insert(Before, r, t));
        }
      }
      assert SomeWith(related, rs[0], Insert(Before, r, t)) <==> related(rs[0], r) || SomeWith(related, rs[0], t);
      assert SomeWith(related, r, rs) <==> related(r, rs[0]) || SomeWith(related, r, t);
    }
  }

  lemma {:induction false} SomePairSort(related: (ResourceRange, ResourceRange) -> bool, rs: seq<ResourceRange>)
    requires forall a, b :: related(a, b) == related(b, a)
    ensures SomePair(related, Sort(Before, rs)) <==> SomePair(related, rs)
  {
    if rs != [] {
      var t := rs[1..];
      assert rs == [rs[0]] + t;
      SomePairSort(related, t);
      SomePairInsert(related, rs[0], Sort(Before, t));
      SomePairHead(related, rs[0], Sort(Before, t));
      SomePairHead(related, rs[0], t);
      assert forall s :: s in Sort(Before, t) <==> s in t by {
        forall s ensures s in Sort(Before, t) <==> s in t {
          assert s in Sort(Before, t) <==> s in multiset(Sort(Before, t));
        }
      }
    }
  }

  lemma SameMembers(a: seq<ResourceRange>, b: seq<ResourceRange>)
    requires multiset(a) == multiset(b)
    ensures forall r :: r in a <==> r in b
    ensures Points(a) == Points(b)
    ensures forall f :: AllFit(f, a) <==> AllFit(f, b)
  {
    assert forall r :: r in a <==> r in multiset(a);
    assert forall r :: r in b <==> r in multiset(b);
    assert forall x :: Has(a, x) ==> exists r :: r in a && Within(r, x);
    assert forall x :: Has(b, x) ==> exists r :: r in b && Within(r, x);
    forall f ensures AllFit(f, a) <==> AllFit(f, b) {
      if AllFit(f, a) { forall k | 0 <= k < |b| ensures RangeFits(f, b[k]) { assert b[k] in a; } }
      if AllFit(f, b) { forall k | 0 <= k < |a| ensures RangeFits(f, a[k]) { assert a[k] in b; } }
    }
  }

  /** The range a runs to the family's last number and b sorts after it. */
  predicate Tops(f: Family, a: ResourceRange, b: ResourceRange) {
    !Fits(f, a.max + 1) && Before(a, b)
  }

  /** Two of the given ranges are such that sorting puts one that runs to the
      all-ones address in front of the other. */
  ghost predicate TopFollowed(f: Family, rs: seq<ResourceRange>) {
    exists i, j :: 0 <= i < |rs| && 0 <= j < |rs| && i != j && Tops(f, rs[i], rs[j])
  }

  /** Some range other than the last runs to the all-ones address. */
  ghost predicate TopBeforeEnd(f: Family, rs: seq<ResourceRange>) {
    exists k :: 0 <= k < |rs| - 1 && !Fits(f, rs[k].max + 1)
  }

  lemma SortKeepsOverlap(rs: seq<ResourceRange>)
    ensures Overlapping(Sort(Before, rs)) <==> Overlapping(rs)
  {
    var related := (a: ResourceRange, b: ResourceRange) => Meet(a, b);
    assert forall s :: Overlapping(s) <==> SomePair(related, s) by {
      forall s ensures Overlapping(s) <==> SomePair(related, s) {
        if Overlapping(s) {
          var i, j :| 0 <= i < j < |s| && Meet(s[i], s[j]);
          assert related(s[i], s[j]);
        }
        if SomePair(related, s) {
          var i, j :| 0 <= i < j < |s| && related(s[i], s[j]);
          assert Meet(s[i], s[j]);
        }
      }
    }
    SomePairSort(related, rs);
  }

  lemma TopFollowedPairs(f: Family, related: (ResourceRange, ResourceRange) -> bool, s: seq<ResourceRange>)
    requires forall a, b :: related(a, b) <==> Tops(f, a, b) || Tops(f, b, a)
    ensures TopFollowed(f, s) <==> SomePair(related, s)
  {
    if TopFollowed(f, s) {
      var i, j :| 0 <= i < |s| && 0 <= j < |s| && i != j && Tops(f, s[i], s[j]);
      if i < j { assert related(s[i], s[j]); } else { assert related(s[j], s[i]); }
    }
    if SomePair(related, s) {
      var i, j :| 0 <= i < j < |s| && related(s[i], s[j]);
      assert Tops(f, s[i], s[j]) || Tops(f, s[j], s[i]);
    }
  }

  lemma SortKeepsTop(f: Family, rs: seq<ResourceRange>)
    ensures TopBeforeEnd(f, Sort(Before, rs)) <==> TopFollowed(f, rs)
  {
    var related := (a: ResourceRange, b: ResourceRange) => Tops(f, a, b) || Tops(f, b, a);
    TopFollowedPairs(f, related, rs);
    TopFollowedPairs(f, related, Sort(Before, rs));
    SomePairSort(related, rs);
    BeforeIsTotal();
    SortSorted(Before, rs);
    TopOfSorted(f, Sort(Before, rs));
  }

  lemma TopOfSorted(f: Family, s: seq<ResourceRange>)
    requires Sorted(s)
    ensures TopBeforeEnd(f, s) <==> TopFollowed(f, s)
  {
    if TopBeforeEnd(f, s) {
      var k :| 0 <= k < |s| - 1 && !Fits(f, s[k].max + 1);
      assert Tops(f, s[k], s[k + 1]);
    }
    if TopFollowed(f, s) {
      var i, j :| 0 <= i < |s| && 0 <= j < |s| && i != j && Tops(f, s[i], s[j]);
      if j < i { assert s[j] == s[i]; }
    }
  }

  // ----- The merging loop

  function Max(a: int, b: int): int { if a >= b then a else b }

  function Min(a: int, b: int): int { if a <= b then a else b }

  /** The list the loop leaves, and whether an addition raised OverflowError. */
  datatype Merge = Merge(ranges: seq<ResourceRange>, overflow: bool)

  /** The loop from the point where cur is the range at index i and rest is what
      follows it. */
  function Coalesce(f: Family, allowOverlap: bool, cur: ResourceRange, rest: seq<ResourceRange>): Merge
    decreases |rest|
  {
    if rest == [] then Merge([cur], false)
    else if !Fits(f, cur.max + 1) then Merge([cur] + rest, true)
    else if allowOverlap && cur.max + 1 >= rest[0].min then
      Coalesce(f, allowOverlap, Range(cur.min, Max(cur.max, rest[0].max)), rest[1..])
    else if cur.max + 1 == rest[0].min then
      Coalesce(f, allowOverlap, Range(cur.min, rest[0].max), rest[1..])
    else
      var m := Coalesce(f, allowOverlap, rest[0], rest[1..]);
      Merge([cur] + m.ranges, m.overflow)
  }

  /** The range the loop puts at index i when it merges cur with next. */
  function Joined(cur: ResourceRange, next: ResourceRange): ResourceRange {
    Range(cur.min, Max(cur.max, next.max))
  }

  /** cur and next are merged by the loop. */
  predicate Joins(allowOverlap: bool, cur: ResourceRange, next: ResourceRange) {
    cur.max + 1 == next.min || (allowOverlap && cur.max + 1 >= next.min)
  }

  lemma CoalesceStep(f: Family, allow: bool, cur: ResourceRange, rest: seq<ResourceRange>)
    requires rest != [] && Fits(f, cur.max + 1) && Joins(allow, cur, rest[0])
    ensures Coalesce(f, allow, cur, rest) == Coalesce(f, allow, Joined(cur, rest[0]), rest[1..])
  {
  }

  lemma SortedTail(cur: ResourceRange, rest: seq<ResourceRange>)
    requires SortedByMin([cur] + rest) && rest != []
    ensures rest == [rest[0]] + rest[1..] && SortedByMin(rest) && SortedByMin([Joined(cur, rest[0])] + rest[1..])
    ensures cur.min <= rest[0].min
    ensures forall k :: 0 <= k < |rest| ==> rest[0].min <= rest[k].min
  {
    FirstIsLeast(cur, rest);
    assert rest == [rest[0]] + rest[1..];
    MinCons(Joined(cur, rest[0]), rest[1..]);
  }

  lemma FirstIsLeast(cur: ResourceRange, rest: seq<ResourceRange>)
    requires SortedByMin([cur] + rest)
    ensures SortedByMin(rest) && forall k :: 0 <= k < |rest| ==> cur.min <= rest[k].min
  {
    var s := [cur] + rest;
    assert forall k :: 0 <= k < |rest| ==> s[k + 1] == rest[k];
    forall k | 0 <= k < |rest| ensures cur.min <= rest[k].min { assert s[0].min <= s[k + 1].min; }
  }

  lemma MinCons(r: ResourceRange, rs: seq<ResourceRange>)
    requires SortedByMin(rs) && forall k :: 0 <= k < |rs| ==> r.min <= rs[k].min
    ensures SortedByMin([r] + rs)
  {
  }

  /** The merging loop loses and invents no point, whether or not it raises. */
  lemma {:induction false} CoalescePoints(f: Family, allow: bool, cur: ResourceRange, rest: seq<ResourceRange>)
    requires SortedByMin([cur] + rest)
    ensures Points(Coalesce(f, allow, cur, rest).ranges) == Points([cur] + rest)
    decreases |rest|
  {
    if rest != [] && Fits(f, cur.max + 1) {
      SortedTail(cur, rest);
      assert rest == [rest[0]] + rest[1..];
      if Joins(allow, cur, rest[0]) {
        CoalesceStep(f, allow, cur, rest);
        CoalescePoints(f, allow, Joined(cur, rest[0]), rest[1..]);
        JoinedPoints(cur, rest);
      } else {
        CoalescePoints(f, allow, rest[0], rest[1..]);
        PointsCat([cur], Coalesce(f, allow, rest[0], rest[1..]).ranges);
        PointsCat([cur], rest);
      }
    } else if rest == [] {
      assert [cur] + rest == [cur];
    }
  }

  lemma JoinedPoints(cur: ResourceRange, rest: seq<ResourceRange>)
    requires rest != [] && cur.min <= rest[0].min <= cur.max + 1
    ensures Points([Joined(cur, rest[0])] + rest[1..]) == Points([cur] + rest)
  {
    forall x ensures x in Points([Joined(cur, rest[0])] + rest[1..]) <==> x in Points([cur] + rest) {
      HasCons(Joined(cur, rest[0]), rest[1..], x);
      HasCons(cur, rest, x);
      HasHead(rest, x);
    }
  }

  lemma SortedCons(r: ResourceRange, rs: seq<ResourceRange>)
    requires Sorted(rs) && (rs != [] ==> Before(r, rs[0]))
    ensures Sorted([r] + rs)
  {
    var s := [r] + rs;
    forall i, j | 0 <= i < j < |s| ensures Before(s[i], s[j]) {
      assert s[j] == rs[j - 1];
      if i > 0 { assert s[i] == rs[i - 1]; } else if j > 1 { assert Before(rs[0], rs[j - 1]); }
    }
  }

  lemma SortedRest(cur: ResourceRange, rest: seq<ResourceRange>)
    requires Sorted([cur] + rest) && rest != []
    ensures Sorted(rest) && Sorted(rest[1..]) && Before(cur, rest[0])
    ensures |rest| > 1 ==> Before(rest[0], rest[1])
    ensures rest == [rest[0]] + rest[1..]
  {
    var s := [cur] + rest;
    assert forall k :: 0 <= k < |rest| ==> s[k + 1] == rest[k];
    assert Before(s[0], s[1]);
  }

  /** What the loop leaves is still sorted. */
  lemma {:induction false} CoalesceSorted(f: Family, allow: bool, cur: ResourceRange, rest: seq<ResourceRange>)
    requires Sorted([cur] + rest)
    ensures Sorted(Coalesce(f, allow, cur, rest).ranges)
    decreases |rest|
  {
    if rest != [] && Fits(f, cur.max + 1) {
      SortedRest(cur, rest);
      if Joins(allow, cur, rest[0]) {
        CoalesceStep(f, allow, cur, rest);
        SortedCons(Joined(cur, rest[0]), rest[1..]);
        CoalesceSorted(f, allow, Joined(cur, rest[0]), rest[1..]);
      } else {
        CoalesceSorted(f, allow, rest[0], rest[1..]);
        JoinedHead(f, allow, rest[0], rest[1..]);
        SortedCons(cur, Coalesce(f, allow, rest[0], rest[1..]).ranges);
      }
    } else if rest == [] {
      assert [cur] + rest == [cur];
    }
  }

  /** The first range only grows. */
  lemma {:induction false} JoinedHead(f: Family, allow: bool, cur: ResourceRange, rest: seq<ResourceRange>)
    ensures var m := Coalesce(f, allow, cur, rest).ranges; m != [] && m[0].min == cur.min && m[0].max >= cur.max
    decreases |rest|
  {
    if rest != [] && Fits(f, cur.max + 1) && Joins(allow, cur, rest[0]) {
      CoalesceStep(f, allow, cur, rest);
      JoinedHead(f, allow, Joined(cur, rest[0]), rest[1..]);
    }
  }

  /** In what the loop leaves, no range up to the first that ends at the all-ones
      address should have been merged with the next. */
  lemma {:induction false} CoalesceNotAdjacent(f: Family, allow: bool, cur: ResourceRange, rest: seq<ResourceRange>)
    ensures var m := Coalesce(f, allow, cur, rest).ranges;
      forall k :: 0 <= k < |m| - 1 && NoTopUpTo(f, m, k) ==> !Joins(allow, m[k], m[k + 1])
    decreases |rest|
  {
    if rest != [] && Fits(f, cur.max + 1) {
      if Joins(allow, cur, rest[0]) {
        CoalesceStep(f, allow, cur, rest);
        CoalesceNotAdjacent(f, allow, Joined(cur, rest[0]), rest[1..]);
      } else {
        CoalesceNotAdjacent(f, allow, rest[0], rest[1..]);
        JoinedHead(f, allow, rest[0], rest[1..]);
        var t, m := Coalesce(f, allow, rest[0], rest[1..]).ranges, Coalesce(f, allow, cur, rest).ranges;
        forall k | 0 < k < |m| - 1 && NoTopUpTo(f, m, k) ensures !Joins(allow, m[k], m[k + 1]) {
          assert forall i :: 0 <= i < |t| ==> t[i] == m[i + 1];
          assert NoTopUpTo(f, t, k - 1);
        }
      }
    } else if rest != [] {
      assert Coalesce(f, allow, cur, rest).ranges[0] == cur;
    }
  }

  ghost predicate NoTopUpTo(f: Family, rs: seq<ResourceRange>, k: nat)
    requires k < |rs|
  {
    forall i :: 0 <= i <= k ==> Fits(f, rs[i].max + 1)
  }

  /** What the loop leaves is still sorted by min and starts where cur does. */
  lemma {:induction false} CoalesceOrder(f: Family, allow: bool, cur: ResourceRange, rest: seq<ResourceRange>)
    requires SortedByMin([cur] + rest)
    ensures var m := Coalesce(f, allow, cur, rest).ranges; m != [] && m[0].min == cur.min && SortedByMin(m)
    decreases |rest|
  {
    if rest != [] && Fits(f, cur.max + 1) {
      SortedTail(cur, rest);
      if Joins(allow, cur, rest[0]) {
        CoalesceStep(f, allow, cur, rest);
        CoalesceOrder(f, allow, Joined(cur, rest[0]), rest[1..]);
      } else {
        CoalesceOrder(f, allow, rest[0], rest[1..]);
      }
    }
  }

  /** The loop raises OverflowError exactly when a range before the last runs
      to the all-ones address, in the list it is given and in the one it leaves. */
  lemma {:induction false} CoalesceOverflow(f: Family, allow: bool, cur: ResourceRange, rest: seq<ResourceRange>)
    requires RangeFits(f, cur) && AllFit(f, rest)
    ensures var m := Coalesce(f, allow, cur, rest);
      && (m.overflow <==> TopBeforeEnd(f, [cur] + rest))
      && (m.overflow <==> TopBeforeEnd(f, m.ranges))
      && m.ranges != []
    decreases |rest|
  {
    if rest != [] && Fits(f, cur.max + 1) {
      assert rest == [rest[0]] + rest[1..];
      assert RangeFits(f, rest[0]);
      if Joins(allow, cur, rest[0]) {
        CoalesceStep(f, allow, cur, rest);
        CoalesceOverflow(f, allow, Joined(cur, rest[0]), rest[1..]);
        TopHead(f, cur, rest);
        TopHead(f, Joined(cur, rest[0]), rest[1..]);
        TopHead(f, rest[0], rest[1..]);
      } else {
        CoalesceOverflow(f, allow, rest[0], rest[1..]);
        TopHead(f, cur, rest);
        TopHead(f, cur, Coalesce(f, allow, rest[0], rest[1..]).ranges);
      }
    } else if rest != [] {
      TopHead(f, cur, rest);
    }
  }

  lemma TopHead(f: Family, r: ResourceRange, rs: seq<ResourceRange>)
    ensures TopBeforeEnd(f, [r] + rs) <==> rs != [] && (!Fits(f, r.max + 1) || TopBeforeEnd(f, rs))
  {
    var s := [r] + rs;
    if rs != [] && !Fits(f, r.max + 1) { assert !Fits(f, s[0].max + 1); }
    if TopBeforeEnd(f, rs) {
      var k :| 0 <= k < |rs| - 1 && !Fits(f, rs[k].max + 1);
      assert !Fits(f, s[k + 1].max + 1);
    }
    if TopBeforeEnd(f, s) {
      var k :| 0 <= k < |s| - 1 && !Fits(f, s[k].max + 1);
      if k > 0 { assert !Fits(f, rs[k - 1].max + 1); }
    }
  }

  /** Merging adjacent ranges neither hides an overlap nor makes one. */
  lemma {:induction false} CoalesceKeepsOverlap(f: Family, cur: ResourceRange, rest: seq<ResourceRange>)
    requires SortedByMin([cur] + rest)
    ensures Overlapping(Coalesce(f, false, cur, rest).ranges) <==> Overlapping([cur] + rest)
    decreases |rest|
  {
    if rest != [] && Fits(f, cur.max + 1) {
      SortedTail(cur, rest);
      var tail := rest[1..];
      assert rest == [rest[0]] + tail;
      OverlapHead(cur, rest);
      if Joins(false, cur, rest[0]) {
        CoalesceStep(f, false, cur, rest);
        CoalesceKeepsOverlap(f, Joined(cur, rest[0]), tail);
        OverlapHead(Joined(cur, rest[0]), tail);
        OverlapHead(rest[0], tail);
        forall x ensures Within(Joined(cur, rest[0]), x) && Has(tail, x) <==> Within(rest[0], x) && Has(tail, x) {
          MinOfTail(rest, x);
        }
        forall x ensures !(Within(cur, x) && Has(rest, x)) {
          MinOfTail(rest, x);
        }
      } else {
        var m := Coalesce(f, false, rest[0], tail).ranges;
        CoalesceKeepsOverlap(f, rest[0], tail);
        CoalescePoints(f, false, rest[0], tail);
        OverlapHead(cur, m);
        forall x ensures Has(m, x) <==> Has(rest, x) {
          assert Has(m, x) <==> x in Points(m);
          assert Has(rest, x) <==> x in Points(rest);
        }
      }
    }
  }

  lemma MinOfTail(rest: seq<ResourceRange>, x: int)
    requires rest != [] && forall k :: 0 <= k < |rest| ==> rest[0].min <= rest[k].min
    ensures Has(rest, x) || Has(rest[1..], x) ==> rest[0].min <= x
  {
    HasHead(rest, x);
  }

  /** A range meets one of a list exactly when the two share a point. */
  lemma OverlapHead(r: ResourceRange, rs: seq<ResourceRange>)
    ensures Overlapping([r] + rs) <==> Overlapping(rs) || exists x :: Within(r, x) && Has(rs, x)
  {
    var s := [r] + rs;
    if Overlapping(rs) {
      var i, j :| 0 <= i < j < |rs| && Meet(rs[i], rs[j]);
      assert Meet(s[i + 1], s[j + 1]);
    }
    if x :| Within(r, x) && Has(rs, x) {
      var k :| 0 <= k < |rs| && Within(rs[k], x);
      assert Meet(s[0], s[k + 1]);
    }
    if Overlapping(s) {
      var i, j :| 0 <= i < j < |s| && Meet(s[i], s[j]);
      if i == 0 {
        var x := Max(r.min, rs[j - 1].min);
        assert Within(r, x) && Within(rs[j - 1], x);
      } else {
        assert Meet(rs[i - 1], rs[j - 1]);
      }
    }
  }

  /** Without an exception the loop leaves canonical form, provided overlaps
      are merged or absent. */
  lemma {:induction false} CoalesceCanonical(f: Family, allow: bool, cur: ResourceRange, rest: seq<ResourceRange>)
    requires SortedByMin([cur] + rest)
    requires allow || !Overlapping([cur] + rest)
    requires !Coalesce(f, allow, cur, rest).overflow
    ensures Canonical(Coalesce(f, allow, cur, rest).ranges)
    decreases |rest|
  {
    if rest != [] {
      SortedTail(cur, rest);
      var tail := rest[1..];
      assert rest == [rest[0]] + tail;
      OverlapHead(cur, rest);
      OverlapHead(rest[0], tail);
      if Joins(allow, cur, rest[0]) {
        if !allow {
          OverlapHead(Joined(cur, rest[0]), tail);
          forall x ensures !(Within(Joined(cur, rest[0]), x) && Has(tail, x)) {
            MinOfTail(rest, x);
          }
        }
        CoalesceStep(f, allow, cur, rest);
        CoalesceCanonical(f, allow, Joined(cur, rest[0]), tail);
      } else {
        CoalesceCanonical(f, allow, rest[0], tail);
        CoalesceOrder(f, allow, rest[0], tail);
        var m := Coalesce(f, allow, rest[0], tail).ranges;
        if cur.max >= rest[0].min {
          HasHead(rest, rest[0].min);
          assert Within(cur, rest[0].min);
          assert false;
        }
        ConsCanonical(cur, m);
      }
    }
  }

  lemma ConsCanonical(r: ResourceRange, rs: seq<ResourceRange>)
    requires Canonical(rs) && (rs != [] ==> r.max + 1 < rs[0].min)
    ensures Canonical([r] + rs)
  {
    var s := [r] + rs;
    forall i, j | 0 <= i < j < |s| ensures s[i].max + 1 < s[j].min {
      if i == 0 && j > 1 { assert rs[0].max + 1 < rs[j - 1].min; }
    }
  }

  lemma {:induction false} CoalesceFits(f: Family, allow: bool, cur: ResourceRange, rest: seq<ResourceRange>)
    requires RangeFits(f, cur) && AllFit(f, rest)
    ensures AllFit(f, Coalesce(f, allow, cur, rest).ranges)
    decreases |rest|
  {
    if rest != [] && Fits(f, cur.max + 1) {
      assert RangeFits(f, rest[0]);
      if Joins(allow, cur, rest[0]) {
        CoalesceStep(f, allow, cur, rest);
        CoalesceFits(f, allow, Joined(cur, rest[0]), rest[1..]);
      } else {
        CoalesceFits(f, allow, rest[0], rest[1..]);
      }
    }
  }

  // ----- canonize

  /** The two fields canonize reads and writes. */
  datatype SetState = SetState(ranges: seq<ResourceRange>, canonical: bool)

  ghost predicate ValidState(f: Family, s: SetState) {
    AllFit(f, s.ranges) && (s.canonical ==> Canonical(s.ranges))
  }

  predicate ReachesNext(rs: seq<ResourceRange>, i: nat)
    requires i + 1 < |rs|
  {
    rs[i].max >= rs[i + 1].min
  }

  /** The scan that follows the loop finds no range that reaches the next one. */
  predicate NoneReachNext(rs: seq<ResourceRange>) {
    forall i :: 0 <= i < |rs| - 1 ==> !ReachesNext(rs, i)
  }

  /** The list canonize leaves behind and the flag of the merging loop. */
  function Merged(f: Family, allowOverlap: bool, rs: seq<ResourceRange>): Merge {
    var sorted := Sort(Before, rs);
    if sorted == [] then Merge([], false) else Coalesce(f, allowOverlap, sorted[0], sorted[1..])
  }

  /** The state after canonize, and whether it returned. */
  function Canonized(f: Family, allowOverlap: bool, s: SetState): (SetState, Outcome<()>) {
    if s.canonical then (s, Returned(()))
    else
      var m := Merged(f, allowOverlap, s.ranges);
      if m.overflow then (SetState(m.ranges, false), Raised(OverflowError))
      else if !NoneReachNext(m.ranges) then (SetState(m.ranges, false), Raised(ResourceOverlap))
      else (SetState(m.ranges, true), Returned(()))
  }

  /** When canonize raises, and what, as a property of the unsorted list. */
  ghost function CanonizeOutcome(f: Family, allowOverlap: bool, rs: seq<ResourceRange>): Outcome<()> {
    if TopFollowed(f, rs) then Raised(OverflowError)
    else if !allowOverlap && Overlapping(rs) then Raised(ResourceOverlap)
    else Returned(())
  }

  lemma MergedFacts(f: Family, allow: bool, rs: seq<ResourceRange>)
    requires AllFit(f, rs)
    ensures var m := Merged(f, allow, rs);
      && AllFit(f, m.ranges) && Sorted(m.ranges) && Points(m.ranges) == Points(rs)
      && (m.overflow <==> TopFollowed(f, rs)) && (m.overflow <==> TopFollowed(f, m.ranges))
      && (!allow ==> (Overlapping(m.ranges) <==> Overlapping(rs)))
      && (!m.overflow && (allow || !Overlapping(rs)) ==> Canonical(m.ranges))
  {
    var s := Sort(Before, rs);
    BeforeIsTotal();
    SortSorted(Before, rs);
    SameMembers(s, rs);
    SortKeepsOverlap(rs);
    SortKeepsTop(f, rs);
    if s != [] {
      assert s == [s[0]] + s[1..];
      CoalesceFits(f, allow, s[0], s[1..]);
      CoalesceSorted(f, allow, s[0], s[1..]);
      CoalescePoints(f, allow, s[0], s[1..]);
      CoalesceOverflow(f, allow, s[0], s[1..]);
      TopOfSorted(f, Merged(f, allow, rs).ranges);
      if !allow { CoalesceKeepsOverlap(f, s[0], s[1..]); }
      if !Merged(f, allow, rs).overflow && (allow || !Overlapping(rs)) { CoalesceCanonical(f, allow, s[0], s[1..]); }
    }
  }

  /** The scan of neighbours finds an overlap whenever there is one. */
  lemma {:induction false} ScanFindsOverlap(rs: seq<ResourceRange>)
    requires SortedByMin(rs)
    ensures NoneReachNext(rs) <==> !Overlapping(rs)
    ensures NoneReachNext(rs) <==> Separated(rs)
  {
    if Separated(rs) {
      assert !Overlapping(rs);
    }
    if !Overlapping(rs) {
      forall i, j | 0 <= i < j < |rs| ensures rs[i].max < rs[j].min {
        assert !Meet(rs[i], rs[j]);
      }
    }
    if NoneReachNext(rs) {
      forall i, j | 0 <= i < j < |rs| ensures rs[i].max < rs[j].min {
        assert !ReachesNext(rs, i);
        assert rs[i + 1].min <= rs[j].min;
      }
    }
  }

  /** Overflow needs an overlap: among disjoint ranges the addition never leaves
      the family's numbers. */
  lemma OverflowNeedsOverlap(f: Family, rs: seq<ResourceRange>)
    requires AllFit(f, rs)
    ensures TopFollowed(f, rs) ==> Overlapping(rs)
  {
    if TopFollowed(f, rs) {
      var i, j :| 0 <= i < |rs| && 0 <= j < |rs| && i != j && Tops(f, rs[i], rs[j]);
      assert RangeFits(f, rs[j]) && RangeFits(f, rs[i]);
      if i < j { assert Meet(rs[i], rs[j]); } else { assert Meet(rs[j], rs[i]); }
    }
  }

  lemma CanonicalQuiet(f: Family, rs: seq<ResourceRange>)
    requires AllFit(f, rs) && Separated(rs)
    ensures !Overlapping(rs) && !TopFollowed(f, rs)
  {
    assert !Overlapping(rs);
    OverflowNeedsOverlap(f, rs);
  }

  /** canonize keeps the points even when it raises, raises exactly when the
      given list calls for it, and otherwise leaves canonical form. */
  lemma CanonizeMeaning(f: Family, allow: bool, s: SetState)
    requires ValidState(f, s)
    ensures var (t, out) := Canonized(f, allow, s);
      && ValidState(f, t)
      && Points(t.ranges) == Points(s.ranges)
      && out == CanonizeOutcome(f, allow, s.ranges)
      && (t.canonical <==> out.Returned?)
  {
    if s.canonical {
      CanonicalQuiet(f, s.ranges);
    } else {
      MergedFacts(f, allow, s.ranges);
      var m := Merged(f, allow, s.ranges);
      ScanFindsOverlap(m.ranges);
    }
  }

  lemma TopFollowedNumbers(f: Family, rs: seq<ResourceRange>)
    requires AllFit(f, rs)
    ensures TopFollowed(f, rs) <==>
      && f.Address?
      && (exists i, j :: 0 <= i < |rs| && 0 <= j < |rs| && i != j
            && rs[i].max == Pow2(f.bits) - 1 && (rs[i].min < rs[j].min || rs[i] == rs[j]))
  {
    hide Pow2;
    if TopFollowed(f, rs) {
      var i, j :| 0 <= i < |rs| && 0 <= j < |rs| && i != j && Tops(f, rs[i], rs[j]);
      assert RangeFits(f, rs[i]) && RangeFits(f, rs[j]);
    }
    if f.Address? {
      var top := Pow2(f.bits) - 1;
      if i, j :| 0 <= i < |rs| && 0 <= j < |rs| && i != j && rs[i].max == top
                 && (rs[i].min < rs[j].min || rs[i] == rs[j]) {
        assert Tops(f, rs[i], rs[j]);
      }
    }
  }

  lemma OverlappingNumbers(rs: seq<ResourceRange>)
    ensures Overlapping(rs) <==>
      (exists i, j :: 0 <= i < j < |rs| && rs[i].min <= rs[j].max && rs[j].min <= rs[i].max)
  {
    if i, j :| 0 <= i < j < |rs| && rs[i].min <= rs[j].max && rs[j].min <= rs[i].max {
      assert Meet(rs[i], rs[j]);
    }
  }

  /** When canonize raises, in terms of the numbers in the list alone: OverflowError
      when a range that ends at the all-ones address has a smaller first address
      than another range or is there twice, else ResourceOverlap when two ranges
      share a number and that is not allowed. */
  lemma CanonizeRaises(f: Family, allow: bool, s: SetState)
    requires ValidState(f, s)
    ensures var out, rs := Canonized(f, allow, s).1, s.ranges;
      var overflows := f.Address?
        && (exists i, j :: 0 <= i < |rs| && 0 <= j < |rs| && i != j
              && rs[i].max == Pow2(f.bits) - 1 && (rs[i].min < rs[j].min || rs[i] == rs[j]));
      var overlaps := exists i, j :: 0 <= i < j < |rs| && rs[i].min <= rs[j].max && rs[j].min <= rs[i].max;
      && (out == Raised(OverflowError) <==> overflows)
      && (out == Raised(ResourceOverlap) <==> !overflows && overlaps && !allow)
      && (out.Returned? <==> !overflows && (overlaps ==> allow))
  {
    hide Canonized, Pow2, TopFollowed, Overlapping;
    CanonizeMeaning(f, allow, s);
    TopFollowedNumbers(f, s.ranges);
    OverlappingNumbers(s.ranges);
  }

  lemma MergedNotAdjacent(f: Family, allow: bool, rs: seq<ResourceRange>)
    ensures var m := Merged(f, allow, rs).ranges;
      forall k :: 0 <= k < |m| - 1 && NoTopUpTo(f, m, k) ==> !Joins(allow, m[k], m[k + 1])
  {
    hide Coalesce, Joins, NoTopUpTo;
    var sorted, m := Sort(Before, rs), Merged(f, allow, rs).ranges;
    if sorted != [] {
      CoalesceNotAdjacent(f, allow, sorted[0], sorted[1..]);
      assert m == Coalesce(f, allow, sorted[0], sorted[1..]).ranges;
      forall k | 0 <= k < |m| - 1 && NoTopUpTo(f, m, k) ensures !Joins(allow, m[k], m[k + 1]) { }
    }
  }

  /** What a canonize that raises leaves: the same numbers, sorted by first and then
      by last number, and merged up to the first range that ends at the all-ones
      address, if there is one. */
  lemma CanonizeLeaves(f: Family, allow: bool, s: SetState)
    requires ValidState(f, s) && Canonized(f, allow, s).1.Raised?
    ensures var (t, out) := Canonized(f, allow, s); var rs := t.ranges;
      && !t.canonical && Points(rs) == Points(s.ranges)
      && (forall i, j :: 0 <= i < j < |rs| ==>
            rs[i].min < rs[j].min || (rs[i].min == rs[j].min && rs[i].max <= rs[j].max))
      && (forall k :: 0 <= k < |rs| - 1 && NoTopUpTo(f, rs, k) ==>
            rs[k].max + 1 != rs[k + 1].min && (allow ==> rs[k].max + 1 < rs[k + 1].min))
  {
    MergedFacts(f, allow, s.ranges);
    hide Merged, NoTopUpTo;
    MergedNotAdjacent(f, allow, s.ranges);
    var rs := Merged(f, allow, s.ranges).ranges;
    forall i, j | 0 <= i < j < |rs|
      ensures rs[i].min < rs[j].min || (rs[i].min == rs[j].min && rs[i].max <= rs[j].max) {
      assert Before(rs[i], rs[j]);
    }
  }

  /** A canonize that raises changes nothing that a retry can see: whatever its
      argument, the retry ends as it would have on the list the failed call was
      given, and if it returns, with the same list. */
  lemma CanonizeRetry(f: Family, allow: bool, again: bool, s: SetState)
    requires ValidState(f, s)
    requires Canonized(f, allow, s).1.Raised?
    ensures var t := Canonized(f, allow, s).0;
      && Canonized(f, again, t).1 == Canonized(f, again, s).1
      && (Canonized(f, again, t).1.Returned? ==> Canonized(f, again, t) == Canonized(f, again, s))
  {
    hide Canonized, CanonizeOutcome;
    var t := Canonized(f, allow, s).0;
    CanonizeMeaning(f, allow, s);
    CanonizeMeaning(f, again, s);
    CanonizeMeaning(f, again, t);
    FailedKeepsOutcome(f, allow, again, s);
    if Canonized(f, again, t).1.Returned? {
      CanonicalUnique(Canonized(f, again, t).0.ranges, Canonized(f, again, s).0.ranges);
    }
  }

  lemma FailedKeepsOutcome(f: Family, allow: bool, again: bool, s: SetState)
    requires ValidState(f, s) && Canonized(f, allow, s).1.Raised?
    ensures CanonizeOutcome(f, again, Canonized(f, allow, s).0.ranges) == CanonizeOutcome(f, again, s.ranges)
  {
    MergedFacts(f, allow, s.ranges);
    CanonizeMeaning(f, allow, s);
  }
}
