/** The loop of check_roa that deletes nested prefixes. */
module CheckRoa {
  import opened Bits
  import opened Bytes
  import opened Ranges
  import opened Sorting
  import opened Canonizing
  import opened SetAlgebra
  import opened SetOperations
  import opened Prefixes
  import opened RoaPrefixes

  /** An OpenSSL stack of the prefixes of one address family. */
  class AddressStack {
    const length: nat
    var items: seq<ResourceRange>

    constructor (length: nat, items: seq<ResourceRange>)
      ensures this.length == length && this.items == items
    {
      this.length, this.items := length, items;
    }

    /** The stack's own delete operation. */
    method Delete(k: nat)
      requires k < |items|
      modifies this
      ensures items == old(items)[..k] + old(items)[k + 1..]
    {
      items := items[..k] + items[k + 1..];
    }

    /** Deletes every prefix nested in another one. On a list sorted by the
        RFC 3779 rules exactly the maximal prefixes stay. */
    method DeleteNested()
      requires AllFit(Address(8 * length), items)
      modifies this
      ensures items == Denested(old(items))
      ensures AllBlocks(old(items)) && SortedBy(LeastSpecificFirst, old(items)) ==>
        Separated(items) && Points(items) == old(Points(items)) && forall r :: r in items <==> Maximal(r, old(items))
    {
      if AllBlocks(items) && SortedBy(LeastSpecificFirst, items) { DenestedMeaning(items); }
      DeleteLoop();
    }

    /** The loop. A range is compared through the byte strings of its last
        address, as v3_addr_get_range delivers them. */
    method DeleteLoop()
      requires AllFit(Address(8 * length), items)
      modifies this
      ensures items == Denested(old(items))
    {
      hide DenestFrom, Denested, MemCmp, ToBytes;
      ghost var result := Denested(items);
      DenestFromStart(items);
      var j := 0;
      while j < |items| - 1
        invariant 0 <= j && (j < |items| || (j == 0 && items == []))
        invariant AllFit(Address(8 * length), items)
        invariant result == DenestFrom(items, j)
        decreases |items| - j
      {
        var a, b := items[j], items[j + 1];
        assert RangeFits(Address(8 * length), a) && RangeFits(Address(8 * length), b);
        var aMax, bMax := ToBytes(a.max, length), ToBytes(b.max, length);
        CompareEnds(length, a.max, b.max);
        DenestStep(items, j);
        if MemCmp(aMax, bMax) >= 0 {
          Delete(j + 1);
          j := j - 1;
        }
        j := j + 1;
      }
      DenestFromEnd(items, j);
    }
  }

  lemma CompareEnds(length: nat, a: nat, b: nat)
    requires a < Pow2(8 * length) && b < Pow2(8 * length)
    ensures MemCmp(ToBytes(a, length), ToBytes(b, length)) >= 0 <==> a >= b
  {
    BytesRoundTrip(a, length);
    BytesRoundTrip(b, length);
    MemCmpNumeric(ToBytes(a, length), ToBytes(b, length));
  }

  /** What the loop keeps of cur and the ranges behind it. */
  function Keep(cur: ResourceRange, rest: seq<ResourceRange>): (kept: seq<ResourceRange>)
    decreases |rest|
  {
    if rest == [] then [cur]
    else if cur.max >= rest[0].max then Keep(cur, rest[1..])
    else [cur] + Keep(rest[0], rest[1..])
  }

  function Denested(items: seq<ResourceRange>): seq<ResourceRange> {
    if items == [] then [] else Keep(items[0], items[1..])
  }

  ghost function DenestFrom(items: seq<ResourceRange>, j: nat): seq<ResourceRange>
    requires j < |items| || items == []
  {
    if items == [] then [] else items[..j] + Keep(items[j], items[j + 1..])
  }

  lemma DenestFromStart(items: seq<ResourceRange>)
    ensures DenestFrom(items, 0) == Denested(items)
  {
  }

  lemma DenestFromEnd(items: seq<ResourceRange>, j: nat)
    requires (j < |items| || (j == 0 && items == [])) && j >= |items| - 1
    ensures DenestFrom(items, j) == items
  {
    if items != [] { assert items == items[..j] + [items[j]]; }
  }

  lemma DenestStep(items: seq<ResourceRange>, j: nat)
    requires j + 1 < |items|
    ensures if items[j].max >= items[j + 1].max then
        DenestFrom(items, j) == DenestFrom(items[..j + 1] + items[j + 2..], j)
      else DenestFrom(items, j) == DenestFrom(items, j + 1)
  {
    var rest := items[j + 1..];
    assert rest[0] == items[j + 1] && rest[1..] == items[j + 2..];
    if items[j].max >= items[j + 1].max {
      var t := items[..j + 1] + items[j + 2..];
      assert t[..j] == items[..j] && t[j] == items[j] && t[j + 1..] == items[j + 2..];
    } else {
      assert items[..j] + ([items[j]] + Keep(rest[0], rest[1..])) == items[..j + 1] + Keep(rest[0], rest[1..]);
    }
  }

  // ----- What the loop keeps

  predicate Nested(r: ResourceRange, q: ResourceRange) {
    q.min <= r.min && r.max <= q.max
  }

  /** r is on the list and inside no other range of it. */
  ghost predicate Maximal(r: ResourceRange, rs: seq<ResourceRange>) {
    r in rs && forall q :: q in rs && Nested(r, q) ==> q == r
  }

  /** Of two prefixes in order, the second is inside the first or behind it. */
  lemma NestedOrBehind(a: ResourceRange, b: ResourceRange)
    requires IsBlock(a) && IsBlock(b) && LeastSpecificFirst(a, b)
    ensures a.max >= b.max ==> Nested(b, a)
    ensures a.max < b.max ==> a.max < b.min
  {
    var j: nat :| Block(a, j);
    var k: nat :| Block(b, k);
    if b.min <= a.max {
      if j <= k { BlocksNest(a.min, j, b.min, k); } else { BlocksNest(b.min, k, a.min, j); }
    }
  }

  /** The list that Keep(cur, rest) is called for. */
  ghost predicate InOrder(cur: ResourceRange, rest: seq<ResourceRange>) {
    AllBlocks([cur] + rest) && SortedBy(LeastSpecificFirst, [cur] + rest)
  }

  lemma InOrderTail(cur: ResourceRange, rest: seq<ResourceRange>)
    requires InOrder(cur, rest) && rest != []
    ensures IsBlock(cur) && IsBlock(rest[0]) && LeastSpecificFirst(cur, rest[0])
    ensures InOrder(cur, rest[1..]) && InOrder(rest[0], rest[1..])
    ensures rest == [rest[0]] + rest[1..]
    ensures forall r :: r in rest ==> rest[0].min <= r.min
  {
    var s := [cur] + rest;
    assert s[0] == cur && s[1] == rest[0];
    assert rest == [rest[0]] + rest[1..];
    assert forall k :: 0 <= k < |rest| ==> rest[k] == s[k + 1];
    var t := [cur] + rest[1..];
    assert forall k :: 0 < k < |t| ==> t[k] == s[k + 1];
    forall i, j | 0 <= i < j < |t| ensures LeastSpecificFirst(t[i], t[j]) {
      if i == 0 { assert LeastSpecificFirst(s[0], s[j + 1]); } else { assert LeastSpecificFirst(s[i + 1], s[j + 1]); }
    }
    forall k | 0 <= k < |t| ensures IsBlock(t[k]) { if k > 0 { assert IsBlock(s[k + 1]); } }
    forall r | r in rest ensures rest[0].min <= r.min {
      var k :| 0 <= k < |rest| && rest[k] == r;
      if k > 0 { assert LeastSpecificFirst(s[1], s[k + 1]); }
    }
  }

  /** The loop keeps exactly the maximal prefixes, each once, in order and
      disjoint, and with them every address. */
  lemma {:induction false} KeepMeaning(cur: ResourceRange, rest: seq<ResourceRange>)
    requires InOrder(cur, rest)
    ensures var kept := Keep(cur, rest);
      && Separated(kept) && Points(kept) == Points([cur] + rest)
      && (forall r :: r in kept <==> Maximal(r, [cur] + rest))
    decreases |rest|
  {
    if rest == [] {
      assert [cur] + rest == [cur];
    } else {
      InOrderTail(cur, rest);
      NestedOrBehind(cur, rest[0]);
      if cur.max >= rest[0].max {
        KeepMeaning(cur, rest[1..]);
        SwallowedPoints(cur, rest);
        SwallowedMaximal(cur, rest);
      } else {
        var kept := Keep(rest[0], rest[1..]);
        KeepMeaning(rest[0], rest[1..]);
        BehindFirst(cur, rest, kept);
        MaximalFirst(cur, rest);
        PointsCat([cur], kept);
        PointsCat([cur], rest);
      }
    }
  }

  lemma SwallowedPoints(cur: ResourceRange, rest: seq<ResourceRange>)
    requires rest != [] && Nested(rest[0], cur)
    ensures Points([cur] + rest[1..]) == Points([cur] + rest)
  {
    forall x ensures x in Points([cur] + rest[1..]) <==> x in Points([cur] + rest) {
      HasCons(cur, rest[1..], x);
      HasCons(cur, rest, x);
      HasHead(rest, x);
    }
  }

  lemma SwallowedMaximal(cur: ResourceRange, rest: seq<ResourceRange>)
    requires rest != [] && Nested(rest[0], cur)
    ensures forall r :: Maximal(r, [cur] + rest[1..]) <==> Maximal(r, [cur] + rest)
  {
    var s, t := [cur] + rest, [cur] + rest[1..];
    assert rest == [rest[0]] + rest[1..];
    assert forall q :: q in s <==> q == rest[0] || q in t;
    assert cur in t;
  }

  lemma MaximalFirst(cur: ResourceRange, rest: seq<ResourceRange>)
    requires rest != [] && cur.max < rest[0].min && forall r :: r in rest ==> rest[0].min <= r.min
    ensures forall r :: Maximal(r, [cur] + rest) <==> r == cur || Maximal(r, rest)
  {
    var s := [cur] + rest;
    assert forall q :: q in s <==> q == cur || q in rest;
  }

  lemma BehindFirst(cur: ResourceRange, rest: seq<ResourceRange>, kept: seq<ResourceRange>)
    requires rest != [] && cur.max < rest[0].min && forall r :: r in rest ==> rest[0].min <= r.min
    requires Separated(kept) && Points(kept) == Points(rest)
    ensures Separated([cur] + kept)
  {
    forall x | Has(kept, x) ensures cur.max < x {
      assert x in Points(kept) && x in Points(rest);
      var k :| 0 <= k < |rest| && Within(rest[k], x);
      assert rest[k] in rest;
    }
    SeparatedCons(cur, kept);
  }

  /** DeleteNested on any sorted list of prefixes. */
  lemma DenestedMeaning(items: seq<ResourceRange>)
    requires AllBlocks(items) && SortedBy(LeastSpecificFirst, items)
    ensures Separated(Denested(items)) && Points(Denested(items)) == Points(items)
    ensures forall r :: r in Denested(items) <==> Maximal(r, items)
  {
    if items != [] {
      assert items == [items[0]] + items[1..];
      KeepMeaning(items[0], items[1..]);
    }
  }

  /** The C code and the Python code agree: whacking what DeleteNested leaves
      into canonical form gives the result of roa_prefix_set.to_resource_set on
      the same prefixes. */
  lemma BothWaysAgree(bits: nat, ini: seq<RoaPrefix>, items: seq<ResourceRange>)
    requires AllWellFormed(bits, ini)
    requires multiset(items) == multiset(RangesOf(bits, ini)) && SortedBy(LeastSpecificFirst, items)
    ensures AllWellFormed(bits, Sort(PrefixBefore, ini))
    ensures Make(Address(bits), false, Denested(items)) ==
      UniteAll(Address(bits), [], RangesOf(bits, Sort(PrefixBefore, ini)))
    ensures Make(Address(bits), false, Denested(items)).Returned?
  {
    var f := Address(bits);
    var rs := RangesOf(bits, ini);
    SameMembers(items, rs);
    assert AllFit(f, items);
    forall k | 0 <= k < |items| ensures IsBlock(items[k]) {
      assert items[k] in rs;
      var i :| 0 <= i < |rs| && rs[i] == items[k];
      assert Block(rs[i], bits - ini[i].prefixlen);
    }
    DenestedMeaning(items);
    PointsStayFit(f, items, Denested(items));
    MakeSeparated(f, false, Denested(items));
    MakeMeaning(f, false, Denested(items));
    ToResourceSetMeaning(bits, ini);
    CanonicalUnique(Make(f, false, Denested(items)).value,
                    UniteAll(f, [], RangesOf(bits, Sort(PrefixBefore, ini))).value);
  }

  lemma PointsStayFit(f: Family, a: seq<ResourceRange>, b: seq<ResourceRange>)
    requires AllFit(f, a) && Points(b) == Points(a)
    ensures AllFit(f, b)
  {
    PartsFit(f, a, a, b);
  }
}
