/** The streaming merge of whack-ripe-prefixes.py. */
module RangeStream {
  import opened Options
  import opened Ranges
  import opened Canonizing
  import opened SetOperations

  /** None and 0 are both false. */
  predicate Truthy(n: Option<int>) {
    n.Some? && n.value != 0
  }

  /** The module-level variables of the script, and what it has written. */
  class Whacker {
    var prevMin: Option<int>
    var prevMax: Option<int>
    var out: seq<ResourceRange>

    /** The two variables are set together. */
    ghost predicate Valid()
      reads this
    {
      prevMin.Some? == prevMax.Some? && (prevMin.Some? ==> prevMin.value <= prevMax.value)
    }

    ghost function Prev(): Option<ResourceRange>
      reads this
      requires Valid()
    {
      if prevMin.Some? then Some(Range(prevMin.value, prevMax.value)) else None
    }

    constructor ()
      ensures Valid() && Prev() == None && out == []
    {
      prevMin, prevMax, out := None, None, [];
    }

    method Show()
      requires Valid()
      modifies this`out
      ensures out == old(out) + Shown(Prev())
    {
      if Truthy(prevMin) && Truthy(prevMax) {
        out := out + [Range(prevMin.value, prevMax.value)];
      }
    }

    /** The script's second half: for lines sorted by their first numbers the
        canonical list of those that start above 0. */
    method Whack(lines: seq<ResourceRange>)
      requires Valid() && Prev() == None && out == []
      modifies this
      ensures out == Stream(None, lines)
      ensures SortedByMin(lines) && AllAtLeast(lines, 0) ==> out == CanonicalForm(Positive(lines))
    {
      if SortedByMin(lines) && AllAtLeast(lines, 0) { StreamMeaning(lines); }
      ReadLines(lines);
    }

    /** The loop over the sorted lines, and the last call of show. */
    method ReadLines(lines: seq<ResourceRange>)
      requires Valid() && Prev() == None && out == []
      modifies this
      ensures out == Stream(None, lines)
    {
      for i := 0 to |lines|
        invariant Valid() && out + Stream(Prev(), lines[i..]) == Stream(None, lines)
      {
        assert lines[i..] == [lines[i]] + lines[i + 1..];
        TakeLine(lines[i], lines[i + 1..]);
      }
      assert lines[|lines|..] == [];
      Show();
    }

    /** The body of the loop. */
    method TakeLine(line: ResourceRange, ghost rest: seq<ResourceRange>)
      requires Valid()
      modifies this
      ensures Valid() && out + Stream(Prev(), rest) == old(out) + Stream(old(Prev()), [line] + rest)
    {
      var thisMin, thisMax := line.min, line.max;
      assert ([line] + rest)[1..] == rest;
      if Truthy(prevMin) && Truthy(prevMax) && prevMax.value + 1 >= thisMin {
        prevMin := Some(Min(prevMin.value, thisMin));
        prevMax := Some(Max(prevMax.value, thisMax));
      } else {
        Show();
        prevMin := Some(thisMin);
        prevMax := Some(thisMax);
        CatAssoc(old(out), Shown(old(Prev())), Stream(Prev(), rest));
      }
    }
  }

  predicate Present(prev: Option<ResourceRange>) {
    prev.Some? && prev.value.min != 0 && prev.value.max != 0
  }

  function Shown(prev: Option<ResourceRange>): seq<ResourceRange> {
    if Present(prev) then [prev.value] else []
  }

  /** What is still to be written when prev is held and lines are to come. */
  function Stream(prev: Option<ResourceRange>, lines: seq<ResourceRange>): seq<ResourceRange>
    decreases |lines|
  {
    if lines == [] then Shown(prev)
    else
      var next := lines[0];
      if Present(prev) && prev.value.max + 1 >= next.min then
        Stream(Some(Range(Min(prev.value.min, next.min), Max(prev.value.max, next.max))), lines[1..])
      else
        Shown(prev) + Stream(Some(next), lines[1..])
  }

  ghost predicate AllAtLeast(rs: seq<ResourceRange>, m: int) {
    forall k :: 0 <= k < |rs| ==> rs[k].min >= m
  }

  /** On positive numbers the script's loop is the merging loop of canonize. */
  lemma {:induction false} StreamIsCoalesce(cur: ResourceRange, lines: seq<ResourceRange>)
    requires SortedByMin([cur] + lines) && cur.min >= 1 && AllAtLeast(lines, 1)
    ensures Stream(Some(cur), lines) == Coalesce(Asn, true, cur, lines).ranges
    decreases |lines|
  {
    if lines != [] {
      SortedTail(cur, lines);
      if Joins(true, cur, lines[0]) {
        CoalesceStep(Asn, true, cur, lines);
        StreamIsCoalesce(Joined(cur, lines[0]), lines[1..]);
      } else {
        StreamIsCoalesce(lines[0], lines[1..]);
      }
    }
  }

  /** The lines that do not start at 0. */
  function Positive(lines: seq<ResourceRange>): seq<ResourceRange> {
    if lines == [] then []
    else if lines[0].min == 0 then Positive(lines[1..])
    else lines
  }

  /** From no range, or one that starts at 0, the loop forgets every range that
      starts at 0 and merges the others. */
  lemma {:induction false} StreamFromNothing(prev: Option<ResourceRange>, lines: seq<ResourceRange>)
    requires !Present(prev) && SortedByMin(lines) && AllAtLeast(lines, 0)
    ensures Stream(prev, lines) == CanonicalForm(Positive(lines))
    decreases |lines|
  {
    if lines == [] {
      assert Points([]) == iset{};
      CanonicalUnique([], CanonicalForm([]));
    } else if lines[0].min == 0 {
      StreamFromNothing(Some(lines[0]), lines[1..]);
    } else {
      assert lines == [lines[0]] + lines[1..];
      assert AllAtLeast(lines[1..], 1);
      StreamIsCoalesce(lines[0], lines[1..]);
      CoalesceOverflow(Asn, true, lines[0], lines[1..]);
      NeverTop(lines);
      CoalesceCanonical(Asn, true, lines[0], lines[1..]);
      CoalescePoints(Asn, true, lines[0], lines[1..]);
      CanonicalUnique(Stream(Some(lines[0]), lines[1..]), CanonicalForm(lines));
    }
  }

  lemma NeverTop(rs: seq<ResourceRange>)
    ensures !TopBeforeEnd(Asn, rs) && AllFit(Asn, rs)
  {
  }

  /** Over any lines sorted by their first numbers the script writes the
      canonical list of the lines that start above 0. */
  lemma StreamMeaning(lines: seq<ResourceRange>)
    requires SortedByMin(lines) && AllAtLeast(lines, 0)
    ensures Stream(None, lines) == CanonicalForm(Positive(lines))
  {
    StreamFromNothing(None, lines);
  }

  /** It writes what canonize(allow_overlap = True) computes over unbounded
      numbers exactly when no line starts at 0. */
  lemma StreamIsCanonize(lines: seq<ResourceRange>)
    requires SortedByMin(lines) && AllAtLeast(lines, 0)
    ensures Make(Asn, true, lines) == Returned(Stream(None, lines)) <==> AllAtLeast(lines, 1)
  {
    StreamMeaning(lines);
    MakeMeaning(Asn, true, lines);
    NoTopAmongNumbers(lines);
    PositiveLines(lines);
    if !AllAtLeast(lines, 1) {
      var k :| 0 <= k < |lines| && lines[k].min == 0;
      assert Within(lines[k], 0);
      assert 0 in Points(lines);
      PositivePoints(lines);
      assert 0 !in Points(CanonicalForm(Positive(lines)));
    }
  }

  /** A range that starts at 0 is lost. */
  lemma StreamLosesZero(line: ResourceRange)
    requires line.min == 0
    ensures Stream(None, [line]) == [] && Points([line]) != iset{}
  {
    assert [line][1..] == [];
    PointsOne(line);
    assert 0 in Points([line]);
  }

  lemma NoTopAmongNumbers(lines: seq<ResourceRange>)
    ensures AllFit(Asn, lines) && !TopFollowed(Asn, lines)
  {
  }

  lemma {:induction false} PositiveLines(lines: seq<ResourceRange>)
    ensures AllAtLeast(lines, 1) ==> Positive(lines) == lines
  {
  }

  lemma {:induction false} PositivePoints(lines: seq<ResourceRange>)
    requires SortedByMin(lines) && AllAtLeast(lines, 0)
    ensures !Has(Positive(lines), 0)
  {
    if lines != [] && lines[0].min == 0 { PositivePoints(lines[1..]); }
  }
}
