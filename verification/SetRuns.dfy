/** Whole histories of a resource set: any sequence of append, extend, canonize
    and contains after its construction. */
module SetRuns {
  import opened Ranges
  import opened Canonizing
  import opened SetOperations
  import opened ResourceSets

  datatype Op =
    | Append(item: ResourceRange)
    | Extend(items: seq<ResourceRange>)
    | Canonize(allowOverlap: bool)
    | Contains(query: Item)

  datatype Reply = Nothing | Answer(found: bool) | Failed(error: Error)

  /** The ranges an operation adds to the list. */
  function Added(op: Op): seq<ResourceRange> {
    match op
    case Append(r) => [r]
    case Extend(rs) => rs
    case _ => []
  }

  /** The effect of one operation on the two fields, and its reply. */
  ghost function Step(f: Family, s: SetState, op: Op): (SetState, Reply) {
    match op
    case Append(r) => (SetState(s.ranges + [r], false), Nothing)
    case Extend(rs) => (SetState(s.ranges + rs, false), Nothing)
    case Canonize(allow) =>
      var (t, out) := Canonized(f, allow, s);
      (t, if out.Raised? then Failed(out.error) else Nothing)
    case Contains(query) =>
      var (t, out) := Canonized(f, false, s);
      (t, if out.Raised? then Failed(out.error) else Answer(Inside(ItemRange(query), Points(s.ranges))))
  }

  /** The class performs these steps. */
  method Perform(s: ResourceSet, op: Op) returns (reply: Reply)
    requires s.Valid() && !s.inherit && AllFit(s.family, Added(op))
    modifies s
    ensures s.Valid() && !s.inherit
    ensures (s.State(), reply) == Step(s.family, old(s.State()), op)
  {
    reply := Nothing;
    match op
    case Append(r) =>
      assert r == Added(op)[0];
      s.Append(r);
    case Extend(rs) =>
      s.Extend(rs);
    case Canonize(allow) =>
      var out := s.Canonize(allow);
      if out.Raised? { reply := Failed(out.error); }
    case Contains(query) =>
      CanonizeMeaning(s.family, false, s.State());
      var out := s.Contains(query);
      match out
      case Raised(e) => reply := Failed(e);
      case Returned(b) => reply := Answer(b);
  }

  /** No operation asks for overlaps to be merged. */
  ghost predicate Strict(ops: seq<Op>) {
    forall op :: op in ops ==> op != Canonize(true)
  }

  /** Of all ranges added two share a point, and not both were there when a
      canonize last returned, after the first `settled` of them. */
  ghost predicate NewOverlap(added: seq<ResourceRange>, settled: nat) {
    exists i, j :: 0 <= i < j < |added| && settled <= j && Meet(added[i], added[j])
  }

  /** How many ranges are settled after an operation: a canonize that returns,
      on its own account or within contains, settles all of them. */
  function Settled(op: Op, reply: Reply, added: seq<ResourceRange>, settled: nat): nat {
    if (op.Canonize? || op.Contains?) && !reply.Failed? then |added| else settled
  }

  /** The reply is right, given all ranges added so far. */
  ghost predicate RightReply(op: Op, reply: Reply, strict: bool, added: seq<ResourceRange>, settled: nat) {
    && (op.Append? || op.Extend? ==> reply == Nothing)
    && (op.Contains? && reply.Answer? ==>
          match op.query
          case NumberItem(n) => reply.found <==> n in Points(added)
          case RangeItem(r) => reply.found <==> forall x :: r.min <= x <= r.max ==> x in Points(added))
    && (op == Canonize(false) || op.Contains? ==> (reply.Failed? <==> NewOverlap(added, settled)))
    && (op == Canonize(true) && reply.Failed? ==> reply.error == OverflowError && NewOverlap(added, settled))
    && (strict && (op.Canonize? || op.Contains?) ==> (reply.Failed? <==> Overlapping(added)))
    && (reply.Answer? ==> op.Contains?)
  }

  /** Along the whole run the flag tells the truth, the points are exactly those
      added, and every reply is right. */
  ghost predicate Faithful(f: Family, s: SetState, strict: bool, added: seq<ResourceRange>, settled: nat, ops: seq<Op>)
    decreases |ops|
  {
    && ValidState(f, s) && Points(s.ranges) == Points(added)
    && (ops != [] ==>
          var (t, reply) := Step(f, s, ops[0]);
          var all := added + Added(ops[0]);
          && RightReply(ops[0], reply, strict, all, settled)
          && (reply.Failed? ==> Raised(reply.error) == CanonizeOutcome(f, ops[0] == Canonize(true), s.ranges))
          && Faithful(f, t, strict, all, Settled(ops[0], reply, all, settled), ops[1..]))
  }

  /** What holds between operations. */
  ghost predicate Inv(f: Family, s: SetState, strict: bool, added: seq<ResourceRange>, settled: nat) {
    && ValidState(f, s) && Points(s.ranges) == Points(added) && settled <= |added|
    && (Overlapping(s.ranges) <==> NewOverlap(added, settled))
    && (strict ==> (Overlapping(s.ranges) <==> Overlapping(added)))
  }

  /** Two lists overlap exactly when one does or they share a point. */
  lemma {:induction false} OverlapCat(a: seq<ResourceRange>, b: seq<ResourceRange>)
    ensures Overlapping(a + b) <==>
      Overlapping(a) || Overlapping(b) || exists x :: x in Points(a) && x in Points(b)
  {
    if a == [] {
      assert a + b == b;
    } else {
      var t := a[1..];
      assert a + b == [a[0]] + (t + b) && a == [a[0]] + t;
      OverlapCat(t, b);
      OverlapHead(a[0], t + b);
      OverlapHead(a[0], t);
      forall x ensures Has(t + b, x) <==> Has(t, x) || Has(b, x) { HasCat(t, b, x); }
      forall x ensures x in Points(a) <==> Within(a[0], x) || Has(t, x) { HasHead(a, x); }
      assert forall x :: x in Points(b) <==> Has(b, x);
      assert forall x :: x in Points(t) <==> Has(t, x);
    }
  }

  /** A new overlap is one among the ranges added since, or one with the points
      that were there. */
  lemma NewOverlapSplit(added: seq<ResourceRange>, settled: nat)
    requires settled <= |added|
    ensures var was, recent := added[..settled], added[settled..];
      NewOverlap(added, settled) <==>
      Overlapping(recent) || exists x :: x in Points(was) && x in Points(recent)
  {
    var was, recent := added[..settled], added[settled..];
    if NewOverlap(added, settled) {
      var i, j :| 0 <= i < j < |added| && settled <= j && Meet(added[i], added[j]);
      if settled <= i {
        assert Meet(recent[i - settled], recent[j - settled]);
      } else {
        var x := Max(added[i].min, added[j].min);
        assert Within(was[i], x) && Within(recent[j - settled], x);
        assert x in Points(was) && x in Points(recent);
      }
    }
    if Overlapping(recent) {
      var i, j :| 0 <= i < j < |recent| && Meet(recent[i], recent[j]);
      assert Meet(added[settled + i], added[settled + j]);
    }
    if x :| x in Points(was) && x in Points(recent) {
      var i :| 0 <= i < |was| && Within(was[i], x);
      var j :| 0 <= j < |recent| && Within(recent[j], x);
      assert Meet(added[i], added[settled + j]);
    }
  }

  /** The counterpart of OverlapCat. */
  lemma NewOverlapCat(added: seq<ResourceRange>, settled: nat, more: seq<ResourceRange>)
    requires settled <= |added|
    ensures NewOverlap(added + more, settled) <==>
      NewOverlap(added, settled) || Overlapping(more) || exists x :: x in Points(added) && x in Points(more)
  {
    var was, recent := added[..settled], added[settled..];
    assert (added + more)[..settled] == was && (added + more)[settled..] == recent + more && added == was + recent;
    NewOverlapSplit(added, settled);
    NewOverlapSplit(added + more, settled);
    OverlapCat(recent, more);
    PointsCat(was, recent);
    PointsCat(recent, more);
  }

  lemma InvAdd(f: Family, s: SetState, strict: bool, added: seq<ResourceRange>, settled: nat, more: seq<ResourceRange>)
    requires Inv(f, s, strict, added, settled) && AllFit(f, more)
    ensures Inv(f, SetState(s.ranges + more, false), strict, added + more, settled)
  {
    PointsCat(s.ranges, more);
    PointsCat(added, more);
    OverlapCat(s.ranges, more);
    OverlapCat(added, more);
    NewOverlapCat(added, settled, more);
  }

  lemma InvCanonize(f: Family, s: SetState, strict: bool, added: seq<ResourceRange>, settled: nat, allow: bool)
    requires Inv(f, s, strict, added, settled) && (strict ==> !allow)
    ensures var (t, out) := Canonized(f, allow, s);
      && Inv(f, t, strict, added, if out.Returned? then |added| else settled)
      && (out.Raised? ==> NewOverlap(added, settled) && (allow ==> out.error == OverflowError))
      && (!allow ==> (out.Raised? <==> NewOverlap(added, settled)))
      && (strict ==> (out.Raised? <==> Overlapping(added)))
  {
    hide NewOverlap;
    CanonizeMeaning(f, allow, s);
    OverflowNeedsOverlap(f, s.ranges);
    OverflowNeedsOverlap(f, Canonized(f, allow, s).0.ranges);
    NothingNew(added);
    if !s.canonical { MergedFacts(f, allow, s.ranges); }
  }

  lemma NothingNew(added: seq<ResourceRange>)
    ensures !NewOverlap(added, |added|)
  {
  }

  lemma InvStep(f: Family, s: SetState, strict: bool, added: seq<ResourceRange>, settled: nat, op: Op)
    requires Inv(f, s, strict, added, settled) && AllFit(f, Added(op)) && (strict ==> op != Canonize(true))
    ensures var (t, reply) := Step(f, s, op); var all := added + Added(op);
      Inv(f, t, strict, all, Settled(op, reply, all, settled)) && RightReply(op, reply, strict, all, settled)
  {
    hide Inv;
    if op.Append? || op.Extend? {
      InvAdd(f, s, strict, added, settled, Added(op));
    } else {
      assert added + Added(op) == added;
      InvQuery(f, s, strict, added, settled, op);
    }
  }

  lemma InvQuery(f: Family, s: SetState, strict: bool, added: seq<ResourceRange>, settled: nat, op: Op)
    requires Inv(f, s, strict, added, settled) && (op.Canonize? || op.Contains?)
    requires strict ==> op != Canonize(true)
    ensures var (t, reply) := Step(f, s, op);
      Inv(f, t, strict, added, Settled(op, reply, added, settled)) && RightReply(op, reply, strict, added, settled)
  {
    hide Canonized, NewOverlap, Overlapping, Points;
    var allow := op == Canonize(true);
    InvCanonize(f, s, strict, added, settled, allow);
    if op.Contains? { ItemNumbers(op.query, Points(added)); }
    var (t, out) := Canonized(f, allow, s);
    assert op.Canonize? ==> op == Canonize(allow);
  }

  lemma {:induction false} RunFrom(f: Family, s: SetState, strict: bool, added: seq<ResourceRange>, settled: nat,
                                   ops: seq<Op>)
    requires Inv(f, s, strict, added, settled)
    requires forall op :: op in ops ==> AllFit(f, Added(op)) && (strict ==> op != Canonize(true))
    ensures Faithful(f, s, strict, added, settled, ops)
    decreases |ops|
  {
    if ops != [] {
      InvStep(f, s, strict, added, settled, ops[0]);
      var (t, reply) := Step(f, s, ops[0]);
      var all := added + Added(ops[0]);
      CanonizeMeaning(f, ops[0] == Canonize(true), s);
      RunFrom(f, t, strict, all, Settled(ops[0], reply, all, settled), ops[1..]);
    }
  }

  /** Every run from a construction that returned is faithful: answers of
      contains agree with the plain set of all points added, and canonize and
      contains raise exactly when a range added since canonize last returned
      overlaps any other range ever added. When overlaps are never asked to be
      merged, that is when two of all the ranges ever added overlap. */
  lemma RunsAreFaithful(f: Family, ini: seq<ResourceRange>, allow: bool, ops: seq<Op>)
    requires AllFit(f, ini) && forall op :: op in ops ==> AllFit(f, Added(op))
    requires Make(f, allow, ini).Returned?
    ensures Faithful(f, SetState(Make(f, allow, ini).value, true), !allow && Strict(ops), ini, |ini|, ops)
  {
    MakeMeaning(f, allow, ini);
    OverlapNone(Make(f, allow, ini).value);
    NothingNew(ini);
    RunFrom(f, SetState(Make(f, allow, ini).value, true), !allow && Strict(ops), ini, |ini|, ops);
  }

  lemma OverlapNone(rs: seq<ResourceRange>)
    requires Canonical(rs)
    ensures !Overlapping(rs)
  {
  }
}
