/**
 Aggregates over shards: each shard reduces its own points, and the partial
 results are reduced once more. The result must not depend on how the points were
 spread over shards or in which order they came.
 */
module Aggregates {
  import opened Wrappers
  import opened Arithmetic
  import opened Collections

  datatype Point = Point(time: int, value: int, aux: seq<string>, aggregated: nat)

  datatype Call = Count | Sum | Min | Max | First | Last

  const TWO32 := 0x1_0000_0000
  const TWO63 := 0x8000_0000_0000_0000
  const TWO64 := 0x1_0000_0000_0000_0000
  const ZERO_TIME := -TWO63

  /** Arithmetic of 32-bit unsigned counters. */
  function Wrap32(n: nat): nat
  {
    n % TWO32
  }

  /** Arithmetic of 64-bit signed values. */
  function Wrap64(n: int): int
  {
    (n + TWO63) % TWO64 - TWO63
  }

  // ----- The reducer -----

  /** Whether a selector takes `a` over `b`. */
  predicate Beats(call: Call, a: Point, b: Point)
  {
    match call
    case Count => false
    case Sum => false
    case Min => a.value < b.value || (a.value == b.value && a.time < b.time)
    case Max => a.value > b.value || (a.value == b.value && a.time < b.time)
    case First => a.time < b.time || (a.time == b.time && a.value > b.value)
    case Last => a.time > b.time || (a.time == b.time && a.value > b.value)
  }

  /** The reduce functions: what one more point makes of the point so far. */
  function ReduceFn(call: Call, prev: Option<Point>, curr: Point): (int, int, seq<string>)
  {
    match call
    case Count => (ZERO_TIME, if prev.None? then 1 else Wrap64(prev.value.value + 1), [])
    case Sum => if prev.None? then (ZERO_TIME, curr.value, []) else (prev.value.time, Wrap64(prev.value.value + curr.value), [])
    case _ =>
      if prev.None? || Beats(call, curr, prev.value) then (curr.time, curr.value, curr.aux)
      else (prev.value.time, prev.value.value, prev.value.aux)
  }

  /** The number of points that a point stands for. */
  function Weight(p: Point): nat
  {
    if p.aggregated > 1 then p.aggregated else 1
  }

  /** The point a reducer starts with. */
  function Initial(call: Call): Option<Point>
  {
    if call.Count? || call.Sum? then Some(Point(ZERO_TIME, 0, [], 0)) else None
  }

  function Aggregated(call: Call, prev: Option<Point>, p: Point): Point
  {
    var (t, v, aux) := ReduceFn(call, prev, p);
    Point(t, v, aux, Wrap32((if prev.Some? then prev.value.aggregated else 0) + Weight(p)))
  }

  class FuncReducer {
    const call: Call
    var prev: Option<Point>

    constructor (call: Call)
      ensures this.call == call && prev == Initial(call)
    {
      this.call, prev := call, Initial(call);
    }

    method Aggregate(p: Point)
      modifies this
      ensures prev == Some(Aggregated(call, old(prev), p))
    {
      var (t, v, aux) := ReduceFn(call, prev, p);
      var aggregated := if prev.None? then 0 else prev.value.aggregated;
      if p.aggregated > 1 {
        aggregated := Wrap32(aggregated + p.aggregated);
      } else {
        aggregated := Wrap32(aggregated + 1);
      }
      prev := Some(Point(t, v, aux, aggregated));
    }

    method Emit() returns (r: seq<Point>)
      requires prev.Some?
      ensures r == [prev.value]
    {
      return [prev.value];
    }
  }

  /** What a reducer holds after a sequence of points. */
  function Reduced(call: Call, points: seq<Point>): (r: Option<Point>)
    ensures points != [] ==> r.Some?
  {
    if points == [] then Initial(call)
    else Some(Aggregated(call, Reduced(call, points[..|points| - 1]), points[|points| - 1]))
  }

  // ----- What a reduction means -----

  function TotalWeight(points: seq<Point>): nat
  {
    if points == [] then 0 else Weight(points[0]) + TotalWeight(points[1..])
  }

  function TotalValue(points: seq<Point>): int
  {
    if points == [] then 0 else points[0].value + TotalValue(points[1..])
  }

  /** `r` is the aggregate of the points, stated without an order of them. */
  ghost predicate Describes(call: Call, points: seq<Point>, r: Point)
  {
    match call
    case Count => r.time == ZERO_TIME && r.value == Wrap64(|points|) && r.aux == []
    case Sum => r.time == ZERO_TIME && r.value == Wrap64(TotalValue(points)) && r.aux == []
    case _ => && (exists p | p in points :: p.time == r.time && p.value == r.value && p.aux == r.aux)
              && (forall p | p in points :: !Beats(call, p, r))
  }

  lemma WrapAdds(a: int, b: int)
    ensures Wrap64(Wrap64(a) + b) == Wrap64(a + b)
  {
    var x := a + TWO63;
    assert x == x / TWO64 * TWO64 + x % TWO64;
    ModShift(x % TWO64 + b, x / TWO64);
  }

  lemma ModShift(y: int, k: int)
    ensures (y + k * TWO64) % TWO64 == y % TWO64
  {
    var m := TWO64;
    assert y + k * m == (y / m + k) * m + y % m;
    QuotientUnique(y + k * m, m, y / m + k);
  }

  // ----- One reducer -----

  lemma {:induction false} TotalsAppend(a: seq<Point>, b: seq<Point>)
    ensures TotalWeight(a + b) == TotalWeight(a) + TotalWeight(b)
    ensures TotalValue(a + b) == TotalValue(a) + TotalValue(b)
  {
    if a == [] {
      assert a + b == b;
    } else {
      assert (a + b)[1..] == a[1..] + b;
      TotalsAppend(a[1..], b);
    }
  }

  lemma Wrap32Adds(a: nat, b: nat)
    ensures Wrap32(Wrap32(a) + b) == Wrap32(a + b)
  {
    assert a + b == a / TWO32 * TWO32 + (Wrap32(a) + b);
  }

  lemma {:induction false} ReducedWeight(call: Call, points: seq<Point>)
    requires points != []
    ensures Reduced(call, points).value.aggregated == Wrap32(TotalWeight(points))
  {
    hide Wrap32, ReduceFn, Weight, TotalValue;
    var init, last := points[..|points| - 1], points[|points| - 1];
    assert points == init + [last];
    TotalsAppend(init, [last]);
    assert TotalWeight([last]) == Weight(last);
    if init != [] {
      ReducedWeight(call, init);
      Wrap32Adds(TotalWeight(init), Weight(last));
    }
  }

  lemma DescribesNext(call: Call, points: seq<Point>, r: Point, p: Point)
    requires Describes(call, points, r)
    ensures Describes(call, points + [p], Aggregated(call, Some(r), p))
  {
    match call
    case Count => WrapAdds(|points|, 1);
    case Sum =>
      TotalsAppend(points, [p]);
      WrapAdds(TotalValue(points), p.value);
    case _ => SelectionNext(call, points, r, p);
  }

  lemma SelectionNext(call: Call, points: seq<Point>, r: Point, p: Point)
    requires !call.Count? && !call.Sum? && Describes(call, points, r)
    ensures Describes(call, points + [p], Aggregated(call, Some(r), p))
  {
    var q :| q in points && q.time == r.time && q.value == r.value && q.aux == r.aux;
    assert q in points + [p] && p in points + [p];
    forall o | o in points + [p] ensures !Beats(call, o, Aggregated(call, Some(r), p)) {
      assert o in points || o == p;
    }
  }

  lemma DescribesFirst(call: Call, p: Point)
    ensures Describes(call, [p], Aggregated(call, Initial(call), p))
  {
    if call.Count? || call.Sum? {
      DescribesNext(call, [], Initial(call).value, p);
      assert [] + [p] == [p];
    } else {
      assert p in [p];
    }
  }

  /** A reducer computes the aggregate of what it was given. */
  lemma {:induction false} ReducedDescribes(call: Call, points: seq<Point>)
    requires points != []
    ensures Describes(call, points, Reduced(call, points).value)
  {
    hide Describes, Aggregated;
    var init, last := points[..|points| - 1], points[|points| - 1];
    assert points == init + [last];
    if init != [] {
      ReducedDescribes(call, init);
      DescribesNext(call, init, Reduced(call, init).value, last);
    } else {
      DescribesFirst(call, last);
    }
  }

  /** A description determines value and time. */
  lemma DescribedOnce(call: Call, s: seq<Point>, t: seq<Point>, a: Point, b: Point)
    requires multiset(s) == multiset(t) && Describes(call, s, a) && Describes(call, t, b)
    ensures a.time == b.time && a.value == b.value
  {
    TotalsForgetOrder(s, t);
    if !call.Count? && !call.Sum? {
      var p :| p in s && p.time == a.time && p.value == a.value;
      var q :| q in t && q.time == b.time && q.value == b.value;
      assert p in multiset(t) && q in multiset(s);
      assert p in t && q in s;
      assert !Beats(call, p, b) && !Beats(call, q, a);
    }
  }

  // ----- What each aggregate is -----

  /** The reduction of a selector is one of its points, with the fields that go with it. */
  ghost predicate IsOneOf(points: seq<Point>, r: Point)
  {
    exists p | p in points :: p.time == r.time && p.value == r.value && p.aux == r.aux
  }

  lemma DescribedIsOne(call: Call, s: seq<Point>, t: seq<Point>, r: Point)
    requires multiset(s) == multiset(t) && Describes(call, s, r) && !call.Count? && !call.Sum?
    ensures IsOneOf(t, r)
  {
    var p :| p in s && p.time == r.time && p.value == r.value && p.aux == r.aux;
    assert p in multiset(t);
  }

  /** Min is a point of least value, the earliest of those. */
  lemma MinIsLeast(points: seq<Point>)
    requires points != []
    ensures
      var r := Reduced(Min, points).value;
      && IsOneOf(points, r)
      && forall p | p in points :: r.value < p.value || (r.value == p.value && r.time <= p.time)
  {
    hide Reduced;
    ReducedDescribes(Min, points);
    assert forall p | p in points :: !Beats(Min, p, Reduced(Min, points).value);
  }

  /** Max is a point of greatest value, the earliest of those. */
  lemma MaxIsGreatest(points: seq<Point>)
    requires points != []
    ensures
      var r := Reduced(Max, points).value;
      && IsOneOf(points, r)
      && forall p | p in points :: r.value > p.value || (r.value == p.value && r.time <= p.time)
  {
    hide Reduced;
    ReducedDescribes(Max, points);
    assert forall p | p in points :: !Beats(Max, p, Reduced(Max, points).value);
  }

  /** First is a point of least time, the greatest in value of those. */
  lemma FirstIsEarliest(points: seq<Point>)
    requires points != []
    ensures
      var r := Reduced(First, points).value;
      && IsOneOf(points, r)
      && forall p | p in points :: r.time < p.time || (r.time == p.time && r.value >= p.value)
  {
    hide Reduced;
    ReducedDescribes(First, points);
    assert forall p | p in points :: !Beats(First, p, Reduced(First, points).value);
  }

  /** Last is a point of greatest time, the greatest in value of those. */
  lemma LastIsLatest(points: seq<Point>)
    requires points != []
    ensures
      var r := Reduced(Last, points).value;
      && IsOneOf(points, r)
      && forall p | p in points :: r.time > p.time || (r.time == p.time && r.value >= p.value)
  {
    hide Reduced;
    ReducedDescribes(Last, points);
    assert forall p | p in points :: !Beats(Last, p, Reduced(Last, points).value);
  }

  /** The value in range that differs by a multiple of 2^64; there is only one. */
  lemma Wrap64Is(n: int)
    ensures -TWO63 <= Wrap64(n) < TWO63 && (n - Wrap64(n)) % TWO64 == 0
  {
    var x := n + TWO63;
    assert x == x / TWO64 * TWO64 + x % TWO64;
    QuotientUnique(x / TWO64 * TWO64, TWO64, x / TWO64);
  }

  lemma {:induction false} TotalsForgetOrder(s: seq<Point>, t: seq<Point>)
    requires multiset(s) == multiset(t)
    ensures |s| == |t| && TotalWeight(s) == TotalWeight(t) && TotalValue(s) == TotalValue(t)
    decreases |s|
  {
    assert |s| == |multiset(s)| == |multiset(t)| == |t|;
    if s != [] {
      var k := TakeFirst(s, t);
      TotalsForgetOrder(s[1..], Without(t, k));
      assert t == t[..k] + ([t[k]] + t[k + 1..]);
      TotalsAppend(t[..k], [t[k]] + t[k + 1..]);
      TotalsAppend([t[k]], t[k + 1..]);
      TotalsAppend(t[..k], t[k + 1..]);
    }
  }

  // ----- Reducing groups, then their results -----

  type Groups = seq<seq<Point>>

  /** The partial results, one per group. */
  function Partials(call: Call, groups: Groups): (r: seq<Point>)
    requires NonEmpty(groups)
    ensures |r| == |groups| && forall i | 0 <= i < |r| :: r[i] == Reduced(call, groups[i]).value
  {
    if groups == [] then [] else [Reduced(call, groups[0]).value] + Partials(call, groups[1..])
  }

  /** Counts are merged by adding them. */
  function Merging(call: Call): Call
  {
    if call.Count? then Sum else call
  }

  lemma {:induction false} InFlatten(groups: Groups, p: Point)
    ensures p in Flatten(groups) <==> exists i | 0 <= i < |groups| :: p in groups[i]
  {
    if groups != [] {
      InFlatten(groups[1..], p);
      if i :| 0 <= i < |groups| && p in groups[i] {
        assert i > 0 ==> p in groups[1..][i - 1];
      }
      if p in Flatten(groups[1..]) {
        var j :| 0 <= j < |groups[1..]| && p in groups[1..][j];
        assert p in groups[j + 1];
      }
    }
  }

  lemma {:induction false} CountsAdd(call: Call, groups: Groups)
    requires NonEmpty(groups) && (call.Count? || call.Sum?)
    ensures Wrap64(TotalValue(Partials(call, groups))) ==
            Wrap64(if call.Count? then |Flatten(groups)| else TotalValue(Flatten(groups)))
  {
    if groups != [] {
      var first, rest := groups[0], groups[1..];
      CountsAdd(call, rest);
      ReducedDescribes(call, first);
      TotalsAppend(first, Flatten(rest));
      var v := if call.Count? then |first| else TotalValue(first);
      var w := if call.Count? then |Flatten(rest)| else TotalValue(Flatten(rest));
      WrapAdds(v, TotalValue(Partials(call, rest)));
      WrapAdds(TotalValue(Partials(call, rest)), v);
      WrapAdds(w, v);
    }
  }

  lemma MergedBeats(call: Call, groups: Groups, r: Point, q: Point)
    requires !call.Count? && !call.Sum? && q in Flatten(groups)
    requires NonEmpty(groups) && Describes(call, Partials(call, groups), r)
    ensures !Beats(call, q, r)
  {
    hide Reduced, Flatten, Partials;
    var parts := Partials(call, groups);
    InFlatten(groups, q);
    var j :| 0 <= j < |groups| && q in groups[j];
    ReducedDescribes(call, groups[j]);
    assert !Beats(call, q, parts[j]) && parts[j] in parts;
  }

  lemma MergeDescribes(call: Call, groups: Groups, r: Point)
    requires groups != [] && NonEmpty(groups) && Describes(Merging(call), Partials(call, groups), r)
    ensures Describes(call, Flatten(groups), r)
  {
    hide Reduced, Flatten, Partials;
    var parts := Partials(call, groups);
    if call.Count? || call.Sum? {
      CountsAdd(call, groups);
    } else {
      var part :| part in parts && part.time == r.time && part.value == r.value && part.aux == r.aux;
      var i :| 0 <= i < |parts| && parts[i] == part;
      ReducedDescribes(call, groups[i]);
      var p :| p in groups[i] && p.time == part.time && p.value == part.value && p.aux == part.aux;
      InFlatten(groups, p);
      forall q | q in Flatten(groups) ensures !Beats(call, q, r) {
        MergedBeats(call, groups, r, q);
      }
    }
  }

  /** The number of groups whose weight wraps around to zero: a result that claims no point is taken for one. */
  function WrappedOut(groups: Groups): nat
  {
    if groups == [] then 0 else (if Wrap32(TotalWeight(groups[0])) == 0 then 1 else 0) + WrappedOut(groups[1..])
  }

  lemma {:induction false} WeightsAdd(call: Call, groups: Groups)
    requires NonEmpty(groups)
    ensures Wrap32(TotalWeight(Partials(call, groups))) == Wrap32(TotalWeight(Flatten(groups)) + WrappedOut(groups))
  {
    if groups != [] {
      var first, rest := groups[0], groups[1..];
      WeightsAdd(call, rest);
      ReducedWeight(call, first);
      TotalsAppend(first, Flatten(rest));
      var w, out := TotalWeight(first), if Wrap32(TotalWeight(first)) == 0 then 1 else 0;
      var parts, all := TotalWeight(Partials(call, rest)), TotalWeight(Flatten(rest)) + WrappedOut(rest);
      assert TotalWeight(Partials(call, groups)) == Wrap32(w) + out + parts;
      Wrap32Adds(w, out + parts);
      Wrap32Adds(parts, w + out);
      Wrap32Adds(all, w + out);
    }
  }

  lemma Wrap32Same(a: nat, b: nat)
    ensures Wrap32(a + b) == Wrap32(a) <==> Wrap32(b) == 0
  {
    Wrap32Adds(a, b);
    Wrap32Adds(b, Wrap32(a));
  }

  lemma {:induction false} NoneWrapsOut(groups: Groups)
    requires NonEmpty(groups) && TotalWeight(Flatten(groups)) < TWO32
    ensures WrappedOut(groups) == 0
  {
    if groups != [] {
      TotalsAppend(groups[0], Flatten(groups[1..]));
      assert NonEmpty(groups[1..]);
      NoneWrapsOut(groups[1..]);
    }
  }

  /**
   However the points are spread over groups, and in whatever order they come,
   reducing the groups and then their results gives the value and the time of one
   reduction. The number of points it claims is right exactly when the groups that
   wrap around to zero do not show up in a 32-bit count.
   */
  lemma Distributes(call: Call, groups: Groups, points: seq<Point>)
    requires groups != [] && NonEmpty(groups) && multiset(Flatten(groups)) == multiset(points)
    ensures points != []
    ensures
      var merged, whole := Reduced(Merging(call), Partials(call, groups)).value, Reduced(call, points).value;
      && merged.time == whole.time && merged.value == whole.value
      && (call.Count? || call.Sum? || IsOneOf(points, merged))
      && (merged.aggregated == whole.aggregated <==> Wrap32(WrappedOut(groups)) == 0)
      && (TotalWeight(points) < TWO32 ==> merged.aggregated == whole.aggregated == TotalWeight(points))
  {
    hide Wrap32, Wrap64, Describes, Flatten, Partials, Reduced, WrappedOut, IsOneOf;
    FlattenNonEmpty(groups);
    assert |multiset(points)| > 0;
    var parts := Partials(call, groups);
    var merged, whole := Reduced(Merging(call), parts).value, Reduced(call, points).value;
    ReducedDescribes(Merging(call), parts);
    MergeDescribes(call, groups, merged);
    ReducedDescribes(call, points);
    DescribedOnce(call, Flatten(groups), points, merged, whole);
    if !call.Count? && !call.Sum? {
      DescribedIsOne(call, Flatten(groups), points, merged);
    }
    ReducedWeight(Merging(call), parts);
    ReducedWeight(call, points);
    WeightsAdd(call, groups);
    TotalsForgetOrder(Flatten(groups), points);
    Wrap32Same(TotalWeight(points), WrappedOut(groups));
    if TotalWeight(points) < TWO32 {
      NoneWrapsOut(groups);
      Wrap32Small(TotalWeight(points));
    }
  }

  lemma Wrap32Small(n: nat)
    requires n < TWO32
    ensures Wrap32(n) == n && Wrap32(0) == 0
  {
  }

  /** Two points that stand for 2^32 raw ones: merging their reduction counts a single point. */
  lemma WrapLosesCount()
    ensures
      var big, one := Point(0, 5, [], TWO32 - 1), Point(1, 5, [], 0);
      var merged := Reduced(Min, Partials(Min, [[big, one]])).value;
      Reduced(Min, [big, one]).value.aggregated == 0 && merged.aggregated == 1
  {
    var big, one := Point(0, 5, [], TWO32 - 1), Point(1, 5, [], 0);
    assert Reduced(Min, [big]) == Some(big.(aggregated := TWO32 - 1)) by {
      assert [big][..0] == [];
    }
    assert [big, one][..1] == [big];
    var part := Reduced(Min, [big, one]).value;
    assert Partials(Min, [[big, one]]) == [part];
    assert [part][..0] == [];
  }
}
