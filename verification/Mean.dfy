/** The mean over shards: a partial mean carries the number of points behind it and is weighted by that number. */
module Mean {
  import opened Collections
  import opened Wrappers
  import Aggregates

  datatype Point = Point(time: int, value: real, aggregated: nat)

  /** A reducer's sum and its 32-bit count. */
  datatype State = State(sum: real, count: nat)

  function Weight(p: Point): nat
  {
    if p.aggregated >= 2 then p.aggregated else 1
  }

  /** What a point contributes to the sum of raw values. */
  function Share(p: Point): real
  {
    p.value * Weight(p) as real
  }

  function Added(s: State, p: Point): State
  {
    State(s.sum + Share(p), Aggregates.Wrap32(s.count + Weight(p)))
  }

  function Emitted(s: State): Point
    requires s.count != 0
  {
    Point(Aggregates.ZERO_TIME, s.sum / s.count as real, s.count)
  }

  class MeanReducer {
    var sum: real
    var count: nat

    constructor ()
      ensures View() == State(0.0, 0)
    {
      sum, count := 0.0, 0;
    }

    ghost function View(): State
      reads this
    {
      State(sum, count)
    }

    method Aggregate(p: Point)
      modifies this
      ensures View() == Added(old(View()), p)
    {
      if p.aggregated >= 2 {
        sum := sum + p.value * p.aggregated as real;
        count := Aggregates.Wrap32(count + p.aggregated);
      } else {
        sum := sum + p.value;
        count := Aggregates.Wrap32(count + 1);
      }
    }

    /** Without a count the quotient is not a number. */
    method Emit() returns (r: Option<Point>)
      ensures r == if count == 0 then None else Some(Emitted(View()))
    {
      if count == 0 {
        return None;
      }
      return Some(Point(Aggregates.ZERO_TIME, sum / count as real, count));
    }
  }

  function Fold(points: seq<Point>): State
  {
    if points == [] then State(0.0, 0) else Added(Fold(points[..|points| - 1]), points[|points| - 1])
  }

  // ----- What the sum and the count are -----

  function TotalWeight(points: seq<Point>): nat
  {
    if points == [] then 0 else Weight(points[0]) + TotalWeight(points[1..])
  }

  /** The sum of all the raw values that the points stand for. */
  function TotalValue(points: seq<Point>): real
  {
    if points == [] then 0.0 else Share(points[0]) + TotalValue(points[1..])
  }

  lemma {:induction false} TotalsAppend(a: seq<Point>, b: seq<Point>)
    ensures TotalWeight(a + b) == TotalWeight(a) + TotalWeight(b)
    ensures TotalValue(a + b) == TotalValue(a) + TotalValue(b)
  {
    hide Share;
    if a == [] {
      assert a + b == b;
    } else {
      assert (a + b)[1..] == a[1..] + b;
      TotalsAppend(a[1..], b);
    }
  }

  lemma {:induction false} FoldIsTotals(points: seq<Point>)
    ensures Fold(points) == State(TotalValue(points), Aggregates.Wrap32(TotalWeight(points)))
  {
    hide Aggregates.Wrap32, Share, Weight;
    if points == [] {
      Aggregates.Wrap32Small(0);
    } else {
      var init, last := points[..|points| - 1], points[|points| - 1];
      assert points == init + [last];
      TotalsAppend(init, [last]);
      assert TotalWeight([last]) == Weight(last) && TotalValue([last]) == Share(last);
      FoldIsTotals(init);
      Aggregates.Wrap32Adds(TotalWeight(init), Weight(last));
    }
  }

  lemma {:induction false} TotalsForgetOrder(s: seq<Point>, t: seq<Point>)
    requires multiset(s) == multiset(t)
    ensures TotalWeight(s) == TotalWeight(t) && TotalValue(s) == TotalValue(t)
    decreases |s|
  {
    hide Share, Weight;
    if s == [] {
      assert |multiset(t)| == 0;
    } else {
      var k := TakeFirst(s, t);
      TotalsForgetOrder(s[1..], Without(t, k));
      assert t == t[..k] + ([t[k]] + t[k + 1..]);
      TotalsAppend(t[..k], [t[k]] + t[k + 1..]);
      TotalsAppend([t[k]], t[k + 1..]);
      TotalsAppend(t[..k], t[k + 1..]);
    }
  }

  // ----- Reducing groups, then their results -----

  type Groups = seq<seq<Point>>

  /** No group stands for a multiple of 2^32 points, so that each of them has a mean. */
  ghost predicate Counted(groups: Groups)
  {
    forall g | g in groups :: Aggregates.Wrap32(TotalWeight(g)) != 0
  }

  /** The partial means, one per group. */
  ghost function Partials(groups: Groups): seq<Point>
    requires Counted(groups)
  {
    if groups == [] then []
    else
      FoldIsTotals(groups[0]);
      [Emitted(Fold(groups[0]))] + Partials(groups[1..])
  }

  lemma PartialStandsFor(points: seq<Point>)
    requires Aggregates.Wrap32(TotalWeight(points)) != 0
    ensures Fold(points).count != 0
    ensures
      var part := Emitted(Fold(points));
      Weight(part) == Aggregates.Wrap32(TotalWeight(points)) && Share(part) == TotalValue(points)
  {
    FoldIsTotals(points);
    hide Fold, TotalValue, TotalWeight, Aggregates.Wrap32;
    QuotientTimes(TotalValue(points), Aggregates.Wrap32(TotalWeight(points)) as real);
  }

  lemma QuotientTimes(x: real, y: real)
    requires y != 0.0
    ensures x / y * y == x
  {
  }

  lemma {:induction false} PartialsKeepTotals(groups: Groups)
    requires Counted(groups)
    ensures Aggregates.Wrap32(TotalWeight(Partials(groups))) == Aggregates.Wrap32(TotalWeight(Flatten(groups)))
    ensures TotalValue(Partials(groups)) == TotalValue(Flatten(groups))
  {
    hide Share, Weight, Fold, Emitted, Aggregates.Wrap32;
    if groups != [] {
      var others := groups[1..];
      TotalsAppend(groups[0], Flatten(others));
      PartialStandsFor(groups[0]);
      PartialsKeepTotals(others);
      TotalsAppend([Emitted(Fold(groups[0]))], Partials(others));
      Aggregates.Wrap32Adds(TotalWeight(groups[0]), TotalWeight(Partials(others)));
      Aggregates.Wrap32Adds(TotalWeight(Partials(others)), TotalWeight(groups[0]));
      Aggregates.Wrap32Adds(TotalWeight(Flatten(others)), TotalWeight(groups[0]));
    }
  }

  /**
   A reducer emits the mean of all raw values if and only if their number fits in
   the 32-bit count, or their sum is zero and the count has not wrapped around to
   zero, by which it would divide.
   */
  lemma MeanExact(points: seq<Point>)
    requires points != []
    ensures TotalWeight(points) > 0
    ensures Fold(points).count != 0 &&
            Emitted(Fold(points)).value == TotalValue(points) / TotalWeight(points) as real <==>
            TotalWeight(points) < Aggregates.TWO32 ||
            (TotalValue(points) == 0.0 && TotalWeight(points) % Aggregates.TWO32 != 0)
  {
    FoldIsTotals(points);
    var v, w := TotalValue(points), TotalWeight(points);
    hide Fold, TotalValue;
    assert w > 0;
    if Aggregates.Wrap32(w) != 0 {
      QuotientsDiffer(v, w as real, Aggregates.Wrap32(w) as real);
    }
  }

  /** Of 2^32 + 1 raw values, all of them one, the mean comes out as their number. */
  lemma WrapInflatesMean()
    ensures
      var points := [Point(0, 1.0, 0xFFFF_FFFF), Point(1, 1.0, 2)];
      && TotalValue(points) / TotalWeight(points) as real == 1.0
      && Fold(points).count == 1 && Emitted(Fold(points)).value == 4294967297.0
  {
    var points := [Point(0, 1.0, 0xFFFF_FFFF), Point(1, 1.0, 2)];
    FoldIsTotals(points);
    assert points[1..] == [points[1]];
    assert TotalWeight(points) == 0x1_0000_0001 && TotalValue(points) == 4294967297.0;
  }

  /** With one raw value less there is no mean. */
  lemma WrapDividesByZero()
    ensures
      var points := [Point(0, 1.0, 0xFFFF_FFFF), Point(1, 1.0, 1)];
      TotalWeight(points) == Aggregates.TWO32 && Fold(points).count == 0
  {
    var points := [Point(0, 1.0, 0xFFFF_FFFF), Point(1, 1.0, 1)];
    FoldIsTotals(points);
    assert points[1..] == [points[1]];
  }

  lemma QuotientsDiffer(v: real, a: real, b: real)
    requires a > 0.0 && b > 0.0
    ensures v / b == v / a <==> a == b || v == 0.0
  {
    QuotientTimes(v, a);
    QuotientTimes(v, b);
    if v / b == v / a && v != 0.0 {
      assert (v / a) * (a - b) == 0.0;
    }
  }

  /**
   Reducing the groups' means gives the sum and the count of reducing all points,
   wherever each group has a mean. So it emits the same, and while the number of
   points fits in the count it emits their mean.
   */
  lemma MeanDistributes(groups: Groups, points: seq<Point>)
    requires Counted(groups) && multiset(Flatten(groups)) == multiset(points)
    ensures Fold(Partials(groups)) == Fold(points)
    ensures points != [] && TotalWeight(points) < Aggregates.TWO32 ==>
              && TotalWeight(points) > 0 && Fold(points).count == TotalWeight(points)
              && Emitted(Fold(Partials(groups))).value == TotalValue(points) / TotalWeight(points) as real
  {
    hide Fold, TotalValue, TotalWeight, Partials, Flatten, Share, Weight;
    TotalsForgetOrder(Flatten(groups), points);
    PartialsKeepTotals(groups);
    FoldIsTotals(points);
    FoldIsTotals(Partials(groups));
    if points != [] {
      MeanExact(points);
    }
  }

  lemma FewAreCounted(points: seq<Point>)
    requires points != [] && TotalWeight(points) < Aggregates.TWO32
    ensures Aggregates.Wrap32(TotalWeight(points)) != 0
  {
    Aggregates.Wrap32Small(TotalWeight(points));
  }

  /** Groups of points that together fit in the count all have a mean. */
  lemma {:induction false} SmallGroupsCounted(groups: Groups)
    requires NonEmpty(groups) && TotalWeight(Flatten(groups)) < Aggregates.TWO32
    ensures Counted(groups)
  {
    hide TotalWeight, TotalValue;
    if groups != [] {
      var first, others := groups[0], groups[1..];
      TotalsAppend(first, Flatten(others));
      SmallGroupsCounted(others);
      FewAreCounted(first);
      forall g | g in groups ensures Aggregates.Wrap32(TotalWeight(g)) != 0 {
        assert g == first || g in others;
      }
    }
  }
}
