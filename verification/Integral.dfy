/**
 The integral over time by the trapezium rule, emitted window by window. Where a
 line between two points crosses the end of a window, its value there is
 interpolated. Floating point numbers are taken as reals.
 */
module Integral {
  import opened Arithmetic
  import opened Wrappers
  import opened Windows

  datatype Point = Point(time: int, value: real)

  /** The options of the query, the time unit of the integral and the direction of time. */
  datatype Setting = Setting(opt: Options, unit: int, ascending: bool)

  ghost predicate Valid(cfg: Setting)
  {
    cfg.unit > 0 && cfg.opt.duration >= 0
  }

  /** The value at `w` of the line through two points. */
  function Linear(w: int, a: Point, b: Point): real
    requires a.time != b.time
  {
    (b.value - a.value) / (b.time - a.time) as real * (w - a.time) as real + a.value
  }

  /** The area under the line between two points, negative if time runs backwards. */
  function Trapezium(a: Point, b: Point, unit: int): real
    requires unit > 0
  {
    0.5 * (b.value + a.value) * ((b.time - a.time) as real / unit as real)
  }

  // ----- The reducer -----

  datatype State = State(sum: real, prev: Option<Point>, start: int, end: int)

  function WindowOf(cfg: Setting, t: int): (int, int)
    requires Valid(cfg)
  {
    var (start, end) := Window(cfg.opt, t);
    if cfg.ascending then (start, end) else (end, start)
  }

  predicate Leaves(cfg: Setting, s: State, t: int)
  {
    cfg.opt.duration != 0 && if cfg.ascending then t >= s.end else t <= s.end
  }

  /** The previous point, moved to the end of the window, and the sum up to there. */
  function Cut(cfg: Setting, s: State, prev: Point, p: Point): (Point, real)
    requires Valid(cfg) && prev.time != p.time
  {
    if prev.time == s.end then (prev, s.sum)
    else
      var at := Point(s.end, Linear(s.end, prev, p));
      (at, s.sum + Trapezium(prev, at, cfg.unit))
  }

  /** The state after one more point, and what is emitted. */
  function Added(cfg: Setting, s: State, p: Point): (State, seq<Point>)
    requires Valid(cfg)
  {
    match s.prev
    case None =>
      var (start, end) := if cfg.opt.duration != 0 then WindowOf(cfg, p.time) else (s.start, s.end);
      (State(s.sum, Some(p), start, end), [])
    case Some(prev) =>
      if prev.time == p.time then (s.(prev := Some(p)), [])
      else if Leaves(cfg, s, p.time) then
        var (at, sum) := Cut(cfg, s, prev, p);
        var (start, end) := WindowOf(cfg, p.time);
        (State(Trapezium(at, p, cfg.unit), Some(p), start, end), [Point(s.start, sum)])
      else
        (s.(sum := s.sum + Trapezium(prev, p, cfg.unit), prev := Some(p)), [])
  }

  /** The last point is discarded with the sum if it is at the start of a window. */
  function Closed(s: State): seq<Point>
  {
    if s.prev.Some? && s.prev.value.time != s.start then [Point(s.start, s.sum)] else []
  }

  const INITIAL := State(0.0, None, 0, 0)

  class IntegralReducer {
    const setting: Setting
    var sum: real
    var prev: Option<Point>
    var start: int
    var end: int
    var ch: seq<Point>

    function View(): State
      reads this
    {
      State(sum, prev, start, end)
    }

    constructor (setting: Setting)
      ensures View() == INITIAL && ch == [] && this.setting == setting
    {
      this.setting := setting;
      sum, prev, start, end, ch := 0.0, None, 0, 0, [];
    }

    /** The channel holds one point, so it must have been read before the next. */
    method Aggregate(p: Point)
      requires Valid(setting) && ch == []
      modifies this
      ensures (View(), ch) == Added(setting, old(View()), p)
    {
      hide Trapezium, Linear, Window;
      if prev.None? {
        prev := Some(p);
        if setting.opt.duration != 0 {
          var w := WindowOf(setting, p.time);
          start, end := w.0, w.1;
        }
        return;
      }
      if prev.value.time == p.time {
        prev := Some(p);
        return;
      } else if Leaves(setting, View(), p.time) {
        if prev.value.time != end {
          var at := Point(end, Linear(end, prev.value, p));
          sum := sum + Trapezium(prev.value, at, setting.unit);
          prev := Some(at);
        }
        ch := [Point(start, sum)];
        var w := WindowOf(setting, p.time);
        start, end := w.0, w.1;
        sum := 0.0;
      }
      sum := sum + Trapezium(prev.value, p, setting.unit);
      prev := Some(p);
    }

    method Emit() returns (r: seq<Point>)
      modifies this
      ensures r == old(ch) && ch == [] && View() == old(View())
    {
      r, ch := ch, [];
    }

    method Close()
      requires ch == []
      modifies this
      ensures ch == Closed(old(View())) && View() == old(View())
    {
      if prev.Some? && prev.value.time != start {
        ch := [Point(start, sum)];
      }
    }
  }

  // ----- Conservation of area -----

  /** The state after all points, and everything emitted on the way. */
  function Run(cfg: Setting, points: seq<Point>): (State, seq<Point>)
    requires Valid(cfg)
  {
    if points == [] then (INITIAL, [])
    else
      var (before, emitted) := Run(cfg, points[..|points| - 1]);
      var (after, more) := Added(cfg, before, points[|points| - 1]);
      (after, emitted + more)
  }

  /** The trapezium rule over all points. */
  function Area(points: seq<Point>, unit: int): real
    requires unit > 0
  {
    if |points| < 2 then 0.0
    else Area(points[..|points| - 1], unit) + Trapezium(points[|points| - 2], points[|points| - 1], unit)
  }

  function Total(emitted: seq<Point>): real
  {
    if emitted == [] then 0.0 else Total(emitted[..|emitted| - 1]) + emitted[|emitted| - 1].value
  }

  /** Cutting a line anywhere splits the area under it. */
  lemma CutKeepsArea(a: Point, b: Point, w: int, unit: int)
    requires unit > 0 && a.time != b.time
    ensures
      var at := Point(w, Linear(w, a, b));
      Trapezium(a, at, unit) + Trapezium(at, b, unit) == Trapezium(a, b, unit)
  {
    var t, x, u := (b.time - a.time) as real, (w - a.time) as real, unit as real;
    var m := (b.value - a.value) / t;
    var at := Point(w, Linear(w, a, b));
    assert at.value == m * x + a.value && b.value == m * t + a.value;
    SplitLine(a.value, m, x, t);
    Scale(b.value + a.value, t, u);
    Scale(at.value + a.value, x, u);
    Scale(b.value + at.value, t - x, u);
    assert (b.time - w) as real == t - x;
    SumOver((at.value + a.value) * x, (b.value + at.value) * (t - x), u);
  }

  lemma SplitLine(v: real, m: real, x: real, t: real)
    ensures ((m * x + v) + v) * x + ((m * t + v) + (m * x + v)) * (t - x) == ((m * t + v) + v) * t
  {
  }

  lemma Scale(h: real, t: real, u: real)
    requires u > 0.0
    ensures 0.5 * h * (t / u) == 0.5 * (h * t / u)
  {
  }

  lemma SumOver(a: real, b: real, u: real)
    requires u > 0.0
    ensures a / u + b / u == (a + b) / u
  {
  }

  lemma AddedKeepsArea(cfg: Setting, s: State, p: Point)
    requires Valid(cfg) && s.prev.Some?
    ensures
      var (after, more) := Added(cfg, s, p);
      && after.prev == Some(p) && |more| <= 1
      && Total(more) + after.sum == s.sum + Trapezium(s.prev.value, p, cfg.unit)
  {
    hide Window, Linear;
    var prev := s.prev.value;
    if prev.time != p.time && Leaves(cfg, s, p.time) && prev.time != s.end {
      CutKeepsArea(prev, p, s.end, cfg.unit);
    }
  }

  /**
   At any moment the areas emitted and the running sum together are the integral
   of all points so far: whatever the windows, in either direction of time, with
   windows skipped and with repeated timestamps.
   */
  lemma {:induction false} AreaIsConserved(cfg: Setting, points: seq<Point>)
    requires Valid(cfg)
    ensures
      var (s, emitted) := Run(cfg, points);
      && Total(emitted) + s.sum == Area(points, cfg.unit)
      && s.prev == if points == [] then None else Some(points[|points| - 1])
  {
    hide Added, Trapezium;
    if points != [] {
      var init, p := points[..|points| - 1], points[|points| - 1];
      AreaIsConserved(cfg, init);
      var (s, emitted) := Run(cfg, init);
      var (after, more) := Added(cfg, s, p);
      if init == [] {
        AddedFirst(cfg, p);
      } else {
        AddedKeepsArea(cfg, s, p);
        TotalAppends(emitted, more);
      }
    }
  }

  lemma AddedFirst(cfg: Setting, p: Point)
    requires Valid(cfg)
    ensures Added(cfg, INITIAL, p).0.prev == Some(p) && Added(cfg, INITIAL, p).0.sum == 0.0 && Added(cfg, INITIAL, p).1 == []
  {
  }

  lemma TotalAppends(a: seq<Point>, b: seq<Point>)
    requires |b| <= 1
    ensures Total(a + b) == Total(a) + Total(b)
  {
    if b == [] {
      assert a + b == a;
    } else {
      assert (a + b)[..|a|] == a && b[..0] == [];
    }
  }

  lemma CloseDiscards(cfg: Setting, points: seq<Point>)
    requires Valid(cfg)
    ensures
      var (s, emitted) := Run(cfg, points);
      Total(emitted + Closed(s)) == Area(points, cfg.unit) <==>
      !(points != [] && points[|points| - 1].time == s.start && s.sum != 0.0)
  {
    AreaIsConserved(cfg, points);
    var (s, emitted) := Run(cfg, points);
    TotalAppends(emitted, Closed(s));
    assert Closed(s) != [] ==> Closed(s)[..0] == [];
    if points == [] {
      assert s.sum == 0.0;
    }
  }

  // ----- What closing loses -----

  /** The points come in the direction of time. */
  ghost predicate Ordered(cfg: Setting, points: seq<Point>)
  {
    forall i, j | 0 <= i < j < |points| ::
      if cfg.ascending then points[i].time <= points[j].time else points[i].time >= points[j].time
  }

  /** There are windows, in a constant zone, and those of the points are not cut at the ends of time. */
  ghost predicate Windowed(cfg: Setting, zone: int, points: seq<Point>)
  {
    && cfg.unit > 0 && cfg.opt.duration > 0 && Constant(cfg.opt, zone)
    && forall i | 0 <= i < |points| :: Whole(cfg.opt, zone, points[i].time)
  }

  lemma StaysInWindow(cfg: Setting, zone: int, a: Point, b: Point)
    requires Windowed(cfg, zone, [a, b]) && Ordered(cfg, [a, b])
    requires var (_, end) := WindowOf(cfg, a.time); if cfg.ascending then b.time < end else b.time > end
    ensures WindowOf(cfg, b.time) == WindowOf(cfg, a.time)
  {
    assert [a, b][0] == a && [a, b][1] == b;
    WindowContains(cfg.opt, zone, a.time);
    WindowsTile(cfg.opt, zone, a.time, b.time);
  }

  /** The window at hand is always that of the last point. */
  lemma {:induction false} WindowAtHand(cfg: Setting, zone: int, points: seq<Point>)
    requires Windowed(cfg, zone, points) && Ordered(cfg, points) && points != []
    ensures
      var (s, _) := Run(cfg, points);
      s.prev == Some(points[|points| - 1]) && (s.start, s.end) == WindowOf(cfg, points[|points| - 1].time)
  {
    hide Window, Trapezium, Linear, Whole;
    var n := |points| - 1;
    var init, p := points[..n], points[n];
    if n == 0 {
      assert init == [];
    } else {
      WindowAtHand(cfg, zone, init);
      var q := init[n - 1];
      var (s, _) := Run(cfg, init);
      assert points[n - 1] == q && [q, p][0] == q && [q, p][1] == p;
      if q.time != p.time && !Leaves(cfg, s, p.time) {
        StaysInWindow(cfg, zone, q, p);
      }
    }
  }

  // ----- What each window gets -----

  /** In the direction of time, `t` is not beyond `w`. */
  predicate Before(cfg: Setting, t: int, w: int)
  {
    if cfg.ascending then t <= w else t >= w
  }

  /** The area under a line up to time `w`. */
  function LineUpTo(cfg: Setting, q: Point, p: Point, w: int): real
    requires cfg.unit > 0
  {
    if Before(cfg, p.time, w) then Trapezium(q, p, cfg.unit)
    else if Before(cfg, q.time, w) && q.time != p.time then Trapezium(q, Point(w, Linear(w, q, p)), cfg.unit)
    else 0.0
  }

  /** The area under the lines through all points, up to time `w`. */
  function AreaUpTo(cfg: Setting, points: seq<Point>, w: int): real
    requires cfg.unit > 0
  {
    if |points| < 2 then 0.0
    else AreaUpTo(cfg, points[..|points| - 1], w) + LineUpTo(cfg, points[|points| - 2], points[|points| - 1], w)
  }

  /** Where the window ends whose point was emitted. */
  function Edge(cfg: Setting, e: Point): int
  {
    if cfg.ascending then e.time + cfg.opt.duration else e.time - cfg.opt.duration
  }

  /** The area up to where the windows emitted so far end. */
  function Settled(cfg: Setting, points: seq<Point>, emitted: seq<Point>): real
    requires cfg.unit > 0
  {
    if emitted == [] then 0.0 else AreaUpTo(cfg, points, Edge(cfg, emitted[|emitted| - 1]))
  }

  /** A time all points are before, or at, has the whole area before it. */
  lemma {:induction false} AllBefore(cfg: Setting, points: seq<Point>, w: int)
    requires cfg.unit > 0 && forall i | 0 <= i < |points| :: Before(cfg, points[i].time, w)
    ensures AreaUpTo(cfg, points, w) == Area(points, cfg.unit)
  {
    hide Trapezium;
    if |points| >= 2 {
      AllBefore(cfg, points[..|points| - 1], w);
    }
  }

  lemma NoLine(cfg: Setting, q: Point, p: Point, w: int)
    requires cfg.unit > 0 && Before(cfg, q.time, p.time) && Before(cfg, w, q.time)
    ensures LineUpTo(cfg, q, p, w) == 0.0
  {
    if Before(cfg, p.time, w) {
      NoWidthNoArea(q, p, cfg.unit);
    } else if Before(cfg, q.time, w) {
      NoWidthNoArea(q, Point(w, Linear(w, q, p)), cfg.unit);
    }
  }

  /** A new point adds nothing to the area up to a time before the last one. */
  lemma EarlierStays(cfg: Setting, points: seq<Point>, w: int)
    requires cfg.unit > 0 && Ordered(cfg, points) && |points| >= 2 && Before(cfg, w, points[|points| - 2].time)
    ensures AreaUpTo(cfg, points, w) == AreaUpTo(cfg, points[..|points| - 1], w)
  {
    NoLine(cfg, points[|points| - 2], points[|points| - 1], w);
  }

  /**
   What comes after an emitted point starts where its window ends or later; against
   time the same window may come again, with no area.
   */
  predicate Follows(cfg: Setting, e: Point, start: int, value: real)
  {
    Before(cfg, Edge(cfg, e), start) || (!cfg.ascending && start == e.time && value == 0.0)
  }

  /**
   Each emitted point stands at the beginning of the window of some point, in the
   direction of time, and has the area from where the window emitted before it ends,
   or from the first point on, to where its own ends.
   */
  ghost predicate Shares(cfg: Setting, zone: int, points: seq<Point>, emitted: seq<Point>)
    requires cfg.unit > 0 && cfg.opt.duration > 0
  {
    forall k: nat | k < |emitted| :: ShareAt(cfg, zone, points, emitted, k)
  }

  ghost predicate ShareAt(cfg: Setting, zone: int, points: seq<Point>, emitted: seq<Point>, k: nat)
    requires cfg.unit > 0 && cfg.opt.duration > 0 && k < |emitted|
  {
    && emitted[k].value == AreaUpTo(cfg, points, Edge(cfg, emitted[k])) - Settled(cfg, points, emitted[..k])
    && (k > 0 ==> Follows(cfg, emitted[k - 1], emitted[k].time, emitted[k].value))
    && Placed(cfg, zone, points, emitted[k])
  }

  /** The emitted point stands at the beginning of a window, in the direction of time, in which there is a point. */
  ghost predicate Placed(cfg: Setting, zone: int, points: seq<Point>, e: Point)
    requires cfg.opt.duration > 0
  {
    && (e.time - cfg.opt.offset + zone) % cfg.opt.duration == 0
    && exists i | 0 <= i < |points| :: Before(cfg, e.time, points[i].time) && Before(cfg, points[i].time, Edge(cfg, e))
  }

  /** What holds of the state and the points emitted so far. */
  ghost predicate Tracked(cfg: Setting, zone: int, points: seq<Point>, s: State, emitted: seq<Point>)
    requires cfg.unit > 0 && cfg.opt.duration > 0 && points != []
  {
    var last := points[|points| - 1].time;
    && Shares(cfg, zone, points, emitted)
    && s.sum == Area(points, cfg.unit) - Settled(cfg, points, emitted)
    && (forall k | 0 <= k < |emitted| :: Before(cfg, Edge(cfg, emitted[k]), last))
    && (emitted != [] ==>
          var e := emitted[|emitted| - 1];
          && Follows(cfg, e, s.start, s.sum)
          && (Before(cfg, Edge(cfg, e), s.start) || last == s.end))
  }

  lemma SettledStays(cfg: Setting, points: seq<Point>, emitted: seq<Point>)
    requires cfg.unit > 0 && Ordered(cfg, points) && |points| >= 2
    requires forall k | 0 <= k < |emitted| :: Before(cfg, Edge(cfg, emitted[k]), points[|points| - 2].time)
    ensures Settled(cfg, points, emitted) == Settled(cfg, points[..|points| - 1], emitted)
  {
    hide LineUpTo, AreaUpTo, Edge;
    if emitted != [] {
      EarlierStays(cfg, points, Edge(cfg, emitted[|emitted| - 1]));
    }
  }

  lemma SharesStay(cfg: Setting, zone: int, points: seq<Point>, emitted: seq<Point>)
    requires cfg.unit > 0 && cfg.opt.duration > 0 && Ordered(cfg, points) && |points| >= 2
    requires Shares(cfg, zone, points[..|points| - 1], emitted)
    requires forall k | 0 <= k < |emitted| :: Before(cfg, Edge(cfg, emitted[k]), points[|points| - 2].time)
    ensures Shares(cfg, zone, points, emitted)
  {
    hide LineUpTo, AreaUpTo, Edge, Settled, Follows, Before, Ordered;
    var init := points[..|points| - 1];
    forall k: nat | k < |emitted| ensures ShareAt(cfg, zone, points, emitted, k) {
      assert ShareAt(cfg, zone, init, emitted, k);
      EarlierStays(cfg, points, Edge(cfg, emitted[k]));
      SettledStays(cfg, points, emitted[..k]);
      var i :| 0 <= i < |init| && Before(cfg, emitted[k].time, init[i].time) && Before(cfg, init[i].time, Edge(cfg, emitted[k]));
      assert points[i] == init[i];
    }
  }

  /** The area a leaving line has up to the end of the window, and beyond it. */
  lemma CutShares(cfg: Setting, s: State, q: Point, p: Point)
    requires Valid(cfg) && q.time != p.time && Before(cfg, q.time, s.end) && Before(cfg, s.end, p.time)
    ensures
      var (at, sum) := Cut(cfg, s, q, p);
      && sum == s.sum + LineUpTo(cfg, q, p, s.end)
      && Trapezium(at, p, cfg.unit) == Trapezium(q, p, cfg.unit) - LineUpTo(cfg, q, p, s.end)
  {
    hide Linear, Trapezium;
    CutKeepsArea(q, p, s.end, cfg.unit);
    LinearEnds(q, p);
    if q.time == s.end {
      NoWidthNoArea(q, Point(s.end, Linear(s.end, q, p)), cfg.unit);
    }
    if p.time == s.end {
      NoWidthNoArea(Point(s.end, Linear(s.end, q, p)), p, cfg.unit);
    }
  }

  lemma LinearEnds(a: Point, b: Point)
    requires a.time != b.time
    ensures Linear(a.time, a, b) == a.value && Linear(b.time, a, b) == b.value
  {
    var t := (b.time - a.time) as real;
    assert (b.value - a.value) / t * t == b.value - a.value;
  }

  /** The window of a point, in the direction of time. */
  lemma WindowFacts(cfg: Setting, zone: int, q: Point)
    requires Windowed(cfg, zone, [q])
    ensures
      var (start, end) := WindowOf(cfg, q.time);
      && end == Edge(cfg, Point(start, 0.0)) && (start - cfg.opt.offset + zone) % cfg.opt.duration == 0
      && Before(cfg, start, q.time) && Before(cfg, q.time, end)
  {
    assert [q][0] == q;
    WindowContains(cfg.opt, zone, q.time);
    hide Window, Whole, Row, Begin, Constant;
    var k := Row(cfg.opt, zone, q.time);
    BeginAligned(cfg.opt, zone, k);
    BeginAligned(cfg.opt, zone, k + 1);
    NextBegin(cfg.opt, zone, k);
  }

  /** Against time, a point at the beginning of the window stays in it although it leaves it. */
  lemma NextWindow(cfg: Setting, zone: int, q: Point, p: Point)
    requires Windowed(cfg, zone, [q, p]) && Ordered(cfg, [q, p]) && Before(cfg, WindowOf(cfg, q.time).1, p.time)
    ensures
      var end := WindowOf(cfg, q.time).1;
      Before(cfg, end, WindowOf(cfg, p.time).0) ||
      (!cfg.ascending && p.time == end && WindowOf(cfg, p.time) == WindowOf(cfg, q.time))
  {
    assert [q, p][0] == q && [q, p][1] == p;
    WindowContains(cfg.opt, zone, q.time);
    WindowContains(cfg.opt, zone, p.time);
    WindowsTile(cfg.opt, zone, q.time, p.time);
  }

  lemma StepStays(cfg: Setting, zone: int, points: seq<Point>, s: State, emitted: seq<Point>)
    requires Valid(cfg) && cfg.opt.duration > 0 && Ordered(cfg, points) && |points| >= 2
    requires
      var init, q, p := points[..|points| - 1], points[|points| - 2], points[|points| - 1];
      && Tracked(cfg, zone, init, s, emitted) && s.prev == Some(q)
      && (q.time == p.time || (!Leaves(cfg, s, p.time) && Before(cfg, q.time, p.time)))
    ensures
      var (after, more) := Added(cfg, s, points[|points| - 1]);
      Tracked(cfg, zone, points, after, emitted + more)
  {
    hide Shares, Settled, LineUpTo, AreaUpTo, Trapezium, Edge, Window;
    var init, q, p := points[..|points| - 1], points[|points| - 2], points[|points| - 1];
    assert init[|init| - 1] == q;
    SettledStays(cfg, points, emitted);
    SharesStay(cfg, zone, points, emitted);
    if q.time == p.time {
      NoWidthNoArea(q, p, cfg.unit);
    }
    var (after, more) := Added(cfg, s, p);
    assert emitted + more == emitted;
  }

  lemma StepLeaves(cfg: Setting, zone: int, points: seq<Point>, s: State, emitted: seq<Point>)
    requires Valid(cfg) && Windowed(cfg, zone, points) && Ordered(cfg, points) && |points| >= 2
    requires
      var init, q, p := points[..|points| - 1], points[|points| - 2], points[|points| - 1];
      && Tracked(cfg, zone, init, s, emitted) && s.prev == Some(q)
      && (s.start, s.end) == WindowOf(cfg, q.time) && q.time != p.time && Leaves(cfg, s, p.time)
    ensures
      var (after, more) := Added(cfg, s, points[|points| - 1]);
      Tracked(cfg, zone, points, after, emitted + more)
  {
    LastTwo(cfg, zone, points);
    hide Ordered, Windowed, Shares, Area, AreaUpTo, Window, WindowOf, Settled, Cut, Added, Follows, Edge;
    var init, q, p := points[..|points| - 1], points[|points| - 2], points[|points| - 1];
    assert init[|init| - 1] == q;
    WindowFacts(cfg, zone, q);
    NextWindow(cfg, zone, q, p);
    SettledStays(cfg, points, emitted);
    SharesStay(cfg, zone, points, emitted);
    LeavingArea(cfg, points, s);
    LeavingShares(cfg, zone, points, s, emitted);
    LeavingTracks(cfg, zone, points, s, emitted);
  }

  lemma LastTwo(cfg: Setting, zone: int, points: seq<Point>)
    requires Windowed(cfg, zone, points) && Ordered(cfg, points) && |points| >= 2
    ensures
      var q, p := points[|points| - 2], points[|points| - 1];
      Valid(cfg) && Windowed(cfg, zone, [q]) && Windowed(cfg, zone, [q, p]) && Ordered(cfg, [q, p])
  {
    hide Whole, Constant;
  }

  lemma LeavingArea(cfg: Setting, points: seq<Point>, s: State)
    requires Valid(cfg) && Ordered(cfg, points) && |points| >= 2
    requires
      var q, p := points[|points| - 2], points[|points| - 1];
      q.time != p.time && Before(cfg, q.time, s.end) && Before(cfg, s.end, p.time)
    ensures
      var q, p := points[|points| - 2], points[|points| - 1];
      && Cut(cfg, s, q, p).1 == s.sum + AreaUpTo(cfg, points, s.end) - Area(points[..|points| - 1], cfg.unit)
      && Trapezium(Cut(cfg, s, q, p).0, p, cfg.unit) == Area(points, cfg.unit) - AreaUpTo(cfg, points, s.end)
  {
    hide Trapezium, Linear, LineUpTo, Cut;
    var init, q, p := points[..|points| - 1], points[|points| - 2], points[|points| - 1];
    CutShares(cfg, s, q, p);
    forall i | 0 <= i < |init| ensures Before(cfg, init[i].time, s.end) {
      assert init[i] == points[i];
    }
    AllBefore(cfg, init, s.end);
  }

  lemma LeavingTracks(cfg: Setting, zone: int, points: seq<Point>, s: State, emitted: seq<Point>)
    requires Valid(cfg) && cfg.opt.duration > 0 && |points| >= 2
    requires
      var q, p := points[|points| - 2], points[|points| - 1];
      && s.prev == Some(q) && q.time != p.time && Leaves(cfg, s, p.time)
      && Shares(cfg, zone, points, emitted + Added(cfg, s, p).1)
      && (forall k | 0 <= k < |emitted| :: Before(cfg, Edge(cfg, emitted[k]), q.time))
      && s.end == Edge(cfg, Point(s.start, 0.0)) && Before(cfg, q.time, s.end)
      && Trapezium(Cut(cfg, s, q, p).0, p, cfg.unit) == Area(points, cfg.unit) - AreaUpTo(cfg, points, s.end)
      && (Before(cfg, s.end, WindowOf(cfg, p.time).0) ||
          (!cfg.ascending && p.time == s.end && WindowOf(cfg, p.time) == (s.start, s.end)))
    ensures
      var (after, more) := Added(cfg, s, points[|points| - 1]);
      Tracked(cfg, zone, points, after, emitted + more)
  {
    hide Shares, LineUpTo, AreaUpTo, Area, Trapezium, Window, Linear, WindowOf;
    var q, p := points[|points| - 2], points[|points| - 1];
    var (at, sum) := Cut(cfg, s, q, p);
    if p.time == s.end {
      NoWidthNoArea(at, p, cfg.unit);
    }
    var e, all := Point(s.start, sum), emitted + [Point(s.start, sum)];
    assert Added(cfg, s, p).1 == [e];
    assert all[|emitted|] == e && Edge(cfg, e) == s.end;
    assert forall k | 0 <= k < |emitted| :: all[k] == emitted[k];
    hide Cut, Added, Leaves;
  }

  /** The emitted point gets the area since the one before it. */
  lemma LeavingShares(cfg: Setting, zone: int, points: seq<Point>, s: State, emitted: seq<Point>)
    requires Valid(cfg) && cfg.opt.duration > 0 && |points| >= 2
    requires
      var init, q, p := points[..|points| - 1], points[|points| - 2], points[|points| - 1];
      && Shares(cfg, zone, points, emitted) && s.prev == Some(q) && q.time != p.time && Leaves(cfg, s, p.time)
      && (emitted != [] ==> Follows(cfg, emitted[|emitted| - 1], s.start, s.sum))
      && (emitted != [] ==> Before(cfg, Edge(cfg, emitted[|emitted| - 1]), s.start) || q.time == s.end)
      && Cut(cfg, s, q, p).1 == AreaUpTo(cfg, points, s.end) - Settled(cfg, points, emitted)
      && s.end == Edge(cfg, Point(s.start, 0.0)) && (s.start - cfg.opt.offset + zone) % cfg.opt.duration == 0
      && Before(cfg, s.start, q.time) && Before(cfg, q.time, s.end)
    ensures Shares(cfg, zone, points, emitted + Added(cfg, s, points[|points| - 1]).1)
  {
    hide LineUpTo, AreaUpTo, Trapezium, Window, Linear, Settled;
    var q, p := points[|points| - 2], points[|points| - 1];
    var e := Point(s.start, Cut(cfg, s, q, p).1);
    var all := emitted + [e];
    assert Added(cfg, s, p).1 == [e];
    assert Edge(cfg, e) == s.end;
    assert Placed(cfg, zone, points, e);
    hide Cut, Added, Leaves, Placed, Follows, Before, Edge;
    assert all[..|emitted|] == emitted && all[|emitted|] == e;
    assert emitted != [] ==> all[|emitted| - 1] == emitted[|emitted| - 1];
    assert ShareAt(cfg, zone, points, all, |emitted|);
    forall k: nat | k < |all| ensures ShareAt(cfg, zone, points, all, k) {
      if k < |emitted| {
        ShareOfPrefix(cfg, zone, points, emitted, e, k);
      }
    }
  }

  lemma ShareOfPrefix(cfg: Setting, zone: int, points: seq<Point>, emitted: seq<Point>, e: Point, k: nat)
    requires cfg.unit > 0 && cfg.opt.duration > 0 && k < |emitted| && ShareAt(cfg, zone, points, emitted, k)
    ensures ShareAt(cfg, zone, points, emitted + [e], k)
  {
    hide AreaUpTo, Settled, Placed, Follows, Edge;
    var all := emitted + [e];
    assert all[k] == emitted[k] && all[..k] == emitted[..k] && (k > 0 ==> all[k - 1] == emitted[k - 1]);
  }

  /** In the end: every window that was emitted has its share, and the running sum is what is left. */
  lemma {:induction false} WindowsShare(cfg: Setting, zone: int, points: seq<Point>)
    requires Windowed(cfg, zone, points) && Ordered(cfg, points) && points != []
    ensures var (s, emitted) := Run(cfg, points); Tracked(cfg, zone, points, s, emitted)
  {
    hide Window, Trapezium, Linear, Whole, Tracked, Added;
    var init, p := points[..|points| - 1], points[|points| - 1];
    var (s, emitted) := Run(cfg, init);
    if init == [] {
      FirstTracked(cfg, zone, points);
    } else {
      var q := init[|init| - 1];
      WindowsShare(cfg, zone, init);
      WindowAtHand(cfg, zone, init);
      if q.time != p.time && Leaves(cfg, s, p.time) {
        StepLeaves(cfg, zone, points, s, emitted);
      } else {
        StepStays(cfg, zone, points, s, emitted);
      }
    }
  }

  lemma FirstTracked(cfg: Setting, zone: int, points: seq<Point>)
    requires Valid(cfg) && cfg.opt.duration > 0 && |points| == 1
    ensures var (s, emitted) := Run(cfg, points); Tracked(cfg, zone, points, s, emitted)
  {
    hide Window;
    assert points[..0] == [];
  }

  /** Where the window before was emitted too, a window gets its own area and no other. */
  lemma AdjacentShare(cfg: Setting, zone: int, points: seq<Point>, k: nat)
    requires Windowed(cfg, zone, points) && Ordered(cfg, points) && 0 < k < |Run(cfg, points).1|
    requires var emitted := Run(cfg, points).1; emitted[k].time == Edge(cfg, emitted[k - 1])
    ensures
      var e := Run(cfg, points).1[k];
      e.value == AreaUpTo(cfg, points, Edge(cfg, e)) - AreaUpTo(cfg, points, e.time)
  {
    assert points != [];
    hide Run, AreaUpTo, Edge, Follows, Placed, Windowed, Ordered;
    WindowsShare(cfg, zone, points);
    var emitted := Run(cfg, points).1;
    assert ShareAt(cfg, zone, points, emitted, k);
    assert emitted[..k][|emitted[..k]| - 1] == emitted[k - 1];
  }

  lemma RunNext(cfg: Setting, points: seq<Point>, p: Point)
    requires Valid(cfg)
    ensures
      var (s, emitted) := Run(cfg, points);
      var (after, more) := Added(cfg, s, p);
      Run(cfg, points + [p]) == (after, emitted + more)
  {
    assert (points + [p])[..|points|] == points;
  }

  lemma LevelArea(cfg: Setting, a: Point, b: Point, c: Point)
    requires cfg.unit == 1 && cfg.ascending && a == Point(5, 1.0) && b == Point(25, 1.0) && c == Point(30, 1.0)
    ensures AreaUpTo(cfg, [a, b, c], 30) == 25.0 && AreaUpTo(cfg, [a, b, c], 20) == 15.0
  {
    hide Trapezium, Linear;
    LevelLine(a, b, 20);
    LevelLine(a, Point(20, 1.0), 20);
    LevelLine(b, c, 30);
    assert LineUpTo(cfg, a, b, 30) == 20.0 && LineUpTo(cfg, b, c, 30) == 5.0;
    assert LineUpTo(cfg, a, b, 20) == 15.0 && LineUpTo(cfg, b, c, 20) == 0.0;
    hide LineUpTo;
    assert [a, b, c][..2] == [a, b] && [a, b][..1] == [a];
    forall w ensures AreaUpTo(cfg, [a, b, c], w) == LineUpTo(cfg, a, b, w) + LineUpTo(cfg, b, c, w) {
      assert AreaUpTo(cfg, [a, b], w) == LineUpTo(cfg, a, b, w);
    }
  }

  /** The second window begins after a gap of 10. */
  lemma SkippedStep(cfg: Setting, a: Point, b: Point)
    requires cfg == Setting(Options(0, 100, 10, 0, None), 1, true) && a == Point(5, 1.0) && b == Point(25, 1.0)
    ensures Added(cfg, INITIAL, a) == (State(0.0, Some(a), 0, 10), [])
    ensures Added(cfg, State(0.0, Some(a), 0, 10), b) == (State(15.0, Some(b), 20, 30), [Point(0, 5.0)])
  {
    hide Window, Trapezium, Linear;
    assert Whole(cfg.opt, 0, 5) && Whole(cfg.opt, 0, 25);
    WindowContains(cfg.opt, 0, 5);
    WindowContains(cfg.opt, 0, 25);
    assert WindowOf(cfg, 5) == (0, 10) && WindowOf(cfg, 25) == (20, 30);
    hide Whole, Constant, WindowOf;
    LevelLine(a, b, 10);
    LevelLine(a, Point(10, 1.0), 10);
    LevelLine(Point(10, 1.0), b, 10);
  }

  lemma RunThree(cfg: Setting, a: Point, b: Point, c: Point)
    requires Valid(cfg)
    ensures
      var (s, x) := Added(cfg, INITIAL, a);
      var (t, y) := Added(cfg, s, b);
      var (u, z) := Added(cfg, t, c);
      Run(cfg, [a, b, c]) == (u, x + y + z)
  {
    assert Run(cfg, []) == (INITIAL, []);
    hide Added, Run;
    assert [] + [a] == [a] && [a] + [b] == [a, b] && [a, b] + [c] == [a, b, c];
    RunNext(cfg, [], a);
    RunNext(cfg, [a], b);
    RunNext(cfg, [a, b], c);
    var (s, x) := Added(cfg, INITIAL, a);
    assert [] + x == x;
  }

  lemma LevelStep(cfg: Setting, b: Point, c: Point)
    requires cfg.ascending && cfg.unit == 1 && cfg.opt.duration == 10 && b == Point(25, 1.0) && c == Point(30, 1.0)
    ensures Added(cfg, State(15.0, Some(b), 20, 30), c).1 == [Point(20, 20.0)]
  {
    hide Window, Trapezium, Linear, WindowOf;
    LevelLine(b, c, 30);
  }

  /** Windows of 10 over a level line: the window from 20 gets the 10 of the window before it, which has no point. */
  lemma SkippedWindowMoves(cfg: Setting, a: Point, b: Point, c: Point)
    requires cfg == Setting(Options(0, 100, 10, 0, None), 1, true)
    requires a == Point(5, 1.0) && b == Point(25, 1.0) && c == Point(30, 1.0)
    ensures Run(cfg, [a, b, c]).1 == [Point(0, 5.0), Point(20, 20.0)]
    ensures AreaUpTo(cfg, [a, b, c], 30) - AreaUpTo(cfg, [a, b, c], 20) == 10.0
  {
    hide Run, Added, AreaUpTo;
    LevelArea(cfg, a, b, c);
    SkippedStep(cfg, a, b);
    LevelStep(cfg, b, c);
    RunThree(cfg, a, b, c);
  }

  lemma BackwardSteps(cfg: Setting, a: Point, b: Point, c: Point)
    requires cfg == Setting(Options(0, 100, 10, 0, None), 1, false)
    requires a == Point(15, 1.0) && b == Point(10, 1.0) && c == Point(5, 1.0)
    ensures Added(cfg, INITIAL, a) == (State(0.0, Some(a), 20, 10), [])
    ensures Added(cfg, State(0.0, Some(a), 20, 10), b) == (State(0.0, Some(b), 20, 10), [Point(20, -5.0)])
    ensures Added(cfg, State(0.0, Some(b), 20, 10), c).1 == [Point(20, 0.0)]
  {
    hide Window, Trapezium, Linear;
    assert Whole(cfg.opt, 0, 15) && Whole(cfg.opt, 0, 10);
    WindowContains(cfg.opt, 0, 15);
    WindowContains(cfg.opt, 0, 10);
    assert WindowOf(cfg, 15) == (20, 10) && WindowOf(cfg, 10) == (20, 10);
    hide Whole, Constant, WindowOf;
    LevelLine(a, b, 10);
    LevelLine(b, b, 10);
  }

  /**
   Windows of 10 against time: a point at the beginning of its window makes the
   window come twice, the second time without area.
   */
  lemma WindowComesTwice(cfg: Setting, a: Point, b: Point, c: Point)
    requires cfg == Setting(Options(0, 100, 10, 0, None), 1, false)
    requires a == Point(15, 1.0) && b == Point(10, 1.0) && c == Point(5, 1.0)
    ensures Run(cfg, [a, b, c]).1 == [Point(20, -5.0), Point(20, 0.0)]
  {
    hide Run, Added;
    BackwardSteps(cfg, a, b, c);
    RunThree(cfg, a, b, c);
  }

  /** The first of the last points, that is, of those at the last time. */
  function FirstAtEnd(points: seq<Point>): (j: nat)
    requires points != []
    ensures j < |points| && points[j].time == points[|points| - 1].time
    ensures j > 0 ==> points[j - 1].time != points[j].time
  {
    var n := |points| - 1;
    if n == 0 || points[n - 1].time != points[n].time then n else FirstAtEnd(points[..n])
  }

  /** The area between the end of the window of the point before the last time and that time. */
  function Gap(cfg: Setting, points: seq<Point>): real
    requires Valid(cfg) && points != []
  {
    var j := FirstAtEnd(points);
    if j == 0 then 0.0
    else
      var edge := WindowOf(cfg, points[j - 1].time).1;
      Trapezium(Point(edge, Linear(edge, points[j - 1], points[j])), points[j], cfg.unit)
  }

  /** A point at the start of its window leaves that of any earlier point. */
  lemma LeavesBefore(cfg: Setting, zone: int, q: Point, p: Point)
    requires Windowed(cfg, zone, [q, p]) && cfg.ascending && q.time < p.time && p.time == WindowOf(cfg, p.time).0
    ensures q.time < WindowOf(cfg, q.time).1 <= p.time
    ensures Row(cfg.opt, zone, q.time) < Row(cfg.opt, zone, p.time)
    ensures Row(cfg.opt, zone, q.time) + 1 == Row(cfg.opt, zone, p.time) ==> WindowOf(cfg, q.time).1 == p.time
  {
    assert [q, p][0] == q && [q, p][1] == p;
    WindowContains(cfg.opt, zone, q.time);
    WindowContains(cfg.opt, zone, p.time);
    hide Window, Whole, Row, Begin, Constant;
    RowsAscend(cfg.opt, zone, q.time, p.time);
    var k := Row(cfg.opt, zone, q.time);
    Apart(cfg.opt, zone, k, Row(cfg.opt, zone, p.time));
    NextBegin(cfg.opt, zone, k);
  }

  /** At the start of a window the running sum is exactly the gap before it. */
  lemma {:induction false} SumIsGap(cfg: Setting, zone: int, points: seq<Point>)
    requires Windowed(cfg, zone, points) && Ordered(cfg, points) && points != [] && cfg.ascending
    requires points[|points| - 1].time == WindowOf(cfg, points[|points| - 1].time).0
    ensures Run(cfg, points).0.sum == Gap(cfg, points)
  {
    hide Window, Trapezium, Linear, Whole;
    var n := |points| - 1;
    var init, p := points[..n], points[n];
    if n == 0 {
      assert init == [];
    } else {
      var q := init[n - 1];
      assert points[n - 1] == q && [q, p][0] == q && [q, p][1] == p;
      WindowAtHand(cfg, zone, init);
      if q.time == p.time {
        SumIsGap(cfg, zone, init);
        var j := FirstAtEnd(init);
        assert points[j] == init[j] && (j > 0 ==> points[j - 1] == init[j - 1]);
      } else {
        LeavesBefore(cfg, zone, q, p);
      }
    }
  }

  /**
   When closing loses area: the last point is at the start of its window, the
   window of the point before it was not the one just before, and the line over the
   windows in between has area.
   */
  ghost predicate Loses(cfg: Setting, zone: int, points: seq<Point>)
    requires Valid(cfg) && cfg.opt.duration > 0
  {
    && cfg.ascending && points != []
    && var p, j := points[|points| - 1], FirstAtEnd(points);
    && p.time == Begin(cfg.opt, zone, Row(cfg.opt, zone, p.time))
    && j > 0 && Row(cfg.opt, zone, points[j - 1].time) + 1 < Row(cfg.opt, zone, p.time)
    && Gap(cfg, points) != 0.0
  }

  lemma NoWidthNoArea(a: Point, b: Point, unit: int)
    requires unit > 0 && a.time == b.time
    ensures Trapezium(a, b, unit) == 0.0
  {
  }

  lemma GapSkipsWindows(cfg: Setting, zone: int, points: seq<Point>)
    requires Windowed(cfg, zone, points) && Ordered(cfg, points) && points != [] && cfg.ascending
    requires points[|points| - 1].time == WindowOf(cfg, points[|points| - 1].time).0 && Gap(cfg, points) != 0.0
    ensures
      var j := FirstAtEnd(points);
      j > 0 && Row(cfg.opt, zone, points[j - 1].time) + 1 < Row(cfg.opt, zone, points[j].time)
  {
    hide Window, Trapezium, Linear, Whole, Row;
    var j := FirstAtEnd(points);
    var q, p := points[j - 1], points[j];
    assert [q, p][0] == q && [q, p][1] == p;
    LeavesBefore(cfg, zone, q, p);
    var edge := WindowOf(cfg, q.time).1;
    if edge == p.time {
      NoWidthNoArea(Point(edge, Linear(edge, q, p)), p, cfg.unit);
    }
  }

  /** With windows, closing keeps the area if and only if it does not lose a gap in this way; against time it never does. */
  lemma CloseKeepsArea(cfg: Setting, zone: int, points: seq<Point>)
    requires Windowed(cfg, zone, points) && Ordered(cfg, points)
    ensures
      var (s, emitted) := Run(cfg, points);
      Total(emitted + Closed(s)) == Area(points, cfg.unit) <==> !Loses(cfg, zone, points)
  {
    CloseDiscards(cfg, points);
    if points != [] {
      var p := points[|points| - 1];
      WindowAtHand(cfg, zone, points);
      WindowContains(cfg.opt, zone, p.time);
      hide Window, Trapezium, Linear, Whole, Row, Begin, Run;
      if cfg.ascending && p.time == WindowOf(cfg, p.time).0 {
        SumIsGap(cfg, zone, points);
        if Gap(cfg, points) != 0.0 {
          GapSkipsWindows(cfg, zone, points);
        }
      }
    }
  }

  lemma {:induction false} RunWithoutWindows(cfg: Setting, points: seq<Point>)
    requires Valid(cfg) && cfg.opt.duration == 0
    ensures var (s, emitted) := Run(cfg, points); s.start == 0 && emitted == []
  {
    if points != [] {
      RunWithoutWindows(cfg, points[..|points| - 1]);
    }
  }

  /** Without windows, closing keeps the area if and only if the last point is not at time zero or there is none. */
  lemma CloseKeepsAreaWithoutWindows(cfg: Setting, points: seq<Point>)
    requires Valid(cfg) && cfg.opt.duration == 0
    ensures
      var (s, emitted) := Run(cfg, points);
      Total(emitted + Closed(s)) == Area(points, cfg.unit) <==>
      !(points != [] && points[|points| - 1].time == 0 && Area(points, cfg.unit) != 0.0)
  {
    CloseDiscards(cfg, points);
    AreaIsConserved(cfg, points);
    RunWithoutWindows(cfg, points);
  }

  /** On a level line of height one every value is one, and the area is its length. */
  lemma LevelLine(a: Point, b: Point, w: int)
    requires a.value == b.value == 1.0
    ensures a.time != b.time ==> Linear(w, a, b) == 1.0
    ensures Trapezium(a, b, 1) == (b.time - a.time) as real
  {
    if a.time != b.time {
      assert (b.value - a.value) / (b.time - a.time) as real == 0.0;
    }
  }

  lemma LevelGap(cfg: Setting, q: Point, p: Point)
    requires Valid(cfg) && cfg.unit == 1 && q.time != p.time && q.value == p.value == 1.0
    ensures FirstAtEnd([q, p]) == 1
    ensures Area([q, p], cfg.unit) == (p.time - q.time) as real
    ensures Gap(cfg, [q, p]) == (p.time - WindowOf(cfg, q.time).1) as real
  {
    hide Window, Trapezium, Linear, WindowOf;
    var edge := WindowOf(cfg, q.time).1;
    LevelLine(q, p, edge);
    LevelLine(Point(edge, 1.0), p, edge);
    assert [q, p][..1] == [q];
  }

  /** With windows of 10: of an area of 15 the 10 in the window that has no point are lost. */
  lemma CloseLosesGap()
    ensures
      var cfg, points := Setting(Options(0, 100, 10, 0, None), 1, true), [Point(5, 1.0), Point(20, 1.0)];
      && Windowed(cfg, 0, points) && Ordered(cfg, points) && Loses(cfg, 0, points)
      && Area(points, cfg.unit) == 15.0 && Gap(cfg, points) == 10.0
  {
    var cfg, q, p := Setting(Options(0, 100, 10, 0, None), 1, true), Point(5, 1.0), Point(20, 1.0);
    hide Window, Trapezium, Linear, Gap, Area, FirstAtEnd;
    assert Whole(cfg.opt, 0, 5) && Whole(cfg.opt, 0, 20);
    WindowContains(cfg.opt, 0, 5);
    assert WindowOf(cfg, 5).1 == 10;
    LevelGap(cfg, q, p);
  }

  /** Without windows, the whole integral is lost if the last point is at time zero. */
  lemma CloseLosesArea()
    ensures
      var cfg, points := Setting(Options(0, 0, 0, 0, None), 1, true), [Point(-10, 1.0), Point(0, 1.0)];
      Area(points, cfg.unit) == 10.0 && Run(cfg, points).1 + Closed(Run(cfg, points).0) == []
  {
    var cfg, points := Setting(Options(0, 0, 0, 0, None), 1, true), [Point(-10, 1.0), Point(0, 1.0)];
    var one := [Point(-10, 1.0)];
    assert points[..|points| - 1] == one && one[..|one| - 1] == [];
    assert Run(cfg, one[..|one| - 1]) == (INITIAL, []);
    assert Added(cfg, INITIAL, one[0]) == (State(0.0, Some(one[0]), 0, 0), []);
    assert Run(cfg, one).0 == State(0.0, Some(one[0]), 0, 0) && Run(cfg, one).1 == [];
  }
}
