/**
 Time windows of a query: the window that a time falls in, and the number of
 windows that a query touches.
 */
module Windows {
  import opened Wrappers
  import opened Arithmetic
  import opened Aggregates

  const MIN_TIME := -TWO63 + 2
  const MAX_TIME := TWO63 - 2

  /** `location` gives the zone offset at a time. */
  datatype Options = Options(startTime: int, endTime: int, duration: int, offset: int, location: Option<int -> int>)

  predicate Int64(n: int)
  {
    -TWO63 <= n < TWO63
  }

  /** The remainder with the sign of the dividend. */
  function Remainder(a: int, b: int): int
    requires b > 0
  {
    if a >= 0 then a % b else -((-a) % b)
  }

  function Abs(n: int): nat
  {
    if n < 0 then -n else n
  }

  /** How far `t` is into its window. */
  function Into(opt: Options, t: int, zone: int): int
    requires opt.duration > 0
  {
    var dt := Remainder(Wrap64(t + zone), opt.duration);
    if dt < 0 then dt + opt.duration else dt
  }

  /** The start of the window, moved if the zone changes between it and `t`. */
  function StartOf(opt: Options, t: int, zone: int, dt: int): int
  {
    var start := if MIN_TIME + dt >= t then MIN_TIME else t - dt;
    if opt.location.None? then start
    else
      var o := Wrap64(zone - opt.location.value(start));
      if o != 0 && Abs(o) < opt.duration then Wrap64(start + o) else start
  }

  function EndOf(opt: Options, t: int, zone: int, dt: int): int
  {
    var left := opt.duration - dt;
    var end := if MAX_TIME - left <= t then MAX_TIME else t + left;
    if opt.location.None? then end
    else
      var o := Wrap64(zone - opt.location.value(end));
      if o == 0 || Abs(o) >= opt.duration then end
      else if o > 0 || opt.location.value(Wrap64(end + o)) == opt.location.value(end) then Wrap64(end + o)
      else end
  }

  /** The window [start, end) that `time` falls in. */
  function Window(opt: Options, time: int): (int, int)
    requires opt.duration >= 0
  {
    if opt.duration == 0 then (opt.startTime, Wrap64(opt.endTime + 1))
    else
      var t := Wrap64(time - opt.offset);
      var zone := if opt.location.None? then 0 else opt.location.value(t);
      var dt := Into(opt, t, zone);
      (Wrap64(StartOf(opt, t, zone, dt) + opt.offset), Wrap64(EndOf(opt, t, zone, dt) + opt.offset))
  }

  // ----- The windows that are meant -----

  /** There is no zone, or its offset is always the same. */
  ghost predicate Constant(opt: Options, zone: int)
  {
    match opt.location
    case None => zone == 0
    case Some(at) => forall t :: at(t) == zone
  }

  /** The number of the window of `t` in the endless row of windows. */
  function Row(opt: Options, zone: int, t: int): int
    requires opt.duration > 0
  {
    (t - opt.offset + zone) / opt.duration
  }

  /** Where window number `k` begins. */
  function Begin(opt: Options, zone: int, k: int): int
  {
    k * opt.duration + opt.offset - zone
  }

  /** No 64-bit overflow on the way from a time to its window. */
  ghost predicate Representable(opt: Options, zone: int, t: int)
  {
    MIN_TIME <= t - opt.offset <= MAX_TIME && Int64(t - opt.offset + zone)
  }

  lemma RemainderIsModulo(a: int, b: int)
    requires b > 0
    ensures var dt := Remainder(a, b); (if dt < 0 then dt + b else dt) == a % b
  {
    if a < 0 {
      var q, r := (-a) / b, (-a) % b;
      assert -a == q * b + r;
      if r == 0 {
        assert a == (-q) * b;
        QuotientUnique(a, b, -q);
      } else {
        assert a == (-q - 1) * b + (b - r);
        QuotientUnique(a, b, -q - 1);
      }
    }
  }

  lemma WrapNothing(n: int)
    requires Int64(n)
    ensures Wrap64(n) == n
  {
  }

  /** What the code computes: the window in the row, cut at the ends of time. */
  lemma WindowIs(opt: Options, zone: int, t: int)
    requires opt.duration > 0 && Constant(opt, zone) && Representable(opt, zone, t)
    ensures
      var begin := Begin(opt, zone, Row(opt, zone, t));
      && begin <= t < begin + opt.duration
      && Window(opt, t) == (Wrap64(if begin - opt.offset <= MIN_TIME then MIN_TIME + opt.offset else begin),
                            Wrap64(if begin - opt.offset + opt.duration >= MAX_TIME then MAX_TIME + opt.offset
                                   else begin + opt.duration))
  {
    hide Wrap64, Remainder, StartOf, EndOf, Begin, Row;
    var s, d := t - opt.offset, opt.duration;
    WrapNothing(s);
    WrapNothing(s + zone);
    RemainderIsModulo(s + zone, d);
    EdgesOf(opt, zone, s, (s + zone) % d);
    BeginIs(opt, zone, t);
  }

  lemma BeginIs(opt: Options, zone: int, t: int)
    requires opt.duration > 0
    ensures Begin(opt, zone, Row(opt, zone, t)) == t - (t - opt.offset + zone) % opt.duration
  {
    var x, d := t - opt.offset + zone, opt.duration;
    assert x == x / d * d + x % d;
  }

  /** A constant zone moves neither edge. */
  lemma EdgesOf(opt: Options, zone: int, s: int, dt: int)
    requires Constant(opt, zone)
    ensures StartOf(opt, s, zone, dt) == if s - dt <= MIN_TIME then MIN_TIME else s - dt
    ensures EndOf(opt, s, zone, dt) == if s - dt + opt.duration >= MAX_TIME then MAX_TIME else s - dt + opt.duration
  {
    WrapNothing(0);
  }

  /** The window of `t` is not cut and its ends are representable. */
  ghost predicate Whole(opt: Options, zone: int, t: int)
    requires opt.duration > 0
  {
    var begin := Begin(opt, zone, Row(opt, zone, t));
    && Representable(opt, zone, t)
    && MIN_TIME < begin - opt.offset && begin - opt.offset + opt.duration < MAX_TIME
    && Int64(begin) && Int64(begin + opt.duration)
  }

  lemma BeginAligned(opt: Options, zone: int, k: int)
    requires opt.duration > 0
    ensures (Begin(opt, zone, k) - opt.offset + zone) % opt.duration == 0
  {
    QuotientUnique(k * opt.duration, opt.duration, k);
  }

  /** A window contains its time, is as long as the interval and begins a whole number of intervals from the offset. */
  lemma WindowContains(opt: Options, zone: int, t: int)
    requires opt.duration > 0 && Constant(opt, zone) && Whole(opt, zone, t)
    ensures
      var (start, end) := Window(opt, t);
      && start <= t < end && end - start == opt.duration && start == Begin(opt, zone, Row(opt, zone, t))
      && (start - opt.offset + zone) % opt.duration == 0
  {
    hide Window, Begin, Row, Constant, Wrap64;
    WindowIs(opt, zone, t);
    BeginAligned(opt, zone, Row(opt, zone, t));
    var begin := Begin(opt, zone, Row(opt, zone, t));
    WrapNothing(begin);
    WrapNothing(begin + opt.duration);
  }

  lemma RowOf(opt: Options, zone: int, k: int, t: int)
    requires opt.duration > 0
    ensures Row(opt, zone, t) == k <==> Begin(opt, zone, k) <= t < Begin(opt, zone, k) + opt.duration
  {
    var x, d := t - opt.offset + zone, opt.duration;
    assert x == x / d * d + x % d;
    if k * d <= x < k * d + d {
      QuotientUnique(x, d, k);
    }
  }

  /** The windows tile the time line: times share a window exactly if they lie in it, and each ends where the next begins. */
  lemma WindowsTile(opt: Options, zone: int, t: int, u: int)
    requires opt.duration > 0 && Constant(opt, zone) && Whole(opt, zone, t) && Whole(opt, zone, u)
    ensures
      var ((a, b), (c, d)) := (Window(opt, t), Window(opt, u));
      && (Window(opt, t) == Window(opt, u) <==> a <= u < b)
      && (Window(opt, t) == Window(opt, u) || b <= c || d <= a)
      && (u == b ==> c == b)
  {
    WindowContains(opt, zone, t);
    WindowContains(opt, zone, u);
    var k, m := Row(opt, zone, t), Row(opt, zone, u);
    RowOf(opt, zone, k, u);
    RowOf(opt, zone, m, t);
    Apart(opt, zone, k, m);
    if u == Window(opt, t).1 {
      RowOf(opt, zone, k + 1, u);
    }
  }

  lemma Apart(opt: Options, zone: int, k: int, m: int)
    requires opt.duration > 0
    ensures k < m ==> Begin(opt, zone, k) + opt.duration <= Begin(opt, zone, m)
    ensures m < k ==> Begin(opt, zone, m) + opt.duration <= Begin(opt, zone, k)
  {
    assert Begin(opt, zone, m) - Begin(opt, zone, k) == (m - k) * opt.duration;
    Multiple(m - k, opt.duration);
  }

  lemma NextBegin(opt: Options, zone: int, k: int)
    ensures Begin(opt, zone, k + 1) == Begin(opt, zone, k) + opt.duration
  {
  }

  /** Cut at the ends of time, a window without offset still contains its time. */
  lemma CutWindowContains(opt: Options, zone: int, t: int)
    requires opt.duration > 0 && opt.offset == 0 && Constant(opt, zone) && Representable(opt, zone, t)
    ensures var (start, end) := Window(opt, t); start <= t <= end && (t < end <==> t < MAX_TIME)
  {
    hide Window, Begin, Row, Constant, Wrap64;
    WindowIs(opt, zone, t);
    var begin := Begin(opt, zone, Row(opt, zone, t));
    WrapNothing(MIN_TIME);
    WrapNothing(MAX_TIME);
    if begin > MIN_TIME {
      WrapNothing(begin);
    }
    if begin + opt.duration < MAX_TIME {
      WrapNothing(begin + opt.duration);
    }
  }

  // ----- Counting windows -----

  /** The number of buckets that a query is charged for. */
  function Buckets(opt: Options): int
    requires opt.duration > 0
  {
    var first, last := Window(opt, opt.startTime).0, Window(opt, opt.endTime - 1).0;
    Quotient(Wrap64(Wrap64(last - first) + opt.duration), opt.duration)
  }

  /** The quotient rounded towards zero. */
  function Quotient(a: int, b: int): int
    requires b > 0
  {
    if a >= 0 then a / b else -((-a) / b)
  }

  /** The starts of the windows that the query's times fall in. */
  ghost function Touched(opt: Options): set<int>
    requires opt.duration > 0
  {
    set t | opt.startTime <= t < opt.endTime :: Window(opt, t).0
  }

  ghost function Rows(opt: Options, zone: int, from: int, n: nat): (r: set<int>)
    requires opt.duration > 0
    ensures |r| == n && forall s :: s in r <==> exists k :: from <= k < from + n && s == Begin(opt, zone, k)
  {
    if n == 0 then {}
    else
      assert forall k | from <= k < from + n - 1 :: Begin(opt, zone, k) != Begin(opt, zone, from + n - 1) by {
        forall k | from <= k < from + n - 1 ensures Begin(opt, zone, k) != Begin(opt, zone, from + n - 1) {
          Apart(opt, zone, k, from + n - 1);
        }
      }
      Rows(opt, zone, from, n - 1) + {Begin(opt, zone, from + n - 1)}
  }

  lemma RowsAscend(opt: Options, zone: int, t: int, u: int)
    requires opt.duration > 0 && t <= u
    ensures Row(opt, zone, t) <= Row(opt, zone, u)
    ensures Begin(opt, zone, Row(opt, zone, t)) <= Begin(opt, zone, Row(opt, zone, u))
  {
    var k, m := Row(opt, zone, t), Row(opt, zone, u);
    RowOf(opt, zone, k, t);
    RowOf(opt, zone, m, u);
    Apart(opt, zone, k, m);
  }

  lemma WholeBetween(opt: Options, zone: int, t: int)
    requires opt.duration > 0 && opt.startTime <= t < opt.endTime
    requires Whole(opt, zone, opt.startTime) && Whole(opt, zone, opt.endTime - 1)
    ensures Whole(opt, zone, t)
  {
    RowsAscend(opt, zone, opt.startTime, t);
    RowsAscend(opt, zone, t, opt.endTime - 1);
  }

  /** Every window between the first and the last has a time of the query in it. */
  lemma RowIsTouched(opt: Options, zone: int, k: int) returns (t: int)
    requires opt.duration > 0
    requires Row(opt, zone, opt.startTime) <= k <= Row(opt, zone, opt.endTime - 1)
    requires opt.startTime < opt.endTime
    ensures opt.startTime <= t < opt.endTime && Row(opt, zone, t) == k
  {
    var first, last := Row(opt, zone, opt.startTime), Row(opt, zone, opt.endTime - 1);
    RowOf(opt, zone, first, opt.startTime);
    RowOf(opt, zone, last, opt.endTime - 1);
    Apart(opt, zone, first, k);
    Apart(opt, zone, k, last);
    t := if k == first then opt.startTime else Begin(opt, zone, k);
    RowOf(opt, zone, k, t);
  }

  lemma TouchedRows(opt: Options, zone: int)
    requires opt.duration > 0 && Constant(opt, zone) && opt.startTime < opt.endTime
    requires Whole(opt, zone, opt.startTime) && Whole(opt, zone, opt.endTime - 1)
    ensures
      var first, last := Row(opt, zone, opt.startTime), Row(opt, zone, opt.endTime - 1);
      first <= last && Touched(opt) == Rows(opt, zone, first, last - first + 1)
  {
    hide Window, Row, Begin, Whole, Constant;
    var first, last := Row(opt, zone, opt.startTime), Row(opt, zone, opt.endTime - 1);
    RowsAscend(opt, zone, opt.startTime, opt.endTime - 1);
    var rows := Rows(opt, zone, first, last - first + 1);
    forall s | s in Touched(opt) ensures s in rows {
      var t :| opt.startTime <= t < opt.endTime && Window(opt, t).0 == s;
      WholeBetween(opt, zone, t);
      WindowContains(opt, zone, t);
      RowsAscend(opt, zone, opt.startTime, t);
      RowsAscend(opt, zone, t, opt.endTime - 1);
    }
    forall s | s in rows ensures s in Touched(opt) {
      var k :| first <= k <= last && s == Begin(opt, zone, k);
      var t := RowIsTouched(opt, zone, k);
      WholeBetween(opt, zone, t);
      WindowContains(opt, zone, t);
    }
  }

  lemma SpanOfRows(opt: Options, zone: int, k: int, m: int)
    ensures Begin(opt, zone, m) - Begin(opt, zone, k) + opt.duration == (m - k + 1) * opt.duration
  {
  }

  lemma WindowSpan(opt: Options, zone: int)
    requires opt.duration > 0 && Constant(opt, zone) && opt.startTime < opt.endTime
    requires Whole(opt, zone, opt.startTime) && Whole(opt, zone, opt.endTime - 1)
    ensures
      var span := Window(opt, opt.endTime - 1).0 - Window(opt, opt.startTime).0 + opt.duration;
      span == |Touched(opt)| * opt.duration && span <= TWO64 && |Touched(opt)| > 0
  {
    hide Window, Row, Begin, Touched, Constant;
    TouchedRows(opt, zone);
    WindowContains(opt, zone, opt.startTime);
    WindowContains(opt, zone, opt.endTime - 1);
    SpanOfRows(opt, zone, Row(opt, zone, opt.startTime), Row(opt, zone, opt.endTime - 1));
  }

  /** The number of buckets is the number of windows touched, exactly if the span of those windows does not overflow. */
  lemma BucketsExact(opt: Options, zone: int)
    requires 0 < opt.duration < TWO63 && Constant(opt, zone) && opt.startTime < opt.endTime
    requires Whole(opt, zone, opt.startTime) && Whole(opt, zone, opt.endTime - 1)
    ensures
      var (first, last) := (Window(opt, opt.startTime).0, Window(opt, opt.endTime - 1).0);
      Buckets(opt) == |Touched(opt)| <==> last - first + opt.duration < TWO63
  {
    hide Window, Row, Begin, Touched, Constant, Whole, Wrap64, Quotient;
    var first, last := Window(opt, opt.startTime).0, Window(opt, opt.endTime - 1).0;
    WindowSpan(opt, zone);
    WrapAdds(last - first, opt.duration);
    SpanQuotient(|Touched(opt)|, opt.duration);
  }

  lemma SpanQuotient(n: nat, d: int)
    requires 0 < d < TWO63 && 0 < n && n * d <= TWO64
    ensures Quotient(Wrap64(n * d), d) == n <==> n * d < TWO63
  {
    if n * d < TWO63 {
      QuotientUnique(n * d, d, n);
    }
  }

  /** Windows of one nanosecond over nearly all of time: the count comes out negative, below any limit. */
  lemma BucketsOverflow()
    ensures
      var opt := Options(MIN_TIME + 1, MAX_TIME - 1, 1, 0, None);
      && Constant(opt, 0) && Whole(opt, 0, opt.startTime) && Whole(opt, 0, opt.endTime - 1)
      && Buckets(opt) < 0
  {
    var opt := Options(MIN_TIME + 1, MAX_TIME - 1, 1, 0, None);
    WindowContains(opt, 0, opt.startTime);
    WindowContains(opt, 0, opt.endTime - 1);
    hide Window;
  }
}
