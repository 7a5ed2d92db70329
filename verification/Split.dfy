/**
 Splitting a point whose text is too long into points with fewer fields each, and
 the size of a point's text.
 */
module Split {
  import opened Wrappers
  import opened Bytes
  import opened Scanner
  import opened Escape

  /** A point as text; the zero time is None. */
  datatype Point = Point(key: Bytes, fields: Bytes, time: Option<int>)

  const MIN_INT64 := -0x8000_0000_0000_0000

  predicate HasTime(p: Point)
  {
    p.time.Some? ==> MIN_INT64 <= p.time.value < -MIN_INT64
  }

  // ----- The text of a point and its size -----

  const MINUS: byte := 45
  const ZERO: byte := 48

  function Digits(n: nat): (r: Bytes)
    ensures r != []
  {
    if n < 10 then [ZERO + n as byte] else Digits(n / 10) + [ZERO + (n % 10) as byte]
  }

  function Decimal(n: int): Bytes
  {
    if n < 0 then [MINUS] + Digits(-n) else Digits(n)
  }

  function Text(p: Point): Bytes
  {
    p.key + [SPACE] + p.fields + if p.time.None? then [] else [SPACE] + Decimal(p.time.value)
  }

  /** The size of a point's text, by counting digits. The least 64-bit integer has no negation, so its digits are not counted. */
  method StringSize(p: Point) returns (size: nat)
    requires HasTime(p)
    ensures size == if p.time == Some(MIN_INT64) then |p.key| + |p.fields| + 4 else |Text(p)|
  {
    size := |p.key| + |p.fields| + 1;
    if p.time.Some? {
      var digits := 1;
      var t := p.time.value;
      if t < 0 {
        digits := digits + 1;
        t := if t == MIN_INT64 then t else -t;
      }
      ghost var all := digits + if t < 0 then 0 else |Digits(t)| - 1;
      while t > 9
        invariant digits + (if t < 0 then 0 else |Digits(t)| - 1) == all
      {
        digits := digits + 1;
        t := t / 10;
      }
      size := size + digits + 1;
    }
  }

  lemma {:induction false} DigitsLonger(n: nat)
    requires n >= 100
    ensures |Digits(n)| > 2
  {
    assert |Digits(n / 10)| >= 2 by {
      assert Digits(n / 10) == Digits(n / 10 / 10) + [ZERO + (n / 10 % 10) as byte];
    }
  }

  /** At the least time the count of StringSize is wrong. */
  lemma LeastTimeIsMiscounted(p: Point)
    requires p.time == Some(MIN_INT64)
    ensures |p.key| + |p.fields| + 4 != |Text(p)|
  {
    DigitsLonger(-MIN_INT64);
  }

  // ----- Fields -----

  /** Where the field that starts at `cur` ends; None if it has no equals sign. */
  function FieldStop(fields: Bytes, cur: nat): (r: Option<nat>)
    requires cur <= |fields|
    ensures r.Some? ==> cur < r.value <= |fields| && (r.value < |fields| ==> fields[r.value] == COMMA)
  {
    var e := ScanEnd(fields, cur, EQUALS);
    if e == |fields| then None else Some(e + 1 + ValueLength(fields[e + 1..], false))
  }

  /** One or more fields from `cur` to the end, with commas between them. */
  predicate WellFormed(fields: Bytes, cur: nat)
    decreases |fields| - cur
  {
    cur <= |fields| &&
    match FieldStop(fields, cur)
    case None => false
    case Some(e) => e == |fields| || WellFormed(fields, e + 1)
  }

  predicate OneField(fields: Bytes)
  {
    FieldStop(fields, 0) == Some(|fields|)
  }

  /** The fields from `a` to `b`, a run of whole fields. */
  predicate Fields(fields: Bytes, a: nat, b: nat)
    requires b <= |fields|
    decreases b - a
  {
    a < b &&
    match FieldStop(fields, a)
    case None => false
    case Some(e) => e == b || (e < b && Fields(fields, e + 1, b))
  }

  lemma {:induction false} FieldsExtend(fields: Bytes, a: nat, b: nat, c: nat)
    requires a < b < c <= |fields| && Fields(fields, a, b) && FieldStop(fields, b + 1) == Some(c)
    ensures Fields(fields, a, c)
    decreases b - a
  {
    hide FieldStop;
    var e := FieldStop(fields, a).value;
    if e < b {
      FieldsExtend(fields, e + 1, b, c);
    }
  }

  /** A value that ends within a prefix ends there in the prefix alone. */
  lemma {:induction false} ValueLengthPrefix(s: Bytes, t: Bytes, quoted: bool)
    requires ValueLength(s + t, quoted) <= |s|
    ensures ValueLength(s, quoted) == ValueLength(s + t, quoted)
    decreases |s|
  {
    var u := s + t;
    if s != [] && !(u[0] == COMMA && !quoted) {
      var pair := |u| > 1 && u[0] == BACKSLASH && (u[1] == QUOTE || u[1] == BACKSLASH);
      var k, q := if pair then 2 else 1, if !pair && u[0] == QUOTE then !quoted else quoted;
      assert ValueLength(u, quoted) == k + ValueLength(u[k..], q);
      assert u[k..] == s[k..] + t;
      ValueLengthPrefix(s[k..], t, q);
    }
  }

  lemma {:induction false} ScanEndSlice(s: Bytes, a: nat, b: nat, i: nat, stop: byte)
    requires a <= i <= b <= |s| && ScanEnd(s, i, stop) < b && (a > 0 ==> s[a - 1] != BACKSLASH)
    ensures ScanEnd(s[a..b], i - a, stop) == ScanEnd(s, i, stop) - a
    decreases |s| - i
  {
    if ScanEnd(s, i, stop) > i {
      ScanEndSlice(s, a, b, i + 1, stop);
    }
  }

  /** A field ends at the same place when only a piece is looked at. */
  lemma FieldStopSlice(fields: Bytes, a: nat, b: nat, c: nat)
    requires a <= c <= b <= |fields| && (a > 0 ==> fields[a - 1] == COMMA)
    requires FieldStop(fields, c).Some? && FieldStop(fields, c).value <= b
    ensures FieldStop(fields[a..b], c - a) == Some(FieldStop(fields, c).value - a)
  {
    hide ValueLength, ScanEnd;
    var e := ScanEnd(fields, c, EQUALS);
    ScanEndSlice(fields, a, b, c, EQUALS);
    var piece, after := fields[e + 1..b], fields[b..];
    assert fields[a..b][e + 1 - a..] == piece && fields[e + 1..] == piece + after;
    ValueLengthPrefix(piece, after, false);
  }

  lemma {:induction false} FieldsSlice(fields: Bytes, a: nat, b: nat, c: nat)
    requires a <= c < b <= |fields| && (a > 0 ==> fields[a - 1] == COMMA) && Fields(fields, c, b)
    ensures WellFormed(fields[a..b], c - a)
    decreases b - c
  {
    hide ValueLength, ScanEnd, FieldStop;
    FieldStopSlice(fields, a, b, c);
    var e := FieldStop(fields, c).value;
    if e < b {
      FieldsSlice(fields, a, b, e + 1);
    }
  }

  // ----- Splitting -----

  function Joined(pieces: seq<Point>): Bytes
  {
    if pieces == [] then []
    else if |pieces| == 1 then pieces[0].fields
    else Joined(pieces[..|pieces| - 1]) + [COMMA] + pieces[|pieces| - 1].fields
  }

  /** Where a piece has been started and where the next field starts. */
  ghost predicate Cut(p: Point, limit: int, points: seq<Point>, start: nat, cur: nat)
  {
    && start <= cur <= |p.fields| + 1 && start < |p.fields|
    && (start > 0 ==> p.fields[start - 1] == COMMA && p.fields[..start - 1] == Joined(points) && points != [])
    && (start == 0 ==> points == [])
    && (cur > start ==> Fields(p.fields, start, cur - 1) && Fits(p.fields, start, cur - 1, limit))
    && (cur == start || cur <= |p.fields| ==> WellFormed(p.fields, cur))
    && (forall q | q in points :: IsPiece(p, q, limit))
  }

  ghost predicate Fits(fields: Bytes, a: nat, b: nat, limit: int)
    requires a < b <= |fields|
  {
    b - a <= limit || FieldStop(fields, a) == Some(b)
  }

  /** A piece has the key and the time of the point, whole fields, and the right size unless it is a single field. */
  ghost predicate IsPiece(p: Point, q: Point, limit: int)
  {
    q.key == p.key && q.time == p.time && WellFormed(q.fields, 0) && (|q.fields| <= limit || OneField(q.fields))
  }

  lemma JoinedPush(points: seq<Point>, q: Point)
    ensures Joined(points + [q]) == if points == [] then q.fields else Joined(points) + [COMMA] + q.fields
  {
    assert (points + [q])[..|points|] == points;
  }

  lemma CutPiece(p: Point, limit: int, points: seq<Point>, start: nat, cur: nat)
    requires Cut(p, limit, points, start, cur) && cur > start
    ensures
      var q := Point(p.key, p.fields[start..cur - 1], p.time);
      IsPiece(p, q, limit) && Joined(points + [q]) == p.fields[..cur - 1]
  {
    hide FieldStop, WellFormed, Joined;
    var q := Point(p.key, p.fields[start..cur - 1], p.time);
    FieldsSlice(p.fields, start, cur - 1, start);
    if FieldStop(p.fields, start) == Some(cur - 1) {
      FieldStopSlice(p.fields, start, cur - 1, start);
    }
    JoinedPush(points, q);
    if start > 0 {
      assert p.fields[..cur - 1] == p.fields[..start - 1] + [COMMA] + p.fields[start..cur - 1];
    }
  }

  lemma CutStart(p: Point, limit: int)
    requires WellFormed(p.fields, 0)
    ensures Cut(p, limit, [], 0, 0)
  {
  }

  lemma CutField(p: Point, limit: int, points: seq<Point>, start: nat, cur: nat)
    requires Cut(p, limit, points, start, cur) && cur < |p.fields|
    ensures FieldStop(p.fields, cur).Some?
  {
  }

  /** The next field is added to the piece. */
  lemma CutGrows(p: Point, limit: int, points: seq<Point>, start: nat, cur: nat, end: nat)
    requires Cut(p, limit, points, start, cur) && cur < |p.fields| && FieldStop(p.fields, cur) == Some(end)
    requires cur == start || end - start <= limit
    ensures Cut(p, limit, points, start, end + 1)
  {
    hide FieldStop, Joined, IsPiece;
    if cur > start {
      FieldsExtend(p.fields, start, cur - 1, end);
    }
  }

  /** The next field starts a new piece. */
  lemma CutMoves(p: Point, limit: int, points: seq<Point>, start: nat, cur: nat)
    requires Cut(p, limit, points, start, cur) && start < cur < |p.fields|
    ensures Cut(p, limit, points + [Point(p.key, p.fields[start..cur - 1], p.time)], cur, cur)
  {
    CutPiece(p, limit, points, start, cur);
    CutAtComma(p.fields, start, cur - 1);
  }

  lemma {:induction false} CutAtComma(fields: Bytes, a: nat, b: nat)
    requires b < |fields| && Fields(fields, a, b)
    ensures fields[b] == COMMA
    decreases b - a
  {
    var e := FieldStop(fields, a).value;
    if e < b {
      CutAtComma(fields, e + 1, b);
    }
  }

  lemma CutEnds(p: Point, limit: int, points: seq<Point>, start: nat, cur: nat)
    requires Cut(p, limit, points, start, cur) && cur >= |p.fields|
    ensures start <= |p.fields| && cur == |p.fields| + 1
    ensures
      var all := points + [Point(p.key, p.fields[start..], p.time)];
      Joined(all) == p.fields && forall q | q in all :: IsPiece(p, q, limit)
  {
    assert cur == |p.fields| + 1;
    CutPiece(p, limit, points, start, cur);
    assert p.fields[start..cur - 1] == p.fields[start..] && p.fields[..cur - 1] == p.fields;
  }

  /**
   The points have the key and the time of `p` and whole fields that make up its
   fields. A text is too long only for a single field, or for the whole point at the
   least time, whose digits were not counted.
   */
  ghost predicate SplitOf(p: Point, size: int, points: seq<Point>)
  {
    && Joined(points) == p.fields
    && forall q | q in points ::
         && q.key == p.key && q.time == p.time && WellFormed(q.fields, 0)
         && (p.time.Some? ==> |Text(q)| <= size || OneField(q.fields) || Miscounted(p, size, points))
  }

  ghost predicate Miscounted(p: Point, size: int, points: seq<Point>)
  {
    p.time == Some(MIN_INT64) && points == [p] && |p.key| + |p.fields| + 4 <= size
  }

  /** No piece had room for the first field of the next one. */
  ghost predicate Packed(size: int, points: seq<Point>)
  {
    forall k | 0 <= k < |points| - 1 :: NoRoom(size, points[k], points[k + 1])
  }

  /** With the first field of `r` the text of `q` would be too long. */
  ghost predicate NoRoom(size: int, q: Point, r: Point)
  {
    var field := FieldStop(r.fields, 0);
    field.Some? && |Text(q.(fields := q.fields + [COMMA] + r.fields[..field.value]))| > size
  }

  ghost predicate Overflows(limit: int, q: Point, r: Point)
  {
    FieldStop(r.fields, 0).Some? && |q.fields| + 1 + FieldStop(r.fields, 0).value > limit
  }

  /** The pieces so far overflow with the first field of the next, the last one with the field at `start`. */
  ghost predicate Full(p: Point, limit: int, points: seq<Point>, start: nat)
  {
    && (forall k | 0 <= k < |points| - 1 :: Overflows(limit, points[k], points[k + 1]))
    && (points != [] ==>
          && start <= |p.fields| && FieldStop(p.fields, start).Some?
          && |points[|points| - 1].fields| + 1 + FieldStop(p.fields, start).value - start > limit)
  }

  lemma FullStart(p: Point, limit: int)
    ensures Full(p, limit, [], 0)
  {
  }

  lemma FullPiece(p: Point, limit: int, points: seq<Point>, start: nat, cur: nat)
    requires Cut(p, limit, points, start, cur) && cur > start && Full(p, limit, points, start)
    ensures
      var all := points + [Point(p.key, p.fields[start..cur - 1], p.time)];
      forall k | 0 <= k < |all| - 1 :: Overflows(limit, all[k], all[k + 1])
  {
    if points != [] {
      PieceField(p, limit, points, start, cur);
    }
    hide Cut, FieldStop;
  }

  lemma PieceField(p: Point, limit: int, points: seq<Point>, start: nat, cur: nat)
    requires Cut(p, limit, points, start, cur) && cur > start && points != []
    ensures FieldStop(p.fields, start).Some?
    ensures FieldStop(p.fields[start..cur - 1], 0) == Some(FieldStop(p.fields, start).value - start)
  {
    hide FieldStop, Joined, IsPiece, WellFormed;
    FieldStopSlice(p.fields, start, cur - 1, start);
  }

  lemma FullMoves(p: Point, limit: int, points: seq<Point>, start: nat, cur: nat, end: nat)
    requires Cut(p, limit, points, start, cur) && start < cur < |p.fields| && Full(p, limit, points, start)
    requires FieldStop(p.fields, cur) == Some(end) && end - start > limit
    ensures Full(p, limit, points + [Point(p.key, p.fields[start..cur - 1], p.time)], cur)
  {
    FullPiece(p, limit, points, start, cur);
    hide Cut, Overflows, FieldStop;
  }

  lemma FullPacks(p: Point, size: int, points: seq<Point>, start: nat, cur: nat)
    requires p.time.Some? && cur >= |p.fields| && forall q | q in points :: q.key == p.key && q.time == p.time
    requires
      var limit := size - (|p.key| + |Decimal(p.time.value)| + 2);
      Cut(p, limit, points, start, cur) && Full(p, limit, points, start)
    ensures start <= |p.fields|
    ensures Packed(size, points + [Point(p.key, p.fields[start..], p.time)])
  {
    hide Full, FieldStop, Decimal, WellFormed, Joined, IsPiece, Fields, Fits, NoRoom, Overflows;
    var limit := size - (|p.key| + |Decimal(p.time.value)| + 2);
    CutEnds(p, limit, points, start, cur);
    FullPiece(p, limit, points, start, cur);
    assert p.fields[start..cur - 1] == p.fields[start..];
    var all := points + [Point(p.key, p.fields[start..], p.time)];
    hide Cut;
    forall k | 0 <= k < |all| - 1 ensures NoRoom(size, all[k], all[k + 1]) {
      assert Overflows(limit, all[k], all[k + 1]) && all[k] == points[k] && points[k] in points;
      OverflowsNoRoom(p, size, all[k], all[k + 1]);
    }
  }

  lemma OverflowsNoRoom(p: Point, size: int, q: Point, r: Point)
    requires p.time.Some? && q.key == p.key && q.time == p.time
    requires Overflows(size - (|p.key| + |Decimal(p.time.value)| + 2), q, r)
    ensures NoRoom(size, q, r)
  {
    hide FieldStop, Decimal;
  }

  lemma WholeSplit(p: Point, size: int)
    requires WellFormed(p.fields, 0)
    requires p.time.None? || |Text(p)| <= size || Miscounted(p, size, [p])
    ensures SplitOf(p, size, [p])
  {
  }

  lemma CutSplits(p: Point, size: int, points: seq<Point>, start: nat, cur: nat)
    requires p.time.Some? && cur >= |p.fields|
    requires Cut(p, size - (|p.key| + |Decimal(p.time.value)| + 2), points, start, cur)
    ensures start <= |p.fields|
    ensures SplitOf(p, size, points + [Point(p.key, p.fields[start..], p.time)])
  {
    CutEnds(p, size - (|p.key| + |Decimal(p.time.value)| + 2), points, start, cur);
    hide Cut, Joined, WellFormed, OneField, Decimal;
  }

  method Split(p: Point, size: int) returns (points: seq<Point>)
    requires HasTime(p) && WellFormed(p.fields, 0)
    ensures SplitOf(p, size, points) && (p.time.None? ==> points == [p])
    ensures Packed(size, points)
  {
    hide Cut, Full, WellFormed, Text, SplitOf, ValueLength, ScanEnd, Decimal;
    var whole := StringSize(p);
    if p.time.None? || whole <= size {
      WholeSplit(p, size);
      return [p];
    }
    var limit := size - (|p.key| + |Decimal(p.time.value)| + 2);
    points := [];
    var start, cur := 0, 0;
    CutStart(p, limit);
    FullStart(p, limit);
    while cur < |p.fields|
      invariant start <= cur && Cut(p, limit, points, start, cur) && Full(p, limit, points, start)
      invariant forall q | q in points :: q.key == p.key && q.time == p.time
      decreases |p.fields| + 1 - cur
    {
      CutField(p, limit, points, start, cur);
      var equals, _ := ScanTo(p.fields, cur, EQUALS);
      var end, _ := ScanFieldValue(p.fields, equals + 1);
      if cur > start && end - start > limit {
        CutMoves(p, limit, points, start, cur);
        FullMoves(p, limit, points, start, cur, end);
        points := points + [Point(p.key, p.fields[start..cur - 1], p.time)];
        start := cur;
      }
      CutGrows(p, limit, points, start, cur, end);
      cur := end + 1;
    }
    CutSplits(p, size, points, start, cur);
    FullPacks(p, size, points, start, cur);
    points := points + [Point(p.key, p.fields[start..], p.time)];
  }
}
