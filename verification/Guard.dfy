/**
 Delete guards: a delete's condition is compiled to a cheap matcher that decides
 which incoming points have to wait for the delete.
 */
module Guard {
  import opened Wrappers

  datatype RefKind = Unknown | Tag | Field
  datatype Operator = AND | OR | EQ | NEQ | EQREGEX | NEQREGEX | OtherOperator

  /** The condition of a delete statement. */
  datatype Expr =
    | Paren(inner: Expr)
    | BooleanLiteral(val: bool)
    | BinaryExpr(op: Operator, lhs: Expr, rhs: Expr)
    | VarRef(name: string, kind: RefKind)
    | StringLiteral(text: string)
    | RegexLiteral(pattern: string)
    | OtherExpr(id: nat)

  datatype TagPair = TagPair(key: string, value: string)
  datatype Point = Point(name: string, tags: seq<TagPair>, time: int)

  const NAME := "_name"

  // ----- The compiled guard -----

  /** `MatchAll` is the nil guard, `MatchNone` the zero value. */
  datatype ExprGuard =
    | MatchAll
    | MatchNone
    | And(l: ExprGuard, r: ExprGuard)
    | Or(l: ExprGuard, r: ExprGuard)
    | TagMatches(meas: bool, key: string, equal: bool, val: string)
    | TagExists(keys: set<string>)

  function Accepts(g: ExprGuard, pt: Point): bool
  {
    match g
    case MatchAll => true
    case MatchNone => false
    case And(l, r) => Accepts(l, pt) && Accepts(r, pt)
    case Or(l, r) => Accepts(l, pt) || Accepts(r, pt)
    case TagMatches(meas, key, equal, val) =>
      if meas then (pt.name == val) == equal
      else exists i :: 0 <= i < |pt.tags| && pt.tags[i].key == key && (pt.tags[i].value == val) == equal
    case TagExists(keys) => exists i :: 0 <= i < |pt.tags| && pt.tags[i].key in keys
  }

  /** Compiles a comparison; anything it cannot analyse matches every point. */
  function CompileLeaf(op: Operator, lhs: Expr, rhs: Expr): ExprGuard
  {
    if lhs.BinaryExpr? || rhs.BinaryExpr? then MatchAll
    else if lhs.VarRef? then CompileComparison(op, lhs, rhs)
    else if rhs.VarRef? then CompileComparison(op, rhs, lhs)
    else MatchAll
  }

  function CompileComparison(op: Operator, key: Expr, value: Expr): ExprGuard
    requires key.VarRef?
  {
    if key.name != NAME && key.kind.Field? then MatchAll
    else
      match value
      case StringLiteral(text) =>
        if op.EQ? then TagMatches(key.name == NAME, key.name, true, text)
        else if op.NEQ? then TagMatches(key.name == NAME, key.name, false, text)
        else MatchAll
      case RegexLiteral(_) => TagExists({key.name})
      case VarRef(name, _) =>
        if key.name == NAME || name == NAME then MatchAll else TagExists({key.name, name})
      case _ => MatchAll
  }

  function Compile(e: Expr): ExprGuard
  {
    match e
    case Paren(inner) => Compile(inner)
    case BooleanLiteral(val) => if val then MatchAll else MatchNone
    case BinaryExpr(AND, lhs, rhs) =>
      var l, r := Compile(lhs), Compile(rhs);
      if l.MatchAll? then r
      else if r.MatchAll? then l
      else if l.MatchNone? || r.MatchNone? then MatchNone
      else And(l, r)
    case BinaryExpr(OR, lhs, rhs) =>
      var l, r := Compile(lhs), Compile(rhs);
      if l.MatchNone? then r
      else if r.MatchNone? then l
      else if l.MatchAll? || r.MatchAll? then MatchAll
      else Or(l, r)
    case BinaryExpr(op, lhs, rhs) => CompileLeaf(op, lhs, rhs)
    case _ => MatchAll
  }

  // ----- The simplification preserves meaning -----

  /** The condition read directly, with the same guards at its comparisons and no simplification. */
  ghost predicate Reading(e: Expr, pt: Point)
  {
    match e
    case Paren(inner) => Reading(inner, pt)
    case BooleanLiteral(val) => val
    case BinaryExpr(AND, lhs, rhs) => Reading(lhs, pt) && Reading(rhs, pt)
    case BinaryExpr(OR, lhs, rhs) => Reading(lhs, pt) || Reading(rhs, pt)
    case BinaryExpr(op, lhs, rhs) => Accepts(CompileLeaf(op, lhs, rhs), pt)
    case _ => true
  }

  /** No constant survives below a connective. */
  ghost predicate Reduced(g: ExprGuard)
  {
    match g
    case And(l, r) => !l.MatchAll? && !l.MatchNone? && !r.MatchAll? && !r.MatchNone? && Reduced(l) && Reduced(r)
    case Or(l, r) => !l.MatchAll? && !l.MatchNone? && !r.MatchAll? && !r.MatchNone? && Reduced(l) && Reduced(r)
    case _ => true
  }

  lemma {:induction false} CompilePreservesMeaning(e: Expr, pt: Point)
    ensures Accepts(Compile(e), pt) <==> Reading(e, pt)
    ensures Reduced(Compile(e))
  {
    match e
    case Paren(inner) => CompilePreservesMeaning(inner, pt);
    case BinaryExpr(op, lhs, rhs) =>
      if op.AND? || op.OR? {
        CompilePreservesMeaning(lhs, pt);
        CompilePreservesMeaning(rhs, pt);
      }
    case _ =>
  }

  // ----- The guard covers the delete -----

  /** What the model leaves open: regular expressions and comparisons that are not about tags. */
  datatype World = World(regex: (string, string) -> bool, other: (Expr, Point) -> bool)

  predicate Carries(pt: Point, key: string)
  {
    exists i :: 0 <= i < |pt.tags| && pt.tags[i].key == key
  }

  /** The value of a tag; a missing tag reads as the empty string. */
  function TagValue(tags: seq<TagPair>, key: string): string
  {
    if tags == [] then ""
    else if tags[0].key == key then tags[0].value
    else TagValue(tags[1..], key)
  }

  function RefValue(pt: Point, name: string): string
  {
    if name == NAME then pt.name else TagValue(pt.tags, name)
  }

  predicate IsTagRef(e: Expr)
  {
    e.VarRef? && (e.name == NAME || !e.kind.Field?)
  }

  /**
   The truth of a comparison with the tag reference on the left. Two tags are
   compared by the keys of the series alone: equality selects the series that carry
   both, any other operator those that carry the first and lack the second.
   */
  function Compared(op: Operator, key: Expr, value: Expr, pt: Point, w: World): Option<bool>
    requires key.VarRef?
  {
    var v := RefValue(pt, key.name);
    match value
    case StringLiteral(text) => if op.EQ? then Some(v == text) else if op.NEQ? then Some(v != text) else None
    case RegexLiteral(re) =>
      if op.EQREGEX? then Some(w.regex(re, v)) else if op.NEQREGEX? then Some(!w.regex(re, v)) else None
    case VarRef(name, _) =>
      if IsTagRef(value) then Some(Carries(pt, key.name) && (op.EQ? <==> Carries(pt, name))) else None
    case _ => None
  }

  /** Whether the delete's condition holds of a point. */
  function Holds(e: Expr, pt: Point, w: World): bool
  {
    match e
    case Paren(inner) => Holds(inner, pt, w)
    case BooleanLiteral(val) => val
    case BinaryExpr(AND, lhs, rhs) => Holds(lhs, pt, w) && Holds(rhs, pt, w)
    case BinaryExpr(OR, lhs, rhs) => Holds(lhs, pt, w) || Holds(rhs, pt, w)
    case BinaryExpr(op, lhs, rhs) =>
      var known := if IsTagRef(lhs) then Compared(op, lhs, rhs, pt, w)
                   else if IsTagRef(rhs) then Compared(op, rhs, lhs, pt, w)
                   else None;
      if known.Some? then known.value else w.other(e, pt)
    case _ => w.other(e, pt)
  }

  /**
   A comparison that the guard does not miss: the point carries the tag, or what is
   read in place of a missing tag fails the comparison.
   */
  ghost predicate VisibleComparison(op: Operator, key: Expr, value: Expr, pt: Point, w: World)
    requires key.VarRef?
  {
    match value
    case StringLiteral(text) =>
      key.name == NAME || Carries(pt, key.name) || ((op.EQ? ==> text != "") && (op.NEQ? ==> text == ""))
    case RegexLiteral(re) =>
      var read := if key.name == NAME then pt.name else "";
      Carries(pt, key.name) || (op.EQREGEX? && !w.regex(re, read)) || (op.NEQREGEX? && w.regex(re, read))
    case VarRef(name, _) => IsTagRef(value) || key.name == NAME || Carries(pt, key.name) || Carries(pt, name)
    case _ => true
  }

  ghost predicate Visible(e: Expr, pt: Point, w: World)
  {
    match e
    case Paren(inner) => Visible(inner, pt, w)
    case BinaryExpr(op, lhs, rhs) =>
      if op.AND? || op.OR? then Visible(lhs, pt, w) && Visible(rhs, pt, w)
      else if IsTagRef(lhs) then VisibleComparison(op, lhs, rhs, pt, w)
      else IsTagRef(rhs) && !lhs.VarRef? ==> VisibleComparison(op, rhs, lhs, pt, w)
    case _ => true
  }

  lemma {:induction false} TagValueStored(tags: seq<TagPair>, key: string)
    ensures (exists i :: 0 <= i < |tags| && tags[i].key == key) ==>
              exists i :: 0 <= i < |tags| && tags[i].key == key && tags[i].value == TagValue(tags, key)
    ensures !(exists i :: 0 <= i < |tags| && tags[i].key == key) ==> TagValue(tags, key) == ""
  {
    if tags != [] && tags[0].key != key {
      TagValueStored(tags[1..], key);
      if exists i :: 0 <= i < |tags| && tags[i].key == key {
        var i :| 0 <= i < |tags| && tags[i].key == key;
        assert tags[1..][i - 1].key == key;
        var j :| 0 <= j < |tags[1..]| && tags[1..][j].key == key && tags[1..][j].value == TagValue(tags[1..], key);
        assert tags[j + 1] == tags[1..][j];
      } else {
        forall j | 0 <= j < |tags[1..]| ensures tags[1..][j].key != key {
          assert tags[1..][j] == tags[j + 1];
        }
      }
    }
  }

  /**
   A comparison is missed by its guard exactly when it is not visible: then it holds
   of the point, and the guard does not accept the point.
   */
  lemma ComparisonCovered(op: Operator, key: Expr, value: Expr, pt: Point, w: World)
    requires IsTagRef(key)
    ensures VisibleComparison(op, key, value, pt, w) && Compared(op, key, value, pt, w) != Some(false) ==>
              Accepts(CompileComparison(op, key, value), pt)
    ensures !VisibleComparison(op, key, value, pt, w) && Compared(op, key, value, pt, w).Some? ==>
              Compared(op, key, value, pt, w).value && !Accepts(CompileComparison(op, key, value), pt)
  {
    TagValueStored(pt.tags, key.name);
  }

  /** Every point that the condition holds of, and whose comparisons are visible, is accepted by the guard. */
  lemma {:induction false} GuardCoversCondition(e: Expr, pt: Point, w: World)
    requires Visible(e, pt, w) && Holds(e, pt, w)
    ensures Accepts(Compile(e), pt)
  {
    CompilePreservesMeaning(e, pt);
    match e
    case Paren(inner) => GuardCoversCondition(inner, pt, w);
    case BinaryExpr(op, lhs, rhs) =>
      if op.AND? {
        GuardCoversCondition(lhs, pt, w);
        GuardCoversCondition(rhs, pt, w);
        CompilePreservesMeaning(lhs, pt);
        CompilePreservesMeaning(rhs, pt);
      } else if op.OR? {
        if Holds(lhs, pt, w) {
          GuardCoversCondition(lhs, pt, w);
          CompilePreservesMeaning(lhs, pt);
        } else {
          GuardCoversCondition(rhs, pt, w);
          CompilePreservesMeaning(rhs, pt);
        }
      } else if IsTagRef(lhs) {
        ComparisonCovered(op, lhs, rhs, pt, w);
      } else if IsTagRef(rhs) && !lhs.VarRef? {
        ComparisonCovered(op, rhs, lhs, pt, w);
      }
    case _ =>
  }

  /** A comparison of a tag with a text is covered exactly when the point has the tag or the empty text fails it. */
  lemma TextComparisonCovered(key: string, kind: RefKind, equal: bool, text: string, pt: Point, w: World)
    requires key != NAME && !kind.Field?
    ensures
      var e := BinaryExpr(if equal then EQ else NEQ, VarRef(key, kind), StringLiteral(text));
      (Holds(e, pt, w) ==> Accepts(Compile(e), pt)) <==> Carries(pt, key) || (text == "") != equal
  {
    TagValueStored(pt.tags, key);
  }

  /** The guard of a text comparison accepts exactly the points with a tag of that key, or the measurement, that passes. */
  lemma TextGuardExact(name: string, kind: RefKind, equal: bool, text: string, pt: Point)
    requires name == NAME || !kind.Field?
    ensures
      var e := BinaryExpr(if equal then EQ else NEQ, VarRef(name, kind), StringLiteral(text));
      Accepts(Compile(e), pt) <==>
        if name == "_name" then (pt.name == text) == equal
        else exists tag | tag in pt.tags :: tag.key == name && (tag.value == text) == equal
  {
    var e := BinaryExpr(if equal then EQ else NEQ, VarRef(name, kind), StringLiteral(text));
    assert Compile(e) == TagMatches(name == NAME, name, equal, text);
    if i :| 0 <= i < |pt.tags| && pt.tags[i].key == name && (pt.tags[i].value == text) == equal {
      assert pt.tags[i] in pt.tags;
    }
  }

  /** The guard of a pattern on a tag accepts exactly the points with that tag, that of two tags those with either. */
  lemma KeyGuardExact(key: string, kind: RefKind, op: Operator, value: Expr, pt: Point)
    requires key != NAME && !kind.Field? && !op.AND? && !op.OR?
    requires value.RegexLiteral? || (value.VarRef? && value.name != NAME)
    ensures
      Accepts(Compile(BinaryExpr(op, VarRef(key, kind), value)), pt) <==>
      exists tag | tag in pt.tags :: tag.key == key || (value.VarRef? && tag.key == value.name)
  {
    var keys := if value.VarRef? then {key, value.name} else {key};
    assert Compile(BinaryExpr(op, VarRef(key, kind), value)) == TagExists(keys);
    if i :| 0 <= i < |pt.tags| && pt.tags[i].key in keys {
      assert pt.tags[i] in pt.tags;
    }
  }

  /** A pattern on a tag is covered exactly when the point has the tag or the pattern does not select the empty value. */
  lemma PatternCovered(key: string, kind: RefKind, positive: bool, re: string, pt: Point, w: World)
    requires key != NAME && !kind.Field?
    ensures
      var e := BinaryExpr(if positive then EQREGEX else NEQREGEX, VarRef(key, kind), RegexLiteral(re));
      (Holds(e, pt, w) ==> Accepts(Compile(e), pt)) <==> Carries(pt, key) || w.regex(re, "") != positive
  {
    var e := BinaryExpr(if positive then EQREGEX else NEQREGEX, VarRef(key, kind), RegexLiteral(re));
    assert Compile(e) == TagExists({key});
    TagValueStored(pt.tags, key);
  }

  /**
   For a pattern on the measurement the guard looks for a tag called `_name`. So the
   points of a measurement are covered exactly when the pattern does not select it.
   */
  lemma MeasurementPatternCovered(kind: RefKind, positive: bool, re: string, m: string, w: World)
    ensures
      var e := BinaryExpr(if positive then EQREGEX else NEQREGEX, VarRef(NAME, kind), RegexLiteral(re));
      && (forall pt: Point :: Accepts(Compile(e), pt) <==> Carries(pt, NAME))
      && ((forall pt: Point | pt.name == m :: Holds(e, pt, w) ==> Accepts(Compile(e), pt)) <==> w.regex(re, m) != positive)
  {
    var e := BinaryExpr(if positive then EQREGEX else NEQREGEX, VarRef(NAME, kind), RegexLiteral(re));
    assert Compile(e) == TagExists({NAME});
    var bare := Point(m, [], 0);
    assert Holds(e, bare, w) <==> w.regex(re, m) == positive;
    assert !Accepts(Compile(e), bare);
  }

  /** A point of a measurement that the pattern selects, with tags, passes the guard. */
  lemma MeasurementPatternEscapes(re: string, w: World)
    requires w.regex(re, "cpu")
    ensures
      var e := BinaryExpr(EQREGEX, VarRef(NAME, Unknown), RegexLiteral(re));
      var pt := Point("cpu", [TagPair("host", "a")], 0);
      Holds(e, pt, w) && !Accepts(Compile(e), pt)
  {
    MeasurementPatternCovered(Unknown, true, re, "cpu", w);
  }

  /** Comparing two tags for equality also selects a series in which they differ. */
  lemma ComparedTagsDiffer(w: World)
    ensures
      var e := BinaryExpr(EQ, VarRef("host", Tag), VarRef("region", Tag));
      Holds(e, Point("cpu", [TagPair("host", "a"), TagPair("region", "b")], 0), w)
  {
    var pt := Point("cpu", [TagPair("host", "a"), TagPair("region", "b")], 0);
    assert pt.tags[0].key == "host" && pt.tags[1].key == "region";
  }

  /** The uncovered family is not empty: a tag compared unequal to a text, on a point without the tag. */
  lemma MissingTagEscapes(w: World)
    ensures
      var e := BinaryExpr(NEQ, VarRef("host", Tag), StringLiteral("a"));
      var pt := Point("cpu", [], 0);
      Holds(e, pt, w) && !Accepts(Compile(e), pt)
  {
    TextComparisonCovered("host", Tag, false, "a", Point("cpu", [], 0), w);
  }

  // ----- The whole guard -----

  datatype Guard = Guard(min: int, max: int, names: set<string>, expr: ExprGuard)

  function NewGuard(min: int, max: int, names: seq<string>, expr: Option<Expr>): Guard
  {
    Guard(min, max, set n | n in names, if expr.None? then MatchAll else Compile(expr.value))
  }

  predicate MatchesPoint(g: Guard, pt: Point)
  {
    g.min <= pt.time <= g.max && (g.names == {} || pt.name in g.names) && Accepts(g.expr, pt)
  }

  predicate Matches(g: Guard, points: seq<Point>)
  {
    exists i :: 0 <= i < |points| && MatchesPoint(g, points[i])
  }

  /** The search over a batch stops at the first point that has to wait. */
  method MatchesAny(g: Guard, points: seq<Point>) returns (matched: bool)
    ensures matched == Matches(g, points)
  {
    for i := 0 to |points|
      invariant forall j | 0 <= j < i :: !MatchesPoint(g, points[j])
    {
      var pt := points[i];
      if pt.time < g.min || pt.time > g.max {
        continue;
      }
      if g.names == {} && Accepts(g.expr, pt) {
        return true;
      } else if pt.name in g.names && Accepts(g.expr, pt) {
        return true;
      }
    }
    return false;
  }

  /** A guard matches only a batch with a point in its time range, of its measurements, that its condition accepts. */
  lemma MatchesWithin(min: int, max: int, names: seq<string>, cond: Option<Expr>, points: seq<Point>)
    ensures Matches(NewGuard(min, max, names, cond), points) <==>
            exists pt | pt in points ::
              && min <= pt.time && pt.time <= max && (names == [] || pt.name in names)
              && (cond.Some? ==> Reading(cond.value, pt))
  {
    var g := NewGuard(min, max, names, cond);
    assert names != [] ==> names[0] in g.names;
    forall pt ensures MatchesPoint(g, pt) <==>
        && min <= pt.time && pt.time <= max && (names == [] || pt.name in names)
        && (cond.Some? ==> Reading(cond.value, pt))
    {
      if cond.Some? {
        CompilePreservesMeaning(cond.value, pt);
      }
    }
    if i :| 0 <= i < |points| && MatchesPoint(g, points[i]) {
      assert points[i] in points;
    }
    if pt :| pt in points && MatchesPoint(g, pt) {
      var i :| 0 <= i < |points| && points[i] == pt;
      assert MatchesPoint(g, points[i]);
    }
  }

  /** The points a delete statement removes. */
  ghost predicate Deletes(min: int, max: int, names: seq<string>, cond: Option<Expr>, pt: Point, w: World)
  {
    && min <= pt.time <= max
    && (names == [] || pt.name in names)
    && (cond.Some? ==> Holds(cond.value, pt, w))
  }

  /** A batch that holds a point the delete removes has to wait for it. */
  lemma GuardCoversDelete(min: int, max: int, names: seq<string>, cond: Option<Expr>, points: seq<Point>, i: nat, w: World)
    requires i < |points| && Deletes(min, max, names, cond, points[i], w)
    requires cond.Some? ==> Visible(cond.value, points[i], w)
    ensures Matches(NewGuard(min, max, names, cond), points)
  {
    if cond.Some? {
      GuardCoversCondition(cond.value, points[i], w);
    }
    assert MatchesPoint(NewGuard(min, max, names, cond), points[i]);
  }
}
