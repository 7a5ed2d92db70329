/**
 The top and bottom reducers: a bounded heap keeps the best points seen so far,
 the worst of them at its root.
 */
module TopN {
  import opened Collections

  datatype Point = Point(time: int, value: int, aux: seq<string>, aggregated: nat)

  datatype Order = Top | Bottom

  /** What the order looks at. */
  datatype Key = Key(value: int, time: int)

  function KeyOf(p: Point): Key
  {
    Key(p.value, p.time)
  }

  function Keys(s: seq<Point>): (r: seq<Key>)
    ensures |r| == |s| && forall i | 0 <= i < |r| :: r[i] == KeyOf(s[i])
  {
    seq(|s|, i requires 0 <= i < |s| => KeyOf(s[i]))
  }

  /** `a` is worse than `b`; of two equal values the later is worse. */
  predicate Worse(order: Order, a: Key, b: Key)
  {
    if a.value != b.value then if order.Top? then a.value < b.value else a.value > b.value
    else a.time > b.time
  }

  predicate Less(order: Order, a: Point, b: Point)
  {
    Worse(order, KeyOf(a), KeyOf(b))
  }

  // ----- The heap -----

  function Parent(j: nat): nat
    requires j > 0
  {
    (j - 1) / 2
  }

  ghost predicate Heap(order: Order, s: seq<Point>)
  {
    forall j | 0 < j < |s| :: !Less(order, s[j], s[Parent(j)])
  }

  /** A heap but for the place of `s[i]`; around it parents and children are in order. */
  ghost predicate HeapAround(order: Order, s: seq<Point>, i: nat)
  {
    && (forall j | 0 < j < |s| && j != i && Parent(j) != i :: !Less(order, s[j], s[Parent(j)]))
    && (0 < i < |s| ==> forall j | 0 < j < |s| && Parent(j) == i :: !Less(order, s[j], s[Parent(i)]))
  }

  function Swap(s: seq<Point>, i: nat, j: nat): (r: seq<Point>)
    requires i < |s| && j < |s|
    ensures |r| == |s| && multiset(r) == multiset(s)
  {
    SwapKeeps(s, i, j);
    s[i := s[j]][j := s[i]]
  }

  lemma SwapKeeps(s: seq<Point>, i: nat, j: nat)
    requires i < |s| && j < |s|
    ensures multiset(s[i := s[j]][j := s[i]]) == multiset(s)
  {
  }

  /** Moves `s[j]` towards the root. */
  function Up(order: Order, s: seq<Point>, j: nat): (r: seq<Point>)
    requires j < |s|
    ensures |r| == |s| && multiset(r) == multiset(s)
    decreases j
  {
    if j == 0 || !Less(order, s[j], s[Parent(j)]) then s
    else Up(order, Swap(s, Parent(j), j), Parent(j))
  }

  /** The child of `i` that is worse. */
  function Child(order: Order, s: seq<Point>, i: nat): nat
    requires 2 * i + 1 < |s|
  {
    if 2 * i + 2 < |s| && Less(order, s[2 * i + 2], s[2 * i + 1]) then 2 * i + 2 else 2 * i + 1
  }

  /** Moves `s[i]` towards the leaves. */
  function Down(order: Order, s: seq<Point>, i: nat): (r: seq<Point>)
    requires i < |s|
    ensures |r| == |s| && multiset(r) == multiset(s)
    decreases |s| - i
  {
    if 2 * i + 1 >= |s| || !Less(order, s[Child(order, s, i)], s[i]) then s
    else Down(order, Swap(s, i, Child(order, s, i)), Child(order, s, i))
  }

  lemma {:induction false} UpRestores(order: Order, s: seq<Point>, j: nat)
    requires j < |s| && HeapAround(order, s, j)
    requires forall k | 0 < k < |s| && Parent(k) == j :: !Less(order, s[k], s[j])
    ensures Heap(order, Up(order, s, j))
    decreases j
  {
    if j > 0 && Less(order, s[j], s[Parent(j)]) {
      UpStep(order, s, j);
      hide HeapAround, Worse;
      UpRestores(order, Swap(s, Parent(j), j), Parent(j));
    }
  }

  lemma UpStep(order: Order, s: seq<Point>, j: nat)
    requires 0 < j < |s| && HeapAround(order, s, j) && Less(order, s[j], s[Parent(j)])
    requires forall k | 0 < k < |s| && Parent(k) == j :: !Less(order, s[k], s[j])
    ensures
      var i, t := Parent(j), Swap(s, Parent(j), j);
      HeapAround(order, t, i) && forall k | 0 < k < |t| && Parent(k) == i :: !Less(order, t[k], t[i])
  {
    var i, t := Parent(j), Swap(s, Parent(j), j);
    forall k | 0 < k < |t| && k != i && Parent(k) != i ensures !Less(order, t[k], t[Parent(k)]) {
      if Parent(k) == j {
        assert t[k] == s[k] && t[j] == s[i];
      } else {
        assert t[k] == s[k] && t[Parent(k)] == s[Parent(k)];
      }
    }
    forall k | 0 < k < |t| && Parent(k) == i ensures !Less(order, t[k], t[i]) {
      assert k != j ==> t[k] == s[k] && !Less(order, s[k], s[i]);
    }
    if i > 0 {
      forall k | 0 < k < |t| && Parent(k) == i ensures !Less(order, t[k], t[Parent(i)]) {
        assert t[Parent(i)] == s[Parent(i)] && !Less(order, s[i], s[Parent(i)]);
        assert k != j ==> t[k] == s[k] && !Less(order, s[k], s[i]);
      }
    }
  }

  lemma DownStep(order: Order, s: seq<Point>, i: nat)
    requires 2 * i + 1 < |s| && HeapAround(order, s, i) && Less(order, s[Child(order, s, i)], s[i])
    ensures
      var j := Child(order, s, i);
      HeapAround(order, Swap(s, i, j), j) && Parent(j) == i && !Less(order, s[i], s[j])
  {
    var j := Child(order, s, i);
    var t := Swap(s, i, j);
    forall k | 0 < k < |t| && k != j && Parent(k) != j ensures !Less(order, t[k], t[Parent(k)]) {
      if Parent(k) == i {
        assert k == 2 * i + 1 || k == 2 * i + 2;
      } else if k != i {
        assert t[k] == s[k] && t[Parent(k)] == s[Parent(k)];
      }
    }
    forall k | 0 < k < |t| && Parent(k) == j ensures !Less(order, t[k], t[Parent(j)]) {
      assert t[k] == s[k] && t[Parent(j)] == s[Parent(k)];
    }
  }

  lemma {:induction false} DownRestores(order: Order, s: seq<Point>, i: nat)
    requires i < |s| && HeapAround(order, s, i)
    requires i > 0 ==> !Less(order, s[i], s[Parent(i)])
    ensures Heap(order, Down(order, s, i))
    decreases |s| - i
  {
    hide Worse, KeyOf;
    if 2 * i + 1 < |s| && Less(order, s[Child(order, s, i)], s[i]) {
      DownStep(order, s, i);
      DownRestores(order, Swap(s, i, Child(order, s, i)), Child(order, s, i));
    } else {
      DownStops(order, s, i);
    }
  }

  lemma DownStops(order: Order, s: seq<Point>, i: nat)
    requires i < |s| && HeapAround(order, s, i)
    requires i > 0 ==> !Less(order, s[i], s[Parent(i)])
    requires 2 * i + 1 < |s| ==> !Less(order, s[Child(order, s, i)], s[i])
    ensures Heap(order, s)
  {
    forall j | 0 < j < |s| ensures !Less(order, s[j], s[Parent(j)]) {
      if Parent(j) == i {
        assert j == 2 * i + 1 || j == 2 * i + 2;
      }
    }
  }

  lemma {:induction false} RootIsWorst(order: Order, s: seq<Point>, j: nat)
    requires Heap(order, s) && j < |s|
    ensures !Less(order, s[j], s[0])
    decreases j
  {
    if j > 0 {
      RootIsWorst(order, s, Parent(j));
    }
  }

  // ----- The reducer -----

  /** The heap after one more point. */
  function Added(order: Order, n: nat, s: seq<Point>, p: Point): (r: seq<Point>)
    requires n > 0
  {
    if |s| == n then if Less(order, s[0], p) then Down(order, s[0 := p], 0) else s
    else Up(order, s + [p], |s|)
  }

  function Plain(p: Point): Point
  {
    p.(aggregated := 0)
  }

  /** Inserts a point after those that are not worse. */
  function Insert(order: Order, s: seq<Point>, p: Point): (r: seq<Point>)
    ensures |r| == |s| + 1
  {
    if s == [] || !Less(order, s[|s| - 1], p) then s + [p]
    else Insert(order, s[..|s| - 1], p) + [s[|s| - 1]]
  }

  /** Sorted with the best point first. */
  function BestFirst(order: Order, s: seq<Point>): (r: seq<Point>)
    ensures |r| == |s|
  {
    if s == [] then [] else Insert(order, BestFirst(order, s[..|s| - 1]), s[|s| - 1])
  }

  lemma {:induction false} InsertKeeps(order: Order, s: seq<Point>, p: Point)
    ensures multiset(Insert(order, s, p)) == multiset(s) + multiset{p}
  {
    if s != [] && Less(order, s[|s| - 1], p) {
      InsertKeeps(order, s[..|s| - 1], p);
      assert s == s[..|s| - 1] + [s[|s| - 1]];
    }
  }

  lemma {:induction false} BestFirstKeeps(order: Order, s: seq<Point>)
    ensures multiset(BestFirst(order, s)) == multiset(s)
  {
    if s != [] {
      BestFirstKeeps(order, s[..|s| - 1]);
      InsertKeeps(order, BestFirst(order, s[..|s| - 1]), s[|s| - 1]);
      assert s == s[..|s| - 1] + [s[|s| - 1]];
    }
  }

  class BoundedReducer {
    const order: Order
    const n: nat
    var points: seq<Point>

    constructor (order: Order, n: nat)
      ensures this.order == order && this.n == n && points == []
    {
      this.order, this.n, points := order, n, [];
    }

    method Aggregate(p: Point)
      requires n > 0
      modifies this
      ensures points == Added(order, n, old(points), p)
    {
      if |points| == n {
        if !Less(order, points[0], p) {
          return;
        }
        points := Down(order, points[0 := p], 0);
        return;
      }
      points := Up(order, points + [p], |points|);
    }

    method Emit() returns (r: seq<Point>)
      ensures |r| == |points| && r == BestFirst(order, Plains(points))
    {
      r := [];
      for i := 0 to |points|
        invariant r == BestFirst(order, Plains(points[..i]))
      {
        assert Plains(points[..i + 1])[..i] == Plains(points[..i]);
        r := Insert(order, r, Plain(points[i]));
      }
      assert points[..|points|] == points;
    }
  }

  function Plains(s: seq<Point>): (r: seq<Point>)
    ensures |r| == |s| && forall i | 0 <= i < |r| :: r[i] == Plain(s[i])
  {
    seq(|s|, i requires 0 <= i < |s| => Plain(s[i]))
  }

  // ----- What the heap holds -----

  /** The heap after a sequence of points. */
  function Fold(order: Order, n: nat, points: seq<Point>): (r: seq<Point>)
    requires n > 0
  {
    if points == [] then [] else Added(order, n, Fold(order, n, points[..|points| - 1]), points[|points| - 1])
  }

  /** `kept` holds `n` best of the points, or all if they are fewer, and `rest` the others. */
  ghost predicate Splits(order: Order, n: nat, kept: seq<Point>, rest: seq<Point>, points: seq<Point>)
  {
    && multiset(kept) + multiset(rest) == multiset(points)
    && |kept| <= n && (rest != [] ==> |kept| == n)
    && forall a, b | a in kept && b in rest :: !Less(order, a, b)
  }

  lemma AddedFits(order: Order, n: nat, s: seq<Point>, p: Point)
    requires n > 0 && |s| < n && Heap(order, s)
    ensures Heap(order, Added(order, n, s, p)) && multiset(Added(order, n, s, p)) == multiset(s) + multiset{p}
  {
    UpRestores(order, s + [p], |s|);
  }

  lemma RootReplaced(order: Order, s: seq<Point>, p: Point)
    requires Heap(order, s) && s != []
    ensures HeapAround(order, s[0 := p], 0)
  {
    var t := s[0 := p];
    forall j | 0 < j < |t| && Parent(j) != 0 ensures !Less(order, t[j], t[Parent(j)]) {
      assert t[j] == s[j] && t[Parent(j)] == s[Parent(j)];
    }
  }

  lemma AddedReplaces(order: Order, n: nat, s: seq<Point>, p: Point)
    requires n > 0 && |s| == n && Heap(order, s) && Less(order, s[0], p)
    ensures Heap(order, Added(order, n, s, p))
    ensures multiset(Added(order, n, s, p)) + multiset{s[0]} == multiset(s) + multiset{p}
  {
    RootReplaced(order, s, p);
    hide Down, Worse, Heap, HeapAround;
    DownRestores(order, s[0 := p], 0);
    assert s == [s[0]] + s[1..] && s[0 := p] == [p] + s[1..];
  }

  lemma RootWorstOf(order: Order, s: seq<Point>, a: Point)
    requires Heap(order, s) && a in s
    ensures !Less(order, a, s[0])
  {
    var j: nat :| j < |s| && s[j] == a;
    RootIsWorst(order, s, j);
  }

  lemma SplitsKept(order: Order, n: nat, s: seq<Point>, p: Point, rest: seq<Point>, points: seq<Point>)
    requires n > 0 && |s| == n && Heap(order, s) && Splits(order, n, s, rest, points) && !Less(order, s[0], p)
    ensures Splits(order, n, s, rest + [p], points + [p])
  {
    forall a, b | a in s && b in rest + [p] ensures !Less(order, a, b) {
      RootWorstOf(order, s, a);
    }
  }

  lemma SplitsReplaced(order: Order, n: nat, s: seq<Point>, p: Point, rest: seq<Point>, points: seq<Point>)
    requires n > 0 && |s| == n && Heap(order, s) && Splits(order, n, s, rest, points) && Less(order, s[0], p)
    ensures Heap(order, Added(order, n, s, p))
    ensures Splits(order, n, Added(order, n, s, p), rest + [s[0]], points + [p])
  {
    AddedReplaces(order, n, s, p);
    var t := Added(order, n, s, p);
    assert s[0] in s;
    forall a, b | a in t && b in rest + [s[0]] ensures !Less(order, a, b) {
      assert a in multiset(t) + multiset{s[0]};
      if a in s {
        RootWorstOf(order, s, a);
      } else {
        assert a == p;
      }
    }
  }

  /** The heap always splits off the best points seen so far. */
  lemma {:induction false} FoldSplits(order: Order, n: nat, points: seq<Point>) returns (rest: seq<Point>)
    requires n > 0
    ensures Heap(order, Fold(order, n, points)) && Splits(order, n, Fold(order, n, points), rest, points)
  {
    rest := [];
    if points != [] {
      var before, p := points[..|points| - 1], points[|points| - 1];
      assert points == before + [p];
      rest := FoldSplits(order, n, before);
      var s := Fold(order, n, before);
      if |s| < n {
        AddedFits(order, n, s, p);
        assert |Added(order, n, s, p)| == |s| + 1;
      } else {
        if Less(order, s[0], p) {
          SplitsReplaced(order, n, s, p, rest, before);
          rest := rest + [s[0]];
        } else {
          SplitsKept(order, n, s, p, rest, before);
          rest := rest + [p];
        }
      }
    }
  }

  // ----- Sorting is the reference -----

  ghost predicate Descending(order: Order, s: seq<Key>)
  {
    forall i, j | 0 <= i < j < |s| :: !Worse(order, s[i], s[j])
  }

  lemma InsertBounded(order: Order, s: seq<Point>, p: Point, bound: Point)
    requires !Less(order, p, bound) && forall a | a in s :: !Less(order, a, bound)
    ensures forall a | a in Insert(order, s, p) :: !Less(order, a, bound)
  {
    forall a | a in Insert(order, s, p) ensures !Less(order, a, bound) {
      InsertKeeps(order, s, p);
      assert a in multiset(s) + multiset{p};
    }
  }

  lemma {:induction false} InsertDescends(order: Order, s: seq<Point>, p: Point)
    requires Descending(order, Keys(s))
    ensures Descending(order, Keys(Insert(order, s, p)))
  {
    if s != [] {
      var init, last := s[..|s| - 1], s[|s| - 1];
      assert forall i | 0 <= i < |s| :: Keys(s)[i] == KeyOf(s[i]);
      if Less(order, last, p) {
        InsertDescends(order, init, p);
        InsertBounded(order, init, p, last);
        var r := Insert(order, init, p);
        assert Keys(r + [last]) == Keys(r) + [KeyOf(last)];
        forall i | 0 <= i < |r| ensures !Less(order, r[i], last) {
          assert r[i] in r;
        }
      }
    }
  }

  lemma {:induction false} BestFirstDescends(order: Order, s: seq<Point>)
    ensures Descending(order, Keys(BestFirst(order, s)))
  {
    if s != [] {
      BestFirstDescends(order, s[..|s| - 1]);
      InsertDescends(order, BestFirst(order, s[..|s| - 1]), s[|s| - 1]);
    }
  }

  lemma KeysAppend(s: seq<Point>, t: seq<Point>)
    ensures Keys(s + t) == Keys(s) + Keys(t)
  {
  }

  lemma KeysWithout(s: seq<Point>, k: nat)
    requires k < |s|
    ensures multiset(Keys(s)) == multiset{KeyOf(s[k])} + multiset(Keys(Without(s, k)))
  {
    assert Keys(Without(s, k)) == Without(Keys(s), k);
    WithoutOne(Keys(s), k);
  }

  lemma {:induction false} KeysForgetOrder(s: seq<Point>, t: seq<Point>)
    requires multiset(s) == multiset(t)
    ensures multiset(Keys(s)) == multiset(Keys(t))
    decreases |s|
  {
    hide Keys, KeyOf;
    if s == [] {
      assert |multiset(t)| == 0;
    } else {
      var k := TakeFirst(s, t);
      assert Without(s, 0) == s[1..];
      KeysForgetOrder(s[1..], Without(t, k));
      KeysWithout(s, 0);
      KeysWithout(t, k);
    }
  }

  lemma {:induction false} DescendingUnique(order: Order, s: seq<Key>, t: seq<Key>)
    requires Descending(order, s) && Descending(order, t) && multiset(s) == multiset(t)
    ensures s == t
    decreases |s|
  {
    if s == [] || t == [] {
      assert |multiset(s)| == 0 && |multiset(t)| == 0;
    } else {
      assert s[0] in multiset(t) && t[0] in multiset(s);
      assert s[0] == t[0];
      assert s == [s[0]] + s[1..] && t == [t[0]] + t[1..];
      assert multiset(s) == multiset{s[0]} + multiset(s[1..]) && multiset(t) == multiset{s[0]} + multiset(t[1..]);
      Cancel(s[0], multiset(s[1..]), multiset(t[1..]));
      DescendingUnique(order, s[1..], t[1..]);
    }
  }

  lemma ConcatDescends(order: Order, kept: seq<Point>, rest: seq<Point>)
    requires forall a, b | a in kept && b in rest :: !Less(order, a, b)
    ensures Descending(order, Keys(BestFirst(order, kept)) + Keys(BestFirst(order, rest)))
  {
    var best, others := BestFirst(order, kept), BestFirst(order, rest);
    BestFirstDescends(order, kept);
    BestFirstDescends(order, rest);
    BestFirstKeeps(order, kept);
    BestFirstKeeps(order, rest);
    hide Worse, BestFirst;
    forall i, j | 0 <= i < |best| && 0 <= j < |others| ensures !Worse(order, Keys(best)[i], Keys(others)[j]) {
      assert best[i] in multiset(best) && others[j] in multiset(others);
      assert !Less(order, best[i], others[j]);
    }
  }

  /** Any split of the points into kept and rest sorts like the points. */
  lemma SplitSorts(order: Order, n: nat, kept: seq<Point>, rest: seq<Point>, points: seq<Point>)
    requires Splits(order, n, kept, rest, points)
    ensures |kept| + |rest| == |points|
    ensures Keys(BestFirst(order, points)) == Keys(BestFirst(order, kept)) + Keys(BestFirst(order, rest))
  {
    assert multiset(kept) + multiset(rest) == multiset(points);
    assert |multiset(points)| == |multiset(kept)| + |multiset(rest)|;
    ConcatDescends(order, kept, rest);
    hide Worse, BestFirst, Descending, Keys, KeyOf, Splits, Less;
    var best, others, sorted := BestFirst(order, kept), BestFirst(order, rest), BestFirst(order, points);
    BestFirstDescends(order, points);
    BestFirstKeeps(order, kept);
    BestFirstKeeps(order, rest);
    BestFirstKeeps(order, points);
    KeysForgetOrder(best + others, sorted);
    KeysAppend(best, others);
    DescendingUnique(order, Keys(best + others), Keys(sorted));
  }

  /** Top and bottom of `n` are the first `n` of all points, sorted with the best first. */
  lemma TopIsSortedPrefix(order: Order, n: nat, points: seq<Point>)
    requires n > 0
    ensures
      var emitted, sorted := BestFirst(order, Plains(Fold(order, n, points))), BestFirst(order, points);
      && |emitted| == (if |points| < n then |points| else n)
      && Keys(emitted) == Keys(sorted)[..|emitted|]
  {
    hide Worse, BestFirst, Fold;
    var rest := FoldSplits(order, n, points);
    SplitSorts(order, n, Fold(order, n, points), rest, points);
    PlainsSortAlike(order, Fold(order, n, points));
  }

  /** Clearing the aggregate counts does not disturb the sort. */
  lemma PlainsSortAlike(order: Order, s: seq<Point>)
    ensures Keys(BestFirst(order, Plains(s))) == Keys(BestFirst(order, s))
  {
    BestFirstDescends(order, Plains(s));
    BestFirstDescends(order, s);
    hide Worse, BestFirst, Descending;
    BestFirstKeeps(order, Plains(s));
    BestFirstKeeps(order, s);
    KeysForgetOrder(BestFirst(order, Plains(s)), Plains(s));
    KeysForgetOrder(BestFirst(order, s), s);
    assert Keys(Plains(s)) == Keys(s);
    DescendingUnique(order, Keys(BestFirst(order, Plains(s))), Keys(BestFirst(order, s)));
  }

  lemma EmittedOrdered(order: Order, s: seq<Point>)
    ensures
      var emitted := BestFirst(order, Plains(s));
      && multiset(emitted) == multiset(Plains(s))
      && forall i, j | 0 <= i < j < |emitted| :: !Less(order, emitted[i], emitted[j])
  {
    BestFirstDescends(order, Plains(s));
    BestFirstKeeps(order, Plains(s));
    hide BestFirst, Worse;
    var emitted := BestFirst(order, Plains(s));
    forall i, j | 0 <= i < j < |emitted| ensures !Less(order, emitted[i], emitted[j]) {
      assert !Worse(order, Keys(emitted)[i], Keys(emitted)[j]);
    }
  }

  lemma EmittedBest(order: Order, s: seq<Point>, b: Point)
    requires forall a | a in s :: !Less(order, a, b)
    ensures forall e | e in BestFirst(order, Plains(s)) :: !Less(order, e, b)
  {
    BestFirstKeeps(order, Plains(s));
    hide BestFirst, Worse;
    var emitted := BestFirst(order, Plains(s));
    forall e | e in emitted ensures !Less(order, e, b) {
      assert e in multiset(emitted);
      var k: nat :| k < |s| && Plains(s)[k] == e;
      assert s[k] in s && KeyOf(s[k]) == KeyOf(e);
    }
  }

  /** The emitted points are those of the heap, the best first, and none of the others is better. */
  lemma EmittedSplit(order: Order, n: nat, points: seq<Point>) returns (rest: seq<Point>)
    requires n > 0
    ensures
      var kept := Fold(order, n, points);
      var emitted := BestFirst(order, Plains(kept));
      && multiset(kept) + multiset(rest) == multiset(points) && multiset(emitted) == multiset(Plains(kept))
      && |emitted| <= n && (rest != [] ==> |emitted| == n)
      && (forall i, j | 0 <= i < j < |emitted| :: !Less(order, emitted[i], emitted[j]))
      && (forall e, b | e in emitted && b in rest :: !Less(order, e, b))
  {
    hide BestFirst, Fold, Less, Plains;
    var kept := Fold(order, n, points);
    rest := FoldSplits(order, n, points);
    EmittedOrdered(order, kept);
    forall b | b in rest ensures forall e | e in BestFirst(order, Plains(kept)) :: !Less(order, e, b) {
      EmittedBest(order, kept, b);
    }
  }

  /**
   Top emits the points with the greatest values, the greatest first, and of equal
   values the earliest first.
   */
  lemma TopEmitsGreatest(n: nat, points: seq<Point>) returns (rest: seq<Point>)
    requires n > 0
    ensures
      var kept := Fold(Top, n, points);
      var emitted := BestFirst(Top, Plains(kept));
      && multiset(kept) + multiset(rest) == multiset(points) && multiset(emitted) == multiset(Plains(kept))
      && |emitted| <= n && (rest != [] ==> |emitted| == n)
      && (forall i, j | 0 <= i < j < |emitted| ::
            emitted[i].value > emitted[j].value
            || (emitted[i].value == emitted[j].value && emitted[i].time <= emitted[j].time))
      && (forall e, b | e in emitted && b in rest ::
            e.value > b.value || (e.value == b.value && e.time <= b.time))
  {
    hide BestFirst, Fold;
    rest := EmittedSplit(Top, n, points);
  }

  /**
   Bottom emits the points with the least values, the least first, and of equal
   values the earliest first.
   */
  lemma BottomEmitsLeast(n: nat, points: seq<Point>) returns (rest: seq<Point>)
    requires n > 0
    ensures
      var kept := Fold(Bottom, n, points);
      var emitted := BestFirst(Bottom, Plains(kept));
      && multiset(kept) + multiset(rest) == multiset(points) && multiset(emitted) == multiset(Plains(kept))
      && |emitted| <= n && (rest != [] ==> |emitted| == n)
      && (forall i, j | 0 <= i < j < |emitted| ::
            emitted[i].value < emitted[j].value
            || (emitted[i].value == emitted[j].value && emitted[i].time <= emitted[j].time))
      && (forall e, b | e in emitted && b in rest ::
            e.value < b.value || (e.value == b.value && e.time <= b.time))
  {
    hide BestFirst, Fold;
    rest := EmittedSplit(Bottom, n, points);
  }

  /** Every point that is emitted was aggregated. */
  lemma EmittedWereSeen(order: Order, n: nat, points: seq<Point>, p: Point)
    requires n > 0 && p in BestFirst(order, Plains(Fold(order, n, points)))
    ensures exists q | q in points :: Plain(q) == p
  {
    var kept := Fold(order, n, points);
    var rest := FoldSplits(order, n, points);
    BestFirstKeeps(order, Plains(kept));
    assert p in multiset(Plains(kept));
    var i: nat :| i < |kept| && Plains(kept)[i] == p;
    assert kept[i] in multiset(kept) + multiset(rest);
  }
}
