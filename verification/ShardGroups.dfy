/**
 The shard groups that a batch of points needs, kept sorted so that a point's
 group is found by binary search.
 */
module ShardGroups {
  import opened Wrappers

  datatype Shard = Shard(id: nat, owners: seq<nat>)

  datatype Group = Group(start: int, end: int, truncatedAt: Option<int>, shards: seq<Shard>)

  predicate Contains(g: Group, t: int)
  {
    g.start <= t < g.end
  }

  predicate Proper(g: Group)
  {
    g.start < g.end && (g.truncatedAt.Some? ==> g.start <= g.truncatedAt.value <= g.end)
  }

  /** A truncated group sorts by the time it was truncated at. */
  function LastTime(g: Group): int
  {
    if g.truncatedAt.Some? then g.truncatedAt.value else g.end
  }

  predicate Less(a: Group, b: Group)
  {
    if LastTime(a) == LastTime(b) then a.start < b.start else LastTime(a) < LastTime(b)
  }

  // ----- Searching -----

  /** The binary search for the first group that ends after `t`. */
  function Search(list: seq<Group>, t: int, lo: nat, hi: nat): (r: nat)
    requires lo <= hi <= |list|
    ensures lo <= r <= hi
    decreases hi - lo
  {
    if lo == hi then lo
    else
      var mid := (lo + hi) / 2;
      if list[mid].end > t then Search(list, t, lo, mid) else Search(list, t, mid + 1, hi)
  }

  function ShardGroupAt(list: seq<Group>, t: int): (r: Option<nat>)
    ensures r.Some? ==> r.value < |list| && list[r.value].start <= t
  {
    var k := Search(list, t, 0, |list|);
    if k == |list| || t < list[k].start then None else Some(k)
  }

  /** The first group that contains `t`, looking at one after the other. */
  function FirstContaining(list: seq<Group>, t: int, k: nat := 0): (r: Option<nat>)
    requires k <= |list|
    ensures r.Some? ==> k <= r.value < |list| && Contains(list[r.value], t)
    ensures forall i | k <= i < (if r.Some? then r.value else |list|) :: !Contains(list[i], t)
    decreases |list| - k
  {
    if k == |list| then None
    else if Contains(list[k], t) then Some(k)
    else FirstContaining(list, t, k + 1)
  }

  /** At time `t`, the groups that have ended come before those that have not. */
  ghost predicate InOrderAt(list: seq<Group>, t: int)
  {
    forall i, j | 0 <= i < j < |list| :: list[j].end <= t ==> list[i].end <= t
  }

  /** Wherever the search stops, the group there has not ended, even if the list is out of order. */
  lemma {:induction false} SearchHits(list: seq<Group>, t: int, lo: nat, hi: nat)
    requires lo <= hi <= |list|
    ensures Search(list, t, lo, hi) < hi ==> list[Search(list, t, lo, hi)].end > t
    decreases hi - lo
  {
    if lo < hi {
      var mid := (lo + hi) / 2;
      if list[mid].end > t {
        SearchHits(list, t, lo, mid);
      } else {
        SearchHits(list, t, mid + 1, hi);
      }
    }
  }

  lemma {:induction false} SearchFindsFirst(list: seq<Group>, t: int, lo: nat, hi: nat)
    requires lo <= hi <= |list| && InOrderAt(list, t)
    ensures
      var k := Search(list, t, lo, hi);
      (forall i | lo <= i < k :: list[i].end <= t) && (k < hi ==> list[k].end > t)
    decreases hi - lo
  {
    if lo < hi {
      var mid := (lo + hi) / 2;
      if list[mid].end > t {
        SearchFindsFirst(list, t, lo, mid);
      } else {
        SearchFindsFirst(list, t, mid + 1, hi);
      }
    }
  }

  /** At time `t` the search stops at group `k`, which has not begun, although group `j` has. */
  ghost predicate Hides(list: seq<Group>, t: int, k: nat, j: nat)
    requires k < j < |list|
  {
    list[j].start <= t < list[k].start && t < list[j].end && (k > 0 ==> list[k - 1].end <= t)
  }

  lemma SearchStopsAt(list: seq<Group>, t: int, k: nat)
    requires InOrderAt(list, t) && k < |list| && t < list[k].end && (k > 0 ==> list[k - 1].end <= t)
    ensures Search(list, t, 0, |list|) == k
  {
    SearchFindsFirst(list, t, 0, |list|);
  }

  /** In order, the binary search goes wrong exactly when some group hides another. */
  lemma SearchExact(list: seq<Group>, t: int)
    requires InOrderAt(list, t) && forall g | g in list :: Proper(g)
    ensures ShardGroupAt(list, t) != FirstContaining(list, t) <==>
            exists k: nat, j: nat | k < j < |list| :: Hides(list, t, k, j)
  {
    hide Search;
    var k, r := Search(list, t, 0, |list|), FirstContaining(list, t);
    SearchFindsFirst(list, t, 0, |list|);
    if r.Some? && r.value != k {
      assert Hides(list, t, k, r.value);
    }
    if m: nat, n: nat :| m < n < |list| && Hides(list, t, m, n) {
      assert list[m] in list;
      SearchStopsAt(list, t, m);
      assert Contains(list[n], t);
    }
  }

  /** A group that is found contains the time. */
  lemma FoundContains(list: seq<Group>, t: int)
    ensures ShardGroupAt(list, t).Some? ==> Contains(list[ShardGroupAt(list, t).value], t)
  {
    SearchHits(list, t, 0, |list|);
  }

  // ----- Appending -----

  ghost predicate Sorted(list: seq<Group>)
  {
    forall i, j | 0 <= i < j < |list| :: !Less(list[j], list[i])
  }

  ghost predicate Apart(a: Group, b: Group)
  {
    a.end <= b.start || b.end <= a.start
  }

  ghost predicate Disjoint(list: seq<Group>)
  {
    forall i, j | 0 <= i < j < |list| :: Apart(list[i], list[j])
  }

  function Slot(list: seq<Group>, g: Group, n: nat): (k: nat)
    requires n <= |list|
    ensures k <= n && (k > 0 ==> !Less(g, list[k - 1])) && forall i | k <= i < n :: Less(g, list[i])
  {
    if n == 0 || !Less(g, list[n - 1]) then n else Slot(list, g, n - 1)
  }

  /** Adds a group to a sorted list and sorts it. */
  function Append(list: seq<Group>, g: Group): (r: seq<Group>)
    ensures forall h :: h in r <==> h in list || h == g
  {
    var k := Slot(list, g, |list|);
    list[..k] + [g] + list[k..]
  }

  lemma AppendSorts(list: seq<Group>, g: Group)
    requires Sorted(list)
    ensures Sorted(Append(list, g))
  {
  }

  lemma AppendKeepsDisjoint(list: seq<Group>, g: Group)
    requires Disjoint(list) && forall h | h in list :: Apart(h, g)
    ensures Disjoint(Append(list, g))
  {
    var r := Append(list, g);
    forall i, j | 0 <= i < j < |r| ensures Apart(r[i], r[j]) {
      var k := Slot(list, g, |list|);
      var a, b := if i < k then i else i - 1, if j < k then j else j - 1;
      assert i != k && j != k ==> r[i] == list[a] && r[j] == list[b];
      assert i != k ==> r[i] in list;
      assert j != k ==> r[j] in list;
    }
  }

  /** Sorting by truncated ends still sorts disjoint groups by time. */
  lemma DisjointAscends(list: seq<Group>)
    requires Sorted(list) && Disjoint(list) && forall g | g in list :: Proper(g)
    ensures forall i, j | 0 <= i < j < |list| :: list[i].end <= list[j].start
    ensures forall t :: InOrderAt(list, t)
  {
    forall i, j | 0 <= i < j < |list| ensures list[i].end <= list[j].start && list[i].end <= list[j].end {
      assert list[i] in list && list[j] in list && Apart(list[i], list[j]);
    }
  }

  /** Ends are out of order only around a truncated group that overlaps one which ends before it. */
  lemma OutOfOrder(list: seq<Group>, t: int)
    requires Sorted(list) && !InOrderAt(list, t) && forall g | g in list :: Proper(g)
    ensures exists i, j | 0 <= i < j < |list| ::
              list[i].truncatedAt.Some? && !Apart(list[i], list[j]) && list[j].end <= t < list[i].end
  {
    var i, j :| 0 <= i < j < |list| && list[j].end <= t < list[i].end;
    assert list[i] in list && list[j] in list && !Less(list[j], list[i]);
    assert list[i].truncatedAt.Some? && !Apart(list[i], list[j]);
  }

  /** On disjoint groups the binary search agrees with looking at one group after the other. */
  lemma SearchAgrees(list: seq<Group>, t: int)
    requires Sorted(list) && Disjoint(list) && forall g | g in list :: Proper(g)
    ensures ShardGroupAt(list, t) == FirstContaining(list, t)
  {
    DisjointAscends(list);
    forall k: nat, j: nat | k < j < |list| ensures !Hides(list, t, k, j) {
      assert list[k] in list;
    }
    SearchExact(list, t);
  }

  // ----- The groups that a batch needs -----

  datatype Created<E> = Created(group: Group) | NoGroup | Failed(error: E)

  /**
   The groups needed for the first `n` times: one is created for each time in
   scope that no group so far covers. The `i`th answer of the metadata service
   is `create(i, t)`.
   */
  function Needed<E>(times: seq<int>, min: int, create: (nat, int) -> Created<E>, n: nat): Result<seq<Group>, Option<E>>
    requires n <= |times|
  {
    if n == 0 then Ok([])
    else
      var before, t := Needed(times, min, create, n - 1), times[n - 1];
      if before.Err? || t < min || ShardGroupAt(before.value, t).Some? then before
      else
        match create(n - 1, t)
        case Created(g) => Ok(Append(before.value, g))
        case NoGroup => Err(None)
        case Failed(e) => Err(Some(e))
  }

  /** The metadata service answers with a proper group around the asked time. */
  ghost predicate Serves<E(!new)>(create: (nat, int) -> Created<E>)
  {
    forall i, t | create(i, t).Created? :: Proper(create(i, t).group) && Contains(create(i, t).group, t)
  }

  /**
   Any two groups that it answers with cover the same time or do not overlap. A
   truncated group and the one that replaces it cover the same time.
   */
  ghost predicate Partitions<E(!new)>(create: (nat, int) -> Created<E>)
  {
    forall i, t, j, u | create(i, t).Created? && create(j, u).Created? ::
      SameSpan(create(i, t).group, create(j, u).group) || Apart(create(i, t).group, create(j, u).group)
  }

  predicate SameSpan(a: Group, b: Group)
  {
    a.start == b.start && a.end == b.end
  }

  ghost predicate Answered<E(!new)>(create: (nat, int) -> Created<E>, g: Group)
  {
    exists i, t :: create(i, t) == Created(g)
  }

  /** What holds of the groups collected so far. */
  ghost predicate Collected<E(!new)>(list: seq<Group>, create: (nat, int) -> Created<E>)
  {
    && Sorted(list) && (Partitions(create) ==> Disjoint(list))
    && forall g | g in list :: Proper(g) && Answered(create, g)
  }

  lemma AppendCollects<E(!new)>(list: seq<Group>, create: (nat, int) -> Created<E>, i: nat, t: int)
    requires Serves(create) && Collected(list, create)
    requires ShardGroupAt(list, t).None? && create(i, t).Created?
    ensures Collected(Append(list, create(i, t).group), create)
  {
    var g := create(i, t).group;
    AppendSorts(list, g);
    if Partitions(create) {
      SearchAgrees(list, t);
      forall h | h in list ensures Apart(h, g) {
        var j, u :| create(j, u) == Created(h);
        var k: nat :| k < |list| && list[k] == h;
        assert !Contains(list[k], t);
      }
      AppendKeepsDisjoint(list, g);
    }
  }

  lemma NothingCollected<E(!new)>(create: (nat, int) -> Created<E>)
    ensures Collected([], create)
  {
  }

  lemma AnswerContains<E(!new)>(create: (nat, int) -> Created<E>, i: nat, t: int)
    requires Serves(create) && create(i, t).Created?
    ensures Contains(create(i, t).group, t)
  {
  }

  /** Every time in scope is in some group of the list, whatever the service answers. */
  lemma {:induction false} NeededCovers<E(!new)>(times: seq<int>, min: int, create: (nat, int) -> Created<E>, n: nat, i: nat)
    requires n <= |times| && Serves(create) && Needed(times, min, create, n).Ok?
    ensures Collected(Needed(times, min, create, n).value, create)
    ensures i < n && times[i] >= min ==> exists g | g in Needed(times, min, create, n).value :: Contains(g, times[i])
  {
    hide Serves, Collected, Append, Proper;
    if n == 0 {
      NothingCollected(create);
    } else {
      NeededCovers(times, min, create, n - 1, i);
      var before, t := Needed(times, min, create, n - 1).value, times[n - 1];
      if t >= min {
        var at := ShardGroupAt(before, t);
        if at.Some? {
          FoundContains(before, t);
          assert before[at.value] in before;
        } else {
          AppendCollects(before, create, n - 1, t);
          AnswerContains(create, n - 1, t);
        }
      }
    }
  }

  /** Every group of the list was created for a time in scope. */
  lemma {:induction false} NeededAreAsked<E(!new)>(times: seq<int>, min: int, create: (nat, int) -> Created<E>, n: nat)
    requires n <= |times| && Needed(times, min, create, n).Ok?
    ensures forall g | g in Needed(times, min, create, n).value ::
              exists i: nat {:trigger times[i]} :: i < n && min <= times[i] && create(i, times[i]) == Created(g)
  {
    hide ShardGroupAt;
    if n > 0 {
      NeededAreAsked(times, min, create, n - 1);
      forall g | g in Needed(times, min, create, n).value
        ensures exists i: nat {:trigger times[i]} :: i < n && min <= times[i] && create(i, times[i]) == Created(g)
      {
        if g in Needed(times, min, create, n - 1).value {
          var i: nat :| i < n - 1 && min <= times[i] && create(i, times[i]) == Created(g);
        } else {
          assert create(n - 1, times[n - 1]) == Created(g);
        }
      }
    }
  }

  /** On the groups of a batch, a group is found exactly when one contains the time. */
  lemma NeededFinds<E(!new)>(times: seq<int>, min: int, create: (nat, int) -> Created<E>, t: int)
    requires Serves(create) && Partitions(create) && Needed(times, min, create, |times|).Ok?
    ensures
      var list := Needed(times, min, create, |times|).value;
      && (ShardGroupAt(list, t).Some? <==> exists g | g in list :: Contains(g, t))
      && (ShardGroupAt(list, t).Some? ==> Contains(list[ShardGroupAt(list, t).value], t))
  {
    hide Needed, Serves, Partitions, ShardGroupAt;
    var list := Needed(times, min, create, |times|).value;
    NeededCovers(times, min, create, |times|, 0);
    SearchAgrees(list, t);
  }

  /** If groups do not overlap, every time in scope finds the one group that contains it. */
  lemma InScopeIsFound<E(!new)>(times: seq<int>, min: int, create: (nat, int) -> Created<E>, i: nat)
    requires Serves(create) && Partitions(create) && Needed(times, min, create, |times|).Ok?
    requires i < |times| && times[i] >= min
    ensures
      var list := Needed(times, min, create, |times|).value;
      var at := ShardGroupAt(list, times[i]);
      && at.Some? && Contains(list[at.value], times[i])
      && forall k | 0 <= k < |list| && Contains(list[k], times[i]) :: k == at.value
  {
    var list := Needed(times, min, create, |times|).value;
    NeededCovers(times, min, create, |times|, i);
    SearchAgrees(list, times[i]);
    var g :| g in list && Contains(g, times[i]);
  }

  /**
   If groups may overlap: where their ends are in order, a time in scope is missed
   exactly when some group hides another; they are out of order only around a
   truncated group that overlaps one which ends before it.
   */
  lemma InScopeIsMissed<E(!new)>(times: seq<int>, min: int, create: (nat, int) -> Created<E>, i: nat)
    requires Serves(create) && Needed(times, min, create, |times|).Ok?
    requires i < |times| && times[i] >= min
    ensures
      var list, t := Needed(times, min, create, |times|).value, times[i];
      && (InOrderAt(list, t) ==>
            (ShardGroupAt(list, t).None? <==> exists k: nat, j: nat | k < j < |list| :: Hides(list, t, k, j)))
      && (!InOrderAt(list, t) ==>
            exists k, j | 0 <= k < j < |list| ::
              list[k].truncatedAt.Some? && !Apart(list[k], list[j]) && list[j].end <= t < list[k].end)
  {
    var list, t := Needed(times, min, create, |times|).value, times[i];
    NeededCovers(times, min, create, |times|, i);
    if InOrderAt(list, t) {
      SearchExact(list, t);
      var g :| g in list && Contains(g, t);
      FoundIsFirst(list, t);
      hide ShardGroupAt;
    } else {
      OutOfOrder(list, t);
    }
  }

  lemma FoundIsFirst(list: seq<Group>, t: int)
    requires InOrderAt(list, t)
    ensures ShardGroupAt(list, t).Some? ==> ShardGroupAt(list, t) == FirstContaining(list, t)
  {
    SearchFindsFirst(list, t, 0, |list|);
  }

  // ----- Two services that lose points -----

  const WIDE := Group(0, 100, None, [Shard(1, [0])])
  const NARROW := Group(50, 90, None, [Shard(2, [0])])

  function Overlapping(i: nat, t: int): Created<string>
  {
    if 50 <= t < 90 then Created(NARROW) else if 0 <= t < 100 then Created(WIDE) else NoGroup
  }

  /** Without truncation: the point at 10 is in scope and has a group, yet it is not found, as a group hides it. */
  lemma OverlapLosesPoint()
    ensures Serves(Overlapping)
    ensures
      var list := Needed([60, 10], 0, Overlapping, 2);
      && list == Ok([NARROW, WIDE]) && Contains(WIDE, 10) && ShardGroupAt(list.value, 10).None?
      && InOrderAt(list.value, 10) && Hides(list.value, 10, 0, 1)
  {
    assert Needed([60, 10], 0, Overlapping, 0) == Ok([]);
    assert Append([], NARROW) == [NARROW];
    assert Needed([60, 10], 0, Overlapping, 1) == Ok([NARROW]);
    assert Search([NARROW], 10, 0, 1) == 0;
    assert Append([NARROW], WIDE) == [NARROW, WIDE];
    assert Search([NARROW, WIDE], 10, 0, 2) == 0;
  }

  const CUT := Group(100, 200, Some(140), [Shard(3, [0])])
  const LATER := Group(75, 150, None, [Shard(4, [0])])

  function Truncating(i: nat, t: int): Created<string>
  {
    if 100 <= t < 140 then Created(CUT) else if 75 <= t < 150 then Created(LATER) else NoGroup
  }

  /** With truncation: the point at 190 was covered when it came, yet it is not found in the end, although no group hides it. */
  lemma TruncationLosesPoint()
    ensures Serves(Truncating)
    ensures
      var list := Needed([110, 190, 80], 0, Truncating, 3);
      && list == Ok([CUT, LATER]) && Contains(CUT, 190) && ShardGroupAt(list.value, 190).None?
      && !InOrderAt(list.value, 190) && !Hides(list.value, 190, 0, 1)
  {
    var times := [110, 190, 80];
    assert Needed(times, 0, Truncating, 0) == Ok([]);
    assert Append([], CUT) == [CUT];
    assert Needed(times, 0, Truncating, 1) == Ok([CUT]);
    assert Search([CUT], 190, 0, 1) == 0 && Search([CUT], 80, 0, 1) == 0;
    assert Needed(times, 0, Truncating, 2) == Ok([CUT]);
    assert Append([CUT], LATER) == [CUT, LATER];
    assert Search([CUT, LATER], 190, 0, 2) == 2;
    assert [CUT, LATER][1].end <= 190 < [CUT, LATER][0].end;
  }
}
