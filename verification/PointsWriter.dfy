/**
 The clustered write path: a batch of points is distributed over shards, each
 shard is written to its owners, and the batch succeeds when every shard does.
 */
module PointsWriter {
  import opened Wrappers
  import opened Collections
  import opened ShardGroups
  import opened Consistency

  datatype Point = Point(time: int, line: string)

  datatype WriteError =
    | DatabaseNotFound
    | RetentionPolicyNotFound
    | NilShardGroup
    | MetaError(text: string)
    | BeyondRetention(dropped: nat)
    | ShardFailed(outcome: Outcome)
    | ShardPendingDeletion(dropped: nat)
    | TimedOut
    | WriteFailed

  /** The least time that can be represented. */
  const MIN_NANO_TIME := -0x8000_0000_0000_0000 + 2

  // ----- Distributing points over shards -----

  datatype Mapping = Mapping(points: map<nat, seq<Point>>, shards: map<nat, Shard>, dropped: seq<Point>)

  function ListOf(m: Mapping, id: nat): seq<Point>
  {
    if id in m.points then m.points[id] else []
  }

  function Mapped(m: Mapping, shard: Shard, p: Point): Mapping
  {
    m.(points := m.points[shard.id := ListOf(m, shard.id) + [p]], shards := m.shards[shard.id := shard])
  }

  /** A list with its capacity; appending to a full one moves to a larger one. */
  datatype Slice = Slice(items: seq<Point>, cap: nat)

  class ShardMapping {
    const n: nat
    var points: map<nat, Slice>
    var shards: map<nat, Shard>
    var dropped: seq<Point>

    /** No list has less than the initial capacity, so none is made anew. */
    ghost predicate Valid()
      reads this
    {
      forall id | id in points :: points[id].cap >= n && |points[id].items| <= points[id].cap
    }

    ghost function View(): Mapping
      reads this
    {
      Mapping(map id | id in points :: points[id].items, shards, dropped)
    }

    constructor (n: nat)
      ensures Valid() && View() == Mapping(map[], map[], []) && this.n == n
    {
      this.n := n;
      points, shards, dropped := map[], map[], [];
    }

    method MapPoint(shard: Shard, p: Point)
      requires Valid()
      modifies this
      ensures Valid() && View() == Mapped(old(View()), shard, p)
    {
      var slice := if shard.id in points then points[shard.id] else Slice([], 0);
      if slice.cap < n {
        slice := Slice([], n);
      }
      var cap := slice.cap;
      if |slice.items| == cap {
        cap :| cap > |slice.items|;
      }
      points := points[shard.id := Slice(slice.items + [p], cap)];
      shards := shards[shard.id := shard];
    }

    method Drop(p: Point)
      requires Valid()
      modifies this
      ensures Valid() && View() == old(View()).(dropped := old(dropped) + [p])
    {
      dropped := dropped + [p];
    }
  }

  ghost predicate HaveShards(list: seq<Group>)
  {
    forall g | g in list :: g.shards != []
  }

  /** The shard that a point with this hash goes to; None if no group is found. */
  function ShardFor(list: seq<Group>, p: Point, hash: nat): Option<Shard>
    requires HaveShards(list)
  {
    match ShardGroupAt(list, p.time)
    case None => None
    case Some(k) =>
      assert list[k] in list;
      Some(list[k].shards[hash % |list[k].shards|])
  }

  /** The distribution of the first `n` points; the hash of a point is drawn anew each time. */
  function Placed(list: seq<Group>, points: seq<Point>, hashes: seq<nat>, n: nat): Mapping
    requires HaveShards(list) && n <= |points| == |hashes|
  {
    if n == 0 then Mapping(map[], map[], [])
    else
      var before, p := Placed(list, points, hashes, n - 1), points[n - 1];
      match ShardFor(list, p, hashes[n - 1])
      case None => before.(dropped := before.dropped + [p])
      case Some(shard) => Mapped(before, shard, p)
  }

  function Times(points: seq<Point>): (r: seq<int>)
    ensures |r| == |points| && forall i | 0 <= i < |r| :: r[i] == points[i].time
  {
    seq(|points|, i requires 0 <= i < |points| => points[i].time)
  }

  ghost predicate GroupsHaveShards<E(!new)>(create: (nat, int) -> Created<E>)
  {
    forall i, t | create(i, t).Created? :: create(i, t).group.shards != []
  }

  lemma {:induction false} NeededHaveShards<E(!new)>(times: seq<int>, min: int, create: (nat, int) -> Created<E>, n: nat)
    requires n <= |times| && GroupsHaveShards(create) && Needed(times, min, create, n).Ok?
    ensures HaveShards(Needed(times, min, create, n).value)
  {
    if n > 0 {
      NeededHaveShards(times, min, create, n - 1);
    }
  }

  /** The oldest time in scope of a policy that keeps points for `duration`, or forever. */
  function Oldest(duration: int, now: int): int
  {
    if duration > 0 then now - duration else MIN_NANO_TIME
  }

  type Meta = (nat, int) -> Created<string>

  function MappingResult(policy: Result<Option<int>, string>, now: int, points: seq<Point>, create: Meta, hashes: seq<nat>):
    (r: Result<Mapping, WriteError>)
    requires |hashes| == |points| && GroupsHaveShards(create)
  {
    match policy
    case Err(e) => Err(MetaError(e))
    case Ok(None) => Err(RetentionPolicyNotFound)
    case Ok(Some(duration)) =>
      match Needed(Times(points), Oldest(duration, now), create, |points|)
      case Err(None) => Err(NilShardGroup)
      case Err(Some(e)) => Err(MetaError(e))
      case Ok(list) =>
        NeededHaveShards(Times(points), Oldest(duration, now), create, |points|);
        Ok(Placed(list, points, hashes, |points|))
  }

  /** First pass: a group for every time in scope. */
  method CollectGroups(points: seq<Point>, min: int, create: Meta) returns (r: Result<seq<Group>, Option<string>>)
    ensures r == Needed(Times(points), min, create, |points|)
  {
    hide ShardGroupAt, Append;
    var list: seq<Group> := [];
    ghost var times := Times(points);
    for i := 0 to |points|
      invariant Needed(times, min, create, i) == Ok(list)
    {
      var t := points[i].time;
      if t < min || ShardGroupAt(list, t).Some? {
        continue;
      }
      match create(i, t) {
        case Failed(e) =>
          NeededStops(times, min, create, i + 1, |points|);
          return Err(Some(e));
        case NoGroup =>
          NeededStops(times, min, create, i + 1, |points|);
          return Err(None);
        case Created(g) => list := Append(list, g);
      }
    }
    return Ok(list);
  }

  /** Second pass: every point to a shard of its group. */
  method Distribute(list: seq<Group>, points: seq<Point>, hashes: seq<nat>) returns (mapping: ShardMapping)
    requires HaveShards(list) && |hashes| == |points|
    ensures fresh(mapping) && mapping.Valid() && mapping.View() == Placed(list, points, hashes, |points|)
  {
    mapping := new ShardMapping(|points|);
    for i := 0 to |points|
      invariant fresh(mapping) && mapping.Valid() && mapping.View() == Placed(list, points, hashes, i)
    {
      var at := ShardGroupAt(list, points[i].time);
      if at.None? {
        mapping.Drop(points[i]);
        continue;
      }
      var group := list[at.value];
      assert group in list;
      mapping.MapPoint(group.shards[hashes[i] % |group.shards|], points[i]);
    }
  }

  method MapShards(policy: Result<Option<int>, string>, now: int, points: seq<Point>, create: Meta, hashes: seq<nat>)
    returns (r: Result<ShardMapping, WriteError>)
    requires |hashes| == |points| && GroupsHaveShards(create)
    ensures
      var spec := MappingResult(policy, now, points, create, hashes);
      match r case Err(e) => spec == Err(e) case Ok(mapping) => fresh(mapping) && spec == Ok(mapping.View())
  {
    if policy.Err? {
      return Err(MetaError(policy.error));
    } else if policy.value.None? {
      return Err(RetentionPolicyNotFound);
    }
    var min := MIN_NANO_TIME;
    if policy.value.value > 0 {
      min := now - policy.value.value;
    }
    var groups := CollectGroups(points, min, create);
    match groups {
      case Err(None) => return Err(NilShardGroup);
      case Err(Some(e)) => return Err(MetaError(e));
      case Ok(list) =>
        NeededHaveShards(Times(points), min, create, |points|);
        var mapping := Distribute(list, points, hashes);
        return Ok(mapping);
    }
  }

  lemma {:induction false} NeededStops<E>(times: seq<int>, min: int, create: (nat, int) -> Created<E>, n: nat, m: nat)
    requires n <= m <= |times| && Needed(times, min, create, n).Err?
    ensures Needed(times, min, create, m) == Needed(times, min, create, n)
  {
    if n < m {
      NeededStops(times, min, create, n, m - 1);
    }
  }

  // ----- What becomes of the points -----

  /** All points in the lists of the shards. */
  ghost function Pool(lists: map<nat, seq<Point>>): multiset<Point>
  {
    if lists == map[] then multiset{}
    else
      var id :| id in lists;
      multiset(lists[id]) + Pool(lists - {id})
  }

  lemma PoolEmpty()
    ensures Pool(map[]) == multiset{}
  {
  }

  lemma {:induction false} PoolSplit(lists: map<nat, seq<Point>>, id: nat)
    requires id in lists
    ensures Pool(lists) == multiset(lists[id]) + Pool(lists - {id})
    decreases |lists|
  {
    var first :| first in lists && Pool(lists) == multiset(lists[first]) + Pool(lists - {first});
    if first != id {
      PoolSplit(lists - {first}, id);
      PoolSplit(lists - {id}, first);
      assert lists - {first} - {id} == lists - {id} - {first};
    }
  }

  lemma PoolGrows(m: Mapping, shard: Shard, p: Point)
    ensures Pool(Mapped(m, shard, p).points) == Pool(m.points) + multiset{p}
    ensures Mapped(m, shard, p).dropped == m.dropped
  {
    var after, id := Mapped(m, shard, p).points, shard.id;
    PoolSplit(after, id);
    assert after - {id} == m.points - {id};
    if id in m.points {
      PoolSplit(m.points, id);
    } else {
      assert m.points - {id} == m.points;
    }
  }

  /** Every point ends up in exactly one place: once in one shard's list, or once among the dropped. */
  lemma {:induction false} PlacedConserves(list: seq<Group>, points: seq<Point>, hashes: seq<nat>, n: nat)
    requires HaveShards(list) && n <= |points| == |hashes|
    ensures
      var m := Placed(list, points, hashes, n);
      multiset(points[..n]) == Pool(m.points) + multiset(m.dropped)
  {
    hide ShardFor, Mapped, Pool;
    if n == 0 {
      PoolEmpty();
    } else {
      PlacedConserves(list, points, hashes, n - 1);
      assert points[..n] == points[..n - 1] + [points[n - 1]];
      var before := Placed(list, points, hashes, n - 1);
      match ShardFor(list, points[n - 1], hashes[n - 1])
      case None =>
      case Some(shard) => PoolGrows(before, shard, points[n - 1]);
    }
  }

  /** The points before `n` that go to shard `id`, or nowhere, in the order they came. */
  function Bound(list: seq<Group>, points: seq<Point>, hashes: seq<nat>, n: nat, id: Option<nat>): seq<Point>
    requires HaveShards(list) && n <= |points| == |hashes|
  {
    if n == 0 then []
    else
      var shard := ShardFor(list, points[n - 1], hashes[n - 1]);
      Bound(list, points, hashes, n - 1, id) +
      if (if shard.Some? then Some(shard.value.id) else None) == id then [points[n - 1]] else []
  }

  /** Each list holds the points bound for it, in order. */
  lemma {:induction false} PlacedBound(list: seq<Group>, points: seq<Point>, hashes: seq<nat>, n: nat, id: nat)
    requires HaveShards(list) && n <= |points| == |hashes|
    ensures
      var m := Placed(list, points, hashes, n);
      && ListOf(m, id) == Bound(list, points, hashes, n, Some(id))
      && m.dropped == Bound(list, points, hashes, n, None)
      && m.shards.Keys == m.points.Keys
  {
    hide ShardFor, Mapped, ListOf;
    if n == 0 {
      NothingMapped(id);
    } else {
      PlacedBound(list, points, hashes, n - 1, id);
      var before := Placed(list, points, hashes, n - 1);
      match ShardFor(list, points[n - 1], hashes[n - 1])
      case None => SameLists(before, before.(dropped := before.dropped + [points[n - 1]]), id);
      case Some(shard) => MappedList(before, shard, points[n - 1], id);
    }
  }

  lemma NothingMapped(id: nat)
    ensures ListOf(Mapping(map[], map[], []), id) == []
  {
  }

  lemma SameLists(a: Mapping, b: Mapping, id: nat)
    requires a.points == b.points
    ensures ListOf(a, id) == ListOf(b, id)
  {
  }

  lemma MappedList(m: Mapping, shard: Shard, p: Point, id: nat)
    ensures ListOf(Mapped(m, shard, p), id) == ListOf(m, id) + if id == shard.id then [p] else []
    ensures Mapped(m, shard, p).dropped == m.dropped
    ensures m.shards.Keys == m.points.Keys ==> Mapped(m, shard, p).shards.Keys == Mapped(m, shard, p).points.Keys
  {
  }

  /** If shard groups do not overlap, a point is dropped only if it is older than the policy keeps. */
  lemma {:induction false} DroppedAreOld(min: int, points: seq<Point>, create: Meta, list: seq<Group>, hashes: seq<nat>, n: nat)
    requires Serves(create) && Partitions(create) && HaveShards(list)
    requires n <= |points| == |hashes| && Needed(Times(points), min, create, |points|) == Ok(list)
    ensures forall p | p in Placed(list, points, hashes, n).dropped :: p.time < min
  {
    hide Serves, Partitions, Needed;
    if n > 0 {
      DroppedAreOld(min, points, create, list, hashes, n - 1);
      if points[n - 1].time >= min {
        InScopeIsFound(Times(points), min, create, n - 1);
      }
    }
  }

  lemma {:induction false} InItsList(list: seq<Group>, points: seq<Point>, hashes: seq<nat>, n: nat, i: nat)
    requires HaveShards(list) && i < n <= |points| == |hashes|
    ensures
      var m, shard := Placed(list, points, hashes, n), ShardFor(list, points[i], hashes[i]);
      match shard
      case None => points[i] in m.dropped
      case Some(s) => s.id in m.points && points[i] in m.points[s.id]
  {
    if i < n - 1 {
      InItsList(list, points, hashes, n - 1, i);
    }
  }

  lemma {:induction false} DroppedUnfound(list: seq<Group>, points: seq<Point>, hashes: seq<nat>, n: nat)
    requires HaveShards(list) && n <= |points| == |hashes|
    ensures forall p | p in Placed(list, points, hashes, n).dropped :: ShardGroupAt(list, p.time).None?
  {
    hide ShardGroupAt, Mapped;
    if n > 0 {
      DroppedUnfound(list, points, hashes, n - 1);
      var before := Placed(list, points, hashes, n - 1);
      match ShardFor(list, points[n - 1], hashes[n - 1])
      case None =>
      case Some(shard) => PoolGrows(before, shard, points[n - 1]);
    }
  }

  /**
   Under a policy that keeps points for `duration`, or forever: each group was
   created for a point in scope; a point is dropped if and only if it is older than
   the policy keeps and in none of these groups; and a point that is not dropped
   goes to the shard of its group that its hash selects.
   */
  lemma MappedExactly(duration: int, now: int, points: seq<Point>, create: Meta, hashes: seq<nat>)
    returns (list: seq<Group>)
    requires |hashes| == |points| && GroupsHaveShards(create) && Serves(create) && Partitions(create)
    requires MappingResult(Ok(Some(duration)), now, points, create, hashes).Ok?
    ensures
      var m := MappingResult(Ok(Some(duration)), now, points, create, hashes).value;
      var oldest := if duration > 0 then now - duration else -0x8000_0000_0000_0000 + 2;
      && (forall g | g in list :: exists i: nat | i < |points| ::
            oldest <= points[i].time && create(i, points[i].time) == Created(g))
      && (forall i | 0 <= i < |points| ::
            points[i] in m.dropped <==> points[i].time < oldest && forall g | g in list :: !Contains(g, points[i].time))
      && (forall i | 0 <= i < |points| && points[i] !in m.dropped ::
            exists g | g in list && Contains(g, points[i].time) && g.shards != [] ::
              var id := g.shards[hashes[i] % |g.shards|].id;
              id in m.points && points[i] in m.points[id])
  {
    hide Serves, Partitions, Needed, Placed, ShardGroupAt, Contains;
    var times, oldest := Times(points), if duration > 0 then now - duration else -0x8000_0000_0000_0000 + 2;
    assert oldest == Oldest(duration, now);
    list := Needed(times, oldest, create, |points|).value;
    NeededHaveShards(times, oldest, create, |points|);
    NeededAreAsked(times, oldest, create, |points|);
    forall g | g in list
      ensures exists i: nat | i < |points| :: oldest <= points[i].time && create(i, points[i].time) == Created(g)
    {
      var i: nat :| i < |points| && oldest <= times[i] && create(i, times[i]) == Created(g);
      assert points[i].time == times[i];
    }
    var m := Placed(list, points, hashes, |points|);
    forall i | 0 <= i < |points|
      ensures points[i] in m.dropped <==> points[i].time < oldest && forall g | g in list :: !Contains(g, points[i].time)
      ensures points[i] !in m.dropped ==>
                exists g | g in list && Contains(g, points[i].time) && g.shards != [] ::
                  var id := g.shards[hashes[i] % |g.shards|].id;
                  id in m.points && points[i] in m.points[id]
    {
      PointPlaced(oldest, points, create, hashes, i);
    }
  }

  lemma PointPlaced(oldest: int, points: seq<Point>, create: Meta, hashes: seq<nat>, i: nat)
    requires |hashes| == |points| && i < |points| && Serves(create) && Partitions(create)
    requires Needed(Times(points), oldest, create, |points|).Ok?
    requires HaveShards(Needed(Times(points), oldest, create, |points|).value)
    ensures PlacedRightly(Needed(Times(points), oldest, create, |points|).value, points, hashes, oldest, i)
  {
    hide Serves, Partitions, Needed, Placed, ShardGroupAt, Contains;
    var times := Times(points);
    var list := Needed(times, oldest, create, |points|).value;
    DroppedUnfound(list, points, hashes, |points|);
    NeededFinds(times, oldest, create, points[i].time);
    InItsList(list, points, hashes, |points|, i);
    if oldest <= times[i] {
      NeededCovers(times, oldest, create, |points|, i);
    }
  }

  /** What becomes of the point at `i`. */
  ghost predicate PlacedRightly(list: seq<Group>, points: seq<Point>, hashes: seq<nat>, oldest: int, i: nat)
    requires HaveShards(list) && i < |points| == |hashes|
  {
    var m := Placed(list, points, hashes, |points|);
    && (points[i] in m.dropped <==> points[i].time < oldest && forall g | g in list :: !Contains(g, points[i].time))
    && (points[i] !in m.dropped ==>
          exists g | g in list && Contains(g, points[i].time) && g.shards != [] ::
            var id := g.shards[hashes[i] % |g.shards|].id;
            id in m.points && points[i] in m.points[id])
  }

  // ----- Writing a batch -----

  /** A shard write: how its owners behave and how their replies come in. */
  datatype ShardWrite = ShardWrite(owners: seq<Owner>, events: seq<Event>)

  datatype Arrival = Returned(shard: nat) | Expired | Closed

  ghost predicate Arrivals(arrivals: seq<Arrival>, ids: set<nat>)
  {
    && |arrivals| == |ids|
    && (forall i | 0 <= i < |arrivals| && arrivals[i].Returned? :: arrivals[i].shard in ids)
    && (forall i, j | 0 <= i < j < |arrivals| && arrivals[i].Returned? && arrivals[j].Returned? ::
          arrivals[i].shard != arrivals[j].shard)
  }

  ghost predicate Answering(w: ShardWrite)
  {
    Replies(w.events, |w.owners|)
  }

  ghost predicate Succeeds(level: Level, w: ShardWrite)
    requires Answering(w)
  {
    Verdict(level, w.owners, w.events) == Success
  }

  type Cluster = nat -> ShardWrite

  type Lists = map<nat, seq<Point>>

  ghost predicate Expected(arrivals: seq<Arrival>, lists: Lists, cluster: Cluster)
  {
    Arrivals(arrivals, lists.Keys) && forall id | id in lists :: Answering(cluster(id))
  }

  /** What a shard's goroutine makes of the outcome: the deletion of the shard is reported as a partial write. */
  function Converted(outcome: Outcome, points: nat): Option<WriteError>
  {
    if outcome == Success then None
    else if outcome == Plain(ShardDeletion) then Some(ShardPendingDeletion(points))
    else Some(ShardFailed(outcome))
  }

  /** The error, if any, that one arrival brings. */
  ghost function ArrivalError(level: Level, lists: Lists, cluster: Cluster, a: Arrival): Option<WriteError>
    requires a.Returned? ==> a.shard in lists && Answering(cluster(a.shard))
  {
    match a
    case Closed => Some(WriteFailed)
    case Expired => Some(TimedOut)
    case Returned(id) => Converted(Verdict(level, cluster(id).owners, cluster(id).events), |lists[id]|)
  }

  ghost predicate Known(arrivals: seq<Arrival>, lists: Lists, cluster: Cluster)
  {
    forall i | 0 <= i < |arrivals| && arrivals[i].Returned? :: arrivals[i].shard in lists && Answering(cluster(arrivals[i].shard))
  }

  ghost function FirstFailure(level: Level, lists: Lists, cluster: Cluster, arrivals: seq<Arrival>): Option<WriteError>
    requires Known(arrivals, lists, cluster)
  {
    if arrivals == [] then None
    else
      var e := ArrivalError(level, lists, cluster, arrivals[0]);
      if e.Some? then e else FirstFailure(level, lists, cluster, arrivals[1..])
  }

  /** What the batch returns: the first failure to arrive, else the dropped points, else nothing. */
  ghost function AwaitResult(level: Level, lists: Lists, cluster: Cluster, dropped: nat, arrivals: seq<Arrival>)
    : Option<WriteError>
    requires Known(arrivals, lists, cluster)
  {
    var e := FirstFailure(level, lists, cluster, arrivals);
    if e.Some? then e else if dropped > 0 then Some(BeyondRetention(dropped)) else None
  }

  /** Waits for every shard write and returns the first failure. */
  method AwaitShards(level: Level, lists: Lists, cluster: Cluster, dropped: nat, arrivals: seq<Arrival>)
    returns (err: Option<WriteError>)
    requires Known(arrivals, lists, cluster)
    ensures err == AwaitResult(level, lists, cluster, dropped, arrivals)
  {
    hide Verdict, Replies;
    err := if dropped > 0 then Some(BeyondRetention(dropped)) else None;
    for i := 0 to |arrivals|
      invariant FirstFailure(level, lists, cluster, arrivals) == FirstFailure(level, lists, cluster, arrivals[i..])
    {
      assert arrivals[i..][1..] == arrivals[i + 1..];
      match arrivals[i] {
        case Closed => return Some(WriteFailed);
        case Expired => return Some(TimedOut);
        case Returned(id) =>
          var outcome := WriteToShard(level, cluster(id).owners, cluster(id).events);
          var failure := Converted(outcome, |lists[id]|);
          if failure.Some? {
            return failure;
          }
      }
    }
  }

  lemma {:induction false} NoFailure(level: Level, lists: Lists, cluster: Cluster, arrivals: seq<Arrival>)
    requires Known(arrivals, lists, cluster)
    ensures FirstFailure(level, lists, cluster, arrivals).None? <==>
            forall i | 0 <= i < |arrivals| :: arrivals[i].Returned? && Succeeds(level, cluster(arrivals[i].shard))
  {
    hide Verdict, Replies;
    if arrivals != [] {
      NoFailure(level, lists, cluster, arrivals[1..]);
      var e := ArrivalError(level, lists, cluster, arrivals[0]);
      if e.None? && FirstFailure(level, lists, cluster, arrivals[1..]).None? {
        forall i | 0 <= i < |arrivals| ensures arrivals[i].Returned? && Succeeds(level, cluster(arrivals[i].shard)) {
          assert i > 0 ==> arrivals[i] == arrivals[1..][i - 1];
        }
      }
    }
  }

  /** The failure that is returned is that of the first arrival that brings one. */
  lemma {:induction false} FailureIsFirst(level: Level, lists: Lists, cluster: Cluster, arrivals: seq<Arrival>) returns (n: nat)
    requires Known(arrivals, lists, cluster) && FirstFailure(level, lists, cluster, arrivals).Some?
    ensures n < |arrivals| && forall i | 0 <= i < n :: arrivals[i].Returned? && Succeeds(level, cluster(arrivals[i].shard))
    ensures
      match arrivals[n]
      case Expired => FirstFailure(level, lists, cluster, arrivals) == Some(TimedOut)
      case Closed => FirstFailure(level, lists, cluster, arrivals) == Some(WriteFailed)
      case Returned(id) =>
        var w := cluster(id);
        var outcome := Verdict(level, w.owners, w.events);
        outcome != Success && FirstFailure(level, lists, cluster, arrivals) == Some(ShardFailed(outcome))
  {
    hide Verdict, Replies;
    if arrivals[0].Returned? {
      var w := cluster(arrivals[0].shard);
      NeverPlain(level, w.owners, w.events);
    }
    if ArrivalError(level, lists, cluster, arrivals[0]).Some? {
      n := 0;
    } else {
      var m := FailureIsFirst(level, lists, cluster, arrivals[1..]);
      n := m + 1;
      forall i | 0 <= i < n ensures arrivals[i].Returned? && Succeeds(level, cluster(arrivals[i].shard)) {
        assert i > 0 ==> arrivals[i] == arrivals[1..][i - 1];
      }
    }
  }

  ghost function ShardsHeard(arrivals: seq<Arrival>): set<nat>
  {
    if arrivals == [] then {}
    else ShardsHeard(arrivals[1..]) + if arrivals[0].Returned? then {arrivals[0].shard} else {}
  }

  lemma {:induction false} HeardAll(arrivals: seq<Arrival>, ids: set<nat>)
    requires forall i | 0 <= i < |arrivals| :: arrivals[i].Returned? && arrivals[i].shard in ids
    requires forall i, j | 0 <= i < j < |arrivals| :: arrivals[i] != arrivals[j]
    ensures |ShardsHeard(arrivals)| == |arrivals| && ShardsHeard(arrivals) <= ids
    ensures forall id | id in ShardsHeard(arrivals) :: Returned(id) in arrivals
  {
    if arrivals != [] {
      HeardAll(arrivals[1..], ids);
    }
  }

  /** No error if and only if nothing was dropped, nothing timed out or closed, and every shard's write succeeded. */
  lemma AwaitSucceeds(level: Level, lists: Lists, cluster: Cluster, dropped: nat, arrivals: seq<Arrival>)
    requires Expected(arrivals, lists, cluster)
    ensures Known(arrivals, lists, cluster)
    ensures AwaitResult(level, lists, cluster, dropped, arrivals).None? <==>
              && dropped == 0 && (forall i | 0 <= i < |arrivals| :: arrivals[i].Returned?)
              && (forall id | id in lists :: Succeeds(level, cluster(id)))
  {
    hide Verdict, Replies;
    NoFailure(level, lists, cluster, arrivals);
    if forall i | 0 <= i < |arrivals| :: arrivals[i].Returned? {
      HeardAll(arrivals, lists.Keys);
      SubsetOfSameSize(ShardsHeard(arrivals), lists.Keys);
    }
  }

  /**
   The conversion of a shard's deletion never applies: a shard write wraps that
   error in a failure, so its caller cannot recognise it.
   */
  lemma {:induction false} DeletionIsNotRecognised(level: Level, lists: Lists, cluster: Cluster,
                                                        dropped: nat, arrivals: seq<Arrival>)
    requires Known(arrivals, lists, cluster)
    ensures
      var r := AwaitResult(level, lists, cluster, dropped, arrivals);
      r.Some? ==> !r.value.ShardPendingDeletion?
    decreases |arrivals|
  {
    if arrivals != [] {
      if arrivals[0].Returned? {
        var w := cluster(arrivals[0].shard);
        NeverPlain(level, w.owners, w.events);
      }
      DeletionIsNotRecognised(level, lists, cluster, dropped, arrivals[1..]);
    }
  }

  /** A shard that is pending deletion on its only owner: the write fails with a wrapped error. */
  lemma DeletedShardFails(level: Level, points: nat)
    ensures
      var w := ShardWrite([Local(Some(ShardDeletion), None, None)], [Reply(0)]);
      Answering(w) && Converted(Verdict(level, w.owners, w.events), points) == Some(ShardFailed(Failure(ShardDeletion)))
  {
    var w := ShardWrite([Local(Some(ShardDeletion), None, None)], [Reply(0)]);
    assert Replied(w.events, 1) == {0};
    AckedReplied(level, w.owners, w.events, 1);
    assert w.events[1..] == [];
    assert FirstError(level, w.owners, w.events, 1) == Some(ShardDeletion);
  }

  /** A batch to write: where the metadata service puts it, and what the hash of each point was. */
  datatype Batch = Batch(points: seq<Point>, hashes: seq<nat>, now: int, create: Meta)

  ghost predicate WellFormed(b: Batch)
  {
    |b.hashes| == |b.points| && GroupsHaveShards(b.create)
  }

  function Distribution(b: Batch, policy: Result<Option<int>, string>): Result<Mapping, WriteError>
    requires WellFormed(b)
  {
    MappingResult(policy, b.now, b.points, b.create, b.hashes)
  }

  /** The default policy of the database stands in for an empty name. */
  function PolicyName(name: string, database: Option<string>): Option<string>
  {
    if name == "" then database else Some(name)
  }

  /** The cluster has a store for each owner of each shard that was mapped. */
  ghost predicate Hosts(cluster: Cluster, m: Mapping)
  {
    && (forall id | id in m.points :: Answering(cluster(id)))
    && (forall id | id in m.shards :: |cluster(id).owners| == |m.shards[id].owners|)
  }

  /** A request: the batch, its policy by name, the consistency level, and how the cluster responds. */
  datatype Request = Request(
    batch: Batch, name: string, database: Option<string>, policies: string -> Result<Option<int>, string>,
    level: Level, cluster: Cluster, arrivals: seq<Arrival>)

  /** Where the points go, or why they do not. */
  function Routed(r: Request): Result<Mapping, WriteError>
    requires WellFormed(r.batch)
  {
    match PolicyName(r.name, r.database)
    case None => Err(DatabaseNotFound)
    case Some(name) => Distribution(r.batch, r.policies(name))
  }

  ghost predicate Responds(r: Request)
    requires WellFormed(r.batch)
  {
    Routed(r).Ok? ==> Expected(r.arrivals, Routed(r).value.points, r.cluster)
  }

  ghost function WriteResult(r: Request): Option<WriteError>
    requires WellFormed(r.batch) && Responds(r)
  {
    match Routed(r)
    case Err(e) => Some(e)
    case Ok(m) => AwaitResult(r.level, m.points, r.cluster, |m.dropped|, r.arrivals)
  }

  method WritePoints(r: Request) returns (err: Option<WriteError>)
    requires WellFormed(r.batch) && Responds(r)
    ensures err == WriteResult(r)
    ensures err.None? <==>
              && Routed(r).Ok? && Routed(r).value.dropped == [] && (forall i | 0 <= i < |r.arrivals| :: r.arrivals[i].Returned?)
              && (forall id | id in Routed(r).value.points :: Succeeds(r.level, r.cluster(id)))
  {
    var policy := r.name;
    if r.name == "" {
      if r.database.None? {
        return Some(DatabaseNotFound);
      }
      policy := r.database.value;
    }
    var b := r.batch;
    var mapping := MapShards(r.policies(policy), b.now, b.points, b.create, b.hashes);
    if mapping.Err? {
      return Some(mapping.error);
    }
    var lists := map id | id in mapping.value.points :: mapping.value.points[id].items;
    assert lists == mapping.value.View().points;
    AwaitSucceeds(r.level, lists, r.cluster, |mapping.value.dropped|, r.arrivals);
    err := AwaitShards(r.level, lists, r.cluster, |mapping.value.dropped|, r.arrivals);
  }

  /**
   When a batch is written without error, each of its points is in the list of a
   shard that enough owners hold; above level Any they have stored it.
   */
  lemma WrittenIsHeld(b: Batch, duration: int, level: Level, cluster: Cluster, i: nat)
    requires WellFormed(b) && Distribution(b, Ok(Some(duration))).Ok? && i < |b.points|
    requires
      var m := Distribution(b, Ok(Some(duration))).value;
      m.dropped == [] && Hosts(cluster, m) && forall id | id in m.points :: Succeeds(level, cluster(id))
    ensures
      var m := Distribution(b, Ok(Some(duration))).value;
      m.shards.Keys == m.points.Keys &&
      exists id | id in m.points ::
        && b.points[i] in m.points[id]
        && cluster(id).owners != [] && Reached(level, cluster(id).owners, Below(|m.shards[id].owners|))
  {
    var list := Needed(Times(b.points), Oldest(duration, b.now), b.create, |b.points|).value;
    NeededHaveShards(Times(b.points), Oldest(duration, b.now), b.create, |b.points|);
    InItsList(list, b.points, b.hashes, |b.points|, i);
    var id := ShardFor(list, b.points[i], b.hashes[i]).value.id;
    var m := Placed(list, b.points, b.hashes, |b.points|);
    PlacedBound(list, b.points, b.hashes, |b.points|, id);
    assert id in m.points;
    SuccessIsHeld(level, cluster(id).owners, cluster(id).events);
  }
}
