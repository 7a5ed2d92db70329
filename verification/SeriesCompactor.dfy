/**
 Compaction of a series partition: both tables are rebuilt by Robin Hood
 insertion from the log entries that the index does not report deleted.
 */
module SeriesCompactor {
  import opened Collections
  import opened SeriesLog
  import opened RobinHood
  import opened SeriesIndex

  /** No two elements share an offset, and empty slots are all zero. */
  ghost predicate UniqueOffsets(s: seq<Elem>)
  {
    && (forall p: nat, q: nat | p < |s| && q < |s| && s[p].offset != 0 && s[p].offset == s[q].offset :: p == q)
    && (forall p: nat | p < |s| && s[p].offset == 0 :: s[p].id == 0)
  }

  /** A table under construction. */
  ghost predicate Table(s: seq<Elem>, hash: Elem -> nat, elems: set<Elem>)
  {
    Reachable(s, Slots(hash)) && UniqueOffsets(s) && Elems(s, Slots(hash)) == elems
  }

  /** Mid-insertion: `cur` is in hand, `dist` steps from home, and would complete the table to `goal`. */
  ghost predicate Carrying(s: seq<Elem>, hash: Elem -> nat, cur: Elem, dist: nat, goal: set<Elem>)
  {
    && Reachable(s, Slots(hash)) && UniqueOffsets(s)
    && cur.offset != 0 && (forall e | e in s :: e.offset != cur.offset)
    && dist < |s| && PathClear(s, Slots(hash), Home(hash(cur), |s|), dist)
    && Elems(s, Slots(hash)) + {cur} == goal
  }

  lemma PlaceElem(s: seq<Elem>, hash: Elem -> nat, cur: Elem, dist: nat, goal: set<Elem>)
    requires Carrying(s, hash, cur, dist, goal)
    requires !Blocks(s, Slots(hash), At(Home(hash(cur), |s|), dist, |s|), dist)
    ensures
      var p := At(Home(hash(cur), |s|), dist, |s|);
      && UniqueOffsets(s[p := cur]) && Reachable(s[p := cur], Slots(hash))
      && Elems(s[p := cur], Slots(hash)) == (if s[p].offset != 0 then goal - {s[p]} else goal)
  {
    var f := Slots(hash);
    var p := At(Home(hash(cur), |s|), dist, |s|);
    assert forall q: nat | q < |s| :: s[q] in s;
    PlaceKeepsReachable(s, f, cur, dist);
    assert cur !in Elems(s, f);
    ElemsUpdate(s, f, p, cur);
    if s[p].offset != 0 {
      assert s[p] in s && s[p] in Elems(s, f);
    }
  }

  /** Taking over a slot whose element is closer to home: the displaced element is now in hand. */
  lemma SwapElem(s: seq<Elem>, hash: Elem -> nat, cur: Elem, dist: nat, goal: set<Elem>)
    requires Carrying(s, hash, cur, dist, goal)
    requires
      var p := At(Home(hash(cur), |s|), dist, |s|);
      s[p].offset != 0 && SlotDist(s, Slots(hash), p) < dist
    ensures
      var p := At(Home(hash(cur), |s|), dist, |s|);
      Carrying(s[p := cur], hash, s[p], SlotDist(s, Slots(hash), p) + 1, goal)
  {
    var f := Slots(hash);
    var p := At(Home(hash(cur), |s|), dist, |s|);
    PlaceElem(s, hash, cur, dist, goal);
    PlaceKeepsReachable(s, f, cur, dist);
    var t := s[p := cur];
    assert s[p] in s && s[p] in Elems(s, f);
    forall e | e in t ensures e.offset != s[p].offset {
      var q: nat :| q < |t| && t[q] == e;
    }
  }

  lemma PassElem(s: seq<Elem>, hash: Elem -> nat, cur: Elem, dist: nat, goal: set<Elem>)
    requires Carrying(s, hash, cur, dist, goal) && dist + 1 < |s|
    requires Blocks(s, Slots(hash), At(Home(hash(cur), |s|), dist, |s|), dist)
    ensures Carrying(s, hash, cur, dist + 1, goal)
  {
  }

  lemma TakeElem(s: seq<Elem>, hash: Elem -> nat, elem: Elem, elems: set<Elem>)
    requires |s| > 0 && Table(s, hash, elems)
    requires elem.offset != 0 && forall e | e in s :: e.offset != elem.offset
    ensures Carrying(s, hash, elem, 0, elems + {elem})
  {
  }

  lemma CarryingOnce(s: seq<Elem>, hash: Elem -> nat, cur: Elem, dist: nat, goal: set<Elem>, p: nat)
    requires Carrying(s, hash, cur, dist, goal) && p < |s|
    ensures s[p].offset != cur.offset && dist < |s|
  {
    assert s[p] in s;
  }

  lemma FillElem(s: seq<Elem>, hash: Elem -> nat, cur: Elem, dist: nat, goal: set<Elem>)
    requires Carrying(s, hash, cur, dist, goal)
    requires s[At(Home(hash(cur), |s|), dist, |s|)].offset == 0
    ensures Table(s[At(Home(hash(cur), |s|), dist, |s|) := cur], hash, goal)
  {
    PlaceElem(s, hash, cur, dist, goal);
  }

  /** One slot of an insertion: fill it, take it over from an element closer to home, or pass. */
  method VisitElem(dst: array<Elem>, hash: Elem -> nat, pos: nat, cur: Elem, dist: nat, ghost goal: set<Elem>)
    returns (filled: bool, next: Elem, nextDist: nat)
    requires Carrying(dst[..], hash, cur, dist, goal) && pos == At(Home(hash(cur), dst.Length), dist, dst.Length)
    requires dist + 1 < dst.Length || dst[pos].offset == 0
    modifies dst
    ensures filled <==> old(dst[pos]).offset == 0
    ensures filled ==> Table(dst[..], hash, goal)
    ensures forall q | 0 <= q < dst.Length && q != pos :: dst[q] == old(dst[q])
    ensures !filled ==>
              && nextDist <= dist + 1 && Carrying(dst[..], hash, next, nextDist, goal)
              && nextDist < dst.Length
              && At(Home(hash(next), dst.Length), nextDist, dst.Length) == if pos + 1 == dst.Length then 0 else pos + 1
  {
    hide Table, Carrying, Home;
    ghost var s := dst[..];
    var there := dst[pos];
    filled, next, nextDist := false, cur, dist + 1;
    CarryingOnce(s, hash, cur, dist, goal, pos);
    if there.offset == 0 || there.offset == cur.offset {
      FillElem(s, hash, cur, dist, goal);
      dst[pos] := cur;
      assert dst[..] == s[pos := cur];
      filled := true;
      return;
    }
    var d := Dist(Home(hash(there), dst.Length), pos, dst.Length);
    if d < dist {
      SwapElem(s, hash, cur, dist, goal);
      dst[pos] := cur;
      assert dst[..] == s[pos := cur];
      next, nextDist := there, d + 1;
    } else {
      PassElem(s, hash, cur, dist, goal);
    }
  }

  /**
   Inserts an element into a table that has room, displacing elements that are
   closer to home. Models both table inserts of the compactor: they differ only
   in what they hash.
   */
  method InsertElem(dst: array<Elem>, hash: Elem -> nat, elem: Elem, ghost elems: set<Elem>)
    requires Table(dst[..], hash, elems) && HasRoom(dst[..], Slots(hash))
    requires elem.offset != 0 && forall e | e in dst[..] :: e.offset != elem.offset
    modifies dst
    ensures Table(dst[..], hash, elems + {elem})
  {
    var cap := dst.Length;
    ghost var gap: nat :| gap < cap && dst[gap].offset == 0;
    TakeElem(dst[..], hash, elem, elems);
    hide Table, Carrying, HasRoom, Home;
    var cur, filled := elem, false;
    var home := Home(hash(cur), cap);
    var i: nat, dist: nat, pos: nat := 0, 0, home;
    while true
      invariant i <= Dist(home, gap, cap) && pos == At(home, i, cap) && dst[gap].offset == 0
      invariant dist <= i && pos == At(Home(hash(cur), cap), dist, cap)
      invariant Carrying(dst[..], hash, cur, dist, elems + {elem})
      decreases cap - i
    {
      filled, cur, dist := VisitElem(dst, hash, pos, cur, dist, elems + {elem});
      if filled {
        return;
      }
      i, pos := i + 1, if pos + 1 == cap then 0 else pos + 1;
    }
  }

  // ----- Room -----

  lemma {:induction false} PrefixCount(s: seq<Elem>, f: Layout<Elem>, n: nat)
    requires n <= |s| && NoRepeats(s, f) && forall p: nat | p < |s| :: f.used(s[p])
    ensures |set p: nat | p < n :: s[p]| == n
  {
    var upto := set p: nat | p < n :: s[p];
    if n > 0 {
      PrefixCount(s, f, n - 1);
      var before := set p: nat | p < n - 1 :: s[p];
      assert upto == before + {s[n - 1]};
      assert s[n - 1] !in before;
    } else {
      assert upto == {};
    }
  }

  /** A table with fewer elements than slots has an empty slot. */
  lemma FewerHasRoom(s: seq<Elem>, hash: Elem -> nat, elems: set<Elem>)
    requires Table(s, hash, elems) && |elems| < |s|
    ensures HasRoom(s, Slots(hash))
  {
    var f := Slots(hash);
    var all := set p: nat | p < |s| :: s[p];
    if !HasRoom(s, f) {
      assert all == Elems(s, f);
      PrefixCount(s, f, |s|);
    }
  }

  ghost function Pairs(disk: map<nat, nat>): set<Elem>
  {
    set id | id in disk :: Elem(disk[id], id)
  }

  lemma {:induction false} PairsCount(disk: map<nat, nat>, ids: set<nat>)
    requires ids <= disk.Keys
    ensures |set id | id in ids :: Elem(disk[id], id)| == |ids|
  {
    var pairs := set id | id in ids :: Elem(disk[id], id);
    if ids == {} {
      assert pairs == {};
    } else {
      var x :| x in ids;
      var rest := set id | id in ids - {x} :: Elem(disk[id], id);
      PairsCount(disk, ids - {x});
      assert pairs == rest + {Elem(disk[x], x)};
    }
  }

  lemma TableHolds(s: seq<Elem>, hash: Elem -> nat, disk: map<nat, nat>)
    requires Table(s, hash, Pairs(disk)) && forall id | id in disk :: id != 0 && disk[id] != 0
    ensures Holds(s, hash, disk)
  {
    var f := Slots(hash);
    assert forall p: nat | p < |s| && s[p].offset != 0 :: s[p] in Elems(s, f);
    forall id | id in disk ensures Elem(disk[id], id) in s {
      assert Elem(disk[id], id) in Elems(s, f);
    }
  }

  /** The smallest power of two, from 2 up, that is at least `v`. */
  method Pow2(v: nat) returns (c: nat)
    requires v <= 0x2000_0000_0000_0000
    ensures v <= c && 2 <= c && (c == 2 || c / 2 < v) && exists k: nat :: c == Power(k)
  {
    c := 2;
    ghost var k := 1;
    assert Power(1) == 2 * Power(0);
    while c < v
      invariant 2 <= c && (c == 2 || c / 2 < v) && c == Power(k)
      decreases v - c
    {
      c, k := c * 2, k + 1;
    }
  }

  // ----- The compactor -----

  /** `disk` holds the inserts of `log` that the index does not report deleted. */
  ghost predicate Kept(disk: map<nat, nat>, ix: Index, log: Log)
  {
    && (forall id | id in disk :: !Deleted(ix, id) && exists key :: Inserted(log, id, disk[id], key))
    && (forall id: nat, offset: nat, key | Inserted(log, id, offset, key) && !Deleted(ix, id) :: id in disk && disk[id] == offset)
  }

  lemma KeptIsFresh(disk: map<nat, nat>, ix: Index, log: Log, e: Entry)
    requires Disciplined(log) && MayAppend(log, e) && Kept(disk, ix, log)
    ensures forall id | id in disk :: id > 0 && disk[id] > 0 && disk[id] != e.offset && (e.Insert? ==> id != e.id)
  {
    forall id | id in disk ensures id > 0 && disk[id] > 0 && disk[id] != e.offset && (e.Insert? ==> id != e.id) {
      var key :| Inserted(log, id, disk[id], key);
      InsertsAreUnique(log, Insert(id, disk[id], key), Insert(id, disk[id], key));
    }
  }

  lemma KeepsFit(disk: map<nat, nat>, ix: Index, log: Log, id: nat, count: nat)
    requires Kept(disk, ix, log) && id !in disk && !Deleted(ix, id)
    requires |ix.disk| + |ix.offsets| <= count
    ensures |disk| < count
  {
    assert disk.Keys + {id} <= ix.disk.Keys + ix.offsets.Keys;
    SubsetSize(disk.Keys + {id}, ix.disk.Keys + ix.offsets.Keys);
    assert |ix.disk.Keys + ix.offsets.Keys| <= |ix.disk| + |ix.offsets|;
  }

  ghost function KeepOne(disk: map<nat, nat>, ix: Index, e: Entry): map<nat, nat>
  {
    if e.Insert? && !Deleted(ix, e.id) then disk[e.id := e.offset] else disk
  }

  lemma KeepNext(disk: map<nat, nat>, ix: Index, log: Log, e: Entry)
    requires Disciplined(log) && MayAppend(log, e) && Kept(disk, ix, log)
    ensures Kept(KeepOne(disk, ix, e), ix, log + [e])
  {
    AppendReads(log, e);
    var disk' := KeepOne(disk, ix, e);
    forall id | id in disk'
      ensures !Deleted(ix, id)
      ensures exists key {:trigger Inserted(log + [e], id, disk'[id], key)} :: Inserted(log + [e], id, disk'[id], key)
    {
      if e.Insert? && id == e.id {
        assert id !in disk by { KeptIsFresh(disk, ix, log, e); }
        assert Inserted(log + [e], id, e.offset, e.key);
      } else {
        var key :| Inserted(log, id, disk[id], key);
        assert Inserted(log + [e], id, disk[id], key);
      }
    }
    forall id: nat, offset: nat, key | Inserted(log + [e], id, offset, key) && !Deleted(ix, id)
      ensures id in disk' && disk'[id] == offset
    {
      if Inserted(log, id, offset, key) {
        assert Known(log, id);
      }
    }
  }

  lemma PairsGrow(disk: map<nat, nat>, elem: Elem)
    requires elem.id !in disk
    ensures Pairs(disk[elem.id := elem.offset]) == Pairs(disk) + {elem}
  {
    var disk' := disk[elem.id := elem.offset];
    forall e | e in Pairs(disk) ensures e in Pairs(disk') {
      assert disk'[e.id] == e.offset;
    }
    assert disk'[elem.id] == elem.offset;
  }

  /** A table with fewer pairs than slots can take a pair with a new offset. */
  lemma ReadyForPair(s: seq<Elem>, hash: Elem -> nat, disk: map<nat, nat>, offset: nat)
    requires Table(s, hash, Pairs(disk)) && |disk| < |s|
    requires offset != 0 && forall id | id in disk :: disk[id] != offset
    ensures HasRoom(s, Slots(hash)) && forall e | e in s :: e.offset != offset
  {
    PairsCount(disk, disk.Keys);
    assert Pairs(disk) == set id | id in disk.Keys :: Elem(disk[id], id);
    FewerHasRoom(s, hash, Pairs(disk));
    forall e | e in s && e.offset != 0 ensures e.offset != offset {
      assert e in Elems(s, Slots(hash));
    }
  }

  /** Adds one pair to a table that holds fewer pairs than slots. */
  method AddPair(dst: array<Elem>, hash: Elem -> nat, elem: Elem, ghost disk: map<nat, nat>)
    requires Table(dst[..], hash, Pairs(disk)) && |disk| < dst.Length
    requires elem.offset != 0 && elem.id !in disk && forall id | id in disk :: disk[id] != elem.offset
    modifies dst
    ensures Table(dst[..], hash, Pairs(disk[elem.id := elem.offset]))
  {
    ReadyForPair(dst[..], hash, disk, elem.offset);
    PairsGrow(disk, elem);
    InsertElem(dst, hash, elem, Pairs(disk));
  }

  /** Both tables hold what is kept of the log so far. */
  ghost predicate Building(keyIDs: seq<Elem>, idOffsets: seq<Elem>, byKey: Elem -> nat, byID: Elem -> nat,
                           disk: map<nat, nat>, ix: Index, log: Log)
  {
    && Kept(disk, ix, log) && (forall id | id in disk :: id != 0 && disk[id] != 0)
    && Table(keyIDs, byKey, Pairs(disk)) && Table(idOffsets, byID, Pairs(disk))
  }

  /** One entry of the rebuild: an insert whose id is not deleted goes into both tables. */
  method CompactEntry(index: SeriesIndex, ghost segments: Log, e: Entry, keyIDs: array<Elem>, idOffsets: array<Elem>,
                      byKey: Elem -> nat, byID: Elem -> nat, ghost disk: map<nat, nat>, ghost log: Log)
    requires index.Valid(segments) && keyIDs != idOffsets
    requires Building(keyIDs[..], idOffsets[..], byKey, byID, disk, index.View(), log)
    requires Disciplined(log) && MayAppend(log, e)
    requires |index.disk| + |index.idOffsetMap| <= keyIDs.Length == idOffsets.Length
    modifies keyIDs, idOffsets
    ensures Building(keyIDs[..], idOffsets[..], byKey, byID, KeepOne(disk, index.View(), e), index.View(), log + [e])
  {
    hide Table, Disciplined, Holds, Kept, Pairs;
    ghost var ix := index.View();
    KeepNext(disk, ix, log, e);
    KeptIsFresh(disk, ix, log, e);
    if e.Insert? {
      var deleted := index.IsDeleted(e.id, segments);
      if !deleted {
        KeepsFit(disk, ix, log, e.id, keyIDs.Length);
        AddPair(idOffsets, byID, Elem(e.offset, e.id), disk);
        AddPair(keyIDs, byKey, Elem(e.offset, e.id), disk);
      }
    }
  }

  /** The rebuild may stop at the first entry beyond the index's offset: no insert lies there. */
  lemma RestIsTombstones(ix: Index, log: Log, i: nat)
    requires Disciplined(log) && IDsAgree(ix, log) && i <= |log| && (i < |log| ==> log[i].offset > ix.maxOffset)
    ensures forall id: nat, offset: nat, key :: Inserted(log, id, offset, key) <==> Inserted(log[..i], id, offset, key)
  {
    DisciplinedAscends(log);
    forall id: nat, offset: nat, key | Inserted(log, id, offset, key) ensures Inserted(log[..i], id, offset, key) {
      var k :| 0 <= k < |log| && log[k] == Insert(id, offset, key);
      assert k < i;
      assert log[..i][k] == log[k];
    }
  }

  lemma EmptyTable(s: seq<Elem>, hash: Elem -> nat)
    requires forall p: nat | p < |s| :: s[p] == Elem(0, 0)
    ensures Table(s, hash, Pairs(map[]))
  {
  }

  /** `maxOffset` is the offset of the last insert among the first `i` entries, 0 if there is none. */
  ghost predicate LastInsertAt(log: Log, i: nat, maxOffset: nat)
    requires i <= |log|
  {
    && (forall k | 0 <= k < i && log[k].Insert? :: log[k].offset <= maxOffset)
    && (maxOffset == 0 || exists k :: 0 <= k < i && log[k].offset == maxOffset)
  }

  lemma NothingInserted(log: Log)
    ensures LastInsertAt(log, 0, 0)
  {
  }

  lemma LastInsertNext(log: Log, i: nat, maxOffset: nat)
    requires Disciplined(log) && i < |log| && LastInsertAt(log, i, maxOffset)
    ensures LastInsertAt(log, i + 1, if log[i].Insert? then log[i].offset else maxOffset)
  {
    hide Disciplined;
    DisciplinedAscends(log);
  }

  lemma RebuildIsCompacted(ix: Index, log: Log, i: nat, disk: map<nat, nat>, maxOffset: nat)
    requires Disciplined(log) && IDsAgree(ix, log) && i <= |log| && (i < |log| ==> log[i].offset > ix.maxOffset)
    requires Kept(disk, ix, log[..i]) && LastInsertAt(log, i, maxOffset)
    ensures Compacted(disk, maxOffset, ix, log)
  {
    RestIsTombstones(ix, log, i);
    forall id: nat, offset: nat, key | Inserted(log, id, offset, key) ensures offset <= maxOffset {
      assert Inserted(log[..i], id, offset, key);
      var k :| 0 <= k < i && log[..i][k] == Insert(id, offset, key);
    }
    forall id | id in disk ensures exists key :: Inserted(log, id, disk[id], key) {
      var key :| Inserted(log[..i], id, disk[id], key);
      assert Inserted(log, id, disk[id], key);
    }
    if maxOffset != 0 {
      var k :| 0 <= k < i && log[k].offset == maxOffset;
      assert log[k] in log;
    }
  }

  /** The rebuild loop over the log, up to the index's own offset. */
  method RebuildTables(index: SeriesIndex, log: Log, keyIDs: array<Elem>, idOffsets: array<Elem>)
    returns (maxSeriesID: nat, maxOffset: nat, ghost disk: map<nat, nat>, ghost i: nat)
    requires index.Valid(log) && Disciplined(log) && keyIDs != idOffsets
    requires |index.disk| + |index.idOffsetMap| <= keyIDs.Length == idOffsets.Length
    requires Table(keyIDs[..], ByKey(log, index.hashKey), Pairs(map[]))
    requires Table(idOffsets[..], ByID(index.hashID), Pairs(map[]))
    modifies keyIDs, idOffsets
    ensures i <= |log| && (i < |log| ==> log[i].offset > index.maxOffset)
    ensures Building(keyIDs[..], idOffsets[..], ByKey(log, index.hashKey), ByID(index.hashID), disk, index.View(), log[..i])
    ensures LastInsertAt(log, i, maxOffset)
  {
    hide Table, Disciplined, LastInsertAt, Holds, MayAppend, KeepOne;
    NothingInserted(log);
    var byKey, byID := ByKey(log, index.hashKey), ByID(index.hashID);
    maxSeriesID, maxOffset, disk := 0, 0, map[];
    var n := 0;
    while n < |log| && log[n].offset <= index.maxOffset
      invariant 0 <= n <= |log| && Building(keyIDs[..], idOffsets[..], byKey, byID, disk, index.View(), log[..n])
      invariant LastInsertAt(log, n, maxOffset)
    {
      PrefixDisciplined(log, n);
      LastInsertNext(log, n, maxOffset);
      CompactEntry(index, log, log[n], keyIDs, idOffsets, byKey, byID, disk, log[..n]);
      disk := KeepOne(disk, index.View(), log[n]);
      if log[n].Insert? {
        maxSeriesID, maxOffset := log[n].id, log[n].offset;
      }
      n := n + 1;
    }
    i := n;
  }

  /**
   Rebuilds both tables from the log. `seriesN` is the index's own count: the
   series on disk plus the series in memory.
   */
  method CompactIndexTo(index: SeriesIndex, seriesN: nat, log: Log)
    returns (keyIDData: seq<Elem>, idOffsetData: seq<Elem>, maxSeriesID: nat, maxOffset: nat, ghost disk: map<nat, nat>)
    requires index.Valid(log) && Disciplined(log) && IDsAgree(index.View(), log)
    requires |index.disk| + |index.idOffsetMap| <= seriesN && seriesN * 100 / 90 <= 0x2000_0000_0000_0000
    ensures |keyIDData| == |idOffsetData| > 0
    ensures Holds(keyIDData, ByKey(log, index.hashKey), disk) && Holds(idOffsetData, ByID(index.hashID), disk)
    ensures Compacted(disk, maxOffset, index.View(), log) && |disk| <= seriesN <= |keyIDData|
  {
    var capacity := Pow2(seriesN * 100 / 90);
    var keyIDs := new Elem[capacity](_ => Elem(0, 0));
    var idOffsets := new Elem[capacity](_ => Elem(0, 0));
    EmptyTable(keyIDs[..], ByKey(log, index.hashKey));
    EmptyTable(idOffsets[..], ByID(index.hashID));
    ghost var i: nat;
    maxSeriesID, maxOffset, disk, i := RebuildTables(index, log, keyIDs, idOffsets);
    RebuildIsCompacted(index.View(), log, i, disk, maxOffset);
    CompactedFits(disk, maxOffset, index.View(), log);
    keyIDData, idOffsetData := keyIDs[..], idOffsets[..];
    TableHolds(keyIDData, ByKey(log, index.hashKey), disk);
    TableHolds(idOffsetData, ByID(index.hashID), disk);
  }
}
