/**
 The series partition as values: the append-only log of insert and tombstone
 entries, what the log means, and the state of the index that serves lookups.
 */
module SeriesLog {
  import opened Bytes
  import opened Collections

  datatype Entry =
    | Insert(id: nat, offset: nat, key: Bytes)
    | Tombstone(id: nat, offset: nat)

  type Log = seq<Entry>

  // ----- What the log means -----

  /** The id most recently inserted for `key`, 0 if there is none. */
  function LastID(log: Log, key: Bytes): nat
  {
    if log == [] then 0
    else
      var e := log[|log| - 1];
      if e.Insert? && e.key == key then e.id else LastID(log[..|log| - 1], key)
  }

  ghost predicate Inserted(log: Log, id: nat, offset: nat, key: Bytes)
  {
    Insert(id, offset, key) in log
  }

  /** Some entry inserts `id`. */
  ghost predicate Known(log: Log, id: nat)
  {
    exists offset, key :: Inserted(log, id, offset, key)
  }

  ghost predicate Tombstoned(log: Log, id: nat)
  {
    exists offset :: Tombstone(id, offset) in log
  }

  ghost predicate LiveID(log: Log, id: nat)
  {
    Known(log, id) && !Tombstoned(log, id)
  }

  /** The plain-map reading of a log: the live id of `key`, or 0. */
  ghost function Lookup(log: Log, key: Bytes): nat
  {
    var id := LastID(log, key);
    if LiveID(log, id) then id else 0
  }

  ghost predicate OffsetsBelow(log: Log, offset: nat)
  {
    forall e | e in log :: e.offset < offset
  }

  /** What appending `e` must respect: growing offsets, fresh ids, one live id a key. */
  ghost predicate MayAppend(log: Log, e: Entry)
  {
    && e.offset > 0 && e.id > 0
    && OffsetsBelow(log, e.offset)
    && match e
       case Insert(id, _, key) => !Known(log, id) && Lookup(log, key) == 0
       case Tombstone(id, _) => Known(log, id)
  }

  ghost predicate Disciplined(log: Log)
  {
    log == [] || (Disciplined(log[..|log| - 1]) && MayAppend(log[..|log| - 1], log[|log| - 1]))
  }

  /** The key stored at `offset`, as read back from the segments. */
  function KeyAt(log: Log, offset: nat): Bytes
  {
    if log == [] then []
    else
      var e := log[|log| - 1];
      if e.Insert? && e.offset == offset then e.key else KeyAt(log[..|log| - 1], offset)
  }

  // ----- Facts about disciplined logs -----

  lemma AppendMembers(log: Log, e: Entry)
    ensures forall x :: x in log + [e] <==> x in log || x == e
    ensures (log + [e])[..|log|] == log
    ensures forall id :: Tombstoned(log + [e], id) <==> Tombstoned(log, id) || (e.Tombstone? && e.id == id)
    ensures forall id :: Known(log + [e], id) <==> Known(log, id) || (e.Insert? && e.id == id)
  {
    assert forall id, offset ::
        Tombstone(id, offset) in log + [e] <==> Tombstone(id, offset) in log || Tombstone(id, offset) == e;
    assert forall id, offset, key ::
        Inserted(log + [e], id, offset, key) <==> Inserted(log, id, offset, key) || Insert(id, offset, key) == e;
  }

  lemma {:induction false} LogSplit(log: Log)
    requires Disciplined(log) && log != []
    ensures log == log[..|log| - 1] + [log[|log| - 1]]
    ensures Disciplined(log[..|log| - 1]) && MayAppend(log[..|log| - 1], log[|log| - 1])
  {
  }

  /** Every prefix of a disciplined log is disciplined. */
  lemma {:induction false} PrefixDisciplined(log: Log, i: nat)
    requires Disciplined(log) && i <= |log|
    ensures Disciplined(log[..i])
    ensures i < |log| ==> MayAppend(log[..i], log[i]) && log[..i + 1] == log[..i] + [log[i]]
    decreases |log|
  {
    if i == |log| {
      assert log[..i] == log;
    } else {
      var init := log[..|log| - 1];
      assert init[..i] == log[..i];
      PrefixDisciplined(init, i);
    }
  }

  /** An insert entry is the only one with its id and the only entry at its offset; ids and offsets are positive. */
  lemma {:induction false} InsertsAreUnique(log: Log, a: Entry, b: Entry)
    requires Disciplined(log) && a in log && b in log
    ensures a.offset > 0 && a.id > 0
    ensures a.offset == b.offset ==> a == b
    ensures a.Insert? && b.Insert? && a.id == b.id ==> a == b
  {
    LogSplit(log);
    var init, e := log[..|log| - 1], log[|log| - 1];
    AppendMembers(init, e);
    if a in init && b in init {
      InsertsAreUnique(init, a, b);
    } else if a in init {
      InsertsAreUnique(init, a, a);
      if a.Insert? { assert Inserted(init, a.id, a.offset, a.key); }
    } else if b in init {
      if b.Insert? { assert Inserted(init, b.id, b.offset, b.key); }
    }
  }

  /** Only ids that were inserted are ever tombstoned. */
  lemma {:induction false} TombstonedIsKnown(log: Log, id: nat)
    requires Disciplined(log) && Tombstoned(log, id)
    ensures Known(log, id)
  {
    LogSplit(log);
    var init, e := log[..|log| - 1], log[|log| - 1];
    AppendMembers(init, e);
    if Tombstoned(init, id) {
      TombstonedIsKnown(init, id);
    }
  }

  /** The segments give back the key of every insert. */
  lemma {:induction false} KeyAtInserted(log: Log, id: nat, offset: nat, key: Bytes)
    requires Disciplined(log) && Inserted(log, id, offset, key)
    ensures KeyAt(log, offset) == key
  {
    LogSplit(log);
    var init, e := log[..|log| - 1], log[|log| - 1];
    AppendMembers(init, e);
    if Inserted(init, id, offset, key) {
      KeyAtInserted(init, id, offset, key);
      InsertsAreUnique(log, Insert(id, offset, key), e);
    }
  }

  /** A key has at most one live id, and it is the one inserted last. */
  lemma {:induction false} OneLiveID(log: Log, id: nat, offset: nat, key: Bytes)
    requires Disciplined(log) && Inserted(log, id, offset, key) && LiveID(log, id)
    ensures id == LastID(log, key)
  {
    LogSplit(log);
    var init, e := log[..|log| - 1], log[|log| - 1];
    AppendMembers(init, e);
    if Inserted(init, id, offset, key) {
      assert Known(init, id);
      OneLiveID(init, id, offset, key);
      InsertsAreUnique(log, Insert(id, offset, key), e);
    }
  }

  /** The offset of the entry `LastID` answers with. */
  function LastOffset(log: Log, key: Bytes): nat
  {
    if log == [] then 0
    else
      var e := log[|log| - 1];
      if e.Insert? && e.key == key then e.offset else LastOffset(log[..|log| - 1], key)
  }

  lemma {:induction false} LastIDInserted(log: Log, key: Bytes)
    requires Disciplined(log) && LastID(log, key) != 0
    ensures Inserted(log, LastID(log, key), LastOffset(log, key), key)
  {
    LogSplit(log);
    AppendMembers(log[..|log| - 1], log[|log| - 1]);
    var e := log[|log| - 1];
    if !(e.Insert? && e.key == key) {
      LastIDInserted(log[..|log| - 1], key);
    }
  }

  // ----- The index that serves lookups -----

  /**
   The index as a value. `keys` and `offsets` are the in-memory maps, `disk`
   the (id, offset) pairs that the two memory-mapped tables hold.
   */
  datatype Index = Index(
    keys: map<Bytes, nat>,
    offsets: map<nat, nat>,
    tombstones: set<nat>,
    maxID: nat,
    maxOffset: nat,
    disk: map<nat, nat>)

  function OffsetOf(ix: Index, id: nat): nat
  {
    if id in ix.offsets && ix.offsets[id] != 0 then ix.offsets[id]
    else if id in ix.disk then ix.disk[id]
    else 0
  }

  predicate Deleted(ix: Index, id: nat)
  {
    id in ix.tombstones || OffsetOf(ix, id) == 0
  }

  /** `id` is on disk and the segments hold `key` at its offset. */
  ghost predicate OnDisk(ix: Index, log: Log, key: Bytes, id: nat)
  {
    id in ix.disk && KeyAt(log, ix.disk[id]) == key
  }

  /** What the two-tier lookup answers: memory first, then disk, skipping deleted ids. */
  ghost predicate Answers(ix: Index, log: Log, key: Bytes, r: nat)
  {
    if key in ix.keys && ix.keys[key] != 0 && !Deleted(ix, ix.keys[key]) then
      r == ix.keys[key]
    else if exists id: nat :: OnDisk(ix, log, key, id) then
      exists id: nat :: OnDisk(ix, log, key, id) && r == if Deleted(ix, id) then 0 else id
    else
      r == 0
  }

  /** One log entry applied to the index. */
  function Exec(ix: Index, e: Entry): Index
  {
    match e
    case Insert(id, offset, key) =>
      ix.(keys := ix.keys[key := id],
          offsets := ix.offsets[id := offset],
          maxID := if id > ix.maxID then id else ix.maxID,
          maxOffset := if offset > ix.maxOffset then offset else ix.maxOffset)
    case Tombstone(id, _) => ix.(tombstones := ix.tombstones + {id})
  }

  function Replay(ix: Index, log: Log): Index
  {
    if log == [] then ix else Exec(Replay(ix, log[..|log| - 1]), log[|log| - 1])
  }

  /** Replay as `Recover` does it: an entry at or below the offset reached so far is skipped. */
  function ReplayNew(ix: Index, log: Log): Index
  {
    if log == [] then ix
    else
      var prev := ReplayNew(ix, log[..|log| - 1]);
      var e := log[|log| - 1];
      if e.offset <= prev.maxOffset then prev else Exec(prev, e)
  }

  /** A freshly opened index: what the file's header and tables say, nothing in memory. */
  function Opened(disk: map<nat, nat>, maxID: nat, maxOffset: nat): Index
  {
    Index(map[], map[], {}, maxID, maxOffset, disk)
  }

  // ----- The index agrees with the log -----

  ghost predicate DiskFits(ix: Index, log: Log)
  {
    && (forall id | id in ix.disk :: exists key :: Inserted(log, id, ix.disk[id], key))
    && (forall a, b | a in ix.disk && b in ix.disk && KeyAt(log, ix.disk[a]) == KeyAt(log, ix.disk[b]) :: a == b)
  }

  ghost predicate OffsetsFit(ix: Index, log: Log)
  {
    && (forall id | id in ix.offsets :: exists key :: Inserted(log, id, ix.offsets[id], key))
    && (forall id | id in ix.tombstones :: Tombstoned(log, id))
  }

  /** Every id the log still holds alive can be found, and no tombstoned id can. */
  ghost predicate NothingLost(ix: Index, log: Log)
  {
    && (forall id | LiveID(log, id) :: id in ix.offsets || id in ix.disk)
    && (forall id | Tombstoned(log, id) :: id in ix.tombstones || (id !in ix.offsets && id !in ix.disk))
    && (forall id: nat, offset: nat, key | Inserted(log, id, offset, key) :: offset <= ix.maxOffset)
  }

  /** The id side of the index: all that a clone taken for compaction carries. */
  ghost predicate IDsAgree(ix: Index, log: Log)
  {
    DiskFits(ix, log) && OffsetsFit(ix, log) && NothingLost(ix, log)
  }

  /** The in-memory key map holds the last id of exactly the keys whose last id is in memory. */
  ghost predicate KeysAgree(ix: Index, log: Log)
  {
    && (forall key | key in ix.keys :: ix.keys[key] == LastID(log, key) && ix.keys[key] in ix.offsets)
    && (forall id: nat, offset: nat, key | Inserted(log, id, offset, key) && id in ix.offsets && LastID(log, key) == id ::
          key in ix.keys)
  }

  ghost predicate Agrees(ix: Index, log: Log)
  {
    IDsAgree(ix, log) && KeysAgree(ix, log)
  }

  /** An index that agrees with the log deletes exactly the ids that are not live. */
  lemma DeletedIsDead(ix: Index, log: Log, id: nat)
    requires Disciplined(log) && IDsAgree(ix, log)
    ensures Deleted(ix, id) <==> !LiveID(log, id)
  {
    if id in ix.offsets {
      var key :| Inserted(log, id, ix.offsets[id], key);
      InsertsAreUnique(log, Insert(id, ix.offsets[id], key), Insert(id, ix.offsets[id], key));
    } else if id in ix.disk {
      var key :| Inserted(log, id, ix.disk[id], key);
      InsertsAreUnique(log, Insert(id, ix.disk[id], key), Insert(id, ix.disk[id], key));
    }
  }

  /** The two-tier lookup is the plain map: it answers with the key's one live id, or 0. */
  lemma LookupAgrees(ix: Index, log: Log, key: Bytes, r: nat)
    requires Disciplined(log) && Agrees(ix, log) && Answers(ix, log, key, r)
    ensures r == Lookup(log, key)
  {
    var last := LastID(log, key);
    DeletedIsDead(ix, log, last);
    forall id | OnDisk(ix, log, key, id)
      ensures Inserted(log, id, ix.disk[id], key) && (Deleted(ix, id) || id == last)
    {
      var k :| Inserted(log, id, ix.disk[id], k);
      KeyAtInserted(log, id, ix.disk[id], k);
      DeletedIsDead(ix, log, id);
      if LiveID(log, id) {
        OneLiveID(log, id, ix.disk[id], k);
      }
    }
    if LiveID(log, last) {
      assert last != 0 by {
        var offset, k :| Inserted(log, last, offset, k);
        InsertsAreUnique(log, Insert(last, offset, k), Insert(last, offset, k));
      }
      LastIDInserted(log, key);
      KeyAtInserted(log, last, LastOffset(log, key), key);
      if last in ix.offsets {
        assert key in ix.keys;
      } else {
        var k :| Inserted(log, last, ix.disk[last], k);
        InsertsAreUnique(log, Insert(last, ix.disk[last], k), Insert(last, LastOffset(log, key), key));
        assert OnDisk(ix, log, key, last);
      }
    }
  }

  // ----- What keeps the agreement -----

  lemma AppendReads(log: Log, e: Entry)
    ensures forall offset: nat | offset != e.offset :: KeyAt(log + [e], offset) == KeyAt(log, offset)
    ensures forall key :: LastID(log + [e], key) == if e.Insert? && e.key == key then e.id else LastID(log, key)
    ensures forall id: nat, offset: nat, key ::
              Inserted(log + [e], id, offset, key) <==> Inserted(log, id, offset, key) || e == Insert(id, offset, key)
  {
    AppendMembers(log, e);
  }

  lemma ExecDiskFits(ix: Index, log: Log, e: Entry)
    requires MayAppend(log, e) && DiskFits(ix, log)
    ensures DiskFits(Exec(ix, e), log + [e])
  {
    AppendReads(log, e);
    forall id | id in ix.disk ensures ix.disk[id] != e.offset && exists key :: Inserted(log + [e], id, ix.disk[id], key) {
      var key :| Inserted(log, id, ix.disk[id], key);
      assert Inserted(log + [e], id, ix.disk[id], key);
    }
  }

  lemma ExecOffsetsFit(ix: Index, log: Log, e: Entry)
    requires MayAppend(log, e) && OffsetsFit(ix, log)
    ensures OffsetsFit(Exec(ix, e), log + [e])
  {
    AppendMembers(log, e);
    AppendReads(log, e);
    var ix' := Exec(ix, e);
    forall id | id in ix'.offsets ensures exists key :: Inserted(log + [e], id, ix'.offsets[id], key) {
      if e.Insert? && id == e.id {
        assert Inserted(log + [e], id, e.offset, e.key);
      } else {
        var key :| Inserted(log, id, ix.offsets[id], key);
        assert Inserted(log + [e], id, ix.offsets[id], key);
      }
    }
  }

  lemma ExecNothingLost(ix: Index, log: Log, e: Entry)
    requires Disciplined(log) && MayAppend(log, e) && NothingLost(ix, log)
    ensures NothingLost(Exec(ix, e), log + [e])
  {
    AppendMembers(log, e);
    AppendReads(log, e);
    forall id | Tombstoned(log, id) ensures Known(log, id) {
      TombstonedIsKnown(log, id);
    }
  }

  lemma ExecKeysAgree(ix: Index, log: Log, e: Entry)
    requires MayAppend(log, e) && KeysAgree(ix, log)
    ensures KeysAgree(Exec(ix, e), log + [e])
  {
    hide OffsetsBelow, Lookup, KeyAt;
    AppendReads(log, e);
    var ix', log' := Exec(ix, e), log + [e];
    forall key | key in ix'.keys ensures ix'.keys[key] == LastID(log', key) && ix'.keys[key] in ix'.offsets {
      if !(e.Insert? && e.key == key) {
        assert key in ix.keys;
      }
    }
    forall id: nat, offset: nat, key | Inserted(log', id, offset, key) && id in ix'.offsets && LastID(log', key) == id
      ensures key in ix'.keys
    {
      if !(e.Insert? && e.key == key) {
        LastIsNotNew(log, e, id, offset, key);
      }
    }
  }

  /** An entry for another key leaves the inserts of this key as they were, with ids that are not new. */
  lemma LastIsNotNew(log: Log, e: Entry, id: nat, offset: nat, key: Bytes)
    requires MayAppend(log, e) && !(e.Insert? && e.key == key) && Inserted(log + [e], id, offset, key)
    ensures Inserted(log, id, offset, key) && (e.Insert? ==> id != e.id)
  {
    hide OffsetsBelow, Lookup;
    AppendMembers(log, e);
    assert Inserted(log, id, offset, key);
  }

  /** Executing an appended entry keeps the index in agreement with the log. */
  lemma ExecAgrees(ix: Index, log: Log, e: Entry)
    requires Disciplined(log) && MayAppend(log, e) && Agrees(ix, log)
    ensures Agrees(Exec(ix, e), log + [e])
  {
    ExecDiskFits(ix, log, e);
    ExecOffsetsFit(ix, log, e);
    ExecNothingLost(ix, log, e);
    ExecKeysAgree(ix, log, e);
  }

  /** The entries above `offset`, in order. */
  function Above(log: Log, offset: nat): Log
  {
    if log == [] then []
    else
      var init := Above(log[..|log| - 1], offset);
      if log[|log| - 1].offset > offset then init + [log[|log| - 1]] else init
  }

  ghost predicate Ascending(log: Log)
  {
    forall i, j | 0 <= i < j < |log| :: log[i].offset < log[j].offset
  }

  lemma {:induction false} DisciplinedAscends(log: Log)
    requires Disciplined(log)
    ensures Ascending(log)
  {
    if log != [] {
      LogSplit(log);
      DisciplinedAscends(log[..|log| - 1]);
      forall i | 0 <= i < |log| - 1 ensures log[i].offset < log[|log| - 1].offset {
        assert log[..|log| - 1][i] == log[i];
      }
    }
  }

  lemma {:induction false} ReplayNewBound(ix: Index, log: Log, m: nat)
    ensures ReplayNew(ix, log).maxOffset >= ix.maxOffset
    ensures ix.maxOffset < m && OffsetsBelow(log, m) ==> ReplayNew(ix, log).maxOffset < m
  {
    if log != [] {
      ReplayNewBound(ix, log[..|log| - 1], m);
      assert log == log[..|log| - 1] + [log[|log| - 1]];
    }
  }

  /**
   Recovery replays exactly the entries above the header's offset, although its
   filter moves while it runs: the index it rebuilds is the one that executed
   those entries when they were first written.
   */
  lemma {:induction false} RecoverRebuilds(start: Index, log: Log)
    requires Ascending(log)
    ensures ReplayNew(start, log) == Replay(start, Above(log, start.maxOffset))
  {
    if log != [] {
      var init, e := log[..|log| - 1], log[|log| - 1];
      RecoverRebuilds(start, init);
      ReplayNewBound(start, init, e.offset);
      if e.offset > start.maxOffset {
        assert OffsetsBelow(init, e.offset);
        var above := Above(init, start.maxOffset);
        assert (above + [e])[..|above|] == above;
      }
    }
  }

  lemma ReplayNewAppend(ix: Index, log: Log, e: Entry)
    requires OffsetsBelow(log, e.offset) && ix.maxOffset < e.offset
    ensures ReplayNew(ix, log + [e]) == Exec(ReplayNew(ix, log), e)
  {
    assert (log + [e])[..|log|] == log;
    ReplayNewBound(ix, log, e.offset);
  }

  /** What the compactor writes: the pairs the index does not report deleted, and the last insert's offset. */
  ghost predicate Compacted(disk: map<nat, nat>, maxOffset: nat, ix: Index, log: Log)
  {
    && (forall id | id in disk :: !Deleted(ix, id) && exists key :: Inserted(log, id, disk[id], key))
    && (forall id: nat, offset: nat, key | Inserted(log, id, offset, key) ::
          offset <= maxOffset && (!Deleted(ix, id) ==> id in disk && disk[id] == offset))
    && (maxOffset == 0 || exists e :: e in log && e.offset == maxOffset)
  }

  /** What the compactor keeps is no more than the index has on disk and in memory. */
  lemma CompactedFits(disk: map<nat, nat>, maxOffset: nat, ix: Index, log: Log)
    requires Compacted(disk, maxOffset, ix, log)
    ensures |disk| <= |ix.disk| + |ix.offsets|
  {
    assert disk.Keys <= ix.disk.Keys + ix.offsets.Keys;
    SubsetSize(disk.Keys, ix.disk.Keys + ix.offsets.Keys);
  }

  lemma {:induction false} OnlyTombstonesReplayed(start: Index, log: Log)
    requires forall e | e in log && e.Insert? :: e.offset <= start.maxOffset
    ensures
      var ix := ReplayNew(start, log);
      && ix == start.(tombstones := ix.tombstones)
      && forall id | id in ix.tombstones :: id in start.tombstones || Tombstoned(log, id)
  {
    if log != [] {
      var init, e := log[..|log| - 1], log[|log| - 1];
      AppendMembers(init, e);
      assert log == init + [e];
      OnlyTombstonesReplayed(start, init);
    }
  }

  /** Compaction followed by recovery gives an index that still agrees with the log. */
  lemma CompactionAgrees(ix: Index, log: Log, disk: map<nat, nat>, maxID: nat, maxOffset: nat)
    requires Disciplined(log) && IDsAgree(ix, log) && Compacted(disk, maxOffset, ix, log)
    ensures Agrees(ReplayNew(Opened(disk, maxID, maxOffset), log), log)
  {
    var start := Opened(disk, maxID, maxOffset);
    forall e | e in log && e.Insert? ensures e.offset <= maxOffset {
      assert Inserted(log, e.id, e.offset, e.key);
    }
    OnlyTombstonesReplayed(start, log);
    forall id: nat ensures Deleted(ix, id) <==> !LiveID(log, id) {
      DeletedIsDead(ix, log, id);
    }
    forall id | LiveID(log, id) ensures id in disk {
      var offset: nat, key :| Inserted(log, id, offset, key);
    }
    forall a, b | a in disk && b in disk && KeyAt(log, disk[a]) == KeyAt(log, disk[b]) ensures a == b {
      var k :| Inserted(log, a, disk[a], k);
      var l :| Inserted(log, b, disk[b], l);
      KeyAtInserted(log, a, disk[a], k);
      KeyAtInserted(log, b, disk[b], l);
      OneLiveID(log, a, disk[a], k);
      OneLiveID(log, b, disk[b], l);
    }
  }
}
