/**
 A series partition over its whole life: series are created and deleted, the
 index is compacted while writes continue, and the process may stop and reopen
 at any point. Every history leaves the partition a plain map from keys to ids.
 */
module SeriesPartition {
  import opened Bytes
  import opened Collections
  import opened SeriesLog

  /** The number of partitions a series file is split into: the stride between ids. */
  const PARTITIONS := 8

  datatype Snapshot = NoSnapshot | Snapshot(ix: Index, log: Log, seriesN: nat)

  /**
   `file` is the index as the mapped file alone would open and `count` the number
   of series in its header, `next` the next id to assign, and `snapshot` what a
   running compaction took when it began.
   */
  datatype Partition = Partition(log: Log, ix: Index, file: Index, count: nat, first: nat, next: nat, snapshot: Snapshot)

  datatype Op =
    | Create(key: Bytes, answer: nat, offset: nat)
    | Delete(id: nat, offset: nat)
    | BeginCompaction
    | EndCompaction(disk: map<nat, nat>, maxID: nat, maxOffset: nat)
    | Reopen(segments: seq<Log>)

  function MaxID(log: Log): nat
  {
    if log == [] then 0
    else
      var e, rest := log[|log| - 1], MaxID(log[..|log| - 1]);
      if e.Insert? && e.id > rest then e.id else rest
  }

  /** The next id to assign when the partition opens: after the last segment, searching backwards, that has reached `first`. */
  function SeqFound(segments: seq<Log>, first: nat, n: nat): nat
    requires n <= |segments|
  {
    if n == 0 then first
    else if MaxID(segments[n - 1]) >= first then MaxID(segments[n - 1]) + PARTITIONS
    else SeqFound(segments, first, n - 1)
  }

  function Append(p: Partition, e: Entry): Partition
  {
    p.(log := p.log + [e], ix := Exec(p.ix, e))
  }

  ghost predicate Init(p: Partition)
  {
    p.first > 0 && p == Partition([], Opened(map[], 0, 0), Opened(map[], 0, 0), 0, p.first, p.first, NoSnapshot)
  }

  ghost predicate Next(p: Partition, op: Op, p': Partition)
  {
    match op
    case Create(key, answer, offset) =>
      // The answer is the index's; a miss writes a log entry with the next id.
      && Answers(p.ix, p.log, key, answer)
      && (if answer != 0 then p' == p
          else offset > 0 && OffsetsBelow(p.log, offset) &&
               p' == Append(p, Insert(p.next, offset, key)).(next := p.next + PARTITIONS))
    case Delete(id, offset) =>
      if Deleted(p.ix, id) then p' == p
      else offset > 0 && OffsetsBelow(p.log, offset) && p' == Append(p, Tombstone(id, offset))
    case BeginCompaction =>
      // The clone carries the maps of ids, not the map of keys.
      p.snapshot.NoSnapshot? && p' == p.(snapshot := Snapshot(p.ix.(keys := map[]), p.log, p.count + |p.ix.offsets|))
    case EndCompaction(disk, maxID, maxOffset) =>
      && p.snapshot.Snapshot?
      && Compacted(disk, maxOffset, p.snapshot.ix, p.snapshot.log)
      && var file := Opened(disk, maxID, maxOffset);
      p' == p.(file := file, count := p.snapshot.seriesN, ix := ReplayNew(file, p.log), snapshot := NoSnapshot)
    case Reopen(segments) =>
      && Flatten(segments) == p.log
      && p' == p.(ix := ReplayNew(p.file, p.log), next := SeqFound(segments, p.first, |segments|), snapshot := NoSnapshot)
  }

  // ----- What every operation keeps -----

  ghost predicate Fits(file: Index, log: Log)
  {
    && file == Opened(file.disk, file.maxID, file.maxOffset)
    && (file.maxOffset == 0 || exists e :: e in log && e.offset == file.maxOffset)
  }

  ghost predicate SnapshotFits(p: Partition)
  {
    p.snapshot.Snapshot? ==>
      && p.snapshot.log <= p.log
      && IDsAgree(p.snapshot.ix, p.snapshot.log)
      && |p.snapshot.ix.disk| + |p.snapshot.ix.offsets| <= p.snapshot.seriesN
  }

  /** The ids of inserts grow along the log, from `first` on. */
  ghost predicate Numbered(log: Log, first: nat)
  {
    && (forall i | 0 <= i < |log| && log[i].Insert? :: first <= log[i].id)
    && (forall i, j | 0 <= i < j < |log| && log[i].Insert? && log[j].Insert? :: log[i].id < log[j].id)
  }

  /** The index is what the file and the log give, and agrees with the log. */
  ghost predicate Indexed(p: Partition)
  {
    Disciplined(p.log) && Agrees(p.ix, p.log) && Fits(p.file, p.log) && p.ix == ReplayNew(p.file, p.log)
  }

  ghost predicate Assigned(p: Partition)
  {
    0 < p.first <= p.next && (forall e | e in p.log && e.Insert? :: e.id < p.next) && Numbered(p.log, p.first)
  }

  ghost predicate Inv(p: Partition)
  {
    Indexed(p) && Assigned(p) && |p.file.disk| <= p.count && SnapshotFits(p)
  }

  lemma {:induction false} MaxIDAppend(a: Log, b: Log)
    ensures MaxID(a + b) == if MaxID(a) > MaxID(b) then MaxID(a) else MaxID(b)
    decreases |b|
  {
    if b == [] {
      assert a + b == a;
    } else {
      assert (a + b)[..|a + b| - 1] == a + b[..|b| - 1];
      MaxIDAppend(a, b[..|b| - 1]);
    }
  }

  lemma {:induction false} MaxIDBounds(log: Log)
    ensures forall e | e in log && e.Insert? :: e.id <= MaxID(log)
    ensures MaxID(log) == 0 || exists i | 0 <= i < |log| :: log[i].Insert? && log[i].id == MaxID(log)
  {
    if log != [] {
      MaxIDBounds(log[..|log| - 1]);
      assert log == log[..|log| - 1] + [log[|log| - 1]];
    }
  }

  /** Since ids grow along the log, the backward search finds the largest id of all. */
  lemma {:induction false} SeqFoundIsLast(segments: seq<Log>, first: nat, n: nat)
    requires n <= |segments| && first > 0 && Numbered(Flatten(segments[..n]), first)
    ensures
      var max := MaxID(Flatten(segments[..n]));
      SeqFound(segments, first, n) == if max >= first then max + PARTITIONS else first
  {
    if n > 0 {
      var before, last := Flatten(segments[..n - 1]), segments[n - 1];
      assert segments[..n] == segments[..n - 1] + [last];
      FlattenAppend(segments[..n - 1], last);
      LastSegmentRules(before, last, first);
      hide Numbered, MaxID, Flatten;
      SeqFoundIsLast(segments, first, n - 1);
      MaxIDAppend(before, last);
    }
  }

  /** A segment with an insert has the largest id so far; one without has none. */
  lemma LastSegmentRules(before: Log, last: Log, first: nat)
    requires Numbered(before + last, first) && first > 0
    ensures Numbered(before, first)
    ensures if MaxID(last) >= first then MaxID(before) <= MaxID(last) else MaxID(last) == 0
  {
    var all := before + last;
    assert forall i | 0 <= i < |before| :: all[i] == before[i];
    assert forall i | 0 <= i < |last| :: all[|before| + i] == last[i];
    MaxIDBounds(before);
    MaxIDBounds(last);
    hide MaxID;
    if MaxID(last) != 0 {
      var j :| 0 <= j < |last| && last[j].Insert? && last[j].id == MaxID(last);
      assert all[|before| + j].id >= first;
      if MaxID(before) != 0 {
        var i :| 0 <= i < |before| && before[i].Insert? && before[i].id == MaxID(before);
        assert all[i].id < all[|before| + j].id;
      }
    }
  }

  lemma {:induction false} ReplayKeepsDisk(start: Index, log: Log)
    ensures ReplayNew(start, log).disk == start.disk
  {
    if log != [] {
      ReplayKeepsDisk(start, log[..|log| - 1]);
    }
  }

  lemma AppendDisciplined(log: Log, e: Entry)
    requires Disciplined(log) && MayAppend(log, e)
    ensures Disciplined(log + [e])
  {
    assert (log + [e])[..|log|] == log;
  }

  lemma AppendIndexed(p: Partition, e: Entry)
    requires Indexed(p) && MayAppend(p.log, e)
    ensures Indexed(Append(p, e))
  {
    AppendDisciplined(p.log, e);
    ExecAgrees(p.ix, p.log, e);
    AppendMembers(p.log, e);
    assert p.file.maxOffset < e.offset;
    ReplayNewAppend(p.file, p.log, e);
  }

  lemma AppendAssigned(p: Partition, e: Entry, next': nat)
    requires Assigned(p) && p.next <= next' && (e.Insert? ==> p.next == e.id < next')
    ensures Assigned(Append(p, e).(next := next'))
  {
    assert forall i | 0 <= i < |p.log| :: p.log[i] in p.log;
  }

  lemma AppendKeeps(p: Partition, e: Entry, next': nat)
    requires Inv(p) && MayAppend(p.log, e) && p.next <= next' && (e.Insert? ==> p.next == e.id < next')
    ensures Inv(Append(p, e).(next := next'))
  {
    AppendIndexed(p, e);
    AppendAssigned(p, e, next');
    IndexedAnyway(Append(p, e), Append(p, e).(next := next'));
    hide Indexed, Assigned, MayAppend, Exec, IDsAgree;
    assert p.log <= p.log + [e];
  }

  /** Whether an index fits has nothing to do with ids and snapshots. */
  lemma IndexedAnyway(p: Partition, q: Partition)
    requires Indexed(p) && q.log == p.log && q.ix == p.ix && q.file == p.file
    ensures Indexed(q)
  {
  }

  lemma AssignedAnyway(p: Partition, q: Partition)
    requires Assigned(p) && q.log == p.log && q.first == p.first && q.next == p.next
    ensures Assigned(q)
  {
  }

  lemma FileEndsBefore(file: Index, log: Log, n: nat, e: Entry)
    requires n <= |log| && Fits(file, log[..n]) && MayAppend(log, e)
    ensures file.maxOffset < e.offset && OffsetsBelow(log, e.offset)
  {
    if file.maxOffset != 0 {
      var x :| x in log[..n] && x.offset == file.maxOffset;
      assert x in log;
    }
  }

  /** The index replayed over a prefix agrees with it, hence so does the one replayed over the whole log. */
  lemma {:induction false} ReplayRestAgrees(file: Index, log: Log, n: nat)
    requires Disciplined(log) && n <= |log| && Fits(file, log[..n])
    requires Agrees(ReplayNew(file, log[..n]), log[..n])
    ensures Agrees(ReplayNew(file, log), log)
    decreases |log|
  {
    if n == |log| {
      assert log[..n] == log;
    } else {
      LogSplit(log);
      hide Disciplined, Agrees, ReplayNew, Exec;
      var init, e := log[..|log| - 1], log[|log| - 1];
      assert init[..n] == log[..n];
      ReplayRestAgrees(file, init, n);
      ExecAgrees(ReplayNew(file, init), init, e);
      FileEndsBefore(file, init, n, e);
      ReplayNewAppend(file, init, e);
    }
  }

  lemma CreateKeeps(p: Partition, op: Op, p': Partition)
    requires Inv(p) && op.Create? && Next(p, op, p')
    ensures Inv(p')
  {
    LookupAgrees(p.ix, p.log, op.key, op.answer);
    if op.answer == 0 {
      AppendKeeps(p, Insert(p.next, op.offset, op.key), p.next + PARTITIONS);
    }
  }

  lemma DeleteKeeps(p: Partition, op: Op, p': Partition)
    requires Inv(p) && op.Delete? && Next(p, op, p')
    ensures Inv(p')
  {
    DeletedIsDead(p.ix, p.log, op.id);
    if !Deleted(p.ix, op.id) {
      var offset: nat, key :| Inserted(p.log, op.id, offset, key);
      InsertsAreUnique(p.log, Insert(op.id, offset, key), Insert(op.id, offset, key));
      AppendKeeps(p, Tombstone(op.id, op.offset), p.next);
    }
  }

  /** The file of a compaction, with the log replayed that it did not see, agrees with the whole log. */
  lemma SwapAgrees(sn: Snapshot, log: Log, disk: map<nat, nat>, maxID: nat, maxOffset: nat)
    requires sn.Snapshot? && sn.log <= log && Disciplined(log) && IDsAgree(sn.ix, sn.log)
    requires Compacted(disk, maxOffset, sn.ix, sn.log)
    ensures
      var file := Opened(disk, maxID, maxOffset);
      Fits(file, log) && Agrees(ReplayNew(file, log), log)
  {
    var n := |sn.log|;
    var file := Opened(disk, maxID, maxOffset);
    assert log[..n] == sn.log;
    PrefixDisciplined(log, n);
    CompactionAgrees(sn.ix, sn.log, disk, maxID, maxOffset);
    hide Disciplined, Agrees, IDsAgree, ReplayNew;
    assert forall x | x in sn.log :: x in log;
    ReplayRestAgrees(file, log, n);
  }

  lemma EndCompactionIndexed(p: Partition, op: Op, p': Partition)
    requires Indexed(p) && SnapshotFits(p) && op.EndCompaction? && Next(p, op, p')
    ensures Indexed(p') && |p'.file.disk| <= p'.count
  {
    hide Disciplined, Agrees, IDsAgree, ReplayNew, Compacted, Fits;
    CompactedFits(op.disk, op.maxOffset, p.snapshot.ix, p.snapshot.log);
    SwapAgrees(p.snapshot, p.log, op.disk, op.maxID, op.maxOffset);
  }

  lemma EndCompactionKeeps(p: Partition, op: Op, p': Partition)
    requires Inv(p) && op.EndCompaction? && Next(p, op, p')
    ensures Inv(p')
  {
    hide Indexed, Assigned, Compacted, ReplayNew, IDsAgree;
    EndCompactionIndexed(p, op, p');
    AssignedAnyway(p, p');
  }

  lemma ReopenKeeps(p: Partition, op: Op, p': Partition)
    requires Inv(p) && op.Reopen? && Next(p, op, p')
    ensures Inv(p')
  {
    IndexedAnyway(p, p');
    hide Indexed;
    assert op.segments[..|op.segments|] == op.segments;
    SeqFoundIsLast(op.segments, p.first, |op.segments|);
    MaxIDBounds(p.log);
  }

  lemma BeginCompactionKeeps(p: Partition, op: Op, p': Partition)
    requires Inv(p) && op.BeginCompaction? && Next(p, op, p')
    ensures Inv(p')
  {
    ReplayKeepsDisk(p.file, p.log);
    IndexedAnyway(p, p');
    AssignedAnyway(p, p');
    SnapshotAgrees(p.ix, p.log);
    hide Agrees, Disciplined, Assigned;
  }

  lemma SnapshotAgrees(ix: Index, log: Log)
    requires Agrees(ix, log)
    ensures IDsAgree(ix.(keys := map[]), log)
  {
  }

  lemma StepKeeps(p: Partition, op: Op, p': Partition)
    requires Inv(p) && Next(p, op, p')
    ensures Inv(p')
  {
    match op
    case Create(_, _, _) => CreateKeeps(p, op, p');
    case Delete(_, _) => DeleteKeeps(p, op, p');
    case BeginCompaction => BeginCompactionKeeps(p, op, p');
    case EndCompaction(_, _, _) => EndCompactionKeeps(p, op, p');
    case Reopen(_) => ReopenKeeps(p, op, p');
  }

  // ----- Histories -----

  ghost predicate History(ps: seq<Partition>, ops: seq<Op>)
  {
    && |ps| == |ops| + 1 && Init(ps[0])
    && forall i | 0 <= i < |ops| :: Next(ps[i], ops[i], ps[i + 1])
  }

  lemma {:induction false} HistoryKeeps(ps: seq<Partition>, ops: seq<Op>, n: nat)
    requires History(ps, ops) && n <= |ops|
    ensures Inv(ps[n])
  {
    if n == 0 {
      InitHolds(ps[0]);
    } else {
      hide Inv, Next, Init;
      HistoryKeeps(ps, ops, n - 1);
      StepKeeps(ps[n - 1], ops[n - 1], ps[n]);
    }
  }

  lemma InitHolds(p: Partition)
    requires Init(p)
    ensures Inv(p)
  {
  }

  /** In every history, a compaction has counted at least the series that it can meet, so its tables do not overfill. */
  lemma CompactionNeverOverfills(ps: seq<Partition>, ops: seq<Op>, n: nat)
    requires History(ps, ops) && n < |ops| && ops[n].EndCompaction?
    ensures
      var sn := ps[n].snapshot;
      && Next(ps[n], ops[n], ps[n + 1]) && sn.Snapshot? && |sn.ix.disk| + |sn.ix.offsets| <= sn.seriesN
      && |ops[n].disk| <= sn.seriesN == ps[n + 1].count
  {
    HistoryKeeps(ps, ops, n);
    assert Next(ps[n], ops[n], ps[n + 1]);
    CompactedFits(ops[n].disk, ops[n].maxOffset, ps[n].snapshot.ix, ps[n].snapshot.log);
  }

  // ----- The ids -----

  /** Ids are eight apart, so that the remainder tells the partition. */
  ghost predicate Strided(p: Partition)
  {
    && (p.next - p.first) % 8 == 0
    && forall e | e in p.log && e.Insert? :: (e.id - p.first) % 8 == 0
  }

  lemma StridedFrom(id: nat, first: nat)
    requires (id - first) % 8 == 0
    ensures (id + 8 - first) % 8 == 0
  {
  }

  lemma CreateStrides(p: Partition, op: Op, p': Partition)
    requires Strided(p) && op.Create? && Next(p, op, p')
    ensures Strided(p') && p'.first == p.first
  {
    hide Exec, Answers, OffsetsBelow;
    StridedFrom(p.next, p.first);
  }

  lemma MaxIDIsInsert(log: Log)
    requires MaxID(log) > 0
    ensures exists e | e in log :: e.Insert? && e.id == MaxID(log)
  {
    MaxIDBounds(log);
    hide MaxID;
    var i :| 0 <= i < |log| && log[i].Insert? && log[i].id == MaxID(log);
    assert log[i] in log;
  }

  lemma ReopenStrides(p: Partition, op: Op, p': Partition)
    requires p.first > 0 && Numbered(p.log, p.first) && Strided(p) && op.Reopen? && Next(p, op, p')
    ensures Strided(p') && p'.first == p.first
  {
    hide ReplayNew, Flatten, SeqFound, MaxID, Numbered;
    assert op.segments[..|op.segments|] == op.segments;
    SeqFoundIsLast(op.segments, p.first, |op.segments|);
    if MaxID(p.log) >= p.first {
      MaxIDIsInsert(p.log);
      StridedFrom(MaxID(p.log), p.first);
    }
  }

  lemma StepStrides(p: Partition, op: Op, p': Partition)
    requires p.first > 0 && Numbered(p.log, p.first) && Strided(p) && Next(p, op, p')
    ensures Strided(p') && p'.first == p.first
  {
    match op
    case Create(_, _, _) => CreateStrides(p, op, p');
    case Reopen(_) => ReopenStrides(p, op, p');
    case _ => hide Exec, ReplayNew, Compacted;
  }

  lemma SameRemainder(id: nat, first: nat)
    requires (id - first) % 8 == 0
    ensures (id - 1) % 8 == (first - 1) % 8
  {
  }

  lemma NumberedFrom(log: Log, first: nat, e: Entry)
    requires Numbered(log, first) && e in log && e.Insert?
    ensures e.id >= first
  {
    var i :| 0 <= i < |log| && log[i] == e;
  }

  lemma StridedIDs(p: Partition)
    requires p.first > 0 && Numbered(p.log, p.first) && Strided(p)
    ensures forall e | e in p.log && e.Insert? :: e.id >= p.first && (e.id - 1) % 8 == (p.first - 1) % 8
    ensures (p.next - 1) % 8 == (p.first - 1) % 8
  {
    hide Numbered;
    SameRemainder(p.next, p.first);
    forall e | e in p.log && e.Insert? ensures e.id >= p.first && (e.id - 1) % 8 == (p.first - 1) % 8 {
      NumberedFrom(p.log, p.first, e);
      SameRemainder(e.id, p.first);
    }
  }

  lemma InvNumbers(p: Partition)
    requires Inv(p)
    ensures p.first > 0 && Numbered(p.log, p.first)
  {
  }

  lemma {:induction false} HistoryStrides(ps: seq<Partition>, ops: seq<Op>, n: nat)
    requires History(ps, ops) && n <= |ops|
    ensures ps[n].first == ps[0].first && Strided(ps[n])
  {
    if n > 0 {
      hide Next, Inv, Numbered, Strided, Init;
      HistoryStrides(ps, ops, n - 1);
      HistoryKeeps(ps, ops, n - 1);
      InvNumbers(ps[n - 1]);
      StepStrides(ps[n - 1], ops[n - 1], ps[n]);
    }
  }

  /**
   In every history the ids of series, and the next one, lead back to the partition
   whose first id they started from, across compactions and reopenings.
   */
  lemma HistoryIDs(ps: seq<Partition>, ops: seq<Op>, n: nat)
    requires History(ps, ops) && n <= |ops|
    ensures forall e | e in ps[n].log && e.Insert? :: e.id >= ps[0].first > 0 && (e.id - 1) % 8 == (ps[0].first - 1) % 8
    ensures (ps[n].next - 1) % 8 == (ps[0].first - 1) % 8
  {
    hide Next, Init, Inv, Numbered, Strided;
    HistoryKeeps(ps, ops, n);
    InvNumbers(ps[n]);
    HistoryStrides(ps, ops, n);
    StridedIDs(ps[n]);
  }

  /** What a plain map from keys to ids would hold for `key` after an operation. */
  ghost function Expected(p: Partition, op: Op, key: Bytes): nat
  {
    var before := Lookup(p.log, key);
    match op
    case Create(k, _, _) => if key == k && before == 0 then p.next else before
    case Delete(id, _) => if before == id then 0 else before
    case _ => before
  }

  /** Appending the insert of a new id binds its key and no other. */
  lemma InsertBinds(log: Log, e: Entry, key: Bytes)
    requires Disciplined(log) && e.Insert? && forall x | x in log && x.Insert? :: x.id < e.id
    ensures Lookup(log + [e], key) == if key == e.key then e.id else Lookup(log, key)
  {
    AppendMembers(log, e);
    AppendReads(log, e);
    if LastID(log, key) != 0 {
      LastIDInserted(log, key);
    }
    if Tombstoned(log, e.id) {
      TombstonedIsKnown(log, e.id);
    }
    assert Inserted(log + [e], e.id, e.offset, e.key);
  }

  lemma CreateRefinesMap(p: Partition, op: Op, p': Partition, key: Bytes)
    requires Inv(p) && op.Create? && Next(p, op, p')
    ensures op.answer == Lookup(p.log, op.key)
    ensures Lookup(p'.log, key) == Expected(p, op, key)
  {
    LookupAgrees(p.ix, p.log, op.key, op.answer);
    if op.answer == 0 {
      InsertBinds(p.log, Insert(p.next, op.offset, op.key), key);
    }
  }

  lemma DeleteRefinesMap(p: Partition, op: Op, p': Partition, key: Bytes)
    requires Inv(p) && op.Delete? && Next(p, op, p')
    ensures Lookup(p'.log, key) == Expected(p, op, key)
  {
    DeletedIsDead(p.ix, p.log, op.id);
    if !Deleted(p.ix, op.id) {
      AppendMembers(p.log, Tombstone(op.id, op.offset));
      AppendReads(p.log, Tombstone(op.id, op.offset));
    }
  }

  /**
   Over every history, each operation does to the answers what it would do to a
   plain map: a create answers with the key's live id or binds the next one, a
   delete unbinds, and compaction and reopening change nothing.
   */
  lemma HistoryIsAMap(ps: seq<Partition>, ops: seq<Op>, n: nat, key: Bytes, answer: nat)
    requires History(ps, ops) && n < |ops| && Answers(ps[n + 1].ix, ps[n + 1].log, key, answer)
    ensures answer == Expected(ps[n], ops[n], key)
    ensures ops[n].Create? ==> ops[n].answer == Lookup(ps[n].log, ops[n].key)
  {
    HistoryKeeps(ps, ops, n);
    HistoryKeeps(ps, ops, n + 1);
    LookupAgrees(ps[n + 1].ix, ps[n + 1].log, key, answer);
    match ops[n]
    case Create(_, _, _) => CreateRefinesMap(ps[n], ops[n], ps[n + 1], key);
    case Delete(_, _) => DeleteRefinesMap(ps[n], ops[n], ps[n + 1], key);
    case _ =>
  }
}
