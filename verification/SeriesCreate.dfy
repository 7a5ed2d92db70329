/**
 Creating many series under one lock: the log entries are written first and the
 index is told afterwards, so that a key which comes twice is found among the ids
 given out in between. The list is answered as if its keys came one by one.
 */
module SeriesCreate {
  import opened Bytes
  import opened SeriesLog
  import opened SeriesIndex
  import opened SeriesPartition

  /** Each key is created in turn; one that was found under the read lock keeps what was found. */
  ghost predicate Creates(p: Partition, keys: seq<Bytes>, found: seq<nat>, ids: seq<nat>, p': Partition)
    requires |found| == |keys| == |ids|
    decreases |keys|
  {
    if keys == [] then p' == p
    else
      var n := |keys| - 1;
      exists q :: Creates(p, keys[..n], found[..n], ids[..n], q) && CreatesOne(q, keys[n], found[n], ids[n], p')
  }

  ghost predicate CreatesOne(p: Partition, key: Bytes, found: nat, id: nat, p': Partition)
  {
    if found != 0 then p' == p && id == found
    else exists answer: nat, offset: nat ::
           Next(p, Create(key, answer, offset), p') && id == if answer != 0 then answer else p.next
  }

  lemma CreatesNext(p: Partition, keys: seq<Bytes>, found: seq<nat>, ids: seq<nat>, q: Partition, i: nat, id: nat, q': Partition)
    requires |found| == |keys| && i < |keys| && |ids| == i
    requires Creates(p, keys[..i], found[..i], ids, q) && CreatesOne(q, keys[i], found[i], id, q')
    ensures Creates(p, keys[..i + 1], found[..i + 1], ids + [id], q')
  {
    assert keys[..i + 1][..i] == keys[..i] && found[..i + 1][..i] == found[..i] && (ids + [id])[..i] == ids;
  }

  // ----- An index that is behind its log -----

  /** `entries` were written on top of `p` and have not reached its index; `given` has their ids, and `q` is where they lead. */
  ghost predicate Behind(p: Partition, q: Partition, entries: Log, given: map<Bytes, nat>)
  {
    Inv(p) && Inv(q) && Written(p, q, entries) && Given(p.log, q.log, given)
  }

  ghost predicate Written(p: Partition, q: Partition, entries: Log)
  {
    q.log == p.log + entries && q.ix == Replay(p.ix, entries) && forall e | e in entries :: e.Insert?
  }

  ghost predicate Given(before: Log, now: Log, given: map<Bytes, nat>)
  {
    && (forall key :: Lookup(now, key) == if key in given then given[key] else Lookup(before, key))
    && (forall key | key in given :: given[key] != 0)
  }

  lemma {:induction false} KeyAtBehind(log: Log, entries: Log, offset: nat)
    requires forall e | e in entries :: e.offset != offset
    ensures KeyAt(log + entries, offset) == KeyAt(log, offset)
  {
    if entries == [] {
      assert log + entries == log;
    } else {
      var init := entries[..|entries| - 1];
      assert (log + entries)[..|log + entries| - 1] == log + init;
      KeyAtBehind(log, init, offset);
    }
  }

  /** No entry written later is at the offset of a series on disk. */
  lemma DiskIsOlder(p: Partition, q: Partition, entries: Log, given: map<Bytes, nat>, id: nat)
    requires Behind(p, q, entries, given) && id in p.ix.disk
    ensures forall e | e in entries :: e.offset != p.ix.disk[id]
    ensures forall e | MayAppend(q.log, e) :: e.offset != p.ix.disk[id]
  {
    var key :| Inserted(p.log, id, p.ix.disk[id], key);
    DisciplinedAscends(q.log);
    assert Insert(id, p.ix.disk[id], key) in p.log;
    hide Inv, Replay, Given, Disciplined;
    EntriesAreNewer(p.log, entries, Insert(id, p.ix.disk[id], key));
  }

  /** Along an ascending log, what comes later is at larger offsets. */
  lemma EntriesAreNewer(log: Log, entries: Log, x: Entry)
    requires Ascending(log + entries) && x in log
    ensures forall e | e in entries :: e.offset != x.offset
    ensures forall e | MayAppend(log + entries, e) :: e.offset != x.offset
  {
    hide Lookup, Known;
    var all := log + entries;
    var i :| 0 <= i < |log| && log[i] == x;
    assert all[i] == x;
    forall e | e in entries ensures e.offset != x.offset {
      var j :| 0 <= j < |entries| && entries[j] == e;
      assert all[|log| + j] == e;
    }
    assert x in all;
  }

  /** The lookup on the index that is behind answers as on the log before. */
  lemma AnswersBehind(p: Partition, q: Partition, entries: Log, given: map<Bytes, nat>, key: Bytes, r: nat)
    requires Behind(p, q, entries, given) && Answers(p.ix, q.log, key, r)
    ensures r == Lookup(p.log, key)
  {
    forall id: nat | id in p.ix.disk ensures KeyAt(q.log, p.ix.disk[id]) == KeyAt(p.log, p.ix.disk[id]) {
      DiskIsOlder(p, q, entries, given, id);
      KeyAtBehind(p.log, entries, p.ix.disk[id]);
    }
    assert forall id: nat :: OnDisk(p.ix, q.log, key, id) <==> OnDisk(p.ix, p.log, key, id);
    LookupAgrees(p.ix, p.log, key, r);
  }

  /** An index always has an answer, the one that the log gives. */
  lemma AnswersLookup(q: Partition, key: Bytes)
    requires Inv(q)
    ensures Answers(q.ix, q.log, key, Lookup(q.log, key))
  {
    var r: nat := 0;
    if key in q.ix.keys && q.ix.keys[key] != 0 && !Deleted(q.ix, q.ix.keys[key]) {
      r := q.ix.keys[key];
    } else if id: nat :| OnDisk(q.ix, q.log, key, id) {
      r := if Deleted(q.ix, id) then 0 else id;
    }
    LookupAgrees(q.ix, q.log, key, r);
  }

  /** A key that has an id already, on the index or among those given out, gets that id. */
  lemma FoundStep(q: Partition, key: Bytes)
    requires Inv(q) && Lookup(q.log, key) != 0
    ensures CreatesOne(q, key, 0, Lookup(q.log, key), q)
  {
    AnswersLookup(q, key);
    assert Next(q, Create(key, Lookup(q.log, key), 0), q);
  }

  function Inserting(q: Partition, key: Bytes, offset: nat): Partition
  {
    Append(q, Insert(q.next, offset, key)).(next := q.next + PARTITIONS)
  }

  lemma MayInsert(q: Partition, key: Bytes, offset: nat)
    requires Inv(q) && Lookup(q.log, key) == 0 && offset > 0 && OffsetsBelow(q.log, offset)
    ensures MayAppend(q.log, Insert(q.next, offset, key))
  {
  }

  /** A key without an id gets the next one. */
  lemma InsertStep(q: Partition, key: Bytes, offset: nat)
    requires Inv(q) && Lookup(q.log, key) == 0 && offset > 0 && OffsetsBelow(q.log, offset)
    ensures Inv(Inserting(q, key, offset)) && CreatesOne(q, key, 0, q.next, Inserting(q, key, offset))
  {
    hide Inv, Answers, Exec;
    AnswersLookup(q, key);
    var op := Create(key, 0, offset);
    assert Next(q, op, Inserting(q, key, offset));
    StepKeeps(q, op, Inserting(q, key, offset));
  }

  lemma InsertGives(before: Log, log: Log, given: map<Bytes, nat>, e: Entry)
    requires Disciplined(log) && Given(before, log, given)
    requires e.Insert? && e.id > 0 && forall x | x in log && x.Insert? :: x.id < e.id
    ensures Given(before, log + [e], given[e.key := e.id])
  {
    var given' := given[e.key := e.id];
    forall k ensures Lookup(log + [e], k) == if k in given' then given'[k] else Lookup(before, k) {
      InsertBinds(log, e, k);
    }
  }

  lemma InsertWrites(p: Partition, q: Partition, entries: Log, key: Bytes, offset: nat)
    requires Written(p, q, entries)
    ensures Written(p, Inserting(q, key, offset), entries + [Insert(q.next, offset, key)])
  {
    hide Exec;
    var e := Insert(q.next, offset, key);
    assert (entries + [e])[..|entries|] == entries;
    assert p.log + (entries + [e]) == q.log + [e];
  }

  lemma InsertFallsBehind(p: Partition, q: Partition, entries: Log, given: map<Bytes, nat>, key: Bytes, offset: nat)
    requires Behind(p, q, entries, given) && Lookup(q.log, key) == 0 && offset > 0 && OffsetsBelow(q.log, offset)
    ensures Behind(p, Inserting(q, key, offset), entries + [Insert(q.next, offset, key)], given[key := q.next])
  {
    InsertStep(q, key, offset);
    InsertWrites(p, q, entries, key, offset);
    InsertGives(p.log, q.log, given, Insert(q.next, offset, key));
    hide Inv, Written, Given;
  }

  lemma ValidGrows(index: SeriesIndex, log: Log, e: Entry)
    requires index.Valid(log) && forall id | id in index.disk :: index.disk[id] != e.offset
    ensures index.Valid(log + [e])
  {
    HoldsGrows(index.keyIDData, index.hashKey, log, e, index.disk);
    AppendReads(log, e);
  }

  /** A key of `given` or of the index before has that id on the log as it is now. */
  lemma BehindLookup(p: Partition, q: Partition, entries: Log, given: map<Bytes, nat>, key: Bytes)
    requires Behind(p, q, entries, given)
    ensures Inv(q) && Lookup(q.log, key) == if key in given then given[key] else Lookup(p.log, key)
    ensures key in given ==> given[key] != 0
  {
  }

  lemma BehindStart(p: Partition)
    requires Inv(p)
    ensures Behind(p, p, [], map[])
  {
    assert p.log + [] == p.log;
  }

  lemma CreatesNone(p: Partition, keys: seq<Bytes>, found: seq<nat>)
    requires |found| == |keys|
    ensures Creates(p, keys[..0], found[..0], [], p)
  {
  }

  lemma KeptStep(q: Partition, key: Bytes, found: nat)
    requires found != 0
    ensures CreatesOne(q, key, found, found, q)
  {
  }

  /** Writing an entry leaves the mapped tables of the index valid. */
  lemma WriteKeepsValid(index: SeriesIndex, p: Partition, q: Partition, entries: Log,
                        given: map<Bytes, nat>, key: Bytes, offset: nat)
    requires Behind(p, q, entries, given) && index.View() == p.ix && index.Valid(q.log)
    requires Lookup(q.log, key) == 0 && offset > 0 && OffsetsBelow(q.log, offset)
    ensures index.Valid(q.log + [Insert(q.next, offset, key)])
  {
    var e := Insert(q.next, offset, key);
    MayInsert(q, key, offset);
    forall id | id in index.disk ensures index.disk[id] != e.offset {
      DiskIsOlder(p, q, entries, given, id);
    }
    ValidGrows(index, q.log, e);
  }

  /** Adds the new series to the index, with the keys as they are read back from the log. */
  method TellIndex(index: SeriesIndex, log: Log, entries: Log,
                   ghost p: Partition, ghost q: Partition, ghost given: map<Bytes, nat>)
    requires Behind(p, q, entries, given) && q.log == log && index.View() == p.ix && index.Valid(log)
    modifies index
    ensures index.View() == q.ix && index.Valid(log)
  {
    hide Inv;
    for i := 0 to |entries|
      invariant index.View() == Replay(p.ix, entries[..i]) && index.Valid(log)
    {
      var e := entries[i];
      ReadsBack(p, q, entries, given, i);
      assert entries[..i + 1][..i] == entries[..i];
      index.ExecEntry(Insert(e.id, e.offset, KeyAt(log, e.offset)));
    }
    assert entries[..|entries|] == entries;
  }

  lemma ReadsBack(p: Partition, q: Partition, entries: Log, given: map<Bytes, nat>, i: nat)
    requires Behind(p, q, entries, given) && i < |entries|
    ensures entries[i].Insert? && KeyAt(q.log, entries[i].offset) == entries[i].key
  {
    var e := entries[i];
    assert e in entries && q.log[|p.log| + i] == e;
    assert Inserted(q.log, e.id, e.offset, e.key);
    KeyAtInserted(q.log, e.id, e.offset, e.key);
  }

  /**
   Looks the keys up and writes the missing ones to the log, at the offsets that
   the segments give. The index is told at the end, with the keys as they are read
   back from the log.
   */
  method CreateSeriesList(index: SeriesIndex, log: Log, next: nat, keys: seq<Bytes>,
                          found: seq<nat>, offsets: seq<nat>, ghost p: Partition)
    returns (ids: seq<nat>, log': Log, next': nat, ghost p': Partition)
    requires |found| == |keys| == |offsets|
    requires Inv(p) && p.log == log && p.next == next && index.View() == p.ix && index.Valid(log)
    requires forall i | 0 <= i < |offsets| :: offsets[i] > 0 && OffsetsBelow(log, offsets[i])
    requires forall i, j | 0 <= i < j < |offsets| :: offsets[i] < offsets[j]
    modifies index
    ensures |ids| == |keys| && Creates(p, keys, found, ids, p') && Inv(p')
    ensures log' == p'.log && next' == p'.next && index.View() == p'.ix && index.Valid(log')
  {
    hide Inv, Behind, Creates, CreatesOne, Answers, Lookup, MayAppend;
    ids, log', next', p' := [], log, next, p;
    var given: map<Bytes, nat> := map[];
    var entries: Log := [];
    BehindStart(p);
    CreatesNone(p, keys, found);
    for i := 0 to |keys|
      invariant |ids| == i && Creates(p, keys[..i], found[..i], ids, p') && Behind(p, p', entries, given)
      invariant log' == p'.log && next' == p'.next && index.View() == p.ix && index.Valid(log')
      invariant forall j | i <= j < |offsets| :: OffsetsBelow(log', offsets[j])
    {
      var key := keys[i];
      BehindLookup(p, p', entries, given, key);
      if found[i] != 0 {
        KeptStep(p', key, found[i]);
        CreatesNext(p, keys, found, ids, p', i, found[i], p');
        ids := ids + [found[i]];
        continue;
      }
      var id := if key in given then given[key] else 0;
      if id == 0 {
        id := index.FindIDBySeriesKey(log', key);
        AnswersBehind(p, p', entries, given, key, id);
      }
      if id != 0 {
        FoundStep(p', key);
        CreatesNext(p, keys, found, ids, p', i, id, p');
        ids := ids + [id];
        continue;
      }
      var e := Insert(next', offsets[i], key);
      WriteKeepsValid(index, p, p', entries, given, key, offsets[i]);
      InsertStep(p', key, offsets[i]);
      InsertFallsBehind(p, p', entries, given, key, offsets[i]);
      CreatesNext(p, keys, found, ids, p', i, next', Inserting(p', key, offsets[i]));
      ids, entries, given := ids + [next'], entries + [e], given[key := next'];
      log', next', p' := log' + [e], next' + PARTITIONS, Inserting(p', key, offsets[i]);
    }
    assert keys[..|keys|] == keys && found[..|keys|] == found;
    BehindLookup(p, p', entries, given, []);
    TellIndex(index, log', entries, p, p', given);
  }

  // ----- What a list of creates gives -----

  lemma CreatesOneBinds(p: Partition, key: Bytes, id: nat, p': Partition)
    requires Inv(p) && CreatesOne(p, key, 0, id, p')
    ensures Inv(p') && id != 0 && Lookup(p'.log, key) == id
    ensures forall k | Lookup(p.log, k) != 0 :: Lookup(p'.log, k) == Lookup(p.log, k)
  {
    var answer: nat, offset: nat :| Next(p, Create(key, answer, offset), p') && id == if answer != 0 then answer else p.next;
    var op := Create(key, answer, offset);
    StepKeeps(p, op, p');
    assert p.next > 0;
    CreateRefinesMap(p, op, p', key);
    hide Inv, Next;
    forall k | Lookup(p.log, k) != 0 ensures Lookup(p'.log, k) == Lookup(p.log, k) {
      CreateRefinesMap(p, op, p', k);
    }
  }

  /**
   Afterwards every key of the list has the id it was answered with, if it was not
   found before or what was found was still its id when the lock was taken. So keys
   which come twice share one id, and no key that had an id has lost it.
   */
  lemma {:induction false} ListIsBound(p: Partition, keys: seq<Bytes>, found: seq<nat>, ids: seq<nat>, p': Partition)
    requires |found| == |keys| == |ids| && Inv(p) && Creates(p, keys, found, ids, p')
    ensures Inv(p')
    ensures forall i | 0 <= i < |keys| && (found[i] == 0 || found[i] == Lookup(p.log, keys[i])) ::
              ids[i] != 0 && Lookup(p'.log, keys[i]) == ids[i]
    ensures forall k | Lookup(p.log, k) != 0 :: Lookup(p'.log, k) == Lookup(p.log, k)
    decreases |keys|
  {
    hide Inv, CreatesOne, Lookup;
    if keys != [] {
      var n := |keys| - 1;
      var q :| Creates(p, keys[..n], found[..n], ids[..n], q) && CreatesOne(q, keys[n], found[n], ids[n], p');
      ListIsBound(p, keys[..n], found[..n], ids[..n], q);
      assert forall i | 0 <= i < n :: keys[..n][i] == keys[i] && found[..n][i] == found[i] && ids[..n][i] == ids[i];
      if found[n] == 0 {
        CreatesOneBinds(q, keys[n], ids[n], p');
      } else {
        KeptIsSame(q, keys[n], found[n], ids[n], p');
      }
    }
  }

  lemma KeptIsSame(q: Partition, key: Bytes, found: nat, id: nat, q': Partition)
    requires found != 0 && CreatesOne(q, key, found, id, q')
    ensures q' == q && id == found
  {
  }
}
