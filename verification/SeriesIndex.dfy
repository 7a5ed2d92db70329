/**
 The series index object: in-memory maps and tombstones over two memory-mapped
 Robin Hood tables, with the lookups that probe them and the recovery that
 replays the log.
 */
module SeriesIndex {
  import opened Collections
  import opened Bytes
  import opened SeriesLog
  import opened RobinHood

  /** A table element; the all-zero element is an empty slot. */
  datatype Elem = Elem(offset: nat, id: nat)

  function Slots(hash: Elem -> nat): Layout<Elem>
  {
    Layout((e: Elem) => e.offset != 0, hash)
  }

  /** The key/id table hashes the key that the segments hold at the element's offset. */
  function ByKey(log: Log, hashKey: Bytes -> nat): Elem -> nat
  {
    (e: Elem) => hashKey(KeyAt(log, e.offset))
  }

  /** The id/offset table hashes the id. */
  function ByID(hashID: nat -> nat): Elem -> nat
  {
    (e: Elem) => hashID(e.id)
  }

  /** A table whose elements are exactly the pairs of `disk`, each found by its own probe. */
  ghost predicate Holds(s: seq<Elem>, hash: Elem -> nat, disk: map<nat, nat>)
  {
    && Reachable(s, Slots(hash)) && NoRepeats(s, Slots(hash))
    && (forall e | e in s && e.offset != 0 :: e.id in disk && disk[e.id] == e.offset)
    && (forall id | id in disk :: id != 0 && disk[id] != 0 && Elem(disk[id], id) in s)
    && (forall e | e in s :: e.offset == 0 <==> e.id == 0)
  }

  /** A segment file: its id and its entries, each at an offset `id << 32 | pos`. */
  datatype Segment = Segment(id: nat, entries: Log)

  const SEGMENT_SPAN := 0x1_0000_0000

  function SegmentOf(offset: nat): nat
  {
    (offset / SEGMENT_SPAN) % 0x1_0000
  }

  lemma EarlierSegment(offset: nat, max: nat)
    requires offset / SEGMENT_SPAN < SegmentOf(max)
    ensures offset <= max
  {
  }

  ghost predicate WellPlaced(segment: Segment)
  {
    forall e | e in segment.entries :: e.offset / SEGMENT_SPAN == segment.id
  }

  function Logs(segments: seq<Segment>): (r: seq<Log>)
    ensures |r| == |segments| && forall i | 0 <= i < |r| :: r[i] == segments[i].entries
  {
    seq(|segments|, i requires 0 <= i < |segments| => segments[i].entries)
  }

  /** All entries of the segments, in order. */
  function Entries(segments: seq<Segment>): Log
  {
    Flatten(Logs(segments))
  }

  lemma EntriesNext(segments: seq<Segment>, i: nat)
    requires i < |segments|
    ensures Entries(segments[..i + 1]) == Entries(segments[..i]) + segments[i].entries
  {
    assert Logs(segments[..i + 1]) == Logs(segments[..i]) + [segments[i].entries];
    FlattenAppend(Logs(segments[..i]), segments[i].entries);
  }

  class SeriesIndex {
    const hashKey: Bytes -> nat
    const hashID: nat -> nat

    var keyIDMap: map<Bytes, nat>
    var idOffsetMap: map<nat, nat>
    var tombstones: set<nat>
    var maxSeriesID: nat
    var maxOffset: nat

    var keyIDData: seq<Elem>
    var idOffsetData: seq<Elem>
    ghost var disk: map<nat, nat>

    ghost function View(): Index
      reads this
    {
      Index(keyIDMap, idOffsetMap, tombstones, maxSeriesID, maxOffset, disk)
    }

    /** The mapped tables hold the pairs of `disk`, one id a key. */
    ghost predicate Valid(segments: Log)
      reads this
    {
      && |keyIDData| == |idOffsetData|
      && Holds(keyIDData, ByKey(segments, hashKey), disk)
      && Holds(idOffsetData, ByID(hashID), disk)
      && (forall a, b | a in disk && b in disk && KeyAt(segments, disk[a]) == KeyAt(segments, disk[b]) :: a == b)
    }

    /** Opens an index over tables read from a file; no file is a pair of empty tables. */
    constructor (hashKey: Bytes -> nat, hashID: nat -> nat, keyIDData: seq<Elem>, idOffsetData: seq<Elem>,
                 maxSeriesID: nat, maxOffset: nat, ghost disk: map<nat, nat>, ghost segments: Log)
      requires |keyIDData| == |idOffsetData|
      requires Holds(keyIDData, ByKey(segments, hashKey), disk) && Holds(idOffsetData, ByID(hashID), disk)
      requires forall a, b | a in disk && b in disk && KeyAt(segments, disk[a]) == KeyAt(segments, disk[b]) :: a == b
      ensures Valid(segments) && View() == Opened(disk, maxSeriesID, maxOffset)
      ensures this.hashKey == hashKey && this.hashID == hashID
    {
      this.hashKey, this.hashID := hashKey, hashID;
      this.keyIDData, this.idOffsetData, this.disk := keyIDData, idOffsetData, disk;
      this.maxSeriesID, this.maxOffset := maxSeriesID, maxOffset;
      keyIDMap, idOffsetMap, tombstones := map[], map[], {};
    }

    method FindOffsetByID(id: nat, ghost segments: Log) returns (offset: nat)
      requires Valid(segments)
      ensures offset == OffsetOf(View(), id)
    {
      if id in idOffsetMap && idOffsetMap[id] != 0 {
        return idOffsetMap[id];
      } else if |idOffsetData| == 0 {
        return 0;
      }
      var cap := |idOffsetData|;
      var home := Home(hashID(id), cap);
      ghost var f := Slots(ByID(hashID));
      var d, pos := 0, home;
      while true
        invariant d <= cap && pos == (if d < cap then At(home, d, cap) else home)
        invariant forall j: nat | j < d :: idOffsetData[At(home, j, cap)].id != id
        decreases cap - d
      {
        var elem := idOffsetData[pos];
        assert elem in idOffsetData;
        if elem.id == id {
          return elem.offset;
        } else if elem.id == 0 || d > Dist(Home(hashID(elem.id), cap), pos, cap) {
          assert d < cap ==> !Blocks(idOffsetData, f, pos, d);
          IDNotOnDisk(idOffsetData, hashID, id, d);
          assert id !in disk;
          return 0;
        }
        d, pos := d + 1, if pos + 1 == cap then 0 else pos + 1;
      }
    }

    method IsDeleted(id: nat, ghost segments: Log) returns (deleted: bool)
      requires Valid(segments)
      ensures deleted == Deleted(View(), id)
    {
      if id in tombstones {
        return true;
      }
      var offset := FindOffsetByID(id, segments);
      return offset == 0;
    }

    method FindIDBySeriesKey(segments: Log, key: Bytes) returns (id: nat)
      requires Valid(segments)
      ensures Answers(View(), segments, key, id)
    {
      if key in keyIDMap && keyIDMap[key] != 0 {
        var deleted := IsDeleted(keyIDMap[key], segments);
        if !deleted {
          return keyIDMap[key];
        }
      }
      if |keyIDData| == 0 {
        return 0;
      }
      var elem := ProbeKey(keyIDData, hashKey, segments, key);
      if elem.offset == 0 {
        return 0;
      }
      assert OnDisk(View(), segments, key, elem.id);
      var deleted := IsDeleted(elem.id, segments);
      return if deleted then 0 else elem.id;
    }

    method ExecEntry(e: Entry)
      modifies this
      ensures View() == Exec(old(View()), e)
      ensures keyIDData == old(keyIDData) && idOffsetData == old(idOffsetData)
    {
      match e
      case Insert(id, offset, key) =>
        keyIDMap := keyIDMap[key := id];
        idOffsetMap := idOffsetMap[id := offset];
        if id > maxSeriesID {
          maxSeriesID := id;
        }
        if offset > maxOffset {
          maxOffset := offset;
        }
      case Tombstone(id, _) =>
        tombstones := tombstones + {id};
    }

    /** Replays one segment on top of what was replayed already. */
    method ReplaySegment(entries: Log, ghost start: Index, ghost done: Log)
      requires View() == ReplayNew(start, done)
      modifies this
      ensures View() == ReplayNew(start, done + entries)
      ensures keyIDData == old(keyIDData) && idOffsetData == old(idOffsetData)
    {
      assert done + entries[..0] == done;
      for j := 0 to |entries|
        invariant View() == ReplayNew(start, done + entries[..j])
        invariant keyIDData == old(keyIDData) && idOffsetData == old(idOffsetData)
      {
        ghost var before := done + entries[..j];
        assert done + entries[..j + 1] == before + [entries[j]];
        assert (before + [entries[j]])[..|before|] == before;
        if entries[j].offset > maxOffset {
          ExecEntry(entries[j]);
        }
      }
      assert entries[..|entries|] == entries;
    }

    /** Rebuilds the in-memory index from the entries the mapped file does not cover. */
    method Recover(segments: seq<Segment>)
      requires forall seg | seg in segments :: WellPlaced(seg)
      modifies this
      ensures View() == ReplayNew(Opened(old(disk), old(maxSeriesID), old(maxOffset)), Entries(segments))
      ensures keyIDData == old(keyIDData) && idOffsetData == old(idOffsetData)
    {
      keyIDMap, idOffsetMap, tombstones := map[], map[], {};
      ghost var start := View();
      var minSegmentID := SegmentOf(maxOffset);
      for i := 0 to |segments|
        invariant View() == ReplayNew(start, Entries(segments[..i]))
        invariant keyIDData == old(keyIDData) && idOffsetData == old(idOffsetData)
      {
        assert segments[i] in segments;
        EntriesNext(segments, i);
        if segments[i].id < minSegmentID {
          SkippedSegment(start, Entries(segments[..i]), segments[i]);
        } else {
          ReplaySegment(segments[i].entries, start, Entries(segments[..i]));
        }
      }
      assert segments[..|segments|] == segments;
    }
  }

  /** A segment before the one the starting offset lies in changes nothing. */
  lemma SkippedSegment(start: Index, done: Log, segment: Segment)
    requires WellPlaced(segment) && segment.id < SegmentOf(start.maxOffset)
    ensures ReplayNew(start, done + segment.entries) == ReplayNew(start, done)
  {
    forall e | e in segment.entries ensures e.offset <= start.maxOffset {
      EarlierSegment(e.offset, start.maxOffset);
    }
    SkippedEntries(start, done, segment.entries);
  }

  /** Entries at or below the starting offset change nothing. */
  lemma {:induction false} SkippedEntries(start: Index, done: Log, entries: Log)
    requires forall e | e in entries :: e.offset <= start.maxOffset
    ensures ReplayNew(start, done + entries) == ReplayNew(start, done)
  {
    if entries == [] {
      assert done + entries == done;
    } else {
      var init, e := entries[..|entries| - 1], entries[|entries| - 1];
      SkippedEntries(start, done, init);
      ReplayNewBound(start, done + init, 0);
      assert (done + entries)[..|done + entries| - 1] == done + init;
    }
  }

  /** The probe loop of the key/id table: the element whose stored key is `key`, or an empty one. */
  method ProbeKey(s: seq<Elem>, hashKey: Bytes -> nat, segments: Log, key: Bytes) returns (elem: Elem)
    requires |s| > 0 && Reachable(s, Slots(ByKey(segments, hashKey)))
    ensures elem.offset != 0 ==> elem in s && KeyAt(segments, elem.offset) == key
    ensures elem.offset == 0 ==> forall e | e in s && e.offset != 0 :: KeyAt(segments, e.offset) != key
  {
    var hash := hashKey(key);
    var cap := |s|;
    var home := Home(hash, cap);
    var d, pos := 0, home;
    while true
      invariant d <= cap && pos == (if d < cap then At(home, d, cap) else home)
      invariant forall j: nat | j < d :: KeyAt(segments, s[At(home, j, cap)].offset) != key
      invariant d == cap ==> s[home].offset != 0
      decreases cap - d
    {
      elem := s[pos];
      if elem.offset == 0 {
        NotOnDisk(s, ByKey(segments, hashKey), segments, key, home, d);
        return;
      }
      var elemKey := KeyAt(segments, elem.offset);
      var elemHash := hashKey(elemKey);
      if d > Dist(Home(elemHash, cap), pos, cap) {
        NotOnDisk(s, ByKey(segments, hashKey), segments, key, home, d);
        return Elem(0, 0);
      } else if elemHash == hash && elemKey == key {
        return;
      }
      d, pos := d + 1, if pos + 1 == cap then 0 else pos + 1;
    }
  }

  /** A probe for an id that stopped short has missed nothing. */
  lemma IDNotOnDisk(s: seq<Elem>, hashID: nat -> nat, id: nat, d: nat)
    requires s != [] && Reachable(s, Slots(ByID(hashID))) && d <= |s|
    requires
      var home := Home(hashID(id), |s|);
      && (forall j: nat | j < d :: s[At(home, j, |s|)].id != id)
      && (d < |s| ==> s[At(home, d, |s|)].id != id && !Blocks(s, Slots(ByID(hashID)), At(home, d, |s|), d))
    ensures forall e | e in s && e.offset != 0 :: e.id != id
  {
    forall p: nat | p < |s| && s[p].offset != 0 ensures s[p].id != id {
      if s[p].id == id {
        ProbeFinds(s, Slots(ByID(hashID)), p);
      }
    }
  }

  /** A probe for `key` that stopped after `d` steps without meeting it shows that no element has it. */
  lemma NotOnDisk(s: seq<Elem>, hash: Elem -> nat, segments: Log, key: Bytes, home: nat, d: nat)
    requires Reachable(s, Slots(hash)) && home < |s| && d <= |s|
    requires forall e: Elem | e in s && KeyAt(segments, e.offset) == key :: Home(hash(e), |s|) == home
    requires forall j: nat | j < d :: KeyAt(segments, s[At(home, j, |s|)].offset) != key
    requires d < |s| ==> !Blocks(s, Slots(hash), At(home, d, |s|), d)
    requires d < |s| && s[At(home, d, |s|)].offset != 0 ==> SlotDist(s, Slots(hash), At(home, d, |s|)) < d
    ensures forall e | e in s && e.offset != 0 :: KeyAt(segments, e.offset) != key
  {
    forall p: nat | p < |s| && s[p].offset != 0 ensures KeyAt(segments, s[p].offset) != key {
      if KeyAt(segments, s[p].offset) == key {
        assert s[p] in s;
        ProbeFinds(s, Slots(hash), p);
      }
    }
  }

  /** Appending to the log leaves the mapped key table valid: it reads only offsets that were there. */
  lemma HoldsGrows(s: seq<Elem>, hashKey: Bytes -> nat, log: Log, e: Entry, disk: map<nat, nat>)
    requires Holds(s, ByKey(log, hashKey), disk) && forall id | id in disk :: disk[id] != e.offset
    ensures Holds(s, ByKey(log + [e], hashKey), disk)
  {
    AppendReads(log, e);
    var f, g := Slots(ByKey(log, hashKey)), Slots(ByKey(log + [e], hashKey));
    forall p: nat | p < |s| && s[p].offset != 0 ensures f.hash(s[p]) == g.hash(s[p]) {
      assert s[p] in s;
    }
    forall p: nat | p < |s| && g.used(s[p]) ensures PathClear(s, g, Home(g.hash(s[p]), |s|), SlotDist(s, g, p)) {
      assert PathClear(s, f, Home(f.hash(s[p]), |s|), SlotDist(s, f, p));
    }
  }
}
