/**
 The in-memory Robin Hood hash map (`pkg/rhh`): byte-string keys, one array of
 slots, doubling when the load factor is reached. It refines a plain map.
 */
module HashMap {
  import opened Wrappers
  import opened Bytes
  import opened Collections
  import opened RobinHood

  /** A vacant slot has a zero hash and an empty key. */
  datatype Slot<V> = Vacant | Slot(hash: nat, key: Bytes, value: V)

  function Stored<V>(): Layout<Slot<V>>
  {
    Layout((e: Slot<V>) => e.Slot?, (e: Slot<V>) => if e.Slot? then e.hash else 0)
  }

  function KeyOf<V>(e: Slot<V>): Bytes
  {
    if e.Vacant? then [] else e.key
  }

  /** The slots hold exactly the pairs of `m`, each key once and under its own hash. */
  ghost predicate Contains<V>(s: seq<Slot<V>>, hash: Bytes -> nat, m: map<Bytes, V>)
  {
    && (forall e | e in s && e.Slot? :: e.hash == hash(e.key) && e.key in m && m[e.key] == e.value)
    && (forall k | k in m :: Slot(hash(k), k, m[k]) in s)
    && (forall p: nat, q: nat | p < |s| && q < |s| && s[p].Slot? && s[q].Slot? && s[p].key == s[q].key :: p == q)
  }

  ghost predicate Table<V>(s: seq<Slot<V>>, hash: Bytes -> nat, m: map<Bytes, V>)
  {
    Reachable(s, Stored()) && Contains(s, hash, m)
  }

  /** Mid-insertion: `cur` is in hand, `dist` steps from home, its key absent, and completes the table to `goal`. */
  ghost predicate Carrying<V>(s: seq<Slot<V>>, hash: Bytes -> nat, cur: Slot<V>, dist: nat, goal: map<Bytes, V>)
  {
    && cur.Slot? && cur.hash == hash(cur.key) && dist < |s|
    && PathClear(s, Stored(), Home(cur.hash, |s|), dist)
    && cur.key in goal && goal[cur.key] == cur.value
    && Table(s, hash, goal - {cur.key})
  }

  lemma PlaceSlot<V>(s: seq<Slot<V>>, hash: Bytes -> nat, cur: Slot<V>, dist: nat, goal: map<Bytes, V>)
    requires Carrying(s, hash, cur, dist, goal) && s[At(Home(cur.hash, |s|), dist, |s|)].Vacant?
    ensures Table(s[At(Home(cur.hash, |s|), dist, |s|) := cur], hash, goal)
  {
    var p := At(Home(cur.hash, |s|), dist, |s|);
    PlaceKeepsReachable(s, Stored(), cur, dist);
    var t := s[p := cur];
    assert t[p] == cur;
    forall k | k in goal && k != cur.key ensures Slot(hash(k), k, goal[k]) in t {
      assert k in goal - {cur.key};
      var q: nat :| q < |s| && s[q] == Slot(hash(k), k, goal[k]);
      assert t[q] == s[q];
    }
    assert forall q: nat | q < |s| :: s[q] in s;
  }

  lemma SwapSlot<V>(s: seq<Slot<V>>, hash: Bytes -> nat, cur: Slot<V>, dist: nat, goal: map<Bytes, V>)
    requires Carrying(s, hash, cur, dist, goal)
    requires
      var p := At(Home(cur.hash, |s|), dist, |s|);
      s[p].Slot? && SlotDist(s, Stored(), p) < dist
    ensures
      var p := At(Home(cur.hash, |s|), dist, |s|);
      Carrying(s[p := cur], hash, s[p], SlotDist(s, Stored(), p) + 1, goal)
  {
    var p := At(Home(cur.hash, |s|), dist, |s|);
    PlaceKeepsReachable(s, Stored(), cur, dist);
    var t := s[p := cur];
    assert s[p] in s && t[p] == cur;
    assert forall q: nat | q < |s| :: s[q] in s;
    forall k | k in goal - {s[p].key} ensures Slot(hash(k), k, goal[k]) in t {
      if k != cur.key {
        assert k in goal - {cur.key};
        var q: nat :| q < |s| && s[q] == Slot(hash(k), k, goal[k]);
        assert t[q] == s[q];
      }
    }
  }

  /** Overwriting the value in a slot leaves every element reachable. */
  lemma OverwriteReachable<V>(s: seq<Slot<V>>, p: nat, value: V)
    requires Reachable(s, Stored()) && p < |s| && s[p].Slot?
    ensures Reachable(s[p := s[p].(value := value)], Stored())
  {
    var f: Layout<Slot<V>> := Stored();
    var t := s[p := s[p].(value := value)];
    forall q: nat, j: nat | q < |s| && Blocks(s, f, q, j) ensures Blocks(t, f, q, j) {}
    forall q: nat | q < |t| && f.used(t[q]) ensures PathClear(t, f, Home(f.hash(t[q]), |t|), SlotDist(t, f, q)) {
      assert PathClear(s, f, Home(f.hash(s[q]), |s|), SlotDist(s, f, q));
    }
  }

  /** Overwriting the slot that already holds the key updates the map. */
  lemma OverwriteSlot<V>(s: seq<Slot<V>>, hash: Bytes -> nat, m: map<Bytes, V>, p: nat, value: V)
    requires Table(s, hash, m) && p < |s| && s[p].Slot?
    ensures Table(s[p := s[p].(value := value)], hash, m[s[p].key := value])
  {
    OverwriteReachable(s, p, value);
    hide Reachable;
    var t := s[p := s[p].(value := value)];
    assert s[p] in s && t[p] in t;
    assert forall q: nat | q < |s| :: s[q] in s;
    forall k | k in m[s[p].key := value] && k != s[p].key ensures Slot(hash(k), k, m[k]) in t {
      var q: nat :| q < |s| && s[q] == Slot(hash(k), k, m[k]);
      assert t[q] == s[q];
    }
  }

  /** A probe for `key` that met no match and stops here shows that the map lacks the key. */
  lemma Absent<V>(s: seq<Slot<V>>, hash: Bytes -> nat, m: map<Bytes, V>, key: Bytes, d: nat)
    requires Table(s, hash, m) && |s| > 0 && d <= |s|
    requires forall j: nat | j < d :: var e := s[At(Home(hash(key), |s|), j, |s|)]; e.Slot? ==> e.key != key
    requires d < |s| ==>
               var q := At(Home(hash(key), |s|), d, |s|);
               !Blocks(s, Stored(), q, d) && (s[q].Slot? ==> s[q].key != key)
    ensures key !in m
  {
    if key in m {
      var p: nat :| p < |s| && s[p] == Slot(hash(key), key, m[key]);
      ProbeFinds(s, Stored(), p);
    }
  }

  /** The search half of an insertion: the key has not been met in the first `dist` steps. */
  ghost predicate Searching<V>(s: seq<Slot<V>>, hash: Bytes -> nat, key: Bytes, dist: nat, m: map<Bytes, V>)
  {
    && Table(s, hash, m) && dist < |s| && PathClear(s, Stored(), Home(hash(key), |s|), dist)
    && forall j: nat | j < dist :: s[At(Home(hash(key), |s|), j, |s|)].key != key
  }

  lemma StartCarrying<V>(s: seq<Slot<V>>, hash: Bytes -> nat, key: Bytes, value: V, dist: nat, m: map<Bytes, V>)
    requires Searching(s, hash, key, dist, m)
    requires
      var q := At(Home(hash(key), |s|), dist, |s|);
      !Blocks(s, Stored(), q, dist) && (s[q].Slot? ==> s[q].key != key)
    ensures key !in m && Carrying(s, hash, Slot(hash(key), key, value), dist, m[key := value])
  {
    assert forall j: nat | j < dist :: Blocks(s, Stored(), At(Home(hash(key), |s|), j, |s|), j);
    Absent(s, hash, m, key, dist);
    assert m[key := value] - {key} == m;
  }

  /** An insertion under way: looking for the key, or carrying an element that lost its slot to it. */
  ghost predicate InHand<V>(s: seq<Slot<V>>, hash: Bytes -> nat, key: Bytes, value: V, m: map<Bytes, V>,
                            cur: Slot<V>, dist: nat, searching: bool)
  {
    if searching then
      cur == Slot(hash(key), key, value) && Searching(s, hash, key, dist, m)
    else
      key !in m && Carrying(s, hash, cur, dist, m[key := value])
  }

  lemma LandOnVacant<V>(s: seq<Slot<V>>, hash: Bytes -> nat, key: Bytes, value: V, m: map<Bytes, V>,
                        cur: Slot<V>, dist: nat, searching: bool)
    requires InHand(s, hash, key, value, m, cur, dist, searching) && s[At(Home(cur.hash, |s|), dist, |s|)].Vacant?
    ensures key !in m && (cur.key == key || cur.key in m)
    ensures Table(s[At(Home(cur.hash, |s|), dist, |s|) := cur], hash, m[key := value])
  {
    if searching {
      StartCarrying(s, hash, key, value, dist, m);
    }
    PlaceSlot(s, hash, cur, dist, m[key := value]);
  }

  lemma LandOnMatch<V>(s: seq<Slot<V>>, hash: Bytes -> nat, key: Bytes, value: V, m: map<Bytes, V>,
                       cur: Slot<V>, dist: nat, searching: bool)
    requires InHand(s, hash, key, value, m, cur, dist, searching)
    requires var e := s[At(Home(cur.hash, |s|), dist, |s|)]; e.Slot? && e.key == cur.key
    ensures key in m && cur.key == key
    ensures Table(s[At(Home(cur.hash, |s|), dist, |s|) := cur], hash, m[key := value])
  {
    var p := At(Home(cur.hash, |s|), dist, |s|);
    assert s[p] in s;
    if searching {
      OverwriteSlot(s, hash, m, p, value);
    }
  }

  lemma Displace<V>(s: seq<Slot<V>>, hash: Bytes -> nat, key: Bytes, value: V, m: map<Bytes, V>,
                    cur: Slot<V>, dist: nat, searching: bool)
    requires InHand(s, hash, key, value, m, cur, dist, searching)
    requires
      var p := At(Home(cur.hash, |s|), dist, |s|);
      s[p].Slot? && s[p].key != cur.key && SlotDist(s, Stored(), p) < dist
    ensures
      var p := At(Home(cur.hash, |s|), dist, |s|);
      InHand(s[p := cur], hash, key, value, m, s[p], SlotDist(s, Stored(), p) + 1, false)
  {
    var p := At(Home(cur.hash, |s|), dist, |s|);
    if searching {
      StartCarrying(s, hash, key, value, dist, m);
    }
    SwapSlot(s, hash, cur, dist, m[key := value]);
    assert s[p] in s;
  }

  lemma PassBy<V>(s: seq<Slot<V>>, hash: Bytes -> nat, key: Bytes, value: V, m: map<Bytes, V>,
                  cur: Slot<V>, dist: nat, searching: bool)
    requires InHand(s, hash, key, value, m, cur, dist, searching) && dist + 1 < |s|
    requires
      var p := At(Home(cur.hash, |s|), dist, |s|);
      s[p].Slot? && s[p].key != cur.key && SlotDist(s, Stored(), p) >= dist
    ensures InHand(s, hash, key, value, m, cur, dist + 1, searching)
  {
    StepKeepsPath(s, Stored(), Home(cur.hash, |s|), dist);
  }

  /**
   The key that comes to rest in a vacant slot when `key` is inserted: `key`
   itself, or the last one that is displaced on the way. It is read off the slots
   as they are before the insertion, from `pos` on.
   */
  function Resting<V>(s: seq<Slot<V>>, key: Bytes, dist: nat, pos: nat, left: nat): Bytes
    requires pos < |s|
    decreases left
  {
    if left == 0 || s[pos].Vacant? || s[pos].key == key then key
    else
      var d, next := Dist(Home(s[pos].hash, |s|), pos, |s|), if pos + 1 == |s| then 0 else pos + 1;
      if d < dist then Resting(s, s[pos].key, d + 1, next, left - 1) else Resting(s, key, dist + 1, next, left - 1)
  }

  function RestingKey<V>(s: seq<Slot<V>>, hash: Bytes -> nat, key: Bytes): Bytes
    requires s != []
  {
    Resting(s, key, 0, Home(hash(key), |s|), |s|)
  }

  lemma {:induction false} RestingIsStored<V>(s: seq<Slot<V>>, hash: Bytes -> nat, m: map<Bytes, V>,
                                                key: Bytes, dist: nat, pos: nat, left: nat)
    requires pos < |s| && Contains(s, hash, m)
    ensures Resting(s, key, dist, pos, left) == key || Resting(s, key, dist, pos, left) in m
    decreases left
  {
    if left > 0 && s[pos].Slot? && s[pos].key != key {
      assert s[pos] in s;
      var d, next := Dist(Home(s[pos].hash, |s|), pos, |s|), if pos + 1 == |s| then 0 else pos + 1;
      if d < dist {
        RestingIsStored(s, hash, m, s[pos].key, d + 1, next, left - 1);
      } else {
        RestingIsStored(s, hash, m, key, dist + 1, next, left - 1);
      }
    }
  }

  /** One slot of an insertion: land here, take the slot over, or pass. */
  method Visit<V>(slots: array<Slot<V>>, hash: Bytes -> nat, pos: nat, cur: Slot<V>, dist: nat,
                  ghost key: Bytes, ghost value: V, ghost m: map<Bytes, V>, ghost searching: bool)
    returns (landed: bool, same: bool, next: Slot<V>, nextDist: nat, ghost stillSearching: bool)
    requires InHand(slots[..], hash, key, value, m, cur, dist, searching)
    requires cur.Slot? && pos == At(Home(cur.hash, slots.Length), dist, slots.Length)
    requires dist + 1 < slots.Length || slots[pos].Vacant? || slots[pos].key == cur.key
    modifies slots
    ensures forall q | 0 <= q < slots.Length && q != pos :: slots[q] == old(slots[q])
    ensures landed <==> old(slots[pos]).Vacant? || old(slots[pos]).key == cur.key
    ensures landed ==> Table(slots[..], hash, m[key := value])
    ensures landed ==> (same <==> key in m || cur.key == [])
    ensures !landed ==>
              var there := old(slots[pos]);
              var d := Dist(Home(there.hash, slots.Length), pos, slots.Length);
              (next, nextDist) == if d < dist then (there, d + 1) else (cur, dist + 1)
    ensures !landed ==>
              && nextDist <= dist + 1 && next.Slot?
              && InHand(slots[..], hash, key, value, m, next, nextDist, stillSearching)
              && At(Home(next.hash, slots.Length), nextDist, slots.Length) == if pos + 1 == slots.Length then 0 else pos + 1
  {
    ghost var s := slots[..];
    var there := slots[pos];
    same := KeyOf(there) == cur.key;
    landed, next, nextDist, stillSearching := true, cur, dist, searching;
    if there.Vacant? {
      LandOnVacant(s, hash, key, value, m, cur, dist, searching);
      slots[pos] := cur;
      assert slots[..] == s[pos := cur];
    } else if same {
      LandOnMatch(s, hash, key, value, m, cur, dist, searching);
      slots[pos] := cur;
      assert slots[..] == s[pos := cur];
    } else {
      landed := false;
      var d := Dist(Home(there.hash, slots.Length), pos, slots.Length);
      if d < dist {
        Displace(s, hash, key, value, m, cur, dist, searching);
        slots[pos] := cur;
        assert slots[..] == s[pos := cur];
        next, nextDist, stillSearching := there, d + 1, false;
      } else {
        PassBy(s, hash, key, value, m, cur, dist, searching);
        nextDist := dist + 1;
      }
    }
  }

  /**
   Inserts or overwrites `key` in slots that hold it or have room. It reports that
   the key was overwritten if the map had it, and wrongly if it did not but an
   empty key comes to rest in a vacant slot, as that has an empty key, too.
   */
  method InsertSlot<V>(slots: array<Slot<V>>, hash: Bytes -> nat, key: Bytes, value: V, ghost m: map<Bytes, V>)
    returns (overwritten: bool)
    requires slots.Length > 0 && Table(slots[..], hash, m) && (key in m || HasRoom(slots[..], Stored()))
    modifies slots
    ensures Table(slots[..], hash, m[key := value])
    ensures overwritten <==> key in m || RestingKey(old(slots[..]), hash, key) == []
  {
    hide Table, HasRoom, Underway, RestingKey;
    var cap := slots.Length;
    ghost var s := slots[..];
    ghost var stop := StartSearch(s, hash, key, value, m);
    var cur := Slot(hash(key), key, value);
    var i, dist, pos, landed := 0, 0, Home(cur.hash, cap), false;
    ghost var searching := true;
    while true
      invariant 0 <= i <= cap && 0 <= dist < cap && 0 <= pos < cap && cur.Slot?
      invariant Underway(s, slots[..], hash, key, value, m, stop, cur, dist, i, pos, searching)
      decreases cap - i
    {
      landed, overwritten, cur, dist, pos, searching :=
        Advance(slots, hash, pos, cur, dist, i, s, key, value, m, stop, searching);
      if landed {
        return;
      }
      i := i + 1;
    }
  }

  /** After `i` steps of an insertion into `s`: what is in hand, and that the slots ahead are untouched. */
  ghost predicate Underway<V>(s: seq<Slot<V>>, now: seq<Slot<V>>, hash: Bytes -> nat,
                        key: Bytes, value: V, m: map<Bytes, V>,
                              stop: nat, cur: Slot<V>, dist: nat, i: nat, pos: nat, searching: bool)
  {
    && |s| == |now| > stop && cur.Slot? && InHand(now, hash, key, value, m, cur, dist, searching)
    && (if key in m then s[stop].Slot? && s[stop].key == key else s[stop].Vacant?)
    && var home := Home(hash(key), |s|);
    && i <= Dist(home, stop, |s|) && pos == At(home, i, |s|) && dist <= i
    && pos == At(Home(cur.hash, |s|), dist, |s|)
    && (forall j: nat | i <= j < |s| :: now[At(home, j, |s|)] == s[At(home, j, |s|)])
    && RestingKey(s, hash, key) == Resting(s, cur.key, dist, pos, |s| - i)
  }

  /** One more step of an insertion. */
  method Advance<V>(slots: array<Slot<V>>, hash: Bytes -> nat, pos: nat, cur: Slot<V>, dist: nat, ghost i: nat,
                    ghost s: seq<Slot<V>>, ghost key: Bytes, ghost value: V, ghost m: map<Bytes, V>,
                    ghost stop: nat, ghost searching: bool)
    returns (landed: bool, same: bool, next: Slot<V>, nextDist: nat, nextPos: nat, ghost stillSearching: bool)
    requires pos < slots.Length && cur.Slot?
    requires Underway(s, slots[..], hash, key, value, m, stop, cur, dist, i, pos, searching)
    modifies slots
    ensures landed ==> Table(slots[..], hash, m[key := value]) && (same <==> key in m || RestingKey(s, hash, key) == [])
    ensures !landed ==>
              && i + 1 <= slots.Length && nextDist < slots.Length && nextPos < slots.Length && next.Slot?
              && Underway(s, slots[..], hash, key, value, m, stop, next, nextDist, i + 1, nextPos, stillSearching)
  {
    ghost var now := slots[..];
    UnderwayHere(s, now, hash, key, value, m, stop, cur, dist, i, pos, searching);
    landed, same, next, nextDist, stillSearching := Visit(slots, hash, pos, cur, dist, key, value, m, searching);
    nextPos := if pos + 1 == slots.Length then 0 else pos + 1;
    if !landed {
      UnderwayNext(s, now, slots[..], hash, key, value, m, stop, cur, dist, i, pos, searching,
                   next, nextDist, nextPos, stillSearching);
    }
  }

  lemma UnderwayHere<V>(s: seq<Slot<V>>, now: seq<Slot<V>>, hash: Bytes -> nat, key: Bytes, value: V, m: map<Bytes, V>,
                        stop: nat, cur: Slot<V>, dist: nat, i: nat, pos: nat, searching: bool)
    requires Underway(s, now, hash, key, value, m, stop, cur, dist, i, pos, searching)
    ensures now[pos] == s[pos] && dist <= i < |s|
    ensures i == Dist(Home(hash(key), |s|), stop, |s|) ==> s[pos].Vacant? || s[pos].key == cur.key
    ensures dist + 1 < |s| || s[pos].Vacant? || s[pos].key == cur.key
    ensures s[pos].Vacant? || s[pos].key == cur.key ==> RestingKey(s, hash, key) == cur.key
  {
    InHandKey(now, hash, key, value, m, cur, dist, searching);
    RestingStep(s, cur.key, dist, pos, |s| - i);
  }

  lemma UnderwayNext<V>(s: seq<Slot<V>>, was: seq<Slot<V>>, now: seq<Slot<V>>, hash: Bytes -> nat,
                        key: Bytes, value: V, m: map<Bytes, V>,
                        stop: nat, cur: Slot<V>, dist: nat, i: nat, pos: nat, searching: bool,
                        next: Slot<V>, nextDist: nat, nextPos: nat, stillSearching: bool)
    requires Underway(s, was, hash, key, value, m, stop, cur, dist, i, pos, searching)
    requires |now| == |s| && (forall q | 0 <= q < |s| && q != pos :: now[q] == was[q])
    requires s[pos].Slot? && s[pos].key != cur.key && nextPos == if pos + 1 == |s| then 0 else pos + 1
    requires
      var d := Dist(Home(s[pos].hash, |s|), pos, |s|);
      (next, nextDist) == if d < dist then (s[pos], d + 1) else (cur, dist + 1)
    requires InHand(now, hash, key, value, m, next, nextDist, stillSearching)
    requires At(Home(next.hash, |s|), nextDist, |s|) == nextPos && nextDist <= dist + 1
    ensures Underway(s, now, hash, key, value, m, stop, next, nextDist, i + 1, nextPos, stillSearching)
    ensures i + 1 < |s|
  {
    hide InHand, Resting, RestingKey, Home;
    UnderwayHere(s, was, hash, key, value, m, stop, cur, dist, i, pos, searching);
    RestingStep(s, cur.key, dist, pos, |s| - i);
    AheadUntouched(s, was, now, Home(hash(key), |s|), i);
  }

  lemma AheadUntouched<V>(s: seq<Slot<V>>, was: seq<Slot<V>>, now: seq<Slot<V>>, home: nat, i: nat)
    requires |s| == |was| == |now| && home < |s| && i < |s|
    requires forall j: nat | i <= j < |s| :: was[At(home, j, |s|)] == s[At(home, j, |s|)]
    requires forall q | 0 <= q < |s| && q != At(home, i, |s|) :: now[q] == was[q]
    ensures forall j: nat | i + 1 <= j < |s| :: now[At(home, j, |s|)] == s[At(home, j, |s|)]
    ensures i + 1 < |s| ==> At(home, i + 1, |s|) == var p := At(home, i, |s|); if p + 1 == |s| then 0 else p + 1
  {
    forall j: nat | i + 1 <= j < |s| ensures At(home, j, |s|) != At(home, i, |s|) {}
  }

  lemma RestingKeyIsStored<V>(s: seq<Slot<V>>, hash: Bytes -> nat, m: map<Bytes, V>, key: Bytes)
    requires s != [] && Table(s, hash, m)
    ensures RestingKey(s, hash, key) == key || RestingKey(s, hash, key) in m
  {
    RestingIsStored(s, hash, m, key, 0, Home(hash(key), |s|), |s|);
  }

  /** An insertion begins with a search, and there is a slot at which it will end. */
  lemma StartSearch<V>(s: seq<Slot<V>>, hash: Bytes -> nat, key: Bytes, value: V, m: map<Bytes, V>) returns (stop: nat)
    requires s != [] && Table(s, hash, m) && (key in m || HasRoom(s, Stored()))
    ensures Underway(s, s, hash, key, value, m, stop, Slot(hash(key), key, value), 0, 0, Home(hash(key), |s|), true)
  {
    if key in m {
      stop :| stop < |s| && s[stop] == Slot(hash(key), key, m[key]);
    } else {
      stop :| stop < |s| && s[stop].Vacant?;
    }
  }

  lemma InHandKey<V>(s: seq<Slot<V>>, hash: Bytes -> nat, key: Bytes, value: V, m: map<Bytes, V>,
                     cur: Slot<V>, dist: nat, searching: bool)
    requires InHand(s, hash, key, value, m, cur, dist, searching)
    ensures dist < |s| && (key in m ==> cur == Slot(hash(key), key, value))
  {
  }

  lemma RestingStep<V>(s: seq<Slot<V>>, key: Bytes, dist: nat, pos: nat, left: nat)
    requires pos < |s| && left > 0
    ensures s[pos].Vacant? || s[pos].key == key ==> Resting(s, key, dist, pos, left) == key
    ensures s[pos].Slot? && s[pos].key != key ==>
              var d, next := Dist(Home(s[pos].hash, |s|), pos, |s|), if pos + 1 == |s| then 0 else pos + 1;
              Resting(s, key, dist, pos, left) ==
              if d < dist then Resting(s, s[pos].key, d + 1, next, left - 1) else Resting(s, key, dist + 1, next, left - 1)
  {
  }

  // ----- The map object -----

  /** The keys in the first `n` slots. */
  ghost function UsedKeys<V>(s: seq<Slot<V>>, n: nat): set<Bytes>
    requires n <= |s| && forall p: nat | p < |s| :: s[p].Slot?
  {
    if n == 0 then {} else UsedKeys(s, n - 1) + {s[n - 1].key}
  }

  lemma {:induction false} CountUsed<V>(s: seq<Slot<V>>, hash: Bytes -> nat, m: map<Bytes, V>, n: nat)
    requires Contains(s, hash, m) && n <= |s| && forall p: nat | p < |s| :: s[p].Slot?
    ensures |UsedKeys(s, n)| == n && UsedKeys(s, n) <= m.Keys
    ensures forall p: nat | n <= p < |s| :: s[p].key !in UsedKeys(s, n)
  {
    if n > 0 {
      CountUsed(s, hash, m, n - 1);
      assert s[n - 1] in s;
      assert s[n - 1].key !in UsedKeys(s, n - 1);
      forall p: nat | n <= p < |s| ensures s[p].key !in UsedKeys(s, n) {
        assert s[p].key != s[n - 1].key;
      }
    }
  }

  /** Fewer keys than slots leaves a vacant slot. */
  lemma FewerHasRoom<V>(s: seq<Slot<V>>, hash: Bytes -> nat, m: map<Bytes, V>)
    requires Contains(s, hash, m) && |m| < |s|
    ensures HasRoom(s, Stored())
  {
    if forall p: nat | p < |s| :: s[p].Slot? {
      CountUsed(s, hash, m, |s|);
      SubsetSize(UsedKeys(s, |s|), m.Keys);
    }
  }

  lemma TableHasRoom<V>(s: seq<Slot<V>>, hash: Bytes -> nat, m: map<Bytes, V>)
    requires Table(s, hash, m) && |m| < |s|
    ensures HasRoom(s, Stored())
  {
    FewerHasRoom(s, hash, m);
  }

  const LOAD_FACTOR := 90

  function Threshold(capacity: nat): nat
  {
    capacity * LOAD_FACTOR / 100
  }

  /** The pairs stored in the first `i` slots. */
  ghost predicate Prefix<V>(s: seq<Slot<V>>, m: map<Bytes, V>, i: nat, mi: map<Bytes, V>)
    requires i <= |s|
  {
    && (forall k | k in mi :: k in m && mi[k] == m[k])
    && (forall p: nat | p < i && s[p].Slot? :: s[p].key in mi)
  }

  lemma PrefixStart<V>(s: seq<Slot<V>>, m: map<Bytes, V>)
    ensures Prefix(s, m, 0, map[])
  {
  }

  lemma PrefixNext<V>(s: seq<Slot<V>>, hash: Bytes -> nat, m: map<Bytes, V>, i: nat, mi: map<Bytes, V>)
    requires Table(s, hash, m) && i < |s| && Prefix(s, m, i, mi)
    ensures |mi| <= |m|
    ensures Prefix(s, m, i + 1, if s[i].Slot? then mi[s[i].key := s[i].value] else mi)
  {
    SubsetSize(mi.Keys, m.Keys);
    if s[i].Slot? {
      StoredInMap(s, hash, m, i);
    }
    hide Table;
  }

  lemma StoredInMap<V>(s: seq<Slot<V>>, hash: Bytes -> nat, m: map<Bytes, V>, i: nat)
    requires Table(s, hash, m) && i < |s| && s[i].Slot?
    ensures s[i].key in m && m[s[i].key] == s[i].value
  {
    assert s[i] in s;
  }

  lemma WholePrefix<V>(s: seq<Slot<V>>, hash: Bytes -> nat, m: map<Bytes, V>, mi: map<Bytes, V>)
    requires Table(s, hash, m) && Prefix(s, m, |s|, mi)
    ensures mi == m
  {
    forall k | k in m ensures k in mi {
      var p: nat :| p < |s| && s[p] == Slot(hash(k), k, m[k]);
    }
  }

  lemma VacantTable<V>(s: seq<Slot<V>>, hash: Bytes -> nat)
    requires forall p: nat | p < |s| :: s[p].Vacant?
    ensures Table(s, hash, map[])
  {
  }

  /** Reinserts every element of `from` into the vacant slots of a larger table. */
  method Rehash<V>(from: array<Slot<V>>, to: array<Slot<V>>, hash: Bytes -> nat, ghost m: map<Bytes, V>)
    requires from != to && Table(from[..], hash, m) && |m| < to.Length
    requires forall p: nat | p < to.Length :: to[p].Vacant?
    modifies to
    ensures Table(to[..], hash, m)
  {
    hide Table, HasRoom, Prefix;
    ghost var mi: map<Bytes, V> := map[];
    ghost var s := from[..];
    VacantTable(to[..], hash);
    PrefixStart(s, m);
    for i := 0 to from.Length
      invariant from[..] == s && Prefix(s, m, i, mi) && Table(to[..], hash, mi)
    {
      var e := from[i];
      assert e == s[i];
      PrefixNext(s, hash, m, i, mi);
      if e.Slot? {
        TableHasRoom(to[..], hash, mi);
        var _ := InsertSlot(to, hash, e.key, e.value, mi);
        mi := mi[e.key := e.value];
      }
    }
    WholePrefix(s, hash, m, mi);
  }

  /** The position that holds `key`, or -1. */
  method Index<V>(slots: array<Slot<V>>, hash: Bytes -> nat, key: Bytes, ghost m: map<Bytes, V>) returns (i: int)
    requires slots.Length > 0 && Table(slots[..], hash, m)
    ensures i == -1 <==> key !in m
    ensures i != -1 ==> 0 <= i < slots.Length && slots[i] == Slot(hash(key), key, m[key])
  {
    hide Reachable, Home;
    var cap := slots.Length;
    var h := hash(key);
    var home := Home(h, cap);
    var pos, dist := home, 0;
    while true
      invariant 0 <= dist <= cap && pos == (if dist < cap then At(home, dist, cap) else home)
      invariant forall j: nat | j < dist :: slots[At(home, j, cap)].Slot? && slots[At(home, j, cap)].key != key
      decreases cap - dist
    {
      var e := slots[pos];
      assert e == slots[..][pos] && e in slots[..];
      if e.Vacant? || dist > Dist(Home(e.hash, cap), pos, cap) {
        assert dist < cap ==> !Blocks(slots[..], Stored(), pos, dist);
        Absent(slots[..], hash, m, key, dist);
        return -1;
      } else if e.hash == h && e.key == key {
        return pos;
      }
      pos, dist := if pos + 1 == cap then 0 else pos + 1, dist + 1;
    }
  }

  class HashMap<V> {
    const hash: Bytes -> nat
    var slots: array<Slot<V>>
    var n: nat
    ghost var m: map<Bytes, V>

    ghost predicate Valid()
      reads this, slots
    {
      && slots.Length >= 2 && Table(slots[..], hash, m)
      && n <= |m| <= slots.Length && n <= Threshold(slots.Length)
    }

    /** The count is right; it falls behind when an empty key comes to rest in a vacant slot. */
    ghost predicate Counted()
      reads this
    {
      n == |m|
    }

    constructor (hash: Bytes -> nat, capacity: nat)
      requires capacity >= 2
      ensures Valid() && Counted() && fresh(slots) && m == map[] && this.hash == hash
    {
      this.hash := hash;
      slots := new Slot<V>[capacity](_ => Vacant);
      n, m := 0, map[];
    }

    method Get(key: Bytes) returns (value: Option<V>)
      requires Valid()
      ensures value == if key in m then Some(m[key]) else None
    {
      var i := Index(slots, hash, key, m);
      if i == -1 {
        return None;
      }
      return Some(slots[i].value);
    }

    /** Doubles the capacity and reinserts every element. */
    method Grow()
      requires slots.Length >= 2 && Table(slots[..], hash, m) && |m| <= slots.Length
      modifies this
      ensures m == old(m) && n == old(n) && fresh(slots) && slots.Length == 2 * old(slots.Length)
      ensures Table(slots[..], hash, m)
    {
      var bigger := new Slot<V>[2 * slots.Length](_ => Vacant);
      Rehash(slots, bigger, hash, m);
      slots := bigger;
    }

    /**
     Sets a key. A new key needs a vacant slot, unless the table is about to grow;
     a map whose count is right always has one. `before` is the table that the key
     is inserted into.
     */
    method Put(key: Bytes, value: V) returns (ghost before: seq<Slot<V>>)
      requires Valid() && (key in m || |m| < slots.Length || n >= Threshold(slots.Length))
      modifies this, slots
      ensures Valid() && m == old(m)[key := value] && (slots == old(slots) || fresh(slots))
      ensures before != [] && Table(before, hash, old(m))
      ensures old(n) < Threshold(old(slots.Length)) ==> before == old(slots[..])
      ensures |m| - n == old(|m| - n) + if key in old(m) || RestingKey(before, hash, key) != [] then 0 else 1
      ensures [] !in old(m) && key != [] && old(Counted()) ==> Counted()
    {
      hide Table, Contains, HasRoom, Resting, RestingKey, Threshold;
      CountedHasRoom(slots.Length, n);
      n := n + 1;
      if n > Threshold(slots.Length) {
        Grow();
      }
      before := slots[..];
      if key !in m {
        TableHasRoom(before, hash, m);
      }
      PutSize(m, key, value);
      RestingKeyIsStored(before, hash, m, key);
      var overwritten := InsertSlot(slots, hash, key, value, m);
      m := m[key := value];
      if overwritten {
        n := n - 1;
      }
    }
  }

  /** Putting the empty key into a table without elements: its slot is vacant, so that the key counts as overwritten. */
  lemma EmptyKeyIsMiscounted<V>(hash: Bytes -> nat)
    ensures
      var s: seq<Slot<V>> := [Vacant, Vacant];
      Table(s, hash, map[]) && RestingKey(s, hash, []) == []
  {
    var s: seq<Slot<V>> := [Vacant, Vacant];
    RestingKeyIsStored(s, hash, map[], []);
  }

  /** A map whose count is right has room for any key. */
  lemma CountedHasRoom(capacity: nat, n: nat)
    requires capacity >= 2 && n <= Threshold(capacity)
    ensures n < capacity && n + 1 <= Threshold(2 * capacity)
  {
  }

  lemma PutSize<V>(m: map<Bytes, V>, key: Bytes, value: V)
    ensures |m[key := value]| == if key in m then |m| else |m| + 1
  {
    assert m[key := value].Keys == m.Keys + {key};
  }
}
