/**
 Writing one shard to all of its owners under a consistency level: what each
 owner's goroutine reports, and what the collector makes of the reports in
 whatever order they arrive.
 */
module Consistency {
  import opened Wrappers
  import opened Collections

  datatype Level = Any | One | Quorum | All

  datatype Error = ShardNotFound | ShardDeletion | FieldTypeConflict | OtherError(text: string)

  predicate IsRetryable(e: Error)
  {
    !e.FieldTypeConflict?
  }

  /** What the stores behind an owner answer, if they are asked; None is success. */
  datatype Owner =
    | Local(write: Option<Error>, create: Option<Error>, rewrite: Option<Error>)
    | Remote(write: Option<Error>, handoff: Option<Error>)

  /** The owner's data node has taken the points. */
  predicate Stored(o: Owner)
  {
    match o
    case Local(write, create, rewrite) =>
      write.None? || (write == Some(ShardNotFound) && create.None? && rewrite.None?)
    case Remote(write, _) => write.None?
  }

  /** The points are only queued for the owner by hinted handoff. */
  predicate HandedOff(o: Owner)
  {
    o.Remote? && o.write.Some? && IsRetryable(o.write.value) && o.handoff.None?
  }

  /** What the owner's goroutine reports. */
  function Report(level: Level, o: Owner): (r: Option<Error>)
    ensures r.None? <==> Stored(o) || (level.Any? && HandedOff(o))
  {
    match o
    case Local(write, create, rewrite) =>
      if write != Some(ShardNotFound) then write
      else if create.Some? then create
      else rewrite
    case Remote(write, handoff) =>
      if write.None? || !IsRetryable(write.value) then write
      else if handoff.Some? then handoff
      else if level.Any? then None
      else write
  }

  function Required(level: Level, owners: nat): nat
  {
    match level
    case Any => 1
    case One => 1
    case Quorum => owners / 2 + 1
    case All => owners
  }

  /** What one receive of the collector yields. */
  datatype Event = Reply(owner: nat) | Timeout | Closing

  /** What a shard write returns: a failure wraps the first error in a new one, `Plain` would be an error as a store gave it. */
  datatype Outcome =
    | Success
    | ErrPartialWrite
    | ErrTimeout
    | ErrWriteFailed
    | Failure(first: Error)
    | Plain(error: Error)

  /** At most one reply per owner. */
  ghost predicate Replies(events: seq<Event>, owners: nat)
  {
    && |events| == owners
    && (forall i | 0 <= i < |events| && events[i].Reply? :: events[i].owner < owners)
    && (forall i, j | 0 <= i < j < |events| && events[i].Reply? && events[j].Reply? :: events[i].owner != events[j].owner)
  }

  ghost predicate Undisturbed(events: seq<Event>)
  {
    forall i | 0 <= i < |events| :: events[i].Reply?
  }

  /** The owners of the first `n` replies. */
  ghost function Replied(events: seq<Event>, n: nat): set<nat>
    requires n <= |events|
  {
    if n == 0 then {} else Replied(events, n - 1) + if events[n - 1].Reply? then {events[n - 1].owner} else {}
  }

  lemma {:induction false} RepliedExactly(events: seq<Event>, n: nat)
    requires n <= |events|
    ensures forall o :: o in Replied(events, n) <==> exists i | 0 <= i < n :: events[i] == Reply(o)
  {
    if n > 0 {
      RepliedExactly(events, n - 1);
    }
  }

  lemma RepliedOwners(events: seq<Event>, owners: nat, n: nat)
    requires Replies(events, owners) && n <= |events|
    ensures Replied(events, n) <= Below(owners)
    ensures forall i | 0 <= i < n && events[i].Reply? :: events[i].owner in Replied(events, n)
    ensures n < |events| && events[n].Reply? ==> events[n].owner !in Replied(events, n)
  {
    hide Replied, Below;
    RepliedExactly(events, n);
    forall i | 0 <= i < n && events[i].Reply? ensures events[i].owner in Replied(events, n) {
      assert events[i] == Reply(events[i].owner);
    }
  }

  /** The owners among the first `n` replies that reported success. */
  ghost function Acked(level: Level, owners: seq<Owner>, events: seq<Event>, n: nat): set<nat>
    requires Replies(events, |owners|) && n <= |events|
  {
    if n == 0 then {}
    else
      Acked(level, owners, events, n - 1) +
      if events[n - 1].Reply? && Report(level, owners[events[n - 1].owner]).None? then {events[n - 1].owner} else {}
  }

  lemma {:induction false} AckedReplied(level: Level, owners: seq<Owner>, events: seq<Event>, n: nat)
    requires Replies(events, |owners|) && n <= |events|
    ensures forall o :: o in Acked(level, owners, events, n) <==>
                        o in Replied(events, n) && o < |owners| && Report(level, owners[o]).None?
  {
    hide Report;
    if n > 0 {
      AckedReplied(level, owners, events, n - 1);
    }
  }

  /** All owners that report success. */
  ghost function Acking(level: Level, owners: seq<Owner>): set<nat>
  {
    set o: nat | o < |owners| && Report(level, owners[o]).None?
  }

  lemma AckedStart(level: Level, owners: seq<Owner>, events: seq<Event>)
    requires Replies(events, |owners|)
    ensures Acked(level, owners, events, 0) == {}
  {
  }

  lemma AckedNext(level: Level, owners: seq<Owner>, events: seq<Event>, n: nat)
    requires Replies(events, |owners|) && n < |events| && events[n].Reply?
    ensures |Acked(level, owners, events, n + 1)| ==
            |Acked(level, owners, events, n)| + if Report(level, owners[events[n].owner]).None? then 1 else 0
  {
    hide Report, Replied;
    RepliedOwners(events, |owners|, n);
    AckedReplied(level, owners, events, n);
  }

  ghost function Below(n: nat): (r: set<nat>)
    ensures |r| == n && forall o: nat :: o in r <==> o < n
  {
    if n == 0 then {} else Below(n - 1) + {n - 1}
  }

  lemma {:induction false} RepliedSize(events: seq<Event>, owners: nat, n: nat)
    requires Replies(events, owners) && Undisturbed(events) && n <= owners
    ensures |Replied(events, n)| == n
  {
    if n > 0 {
      RepliedSize(events, owners, n - 1);
      RepliedOwners(events, owners, n - 1);
    }
  }

  /** As many distinct replies as owners: every owner has replied, whatever the order. */
  lemma AllReplied(level: Level, owners: seq<Owner>, events: seq<Event>)
    requires Replies(events, |owners|) && Undisturbed(events)
    ensures Acked(level, owners, events, |events|) == Acking(level, owners)
  {
    RepliedOwners(events, |owners|, |owners|);
    RepliedSize(events, |owners|, |owners|);
    AckedReplied(level, owners, events, |owners|);
    SubsetOfSameSize(Replied(events, |owners|), Below(|owners|));
  }

  lemma {:induction false} AckedGrows(level: Level, owners: seq<Owner>, events: seq<Event>, n: nat, m: nat)
    requires Replies(events, |owners|) && n <= m <= |events|
    ensures Acked(level, owners, events, n) <= Acked(level, owners, events, m)
    ensures |Acked(level, owners, events, n)| <= |Acked(level, owners, events, m)|
  {
    hide Report;
    if n < m {
      AckedGrows(level, owners, events, n, m - 1);
    }
    SubsetSize(Acked(level, owners, events, n), Acked(level, owners, events, m));
  }

  /** The first error among the first `n` replies. */
  function FirstError(level: Level, owners: seq<Owner>, events: seq<Event>, n: nat): Option<Error>
    requires n <= |events| && forall i | 0 <= i < |events| && events[i].Reply? :: events[i].owner < |owners|
  {
    if n == 0 then None
    else
      var before := FirstError(level, owners, events, n - 1);
      if before.Some? || !events[n - 1].Reply? then before else Report(level, owners[events[n - 1].owner])
  }

  lemma {:induction false} FirstErrorStays(level: Level, owners: seq<Owner>, events: seq<Event>, n: nat)
    requires Replies(events, |owners|) && 0 < n <= |events| && events[0].Reply?
    requires Report(level, owners[events[0].owner]).Some?
    ensures FirstError(level, owners, events, n) == Report(level, owners[events[0].owner])
  {
    if n > 1 {
      FirstErrorStays(level, owners, events, n - 1);
    }
  }

  /** The number of receives before the first timeout or close. */
  ghost function Heard(events: seq<Event>): (n: nat)
    ensures n <= |events| && (n < |events| ==> !events[n].Reply?)
    ensures forall i | 0 <= i < n :: events[i].Reply?
  {
    if events == [] || !events[0].Reply? then 0 else 1 + Heard(events[1..])
  }

  /** The outcome of a shard write, by the number of successes heard. */
  ghost function Verdict(level: Level, owners: seq<Owner>, events: seq<Event>): Outcome
    requires Replies(events, |owners|)
  {
    var n := Heard(events);
    var acks := |Acked(level, owners, events, n)|;
    if acks > 0 && acks >= Required(level, |owners|) then Success
    else if n < |events| then if events[n].Timeout? then ErrTimeout else ErrWriteFailed
    else if acks > 0 then ErrPartialWrite
    else match FirstError(level, owners, events, n) case Some(e) => Failure(e) case None => ErrWriteFailed
  }

  /** Collects one report per owner and stops at the required number of successes. */
  method WriteToShard(level: Level, owners: seq<Owner>, events: seq<Event>) returns (r: Outcome)
    requires Replies(events, |owners|)
    ensures r == Verdict(level, owners, events)
  {
    hide Report, Acked;
    var required := |owners|;
    match level {
      case Any => required := 1;
      case One => required := 1;
      case Quorum => required := required / 2 + 1;
      case All =>
    }
    var wrote := 0;
    AckedStart(level, owners, events);
    var writeError := None;
    var i := 0;
    while i < |owners|
      invariant 0 <= i <= Heard(events)
      invariant wrote == |Acked(level, owners, events, i)| && (wrote == 0 || wrote < required)
      invariant writeError == FirstError(level, owners, events, i)
    {
      var event := events[i];
      if !event.Reply? {
        return if event.Timeout? then ErrTimeout else ErrWriteFailed;
      }
      AckedNext(level, owners, events, i);
      var report := Report(level, owners[event.owner]);
      if report.Some? {
        if writeError.None? {
          writeError := report;
        }
      } else {
        wrote := wrote + 1;
        if wrote >= required {
          AckedGrows(level, owners, events, i + 1, Heard(events));
          return Success;
        }
      }
      i := i + 1;
    }
    if wrote > 0 {
      return ErrPartialWrite;
    }
    if writeError.Some? {
      return Failure(writeError.value);
    }
    return ErrWriteFailed;
  }

  // ----- What a successful write guarantees -----

  /** The owners among `heard` whose node has taken the points. */
  ghost function StoredBy(owners: seq<Owner>, heard: set<nat>): set<nat>
  {
    set o | o in heard && o < |owners| && Stored(owners[o])
  }

  /** Enough of the owners in `heard` hold the points: a handoff queue counts at level Any only. */
  ghost predicate Reached(level: Level, owners: seq<Owner>, heard: set<nat>)
  {
    match level
    case Any => exists o | o in heard :: o < |owners| && (Stored(owners[o]) || HandedOff(owners[o]))
    case One => exists o | o in heard :: o < |owners| && Stored(owners[o])
    case Quorum => 2 * |StoredBy(owners, heard)| > |owners|
    case All => owners != [] && forall o: nat | o < |owners| :: o in heard && Stored(owners[o])
  }

  lemma CountReaches(level: Level, owners: seq<Owner>, heard: set<nat>, acks: set<nat>)
    requires forall o :: o in acks <==> o in heard && o < |owners| && Report(level, owners[o]).None?
    ensures Reached(level, owners, heard) <==> |acks| > 0 && |acks| >= Required(level, |owners|)
  {
    match level
    case Any => AnyMember(acks);
    case One => AnyMember(acks);
    case Quorum => assert acks == StoredBy(owners, heard);
    case All =>
      AllMembers(acks, |owners|);
      AnyMember(acks);
  }

  lemma AllMembers(s: set<nat>, n: nat)
    requires forall o | o in s :: o < n
    ensures |s| >= n <==> forall o: nat | o < n :: o in s
  {
    SubsetSize(s, Below(n));
    if |s| >= n {
      SubsetOfSameSize(s, Below(n));
    }
    if forall o: nat | o < n :: o in s {
      SubsetSize(Below(n), s);
    }
  }

  lemma AnyMember(s: set<nat>)
    ensures |s| > 0 <==> exists o :: o in s
  {
    if |s| > 0 {
      var o :| o in s;
    }
  }

  /** Undisturbed, the verdict is taken on all owners that report success. */
  lemma VerdictOnAll(level: Level, owners: seq<Owner>, events: seq<Event>)
    requires Replies(events, |owners|) && Undisturbed(events) && owners != []
    ensures
      var r, acks := Verdict(level, owners, events), |Acking(level, owners)|;
      && (r == Success <==> acks > 0 && acks >= Required(level, |owners|))
      && (r == ErrPartialWrite <==> r != Success && acks > 0)
      && (r.Failure? <==> r != Success && acks == 0)
      && (r.Failure? ==> Report(level, owners[events[0].owner]) == Some(r.first))
  {
    AllReplied(level, owners, events);
    hide Report, Acked, Required;
    if |Acking(level, owners)| == 0 {
      assert events[0].owner !in Acking(level, owners);
      FirstErrorStays(level, owners, events, |events|);
    }
  }

  lemma VerdictReaches(level: Level, owners: seq<Owner>, events: seq<Event>)
    requires Replies(events, |owners|) && Undisturbed(events) && owners != []
    ensures
      var r, stored := Verdict(level, owners, events), StoredBy(owners, Below(|owners|));
      && (r == Success <==> Reached(level, owners, Below(|owners|)))
      && (r == ErrPartialWrite <==> r != Success && stored != {})
      && (r.Failure? <==> r != Success && stored == {})
      && (r.Failure? ==> Report(level, owners[events[0].owner]) == Some(r.first))
  {
    VerdictOnAll(level, owners, events);
    hide Verdict, Replies, Undisturbed;
    CountReaches(level, owners, Below(|owners|), Acking(level, owners));
    AcksAndStored(level, owners);
    hide Report, StoredBy, Reached, Acking;
  }

  lemma AcksAndStored(level: Level, owners: seq<Owner>)
    ensures
      var acks, stored := Acking(level, owners), StoredBy(owners, Below(|owners|));
      && stored <= acks && (!level.Any? ==> acks == stored)
      && (acks == {} <==> |acks| == 0) && (stored == {} <==> |stored| == 0)
  {
  }

  lemma ReachedByAll(level: Level, owners: seq<Owner>)
    requires owners != []
    ensures
      var reached, stored := Reached(level, owners, Below(|owners|)), set o: nat | o < |owners| && Stored(owners[o]);
      && stored == StoredBy(owners, Below(|owners|))
      && (level.All? ==> (reached <==> forall o: nat | o < |owners| :: Stored(owners[o])))
      && (level.Quorum? ==> (reached <==> 2 * |stored| > |owners|))
      && (level.One? ==> (reached <==> stored != {}))
      && (level.Any? ==> (reached <==> exists o: nat | o < |owners| :: Stored(owners[o]) || HandedOff(owners[o])))
  {
    hide Stored, HandedOff;
    assert StoredBy(owners, Below(|owners|)) == set o: nat | o < |owners| && Stored(owners[o]);
    hide StoredBy;
    match level
    case One =>
      if Reached(level, owners, Below(|owners|)) {
        var o :| o in Below(|owners|) && Stored(owners[o]);
      }
    case _ =>
  }

  /**
   Without a timeout or a close the owners decide, whatever the order of their
   replies: all of them must have stored the points, or more than half, or one, or
   at level Any one may also have queued them. A write that falls short of that is
   partial if some owner counts, else it fails with the first error.
   */
  lemma VerdictExact(level: Level, owners: seq<Owner>, events: seq<Event>)
    requires Replies(events, |owners|) && Undisturbed(events) && owners != []
    ensures
      var r, stored := Verdict(level, owners, events), set o: nat | o < |owners| && Stored(owners[o]);
      && (level.All? ==> (r == Success <==> forall o: nat | o < |owners| :: Stored(owners[o])))
      && (level.Quorum? ==> (r == Success <==> 2 * |stored| > |owners|))
      && (level.One? ==> (r == Success <==> stored != {}))
      && (level.Any? ==> (r == Success <==> exists o: nat | o < |owners| :: Stored(owners[o]) || HandedOff(owners[o])))
      && (r == ErrPartialWrite <==> r != Success && stored != {})
      && (r.Failure? <==> r != Success && stored == {})
      && (r.Failure? ==> Report(level, owners[events[0].owner]) == Some(r.first))
  {
    hide Verdict, Report, Reached, StoredBy, Replies, Undisturbed, Stored, HandedOff;
    VerdictReaches(level, owners, events);
    ReachedByAll(level, owners);
  }

  /**
   When a timeout or a close cuts the replies short, the write has succeeded if and
   only if the owners heard until then were enough; else it is a timeout or a
   failed write, even if some owner has stored the points.
   */
  lemma InterruptedExact(level: Level, owners: seq<Owner>, events: seq<Event>, n: nat)
    requires Replies(events, |owners|) && n < |events| && !events[n].Reply?
    requires forall i | 0 <= i < n :: events[i].Reply?
    ensures
      var r, heard := Verdict(level, owners, events), set i | 0 <= i < n :: events[i].owner;
      r == if Reached(level, owners, heard) then Success else if events[n].Timeout? then ErrTimeout else ErrWriteFailed
  {
    var heard := set i | 0 <= i < n :: events[i].owner;
    HeardIs(events, n);
    RepliedExactly(events, n);
    assert Replied(events, n) == heard;
    AckedReplied(level, owners, events, n);
    hide Report, Acked, Replied, Reached;
    CountReaches(level, owners, heard, Acked(level, owners, events, n));
  }

  lemma {:induction false} HeardIs(events: seq<Event>, n: nat)
    requires n < |events| && !events[n].Reply? && forall i | 0 <= i < n :: events[i].Reply?
    ensures Heard(events) == n
  {
  }

  /** A remote write that conflicts in its field types is not queued, and counts at no level. */
  lemma ConflictIsFinal(level: Level, handoff: Option<Error>)
    ensures
      var o := Remote(Some(FieldTypeConflict), handoff);
      !Stored(o) && !HandedOff(o) && Report(level, o) == Some(FieldTypeConflict)
  {
  }

  /** A shard write never returns a store's error as it is. */
  lemma NeverPlain(level: Level, owners: seq<Owner>, events: seq<Event>)
    requires Replies(events, |owners|)
    ensures !Verdict(level, owners, events).Plain?
  {
  }

  /** Success is never reported unless enough owners hold the points, even when a timeout cuts the replies short. */
  lemma SuccessIsHeld(level: Level, owners: seq<Owner>, events: seq<Event>)
    requires Replies(events, |owners|) && Verdict(level, owners, events) == Success
    ensures owners != [] && Reached(level, owners, Below(|owners|))
  {
    var acks, all := Acked(level, owners, events, Heard(events)), Below(|owners|);
    AckedReplied(level, owners, events, Heard(events));
    CountReaches(level, owners, acks, acks);
    var o :| o in acks;
    if level.Quorum? {
      SubsetSize(StoredBy(owners, acks), StoredBy(owners, all));
    }
  }

  /** Two quorum writes to the same owners, both successful, have an owner that stored both. */
  lemma QuorumsMeet(a: seq<Owner>, first: seq<Event>, b: seq<Owner>, second: seq<Event>)
    requires |a| == |b| && Replies(first, |a|) && Replies(second, |b|)
    requires Verdict(Quorum, a, first) == Success && Verdict(Quorum, b, second) == Success
    ensures exists o: nat | o < |a| :: Stored(a[o]) && Stored(b[o])
  {
    hide Verdict;
    SuccessIsHeld(Quorum, a, first);
    SuccessIsHeld(Quorum, b, second);
    var all := Below(|a|);
    var x, y := StoredBy(a, all), StoredBy(b, all);
    SubsetSize(x + y, Below(|a|));
    assert |x + y| + |x * y| == |x| + |y|;
    assert x * y != {};
    var o :| o in x * y;
    assert Stored(a[o]) && Stored(b[o]);
  }
}
