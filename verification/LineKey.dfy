/**
 The key of a line protocol point: a measurement and its tags. Scanning brings
 the tags into key order and rejects duplicates, so that a series has one key
 however its tags were written.
 */
module LineKey {
  import opened Wrappers
  import opened Bytes
  import opened Scanner
  import opened TagSort

  datatype ScanError =
    | MissingMeasurement | MissingFields | MissingTagKey | MissingTagValue | InvalidTagFormat | DuplicateTags

  const KEY_STOPS: set<byte> := {SPACE, COMMA, EQUALS}
  const NAME_STOPS: set<byte> := {COMMA, SPACE}

  // ----- What a scan of the tags finds -----

  /** The end of the tag that starts at `i`. */
  function TagEnd(s: Bytes, i: nat): (r: Result<nat, ScanError>)
    requires i <= |s|
    ensures r.Ok? ==> i < r.value < |s| && (s[r.value] == COMMA || s[r.value] == SPACE)
  {
    if i == |s| || s[i] in KEY_STOPS then Err(MissingTagKey)
    else
      var k := NextStop(s, i + 1, KEY_STOPS);
      if k == |s| || s[k] != EQUALS then Err(MissingTagValue)
      else if k + 1 == |s| || s[k + 1] in NAME_STOPS then Err(MissingTagValue)
      else
        var e := NextStop(s, k + 2, KEY_STOPS);
        if e == |s| then Err(MissingFields) else if s[e] == EQUALS then Err(InvalidTagFormat) else Ok(e)
  }

  /** The tags found from `i` on and the position of the space after the last one. */
  datatype Tags = Tags(tokens: seq<Bytes>, end: nat)

  function SplitTags(s: Bytes, i: nat): (r: Result<Tags, ScanError>)
    requires i <= |s|
    ensures r.Ok? ==> r.value.tokens != [] && i < r.value.end < |s| && s[r.value.end] == SPACE
    decreases |s| - i
  {
    var e := TagEnd(s, i);
    if e.Err? then Err(e.error)
    else if s[e.value] == SPACE then Ok(Tags([s[i..e.value]], e.value))
    else
      var others := SplitTags(s, e.value + 1);
      if others.Err? then others else Ok(Tags([s[i..e.value]] + others.value.tokens, others.value.end))
  }

  /** The key of a tag: up to the first unescaped equals sign. */
  function TagKey(token: Bytes): Bytes
  {
    token[..ScanEnd(token, 0, EQUALS)]
  }

  /** A comma before each tag. */
  function Join(tokens: seq<Bytes>): Bytes
  {
    if tokens == [] then [] else Join(tokens[..|tokens| - 1]) + [COMMA] + tokens[|tokens| - 1]
  }

  /** The tag counts on which the scan runs off the end of its index table: 100, 200, 400, ... */
  predicate Overruns(n: nat)
  {
    n == 100 || (n > 100 && n % 2 == 0 && Overruns(n / 2))
  }

  datatype KeyScan = Key(end: nat, key: Bytes) | Failed(error: ScanError) | Crashed

  /** What scanning yields once the measurement has ended at the comma at `m`. */
  ghost function TagsResult(s: Bytes, start: nat, m: nat): KeyScan
    requires start <= m < |s|
  {
    var tags := SplitTags(s, m + 1);
    if tags.Err? then Failed(tags.error)
    else if Overruns(|tags.value.tokens|) then Crashed
    else if !DistinctKeys(tags.value.tokens, TagKey) then Failed(DuplicateTags)
    else Key(tags.value.end, s[start..m] + Join(SortBy(tags.value.tokens, TagKey)))
  }

  /** What scanning a key yields. */
  ghost function ScanResult(s: Bytes, from: nat): KeyScan
    requires from <= |s|
  {
    var start := AfterBlanks(s, from);
    if start == |s| || s[start] == COMMA then Failed(MissingMeasurement)
    else
      var m := NextStop(s, start + 1, NAME_STOPS);
      if m == |s| then Failed(MissingFields)
      else if s[m] == SPACE then Key(m, s[start..m])
      else TagsResult(s, start, m)
  }

  // ----- Tags taken by themselves -----

  /** A well-formed tag: a key, an unescaped equals sign and a value, with nothing that would end it early. */
  predicate IsTag(t: Bytes)
  {
    && t != [] && t[0] !in KEY_STOPS && t[|t| - 1] != BACKSLASH
    && var k := NextStop(t, 1, KEY_STOPS);
    && k + 1 < |t| && t[k] == EQUALS && t[k + 1] !in NAME_STOPS
    && NextStop(t, k + 2, KEY_STOPS) == |t|
  }

  /** Inside a piece that ends before an unescaped stop, scanning the whole is scanning the piece. */
  lemma StopInPiece(s: Bytes, i: nat, e: nat, p: nat, stops: set<byte>)
    requires i < e < |s| && 1 <= p <= e - i && s[e] in stops && s[e - 1] != BACKSLASH
    ensures NextStop(s, i + p, stops) == i + NextStop(s[i..e], p, stops)
  {
    var t := s[i..e];
    var j := NextStop(t, p, stops);
    StopsThere(t, p, stops);
    forall k | i + p <= k < i + j ensures s[k] in stops ==> s[k - 1] == BACKSLASH {
      assert s[k] == t[k - i] && s[k - 1] == t[k - i - 1];
    }
    StopUnique(s, i + p, i + j, stops);
  }

  /** A tag found in the data is a well-formed piece before a comma or a space. */
  lemma TagEndGivesTag(s: Bytes, i: nat)
    requires i <= |s| && TagEnd(s, i).Ok?
    ensures IsTag(s[i..TagEnd(s, i).value])
  {
    hide NextStop;
    var e := TagEnd(s, i).value;
    var t := s[i..e];
    StopInPiece(s, i, e, 1, KEY_STOPS);
    var k := NextStop(t, 1, KEY_STOPS);
    assert t[0] == s[i] && t[|t| - 1] == s[e - 1] && t[k] == s[i + k] && t[k + 1] == s[i + k + 1];
    StopInPiece(s, i, e, k + 2, KEY_STOPS);
  }

  /** A well-formed piece before a comma or a space is found as a tag. */
  lemma TagGivesTagEnd(s: Bytes, i: nat, e: nat)
    requires i < e < |s| && IsTag(s[i..e]) && s[e] in NAME_STOPS
    ensures TagEnd(s, i) == Ok(e)
  {
    hide NextStop;
    var t := s[i..e];
    assert t[0] == s[i] && t[|t| - 1] == s[e - 1];
    StopInPiece(s, i, e, 1, KEY_STOPS);
    var k := NextStop(t, 1, KEY_STOPS);
    assert t[k] == s[i + k] && t[k + 1] == s[i + k + 1];
    StopInPiece(s, i, e, k + 2, KEY_STOPS);
  }

  lemma TagKeyEnds(t: Bytes)
    requires IsTag(t)
    ensures TagKey(t) == t[..NextStop(t, 1, KEY_STOPS)]
  {
    StopsThere(t, 1, KEY_STOPS);
    ScanEndUnique(t, 0, EQUALS, NextStop(t, 1, KEY_STOPS));
  }

  /** The key read in place, as the sort compares it. */
  function KeyAt(s: Bytes, i: nat): Bytes
    requires i <= |s|
  {
    s[i..ScanEnd(s, i, EQUALS)]
  }

  lemma KeyAtIsTagKey(s: Bytes, i: nat)
    requires i <= |s| && TagEnd(s, i).Ok?
    ensures KeyAt(s, i) == TagKey(s[i..TagEnd(s, i).value])
  {
    hide NextStop, ScanEnd, TagKey, IsTag;
    var e := TagEnd(s, i).value;
    TagEndGivesTag(s, i);
    TagKeyEnds(s[i..e]);
    StopInPiece(s, i, e, 1, KEY_STOPS);
    var k := NextStop(s, i + 1, KEY_STOPS);
    StopsThere(s, i + 1, KEY_STOPS);
    ScanEndUnique(s, i, EQUALS, k);
    assert k <= e;
    SliceOfSlice(s, i, k, e);
  }

  lemma SliceOfSlice(s: Bytes, i: nat, k: nat, e: nat)
    requires i <= k <= e <= |s|
    ensures s[i..e][..k - i] == s[i..k]
  {
  }

  // ----- The scanners -----

  method ScanMeasurement(buf: Bytes, start: nat) returns (j: nat, err: Result<bool, ScanError>)
    requires start <= |buf|
    ensures start == |buf| || buf[start] == COMMA ==> err == Err(MissingMeasurement)
    ensures start < |buf| && buf[start] != COMMA ==>
              var m := NextStop(buf, start + 1, NAME_STOPS);
              if m == |buf| then err == Err(MissingFields)
              else err == Ok(buf[m] == COMMA) && j == if buf[m] == COMMA then m + 1 else m
  {
    j := start;
    if start >= |buf| || buf[start] == COMMA {
      return j, Err(MissingMeasurement);
    }
    while true
      invariant start <= j < |buf| && NextStop(buf, j + 1, NAME_STOPS) == NextStop(buf, start + 1, NAME_STOPS)
      decreases |buf| - j
    {
      j := j + 1;
      if j >= |buf| {
        return j, Err(MissingFields);
      }
      if buf[j - 1] == BACKSLASH {
        continue;
      }
      if buf[j] == COMMA {
        return j + 1, Ok(true);
      }
      if buf[j] == SPACE {
        return j, Ok(false);
      }
    }
  }

  /** The position after the equals sign of the tag key at `start`. */
  method ScanTagsKey(buf: Bytes, start: nat) returns (j: nat, err: Result<bool, ScanError>)
    requires start <= |buf|
    ensures start == |buf| || buf[start] in KEY_STOPS ==> err == Err(MissingTagKey)
    ensures start < |buf| && buf[start] !in KEY_STOPS ==>
              var k := NextStop(buf, start + 1, KEY_STOPS);
              if k == |buf| || buf[k] != EQUALS then err == Err(MissingTagValue)
              else err.Ok? && j == k + 1
  {
    j := start;
    if start >= |buf| || buf[start] == SPACE || buf[start] == COMMA || buf[start] == EQUALS {
      return j, Err(MissingTagKey);
    }
    while true
      invariant start <= j < |buf| && NextStop(buf, j + 1, KEY_STOPS) == NextStop(buf, start + 1, KEY_STOPS)
      decreases |buf| - j
    {
      j := j + 1;
      if j >= |buf| || ((buf[j] == SPACE || buf[j] == COMMA) && buf[j - 1] != BACKSLASH) {
        return j, Err(MissingTagValue);
      }
      if buf[j] == EQUALS && buf[j - 1] != BACKSLASH {
        return j + 1, Ok(true);
      }
    }
  }

  /** Where the next tag starts, or with `false` the space that ends the tags. */
  method ScanTagsValue(buf: Bytes, start: nat) returns (j: nat, err: Result<bool, ScanError>)
    requires start <= |buf|
    ensures start == |buf| || buf[start] in NAME_STOPS ==> err == Err(MissingTagValue)
    ensures start < |buf| && buf[start] !in NAME_STOPS ==>
              var e := NextStop(buf, start + 1, KEY_STOPS);
              if e == |buf| then err == Err(MissingFields)
              else if buf[e] == EQUALS then err == Err(InvalidTagFormat)
              else err == Ok(buf[e] == COMMA) && j == if buf[e] == COMMA then e + 1 else e
  {
    j := start;
    if start >= |buf| || buf[start] == COMMA || buf[start] == SPACE {
      return j, Err(MissingTagValue);
    }
    while true
      invariant start <= j < |buf| && NextStop(buf, j + 1, KEY_STOPS) == NextStop(buf, start + 1, KEY_STOPS)
      decreases |buf| - j
    {
      j := j + 1;
      if j >= |buf| {
        return j, Err(MissingFields);
      }
      if buf[j] == EQUALS && buf[j - 1] != BACKSLASH {
        return j, Err(InvalidTagFormat);
      }
      if buf[j] == COMMA && buf[j - 1] != BACKSLASH {
        return j + 1, Ok(true);
      }
      if buf[j] == SPACE && buf[j - 1] != BACKSLASH {
        return j, Ok(false);
      }
    }
  }

  // ----- The table of tag positions -----

  /** `idx` holds the start of each tag, and one past the space that ends the last one. */
  ghost predicate Indexes(s: Bytes, idx: seq<nat>, tokens: seq<Bytes>)
  {
    |idx| == |tokens| + 1 && forall k | 0 <= k < |tokens| :: IndexesOne(s, idx[k], idx[k + 1], tokens[k])
  }

  ghost predicate IndexesOne(s: Bytes, from: nat, next: nat, token: Bytes)
  {
    from < next <= |s| && TagEnd(s, from) == Ok(next - 1) && token == s[from..next - 1]
  }

  /** The tags found so far in front of the ones still to come. */
  function Before(tokens: seq<Bytes>, r: Result<Tags, ScanError>): Result<Tags, ScanError>
  {
    if r.Err? then r else Ok(Tags(tokens + r.value.tokens, r.value.end))
  }

  /** Table sizes double from 100; a count beyond half the size is an overrun only if it is the size. */
  lemma {:induction false} OverrunsOnce(size: nat, n: nat)
    requires Overruns(size) && (size == 100 || size / 2 < n) && n <= size
    ensures Overruns(n) <==> n == size
  {
    if size > 100 && n < size && n % 2 == 0 {
      OverrunsOnce(size / 2, n / 2);
    }
  }

  datatype Indexed = Indexed(end: nat, commas: nat) | IndexFailed(error: ScanError) | IndexOverrun

  /** A table twice the size with the same contents in front. */
  method Grow(indices: array<nat>) returns (bigger: array<nat>)
    ensures fresh(bigger) && bigger.Length == 2 * indices.Length && bigger[..indices.Length] == indices[..]
  {
    bigger := new nat[2 * indices.Length](_ => 0);
    for i := 0 to indices.Length
      invariant forall j | 0 <= j < i :: bigger[j] == indices[j]
    {
      bigger[i] := indices[i];
    }
  }

  lemma IndexNone(s: Bytes, i: nat)
    ensures Indexes(s, [i], [])
  {
  }

  lemma IndexNext(s: Bytes, tokens: seq<Bytes>, idx: seq<nat>, i: nat, e: nat)
    requires i <= |s| && TagEnd(s, i) == Ok(e) && idx != [] && idx[|idx| - 1] == i && Indexes(s, idx, tokens)
    ensures Indexes(s, idx + [e + 1], tokens + [s[i..e]])
  {
    var idx', tokens' := idx + [e + 1], tokens + [s[i..e]];
    forall k | 0 <= k < |tokens'| ensures IndexesOne(s, idx'[k], idx'[k + 1], tokens'[k]) {
      if k < |tokens| {
        assert IndexesOne(s, idx[k], idx[k + 1], tokens[k]);
      }
    }
  }

  /** What the tag at `i` says about all the tags. */
  lemma SplitNext(s: Bytes, tokens: seq<Bytes>, i: nat)
    requires i <= |s|
    ensures TagEnd(s, i).Err? ==> Before(tokens, SplitTags(s, i)) == Err(TagEnd(s, i).error)
    ensures TagEnd(s, i).Ok? ==>
              var e := TagEnd(s, i).value;
              Before(tokens, SplitTags(s, i)) ==
              if s[e] == SPACE then Ok(Tags(tokens + [s[i..e]], e)) else Before(tokens + [s[i..e]], SplitTags(s, e + 1))
  {
    var end := TagEnd(s, i);
    if end.Ok? && s[end.value] == COMMA {
      var e := end.value;
      var others := SplitTags(s, e + 1);
      if others.Ok? {
        assert tokens + ([s[i..e]] + others.value.tokens) == (tokens + [s[i..e]]) + others.value.tokens;
      }
    }
  }

  lemma AllIndexed(buf: Bytes, start: nat, tokens: seq<Bytes>, end: nat, r: Indexed, table: seq<nat>)
    requires start <= |buf| && SplitTags(buf, start) == Ok(Tags(tokens, end))
    requires if Overruns(|tokens|) then r == IndexOverrun
             else r == Indexed(end, |tokens|) && |tokens| < |table| &&
                  Indexes(buf, table[..|tokens| + 1], tokens) && table[|tokens|] == end + 1
    ensures TagsIndexed(buf, start, r, table)
  {
  }

  /** One tag: its key and its value, or the error that `TagEnd` reports. */
  method ScanTag(buf: Bytes, i: nat) returns (j: nat, err: Result<bool, ScanError>)
    requires i <= |buf|
    ensures TagEnd(buf, i).Err? ==> err == Err(TagEnd(buf, i).error)
    ensures TagEnd(buf, i).Ok? ==>
              var e := TagEnd(buf, i).value;
              err == Ok(buf[e] == COMMA) && j == if buf[e] == COMMA then e + 1 else e
  {
    j, err := ScanTagsKey(buf, i);
    if err.Ok? {
      j, err := ScanTagsValue(buf, j);
    }
  }

  /** The size of a table that holds `n` positions: doubled from 100 only when it was full. */
  ghost predicate TableSize(size: nat, n: nat)
  {
    Overruns(size) && n <= size && (size == 100 || size / 2 < n)
  }

  /** Writes position `i` at the end of the table, growing it if it is full. */
  method Record(indices: array<nat>, commas: nat, i: nat) returns (table: array<nat>)
    requires TableSize(indices.Length, commas)
    modifies indices
    ensures table == indices || fresh(table)
    ensures commas < table.Length && TableSize(table.Length, commas + 1)
    ensures table[..commas + 1] == old(indices[..commas]) + [i]
  {
    table := indices;
    if commas >= indices.Length {
      table := Grow(indices);
      assert table[..commas] == indices[..commas];
    }
    table[commas] := i;
  }

  /** What `ScanTags` owes its caller. */
  ghost predicate TagsIndexed(buf: Bytes, start: nat, r: Indexed, table: seq<nat>)
    requires start <= |buf|
  {
    match SplitTags(buf, start)
    case Err(error) => r == IndexFailed(error)
    case Ok(tags) =>
      if Overruns(|tags.tokens|) then r == IndexOverrun
      else
        && r == Indexed(tags.end, |tags.tokens|) && |tags.tokens| < |table|
        && Indexes(buf, table[..|tags.tokens| + 1], tags.tokens)
        && table[|tags.tokens|] == tags.end + 1
  }

  /** Finds all tags, recording where each starts in a table that grows when a tag does not fit. */
  method ScanTags(buf: Bytes, start: nat) returns (r: Indexed, indices: array<nat>)
    requires start <= |buf|
    ensures fresh(indices) && TagsIndexed(buf, start, r, indices[..])
  {
    hide SplitTags, TagEnd, Indexes;
    indices := new nat[100](_ => 0);
    var i, commas := start, 0;
    IndexNone(buf, i);
    assert indices[..0] + [i] == [i];
    ghost var tokens: seq<Bytes> := [];
    assert SplitTags(buf, start).Ok? ==> [] + SplitTags(buf, start).value.tokens == SplitTags(buf, start).value.tokens;
    while true
      invariant i <= |buf| && commas == |tokens| && fresh(indices) && TableSize(indices.Length, commas)
      invariant Indexes(buf, indices[..commas] + [i], tokens)
      invariant SplitTags(buf, start) == Before(tokens, SplitTags(buf, i))
      decreases |buf| - i
    {
      ghost var idx := indices[..commas] + [i];
      SplitNext(buf, tokens, i);
      indices := Record(indices, commas, i);
      commas := commas + 1;
      var j, err := ScanTag(buf, i);
      if err.Err? {
        return IndexFailed(err.error), indices;
      }
      ghost var e := TagEnd(buf, i).value;
      IndexNext(buf, tokens, idx, i, e);
      tokens := tokens + [buf[i..e]];
      if !err.value {
        r := EndTags(indices, commas, j);
        assert indices[..][..commas] == indices[..commas];
        assert commas < indices.Length ==> indices[..][..commas + 1] == indices[..commas + 1];
        AllIndexed(buf, start, tokens, e, r, indices[..]);
        return;
      }
      i := j;
    }
  }

  /** Writes one past the end of the last tag, without the check that grows the table. */
  method EndTags(indices: array<nat>, commas: nat, end: nat) returns (r: Indexed)
    requires TableSize(indices.Length, commas)
    modifies indices
    ensures if Overruns(commas) then r == IndexOverrun
            else && r == Indexed(end, commas) && commas < indices.Length
                 && indices[..commas + 1] == old(indices[..commas]) + [end + 1]
  {
    OverrunsOnce(indices.Length, commas);
    if commas >= indices.Length {
      return IndexOverrun;
    }
    indices[commas] := end + 1;
    return Indexed(end, commas);
  }

  // ----- Sorting the positions in place -----

  function ByKeyAt(buf: Bytes): nat -> Bytes
  {
    (i: nat) => if i <= |buf| then KeyAt(buf, i) else []
  }

  /** Compares the keys of the tags at two positions. */
  method Less(buf: Bytes, i: nat, j: nat) returns (less: bool)
    requires i <= |buf| && j <= |buf|
    ensures less <==> Compare(ByKeyAt(buf)(i), ByKeyAt(buf)(j)) < 0
  {
    var _, a := ScanTo(buf, i, EQUALS);
    var _, b := ScanTo(buf, j, EQUALS);
    return Compare(a, b) < 0;
  }

  /** Insertion puts `x` before the trailing elements with a greater key. */
  lemma {:induction false} InsertPlace(s: seq<nat>, x: nat, j: nat, key: nat -> Bytes)
    requires j <= |s| && (j == 0 || Compare(key(x), key(s[j - 1])) >= 0)
    requires forall k | j <= k < |s| :: Compare(key(x), key(s[k])) < 0
    ensures InsertBy(s, x, key) == s[..j] + [x] + s[j..]
  {
    if j < |s| {
      var init := s[..|s| - 1];
      InsertPlace(init, x, j, key);
      assert init[..j] == s[..j] && s[j..] == init[j..] + [s[|s| - 1]];
    }
  }

  function Placed(s: seq<nat>, x: nat, j: nat): seq<nat>
    requires j <= |s|
  {
    s[..j] + [x] + s[j..]
  }

  lemma PlacedSwap(s: seq<nat>, x: nat, j: nat)
    requires 0 < j <= |s|
    ensures Placed(s, x, j)[j - 1] == s[j - 1] && Placed(s, x, j)[j] == x
    ensures Placed(s, x, j)[j := s[j - 1]][j - 1 := x] == Placed(s, x, j - 1)
  {
  }

  /** The inner loop: moves the position at `i` down to its place among the sorted ones before it. */
  method SiftDown(buf: Bytes, indices: array<nat>, i: nat)
    requires i < indices.Length && forall k | 0 <= k <= i :: indices[k] <= |buf|
    modifies indices
    ensures indices[..i + 1] == InsertBy(old(indices[..i]), old(indices[i]), ByKeyAt(buf))
    ensures indices[i + 1..] == old(indices[i + 1..])
  {
    hide InsertBy, Compare, ByKeyAt;
    ghost var s, x := indices[..i], indices[i];
    ghost var tail := indices[i + 1..];
    var j := i;
    while j > 0
      invariant 0 <= j <= i && indices[..i + 1] == Placed(s, x, j) && indices[i + 1..] == tail
      invariant forall k | j <= k < i :: Compare(ByKeyAt(buf)(x), ByKeyAt(buf)(s[k])) < 0
    {
      ghost var t := indices[..i + 1];
      PlacedSwap(s, x, j);
      assert indices[j] == t[j] && indices[j - 1] == t[j - 1];
      var less := Less(buf, indices[j], indices[j - 1]);
      if !less {
        break;
      }
      indices[j], indices[j - 1] := indices[j - 1], indices[j];
      assert indices[..i + 1] == t[j := s[j - 1]][j - 1 := x];
      j := j - 1;
    }
    InsertPlace(s, x, j, ByKeyAt(buf));
  }

  lemma SortStep(s: seq<nat>, i: nat, key: nat -> Bytes)
    requires i < |s|
    ensures SortBy(s[..i + 1], key) == InsertBy(SortBy(s[..i], key), s[i], key)
  {
    assert s[..i + 1][..i] == s[..i];
  }

  lemma SortedWithin(s: seq<nat>, key: nat -> Bytes, bound: nat)
    requires forall k | 0 <= k < |s| :: s[k] <= bound
    ensures forall k | 0 <= k < |s| :: SortBy(s, key)[k] <= bound
  {
    SortKeeps(s, key);
    var r := SortBy(s, key);
    forall k | 0 <= k < |s| ensures r[k] <= bound {
      assert r[k] in multiset(r);
      assert r[k] in s;
    }
  }

  method InsertionSort(buf: Bytes, indices: array<nat>, n: nat)
    requires n <= indices.Length && forall k | 0 <= k < n :: indices[k] <= |buf|
    modifies indices
    ensures indices[..n] == SortBy(old(indices[..n]), ByKeyAt(buf))
  {
    hide InsertBy, ByKeyAt;
    ghost var s := indices[..n];
    for i := 0 to n
      invariant indices[..i] == SortBy(s[..i], ByKeyAt(buf))
      invariant indices[i..] == old(indices[i..])
    {
      SortedWithin(s[..i], ByKeyAt(buf), |buf|);
      assert forall k | 0 <= k < i :: indices[k] == indices[..i][k];
      assert indices[i] == indices[i..][0] == s[i] && indices[i + 1..] == indices[i..][1..];
      SortStep(s, i, ByKeyAt(buf));
      SiftDown(buf, indices, i);
    }
    assert s[..n] == s;
  }

  // ----- From positions to tags -----

  function TokenAt(s: Bytes, i: nat): Bytes
  {
    if i <= |s| && TagEnd(s, i).Ok? then s[i..TagEnd(s, i).value] else []
  }

  function TokensAt(s: Bytes, idx: seq<nat>): (r: seq<Bytes>)
    ensures |r| == |idx|
  {
    if idx == [] then [] else TokensAt(s, idx[..|idx| - 1]) + [TokenAt(s, idx[|idx| - 1])]
  }

  ghost predicate AllTags(s: Bytes, idx: seq<nat>)
  {
    forall k | 0 <= k < |idx| :: idx[k] <= |s| && TagEnd(s, idx[k]).Ok?
  }

  lemma {:induction false} TokensAtOne(s: Bytes, idx: seq<nat>, k: nat)
    requires k < |idx|
    ensures TokensAt(s, idx)[k] == TokenAt(s, idx[k])
  {
    if k < |idx| - 1 {
      TokensAtOne(s, idx[..|idx| - 1], k);
    }
  }

  lemma IndexesGiveTokens(s: Bytes, idx: seq<nat>, tokens: seq<Bytes>)
    requires Indexes(s, idx, tokens)
    ensures AllTags(s, idx[..|tokens|]) && TokensAt(s, idx[..|tokens|]) == tokens
  {
    var starts := idx[..|tokens|];
    forall k | 0 <= k < |tokens|
      ensures starts[k] <= |s| && TagEnd(s, starts[k]).Ok? && TokensAt(s, starts)[k] == tokens[k]
    {
      assert IndexesOne(s, idx[k], idx[k + 1], tokens[k]);
      TokensAtOne(s, starts, k);
    }
  }

  lemma KeysCorrespond(s: Bytes, i: nat)
    requires i <= |s| && TagEnd(s, i).Ok?
    ensures ByKeyAt(s)(i) == TagKey(TokenAt(s, i))
  {
    KeyAtIsTagKey(s, i);
  }

  lemma {:induction false} InsertCorresponds(s: Bytes, idx: seq<nat>, i: nat)
    requires AllTags(s, idx) && i <= |s| && TagEnd(s, i).Ok?
    ensures TokensAt(s, InsertBy(idx, i, ByKeyAt(s))) == InsertBy(TokensAt(s, idx), TokenAt(s, i), TagKey)
  {
    KeysCorrespond(s, i);
    if idx == [] {
      assert TokensAt(s, [i]) == TokensAt(s, []) + [TokenAt(s, i)];
    } else {
      var init, last := idx[..|idx| - 1], idx[|idx| - 1];
      var toks := TokensAt(s, idx);
      assert toks[..|toks| - 1] == TokensAt(s, init) && toks[|toks| - 1] == TokenAt(s, last);
      KeysCorrespond(s, last);
      if Compare(ByKeyAt(s)(i), ByKeyAt(s)(last)) >= 0 {
        assert (idx + [i])[..|idx|] == idx;
      } else {
        InsertCorresponds(s, init, i);
        var r := InsertBy(init, i, ByKeyAt(s));
        assert (r + [last])[..|r|] == r;
      }
    }
  }

  /** Sorting positions by the keys found there is sorting the tags by key. */
  lemma {:induction false} SortCorresponds(s: Bytes, idx: seq<nat>)
    requires AllTags(s, idx)
    ensures AllTags(s, SortBy(idx, ByKeyAt(s)))
    ensures TokensAt(s, SortBy(idx, ByKeyAt(s))) == SortBy(TokensAt(s, idx), TagKey)
  {
    var r := SortBy(idx, ByKeyAt(s));
    SortKeeps(idx, ByKeyAt(s));
    forall k | 0 <= k < |r| ensures r[k] <= |s| && TagEnd(s, r[k]).Ok? {
      assert r[k] in multiset(r);
      assert r[k] in idx;
    }
    if idx != [] {
      var init, last := idx[..|idx| - 1], idx[|idx| - 1];
      SortCorresponds(s, init);
      InsertCorresponds(s, SortBy(init, ByKeyAt(s)), last);
      var toks := TokensAt(s, idx);
      assert toks[..|toks| - 1] == TokensAt(s, init) && toks[|toks| - 1] == TokenAt(s, last);
    }
  }

  // ----- The scanned region is the rendered tags -----

  lemma {:induction false} JoinFront(t: Bytes, ts: seq<Bytes>)
    ensures Join([t] + ts) == [COMMA] + t + Join(ts)
  {
    if ts == [] {
      assert [t] + ts == [t] && [t][..0] == [] && Join([]) == [];
      assert Join([t]) == [] + [COMMA] + t;
    } else {
      var all, init := [t] + ts, ts[..|ts| - 1];
      assert all[..|all| - 1] == [t] + init && all[|all| - 1] == ts[|ts| - 1];
      JoinFront(t, init);
    }
  }

  lemma JoinNone()
    ensures Join([]) == []
  {
  }

  lemma RegionParts(s: Bytes, i: nat, e: nat, end: nat)
    requires 1 <= i <= e <= end <= |s|
    ensures s[i - 1..end] == [s[i - 1]] + s[i..e] + s[e..end]
  {
  }

  lemma {:induction false} SplitRenders(s: Bytes, i: nat)
    requires 1 <= i <= |s| && s[i - 1] == COMMA && SplitTags(s, i).Ok?
    ensures s[i - 1..SplitTags(s, i).value.end] == Join(SplitTags(s, i).value.tokens)
    decreases |s| - i
  {
    hide TagEnd, Join;
    var e := TagEnd(s, i).value;
    var t := s[i..e];
    if s[e] == SPACE {
      RegionParts(s, i, e, e);
      JoinFront(t, []);
      JoinNone();
      assert [t] + [] == [t];
    } else {
      var others := SplitTags(s, e + 1).value;
      SplitRenders(s, e + 1);
      RegionParts(s, i, e, others.end);
      JoinFront(t, others.tokens);
    }
  }

  lemma {:induction false} JoinInsertSize(s: seq<Bytes>, x: Bytes)
    ensures |Join(InsertBy(s, x, TagKey))| == |Join(s)| + 1 + |x|
  {
    if s == [] || Compare(TagKey(x), TagKey(s[|s| - 1])) >= 0 {
      assert (s + [x])[..|s|] == s;
    } else {
      JoinInsertSize(s[..|s| - 1], x);
      var r := InsertBy(s[..|s| - 1], x, TagKey);
      assert (r + [s[|s| - 1]])[..|r|] == r;
    }
  }

  /** Sorting does not change the size of the rendering. */
  lemma {:induction false} JoinSortSize(s: seq<Bytes>)
    ensures |Join(SortBy(s, TagKey))| == |Join(s)|
  {
    if s != [] {
      JoinSortSize(s[..|s| - 1]);
      JoinInsertSize(SortBy(s[..|s| - 1], TagKey), s[|s| - 1]);
    }
  }

  /** A tag ends at the first unescaped comma or space. */
  lemma TagEndIsStop(s: Bytes, i: nat)
    requires i <= |s| && TagEnd(s, i).Ok?
    ensures s[i] !in NAME_STOPS && NextStop(s, i + 1, NAME_STOPS) == TagEnd(s, i).value
  {
    hide NextStop;
    var e := TagEnd(s, i).value;
    var k := NextStop(s, i + 1, KEY_STOPS);
    StopsThere(s, i + 1, KEY_STOPS);
    StopsThere(s, k + 2, KEY_STOPS);
    StopUnique(s, i + 1, e, NAME_STOPS);
  }
}
