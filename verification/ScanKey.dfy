/**
 Scanning the key of a point: the method, and the theorems that make its result
 canonical.
 */
module ScanKey {
  import opened Wrappers
  import opened Bytes
  import opened Scanner
  import opened TagSort
  import opened LineKey

  lemma {:induction false} AdjacentStrict(s: seq<Bytes>)
    requires forall j | 0 <= j < |s| - 1 :: Compare(TagKey(s[j]), TagKey(s[j + 1])) < 0
    ensures StrictlySorted(s, TagKey)
  {
    if |s| > 1 {
      var init := s[..|s| - 1];
      forall j | 0 <= j < |init| - 1 ensures Compare(TagKey(init[j]), TagKey(init[j + 1])) < 0 {
        assert init[j] == s[j] && init[j + 1] == s[j + 1];
      }
      AdjacentStrict(init);
      forall i | 0 <= i < |s| - 1 ensures Compare(TagKey(s[i]), TagKey(s[|s| - 1])) < 0 {
        assert Compare(TagKey(s[|s| - 2]), TagKey(s[|s| - 1])) < 0;
        if i < |s| - 2 {
          assert Compare(TagKey(init[i]), TagKey(init[|s| - 2])) < 0;
          CompareChains(TagKey(s[i]), TagKey(s[|s| - 2]), TagKey(s[|s| - 1]));
        }
      }
      forall i, j | 0 <= i < j < |s| ensures Compare(TagKey(s[i]), TagKey(s[j])) < 0 {
        if j < |s| - 1 {
          assert Compare(TagKey(init[i]), TagKey(init[j])) < 0;
        }
      }
    }
  }

  lemma StrictIsDistinct(s: seq<Bytes>)
    requires StrictlySorted(s, TagKey)
    ensures DistinctKeys(s, TagKey) && Sorted(s, TagKey)
  {
    forall i, j | 0 <= i < j < |s| ensures TagKey(s[i]) != TagKey(s[j]) {
      CompareEqual(TagKey(s[i]), TagKey(s[j]));
    }
  }

  datatype Order = InOrder | OutOfOrder | Duplicate

  /** The first `n` neighbours are in strictly increasing key order. */
  ghost predicate Rising(tokens: seq<Bytes>, n: nat)
    requires n == 0 || n < |tokens|
  {
    forall k | 0 <= k < n :: Compare(TagKey(tokens[k]), TagKey(tokens[k + 1])) < 0
  }

  lemma RisingNone(tokens: seq<Bytes>)
    ensures Rising(tokens, 0)
  {
  }

  lemma RisingNext(tokens: seq<Bytes>, n: nat)
    requires n + 1 < |tokens| && Rising(tokens, n) && Compare(TagKey(tokens[n]), TagKey(tokens[n + 1])) < 0
    ensures Rising(tokens, n + 1)
  {
  }

  lemma AllRising(tokens: seq<Bytes>, n: nat)
    requires (n == 0 || n < |tokens|) && n >= |tokens| - 1 && Rising(tokens, n)
    ensures StrictlySorted(tokens, TagKey) && DistinctKeys(tokens, TagKey)
  {
    AdjacentStrict(tokens);
    StrictIsDistinct(tokens);
  }

  /** Compares the keys of a tag and of the next one. */
  method CompareNext(buf: Bytes, i: nat, j: nat, k: nat, ghost left: Bytes, ghost right: Bytes) returns (cmp: int)
    requires IndexesOne(buf, i, j, left) && IndexesOne(buf, j, k, right)
    ensures cmp == Compare(TagKey(left), TagKey(right))
  {
    var _, a := ScanTo(buf[i..j - 1], 0, EQUALS);
    var _, b := ScanTo(buf[j..k - 1], 0, EQUALS);
    cmp := Compare(a, b);
  }

  lemma Disorder(tokens: seq<Bytes>, j: nat)
    requires j + 1 < |tokens| && Compare(TagKey(tokens[j]), TagKey(tokens[j + 1])) > 0
    ensures !Sorted(tokens, TagKey)
  {
  }

  lemma EqualNeighbours(tokens: seq<Bytes>, j: nat)
    requires j + 1 < |tokens| && Compare(TagKey(tokens[j]), TagKey(tokens[j + 1])) == 0
    ensures !DistinctKeys(tokens, TagKey)
  {
    CompareEqual(TagKey(tokens[j]), TagKey(tokens[j + 1]));
  }

  lemma IndexedAt(buf: Bytes, idx: seq<nat>, tokens: seq<Bytes>, k: nat)
    requires Indexes(buf, idx, tokens) && k < |tokens|
    ensures IndexesOne(buf, idx[k], idx[k + 1], tokens[k])
  {
  }

  /** The first pass: compares each tag with the next until they are out of order. */
  method CheckOrder(buf: Bytes, indices: array<nat>, commas: nat, ghost tokens: seq<Bytes>) returns (order: Order)
    requires commas == |tokens| < indices.Length && Indexes(buf, indices[..commas + 1], tokens)
    ensures order.InOrder? ==> StrictlySorted(tokens, TagKey)
    ensures order.Duplicate? ==> !DistinctKeys(tokens, TagKey)
    ensures order.OutOfOrder? ==> !Sorted(tokens, TagKey)
  {
    hide Rising, Compare, Indexes, IndexesOne, StrictlySorted, DistinctKeys, Sorted;
    RisingNone(tokens);
    var j := 0;
    while j < commas - 1
      invariant 0 <= j && (j == 0 || j < commas) && Rising(tokens, j)
    {
      IndexedAt(buf, indices[..commas + 1], tokens, j);
      IndexedAt(buf, indices[..commas + 1], tokens, j + 1);
      var cmp := CompareNext(buf, indices[j], indices[j + 1], indices[j + 2], tokens[j], tokens[j + 1]);
      if cmp > 0 {
        Disorder(tokens, j);
        return OutOfOrder;
      } else if cmp == 0 {
        EqualNeighbours(tokens, j);
        return Duplicate;
      }
      RisingNext(tokens, j);
      j := j + 1;
    }
    AllRising(tokens, j);
    return InOrder;
  }

  /** The key of a tag is the same when it is read from the slice that begins with it. */
  lemma KeyInSlice(buf: Bytes, i: nat)
    requires i <= |buf| && TagEnd(buf, i).Ok?
    ensures buf[i..][..ScanEnd(buf[i..], 0, EQUALS)] == KeyAt(buf, i)
  {
    ScanEndShift(buf, i, 1, EQUALS);
  }

  /** Whether the keys of the tags at two positions are the same. */
  method SameKey(buf: Bytes, i: nat, j: nat) returns (same: bool)
    requires i <= |buf| && TagEnd(buf, i).Ok? && j <= |buf| && TagEnd(buf, j).Ok?
    ensures same <==> Compare(TagKey(TokenAt(buf, i)), TagKey(TokenAt(buf, j))) == 0
  {
    KeysCorrespond(buf, i);
    KeysCorrespond(buf, j);
    var _, left := ScanTo(buf[i..], 0, EQUALS);
    var _, right := ScanTo(buf[j..], 0, EQUALS);
    KeyInSlice(buf, i);
    KeyInSlice(buf, j);
    CompareEqual(left, right);
    same := left == right;
  }

  lemma TagsAt(buf: Bytes, idx: seq<nat>, k: nat)
    requires AllTags(buf, idx) && k < |idx|
    ensures idx[k] <= |buf| && TagEnd(buf, idx[k]).Ok? && TokensAt(buf, idx)[k] == TokenAt(buf, idx[k])
  {
    TokensAtOne(buf, idx, k);
  }

  lemma SortedNeighbours(tokens: seq<Bytes>, j: nat)
    requires Sorted(tokens, TagKey) && j + 1 < |tokens|
    ensures Compare(TagKey(tokens[j]), TagKey(tokens[j + 1])) <= 0
  {
  }

  /** The last pass: in sorted tags, duplicates are neighbours. */
  method HasDuplicates(buf: Bytes, indices: array<nat>, n: nat, ghost tokens: seq<Bytes>) returns (dup: bool)
    requires n <= indices.Length && AllTags(buf, indices[..n]) && tokens == TokensAt(buf, indices[..n])
    requires Sorted(tokens, TagKey)
    ensures dup <==> !DistinctKeys(tokens, TagKey)
  {
    hide Rising, Compare, DistinctKeys, Sorted, AllTags, TokensAt, TokenAt, TagEnd, TagKey;
    RisingNone(tokens);
    var j := 0;
    while j < n - 1
      invariant 0 <= j && (j == 0 || j < n) && Rising(tokens, j)
    {
      TagsAt(buf, indices[..n], j);
      TagsAt(buf, indices[..n], j + 1);
      SortedNeighbours(tokens, j);
      var same := SameKey(buf, indices[j], indices[j + 1]);
      if same {
        EqualNeighbours(tokens, j);
        return true;
      }
      RisingNext(tokens, j);
      j := j + 1;
    }
    AllRising(tokens, j);
    return false;
  }

  /** Copies `v` into `b` at `pos`. */
  method CopyInto(b: array<byte>, pos: nat, v: Bytes)
    requires pos + |v| <= b.Length
    modifies b
    ensures b[..pos + |v|] == old(b[..pos]) + v
  {
    for i := 0 to |v|
      invariant b[..pos] == old(b[..pos]) && b[pos..pos + i] == v[..i]
    {
      b[pos + i] := v[i];
    }
    assert b[..pos + |v|] == b[..pos] + b[pos..pos + |v|];
  }

  lemma {:induction false} JoinPrefixFits(ts: seq<Bytes>, k: nat)
    requires k < |ts|
    ensures Join(ts[..k + 1]) == Join(ts[..k]) + [COMMA] + ts[k]
    ensures |Join(ts[..k + 1])| <= |Join(ts)|
    decreases |ts|
  {
    assert ts[..k + 1][..k] == ts[..k];
    if k + 1 == |ts| {
      assert ts[..k + 1] == ts;
    } else {
      var init := ts[..|ts| - 1];
      assert init[..k + 1] == ts[..k + 1] && init[..k] == ts[..k];
      JoinPrefixFits(init, k);
    }
  }

  /** Copies a comma and the tag at position `i` into `b` at `pos`. */
  method CopyTag(buf: Bytes, i: nat, b: array<byte>, pos: nat) returns (next: nat)
    requires i <= |buf| && TagEnd(buf, i).Ok? && pos + 1 + |TokenAt(buf, i)| <= b.Length
    modifies b
    ensures next == pos + 1 + |TokenAt(buf, i)| && b[..next] == old(b[..pos]) + [COMMA] + TokenAt(buf, i)
  {
    TagEndIsStop(buf, i);
    assert NAME_STOPS == {COMMA, SPACE};
    var _, v := ScanToSpaceOr(buf, i, COMMA);
    CopyInto(b, pos, [COMMA]);
    CopyInto(b, pos + 1, v);
    next := pos + 1 + |v|;
  }

  /** The measurement and the first `k` tags. */
  ghost function Upto(measurement: Bytes, tokens: seq<Bytes>, k: nat): Bytes
    requires k <= |tokens|
  {
    measurement + Join(tokens[..k])
  }

  lemma UptoNext(measurement: Bytes, tokens: seq<Bytes>, k: nat)
    requires k < |tokens|
    ensures Upto(measurement, tokens, k + 1) == Upto(measurement, tokens, k) + [COMMA] + tokens[k]
    ensures |Upto(measurement, tokens, k + 1)| <= |Upto(measurement, tokens, |tokens|)|
  {
    JoinPrefixFits(tokens, k);
    assert tokens[..|tokens|] == tokens;
  }

  /** Writes the measurement and the tags at the given positions into a buffer of the right size. */
  method Rebuild(buf: Bytes, measurement: Bytes, indices: array<nat>, n: nat, size: nat, ghost tokens: seq<Bytes>)
    returns (b: array<byte>)
    requires n <= indices.Length && AllTags(buf, indices[..n]) && tokens == TokensAt(buf, indices[..n])
    requires size == |Upto(measurement, tokens, n)|
    ensures b[..] == Upto(measurement, tokens, n)
  {
    b := new byte[size](_ => 0);
    assert tokens[..0] == [] && Upto(measurement, tokens, 0) == measurement;
    if n > 0 {
      UptoNext(measurement, tokens, 0);
    }
    CopyInto(b, 0, measurement);
    var pos: nat := |measurement|;
    for k := 0 to n
      invariant pos <= b.Length && b[..pos] == Upto(measurement, tokens, k)
    {
      UptoNext(measurement, tokens, k);
      TagsAt(buf, indices[..n], k);
      pos := CopyTag(buf, indices[k], b, pos);
    }
    assert b[..pos] == b[..];
  }

  // ----- The method -----

  /** The sorted path: positions sorted in place, the key rebuilt, duplicates looked for again. */
  method SortedKey(buf: Bytes, start: nat, m: nat, end: nat, indices: array<nat>, commas: nat, ghost tokens: seq<Bytes>)
    returns (key: Result<Bytes, ScanError>)
    requires start <= m <= |buf| && commas == |tokens| < indices.Length && Indexes(buf, indices[..commas + 1], tokens)
    requires m <= end <= |buf| && buf[m..end] == Join(tokens)
    modifies indices
    ensures key == if DistinctKeys(tokens, TagKey) then Ok(buf[start..m] + Join(SortBy(tokens, TagKey))) else Err(DuplicateTags)
  {
    hide SortBy, TagEnd, TokensAt, Join, DistinctKeys, Sorted, Indexes, ByKeyAt;
    ghost var idx := indices[..commas];
    assert indices[..commas + 1][..commas] == idx;
    IndexesGiveTokens(buf, indices[..commas + 1], tokens);
    SortCorresponds(buf, idx);
    ghost var sorted := SortBy(tokens, TagKey);
    forall k | 0 <= k < commas ensures indices[k] <= |buf| { assert indices[k] == idx[k]; }
    InsertionSort(buf, indices, commas);
    SortSorts(tokens, TagKey);
    SortKeeps(tokens, TagKey);
    JoinSortSize(tokens);
    assert sorted[..commas] == sorted;
    var b := Rebuild(buf, buf[start..m], indices, commas, end - start, sorted);
    var dup := HasDuplicates(buf, indices, commas, sorted);
    if dup {
      if DistinctKeys(tokens, TagKey) {
        PermutedDistinct(tokens, sorted, TagKey);
      }
      return Err(DuplicateTags);
    }
    PermutedDistinct(sorted, tokens, TagKey);
    return Ok(b[..]);
  }

  /** The key with its tags in order: as it stands if they already are. */
  method OrderedKey(buf: Bytes, start: nat, m: nat, end: nat, indices: array<nat>, commas: nat, ghost tokens: seq<Bytes>)
    returns (key: Result<Bytes, ScanError>)
    requires start <= m <= |buf| && commas == |tokens| < indices.Length && Indexes(buf, indices[..commas + 1], tokens)
    requires m <= end <= |buf| && buf[m..end] == Join(tokens)
    modifies indices
    ensures key == if DistinctKeys(tokens, TagKey) then Ok(buf[start..m] + Join(SortBy(tokens, TagKey))) else Err(DuplicateTags)
  {
    hide SortBy, Join, DistinctKeys, Sorted, StrictlySorted, Indexes, TagKey, Compare;
    var order := CheckOrder(buf, indices, commas, tokens);
    if order.Duplicate? {
      return Err(DuplicateTags);
    } else if order.InOrder? {
      StrictIsDistinct(tokens);
      SortedStays(tokens, TagKey);
      assert buf[start..end] == buf[start..m] + buf[m..end];
      return Ok(buf[start..end]);
    }
    key := SortedKey(buf, start, m, end, indices, commas, tokens);
  }

  /** Scans the tags of a point whose measurement lies between `start` and the comma at `m`. */
  method ScanTaggedKey(buf: Bytes, start: nat, m: nat) returns (r: KeyScan)
    requires start <= m < |buf| && buf[m] == COMMA
    ensures r == TagsResult(buf, start, m)
  {
    var found, indices := ScanTags(buf, m + 1);
    if found.IndexFailed? {
      return Failed(found.error);
    } else if found.IndexOverrun? {
      return Crashed;
    }
    SplitRenders(buf, m + 1);
    assert indices[..][..found.commas + 1] == indices[..found.commas + 1];
    var key := OrderedKey(buf, start, m, found.end, indices, found.commas, SplitTags(buf, m + 1).value.tokens);
    return if key.Ok? then Key(found.end, key.value) else Failed(key.error);
  }

  /** Scans the measurement and the tags of a point; unsorted tags are brought into order. */
  method ScanKey(buf: Bytes, from: nat) returns (r: KeyScan)
    requires from <= |buf|
    ensures r == ScanResult(buf, from)
  {
    var start := SkipWhitespace(buf, from);
    var i, state := ScanMeasurement(buf, start);
    if state.Err? {
      return Failed(state.error);
    }
    if !state.value {
      return Key(i, buf[start..i]);
    }
    r := ScanTaggedKey(buf, start, i - 1);
  }

  // ----- The key is canonical -----

  /** A well-formed measurement. */
  predicate IsName(m: Bytes)
  {
    && m != [] && m[0] !in {COMMA, SPACE, TAB, 0} && m[|m| - 1] != BACKSLASH
    && NextStop(m, 1, NAME_STOPS) == |m|
  }

  ghost predicate AreTags(tokens: seq<Bytes>)
  {
    forall k | 0 <= k < |tokens| :: IsTag(tokens[k])
  }

  /** A line: measurement, tags, a space and the rest. */
  function Line(m: Bytes, tokens: seq<Bytes>, rest: Bytes): Bytes
  {
    m + Join(tokens) + [SPACE] + rest
  }

  lemma JoinShape(tokens: seq<Bytes>)
    requires tokens != []
    ensures Join(tokens) == [COMMA] + tokens[0] + Join(tokens[1..])
  {
    JoinFront(tokens[0], tokens[1..]);
    assert tokens == [tokens[0]] + tokens[1..];
  }

  lemma SliceOf(s: Bytes, a: nat, b: nat, p: nat, q: nat)
    requires a <= b <= |s| && p <= q <= b - a
    ensures s[a..b][p..q] == s[a + p..a + q]
  {
    var l, r := s[a..b][p..q], s[a + p..a + q];
    forall k | 0 <= k < |l| ensures l[k] == r[k] {
      assert l[k] == s[a..b][p + k];
    }
  }

  lemma PartsOfRegion(s: Bytes, i: nat, end: nat, t: Bytes, u: Bytes)
    requires 1 <= i <= end <= |s| && s[i - 1..end] == [COMMA] + t + u
    ensures i + |t| <= end && s[i..i + |t|] == t && s[i + |t|..end] == u
  {
    var region := s[i - 1..end];
    assert region[1..1 + |t|] == t && region[1 + |t|..|region|] == u;
    SliceOf(s, i - 1, end, 1, 1 + |t|);
    SliceOf(s, i - 1, end, 1 + |t|, |region|);
  }

  lemma FirstOfRendered(s: Bytes, i: nat, tokens: seq<Bytes>, end: nat)
    requires tokens != [] && 1 <= i <= end < |s| && s[i - 1..end] == Join(tokens)
    ensures
      var e := i + |tokens[0]|;
      && e <= end && s[i..e] == tokens[0] && s[e..end] == Join(tokens[1..])
      && (if tokens[1..] == [] then e == end else e < end && s[e] == COMMA)
  {
    JoinShape(tokens);
    PartsOfRegion(s, i, end, tokens[0], Join(tokens[1..]));
    if tokens[1..] != [] {
      JoinShape(tokens[1..]);
      assert s[i + |tokens[0]|] == s[i + |tokens[0]|..end][0];
    }
  }

  lemma TagNotEmpty(t: Bytes)
    requires IsTag(t)
    ensures t != []
  {
  }

  /** Rendered tags are found again. */
  lemma {:induction false} SplitRendered(s: Bytes, i: nat, tokens: seq<Bytes>, end: nat)
    requires tokens != [] && AreTags(tokens) && 1 <= i <= end < |s|
    requires s[i - 1..end] == Join(tokens) && s[end] == SPACE
    ensures SplitTags(s, i) == Ok(Tags(tokens, end))
    decreases |tokens|
  {
    hide TagEnd, IsTag, Join;
    var t, others := tokens[0], tokens[1..];
    FirstOfRendered(s, i, tokens, end);
    var e := i + |t|;
    TagNotEmpty(t);
    TagGivesTagEnd(s, i, e);
    if others == [] {
      assert [t] == tokens;
    } else {
      assert AreTags(others);
      SplitRendered(s, e + 1, others, end);
      assert [t] + others == tokens;
    }
  }

  lemma NameScans(m: Bytes, tail: Bytes)
    requires IsName(m) && tail != [] && tail[0] in NAME_STOPS
    ensures AfterBlanks(m + tail, 0) == 0 && NextStop(m + tail, 1, NAME_STOPS) == |m|
    ensures (m + tail)[0] != COMMA && (m + tail)[..|m|] == m && (m + tail)[|m|] == tail[0]
  {
    StopPrefix(m, tail, 1, NAME_STOPS);
  }

  /** The measurement of a line is found, up to the comma or the space after it. */
  lemma NameOfLine(m: Bytes, tokens: seq<Bytes>, rest: Bytes)
    requires IsName(m)
    ensures
      var s := Line(m, tokens, rest);
      && AfterBlanks(s, 0) == 0 && s[0] != COMMA && NextStop(s, 1, NAME_STOPS) == |m| < |s|
      && s[..|m|] == m && s[|m|] == if tokens == [] then SPACE else COMMA
  {
    var tail := Join(tokens) + [SPACE] + rest;
    if tokens == [] {
      assert tail == [SPACE] + rest;
    } else {
      JoinShape(tokens);
    }
    NameScans(m, tail);
    assert Line(m, tokens, rest) == m + tail;
  }

  /** The tags of a line are found. */
  lemma TagsOfLine(m: Bytes, tokens: seq<Bytes>, rest: Bytes)
    requires AreTags(tokens) && tokens != []
    ensures |m| + 1 <= |Line(m, tokens, rest)|
    ensures SplitTags(Line(m, tokens, rest), |m| + 1) == Ok(Tags(tokens, |m| + |Join(tokens)|))
  {
    hide SplitTags, Join;
    var s, end := Line(m, tokens, rest), |m| + |Join(tokens)|;
    JoinShape(tokens);
    assert s[|m|..end] == Join(tokens) && s[end] == SPACE;
    SplitRendered(s, |m| + 1, tokens, end);
  }

  /** What the scan makes of a well-formed line. */
  ghost function LineResult(m: Bytes, tokens: seq<Bytes>): KeyScan
  {
    if Overruns(|tokens|) then Crashed
    else if !DistinctKeys(tokens, TagKey) then Failed(DuplicateTags)
    else Key(|m| + |Join(tokens)|, m + Join(SortBy(tokens, TagKey)))
  }

  lemma ScanReachesTags(m: Bytes, tokens: seq<Bytes>, rest: Bytes)
    requires IsName(m)
    ensures
      var s := Line(m, tokens, rest);
      |m| < |s| && ScanResult(s, 0) == if tokens == [] then Key(|m|, m) else TagsResult(s, 0, |m|)
  {
    NameOfLine(m, tokens, rest);
    var s := Line(m, tokens, rest);
    ScanAfterName(s, |m|);
    assert s[0..|m|] == s[..|m|];
  }

  /** Once the end of the measurement is known, the scan goes on with the tags, if there are any. */
  lemma ScanAfterName(s: Bytes, m: nat)
    requires 0 < m < |s| && AfterBlanks(s, 0) == 0 && s[0] != COMMA && NextStop(s, 1, NAME_STOPS) == m
    ensures ScanResult(s, 0) == if s[m] == COMMA then TagsResult(s, 0, m) else Key(m, s[0..m])
  {
    hide NextStop, AfterBlanks, TagsResult;
  }

  lemma LineScans(m: Bytes, tokens: seq<Bytes>, rest: Bytes)
    requires IsName(m) && AreTags(tokens)
    ensures ScanResult(Line(m, tokens, rest), 0) == LineResult(m, tokens)
  {
    ScanReachesTags(m, tokens, rest);
    if tokens == [] {
      assert SortBy(tokens, TagKey) == [] && m + Join([]) == m;
    } else {
      TagsOfLine(m, tokens, rest);
      assert Line(m, tokens, rest)[0..|m|] == m;
    }
  }

  /** A line of a hundred tags, each of them `a=b`, crashes the scan before it can tell that they repeat. */
  lemma HundredTagsCrash(rest: Bytes)
    ensures
      var tokens := seq(100, _ => [97, EQUALS, 98]);
      AreTags(tokens) && IsName([109]) && ScanResult(Line([109], tokens, rest), 0) == Crashed
  {
    var tokens := seq(100, _ => [97, EQUALS, 98]);
    var tag: Bytes := [97, EQUALS, 98];
    assert NextStop(tag, 3, KEY_STOPS) == 3 && NextStop(tag, 1, KEY_STOPS) == 1;
    assert IsTag(tag);
    forall k | 0 <= k < |tokens| ensures IsTag(tokens[k]) {
      assert tokens[k] == tag;
    }
    LineScans([109], tokens, rest);
  }

  /** The lines `,`, `m`, `m, `, `m,t `, `m,t= `, `m,t=v` and `m,t=v=w `: what is missing or wrong in each. */
  lemma RejectedLines()
    ensures ScanResult([COMMA], 0) == Failed(MissingMeasurement)
    ensures ScanResult([109], 0) == Failed(MissingFields)
    ensures ScanResult([109, COMMA] + [SPACE], 0) == Failed(MissingTagKey)
    ensures ScanResult([109, COMMA] + [116, SPACE], 0) == Failed(MissingTagValue)
    ensures ScanResult([109, COMMA] + [116, EQUALS, SPACE], 0) == Failed(MissingTagValue)
    ensures ScanResult([109, COMMA] + [116, EQUALS, 118], 0) == Failed(MissingFields)
    ensures ScanResult([109, COMMA] + [116, EQUALS, 118, EQUALS, 119, SPACE], 0) == Failed(InvalidTagFormat)
  {
    assert ScanResult([COMMA], 0) == Failed(MissingMeasurement);
    assert NextStop([109], 1, NAME_STOPS) == 1;
    assert ScanResult([109], 0) == Failed(MissingFields);
    hide ScanResult, NextStop, SplitTags, TagEnd, AfterBlanks, TagsResult;
    RejectedTag([SPACE], MissingTagKey);
    RejectedTag([116, SPACE], MissingTagValue);
    RejectedTag([116, EQUALS, SPACE], MissingTagValue);
    RejectedTag([116, EQUALS, 118], MissingFields);
    RejectedTag([116, EQUALS, 118, EQUALS, 119, SPACE], InvalidTagFormat);
  }

  lemma RejectedTag(t: Bytes, error: ScanError)
    requires
      || (t == [SPACE] && error == MissingTagKey)
      || ((t == [116, SPACE] || t == [116, EQUALS, SPACE]) && error == MissingTagValue)
      || (t == [116, EQUALS, 118] && error == MissingFields)
      || (t == [116, EQUALS, 118, EQUALS, 119, SPACE] && error == InvalidTagFormat)
    ensures ScanResult([109, COMMA] + t, 0) == Failed(error)
  {
    var s: Bytes := [109, COMMA] + t;
    assert s[2..] == t;
    assert NextStop(s, 1, NAME_STOPS) == 1;
    if t != [SPACE] {
      StopUnique(s, 3, 3, KEY_STOPS);
      if t == [116, EQUALS, 118] {
        assert NextStop(s, 5, KEY_STOPS) == 5;
      } else if |t| == 6 {
        assert NextStop(s, 5, KEY_STOPS) == 5;
      }
    }
    assert TagEnd(s, 2) == Err(error);
  }

  /** Lines that differ only in the order of their tags get the same key, byte for byte. */
  lemma PermutedLinesShareKey(m: Bytes, tokens: seq<Bytes>, tokens': seq<Bytes>, rest: Bytes, rest': Bytes)
    requires IsName(m) && AreTags(tokens) && multiset(tokens) == multiset(tokens')
    ensures
      var a, b := ScanResult(Line(m, tokens, rest), 0), ScanResult(Line(m, tokens', rest'), 0);
      a.Key? ==> b == a
  {
    forall k | 0 <= k < |tokens'| ensures IsTag(tokens'[k]) {
      assert tokens'[k] in multiset(tokens');
      assert tokens'[k] in tokens;
    }
    LineScans(m, tokens, rest);
    LineScans(m, tokens', rest');
    SameSize(tokens, tokens');
    if DistinctKeys(tokens, TagKey) {
      PermutedDistinct(tokens, tokens', TagKey);
      SortForgetsOrder(tokens, tokens', TagKey);
      JoinSortSize(tokens);
      JoinSortSize(tokens');
    }
  }

  /** The tags found by a scan are well-formed. */
  lemma {:induction false} SplitGivesTags(s: Bytes, i: nat)
    requires i <= |s| && SplitTags(s, i).Ok?
    ensures AreTags(SplitTags(s, i).value.tokens)
    decreases |s| - i
  {
    TagEndGivesTag(s, i);
    var e := TagEnd(s, i).value;
    if s[e] == COMMA {
      SplitGivesTags(s, e + 1);
    }
  }

  /**
   `key` is a well-formed measurement with tags whose keys ascend byte for byte;
   the scanned bytes are the same measurement and the same tags in some order.
   */
  ghost predicate Canonicalises(scanned: Bytes, key: Bytes, m: Bytes, tokens: seq<Bytes>, sorted: seq<Bytes>)
  {
    && m != [] && m[0] != COMMA && NextStop(m, 1, NAME_STOPS) == |m|
    && scanned == m + Join(tokens) && AreTags(tokens)
    && key == m + Join(sorted) && multiset(sorted) == multiset(tokens) && Ascending(sorted, TagKey)
    && |key| == |scanned|
  }

  lemma TaggedKeyIsCanonical(s: Bytes, start: nat, m: nat)
    requires start < m < |s| && s[start] != COMMA && NextStop(s, start + 1, NAME_STOPS) == m && s[m] == COMMA
    requires TagsResult(s, start, m).Key?
    ensures
      var tags := SplitTags(s, m + 1).value;
      && TagsResult(s, start, m).end == tags.end
      && Canonicalises(s[start..tags.end], TagsResult(s, start, m).key, s[start..m], tags.tokens, SortBy(tags.tokens, TagKey))
  {
    hide NextStop, SplitTags, SortBy, Join, StrictlySorted, Ascending, DistinctKeys, AreTags;
    var tags := SplitTags(s, m + 1).value;
    NamePiece(s, start, m);
    SplitRenders(s, m + 1);
    SplitGivesTags(s, m + 1);
    SortKeeps(tags.tokens, TagKey);
    SortStrict(tags.tokens, TagKey);
    StrictIsAscending(SortBy(tags.tokens, TagKey), TagKey);
    JoinSortSize(tags.tokens);
    PieceParts(s, start, m, tags.end);
  }

  lemma PieceParts(s: Bytes, a: nat, b: nat, c: nat)
    requires a <= b <= c <= |s|
    ensures s[a..c] == s[a..b] + s[b..c]
  {
  }

  lemma NamePiece(s: Bytes, start: nat, m: nat)
    requires start < m < |s| && s[start] != COMMA && NextStop(s, start + 1, NAME_STOPS) == m
    ensures s[start..m] != [] && s[start..m][0] != COMMA && NextStop(s[start..m], 1, NAME_STOPS) == |s[start..m]|
  {
    StopInPiece(s, start, m, 1, NAME_STOPS);
  }

  lemma PlainKeyIsCanonical(s: Bytes, start: nat, m: nat)
    requires start < m < |s| && s[start] != COMMA && NextStop(s, start + 1, NAME_STOPS) == m
    ensures Canonicalises(s[start..m], s[start..m], s[start..m], [], [])
  {
    NamePiece(s, start, m);
    assert Join([]) == [] && s[start..m] + [] == s[start..m];
  }

  /** Every key the scan returns is canonical, of the same length as the bytes scanned, and ends before a space. */
  lemma ScannedKeyIsCanonical(s: Bytes, from: nat) returns (m: Bytes, tokens: seq<Bytes>, sorted: seq<Bytes>)
    requires from <= |s| && ScanResult(s, from).Key?
    ensures
      var r, start := ScanResult(s, from), AfterBlanks(s, from);
      && start < r.end < |s| && s[r.end] == SPACE
      && Canonicalises(s[start..r.end], r.key, m, tokens, sorted)
  {
    hide NextStop, AfterBlanks, Canonicalises, SplitTags, SortBy, Join, DistinctKeys, Overruns;
    var start := AfterBlanks(s, from);
    var e := NextStop(s, start + 1, NAME_STOPS);
    m := s[start..e];
    if s[e] == SPACE {
      PlainKeyIsCanonical(s, start, e);
      tokens, sorted := [], [];
    } else {
      TaggedKeyIsCanonical(s, start, e);
      tokens := SplitTags(s, e + 1).value.tokens;
      sorted := SortBy(tokens, TagKey);
    }
  }

  /** Scanning a canonical key gives it back: canonical keys are fixed points. */
  lemma CanonicalKeyScansToItself(m: Bytes, tokens: seq<Bytes>, rest: Bytes)
    requires IsName(m) && AreTags(tokens) && Ascending(tokens, TagKey) && !Overruns(|tokens|)
    ensures ScanResult(Line(m, tokens, rest), 0) == Key(|m| + |Join(tokens)|, m + Join(tokens))
  {
    StrictIsAscending(tokens, TagKey);
    LineScans(m, tokens, rest);
    StrictIsDistinct(tokens);
    SortedStays(tokens, TagKey);
  }
}
