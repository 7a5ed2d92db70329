/**
 The byte scanners of the line protocol. Each looks for the next stop byte that
 is not preceded by a backslash.
 */
module Scanner {
  import opened Bytes

  const COMMA: byte := 44
  const SPACE: byte := 32
  const EQUALS: byte := 61
  const BACKSLASH: byte := 92
  const QUOTE: byte := 34
  const TAB: byte := 9

  /** The first position from `i` on with an unescaped stop byte, or the end. */
  function NextStop(s: Bytes, i: nat, stops: set<byte>): (j: nat)
    requires 1 <= i <= |s|
    ensures i <= j <= |s|
    ensures j < |s| ==> s[j] in stops && s[j - 1] != BACKSLASH
    decreases |s| - i
  {
    if i == |s| then i
    else if s[i] in stops && s[i - 1] != BACKSLASH then i
    else NextStop(s, i + 1, stops)
  }

  /** `j` is where the scan from `i` stops. */
  ghost predicate Stops(s: Bytes, i: nat, j: nat, stops: set<byte>)
    requires 1 <= i
  {
    && i <= j <= |s|
    && (j < |s| ==> s[j] in stops && s[j - 1] != BACKSLASH)
    && forall k | i <= k < j :: s[k] in stops ==> s[k - 1] == BACKSLASH
  }

  lemma {:induction false} StopsThere(s: Bytes, i: nat, stops: set<byte>)
    requires 1 <= i <= |s|
    ensures Stops(s, i, NextStop(s, i, stops), stops)
    decreases |s| - i
  {
    if i < |s| && !(s[i] in stops && s[i - 1] != BACKSLASH) {
      StopsThere(s, i + 1, stops);
    }
  }

  /** There is one such place. */
  lemma {:induction false} StopUnique(s: Bytes, i: nat, j: nat, stops: set<byte>)
    requires 1 <= i <= |s| && Stops(s, i, j, stops)
    ensures NextStop(s, i, stops) == j
    decreases |s| - i
  {
    if i < j {
      StopUnique(s, i + 1, j, stops);
    }
  }

  /** What follows the stop does not matter. */
  lemma StopPrefix(s: Bytes, t: Bytes, i: nat, stops: set<byte>)
    requires 1 <= i <= |s|
    requires NextStop(s, i, stops) < |s| || (t != [] && t[0] in stops && s[|s| - 1] != BACKSLASH)
    ensures NextStop(s + t, i, stops) == NextStop(s, i, stops)
  {
    var j := NextStop(s, i, stops);
    StopsThere(s, i, stops);
    assert forall k | 0 <= k < |s| :: (s + t)[k] == s[k];
    StopUnique(s + t, i, j, stops);
  }

  /** Spaces, tabs and zero bytes are skipped. */
  function AfterBlanks(s: Bytes, i: nat): (j: nat)
    requires i <= |s|
    ensures i <= j <= |s|
    decreases |s| - i
  {
    if i < |s| && (s[i] == SPACE || s[i] == TAB || s[i] == 0) then AfterBlanks(s, i + 1) else i
  }

  method SkipWhitespace(buf: Bytes, start: nat) returns (i: nat)
    requires start <= |buf|
    ensures i == AfterBlanks(buf, start)
  {
    i := start;
    while i < |buf|
      invariant start <= i <= |buf| && AfterBlanks(buf, start) == AfterBlanks(buf, i)
    {
      if buf[i] != SPACE && buf[i] != TAB && buf[i] != 0 {
        break;
      }
      i := i + 1;
    }
  }

  /** Where a scan for one stop byte ends; the first byte itself may be the stop. */
  function ScanEnd(s: Bytes, i: nat, stop: byte): (j: nat)
    requires i <= |s|
    ensures i <= j <= |s|
    decreases |s| - i
  {
    if i == |s| then i
    else if s[i] == stop && (i == 0 || s[i - 1] != BACKSLASH) then i
    else ScanEnd(s, i + 1, stop)
  }

  /** From a byte that is not the stop, it is the next unescaped stop. */
  lemma {:induction false} ScanEndUnique(s: Bytes, i: nat, stop: byte, j: nat)
    requires i <= j <= |s|
    requires j < |s| ==> s[j] == stop && (j == 0 || s[j - 1] != BACKSLASH)
    requires forall k | i <= k < j :: s[k] == stop ==> k > 0 && s[k - 1] == BACKSLASH
    ensures ScanEnd(s, i, stop) == j
    decreases |s| - i
  {
    if i < j {
      ScanEndUnique(s, i + 1, stop, j);
    }
  }

  /** Scanning a suffix from its second byte on finds the same place. */
  lemma {:induction false} ScanEndShift(s: Bytes, a: nat, i: nat, stop: byte)
    requires a + i <= |s| && i > 0
    ensures ScanEnd(s[a..], i, stop) == ScanEnd(s, a + i, stop) - a
    decreases |s| - i
  {
    if a + i < |s| && !(s[a + i] == stop && s[a + i - 1] != BACKSLASH) {
      ScanEndShift(s, a, i + 1, stop);
    }
  }

  method ScanTo(buf: Bytes, start: nat, stop: byte) returns (i: nat, block: Bytes)
    requires start <= |buf|
    ensures i == ScanEnd(buf, start, stop) && block == buf[start..i]
  {
    i := start;
    while i < |buf|
      invariant start <= i <= |buf| && ScanEnd(buf, start, stop) == ScanEnd(buf, i, stop)
    {
      if buf[i] == stop && (i == 0 || buf[i - 1] != BACKSLASH) {
        break;
      }
      i := i + 1;
    }
    block := buf[start..i];
  }

  /**
   The bytes up to the next unescaped stop or space, or up to the end. Data that
   ends in a backslash without such a stop would be read past its end.
   */
  method ScanToSpaceOr(buf: Bytes, start: nat, stop: byte) returns (i: nat, block: Bytes)
    requires start < |buf|
    requires buf[start] in {stop, SPACE} || NextStop(buf, start + 1, {stop, SPACE}) < |buf| || buf[|buf| - 1] != BACKSLASH
    ensures i == (if buf[start] in {stop, SPACE} then start else NextStop(buf, start + 1, {stop, SPACE}))
    ensures block == buf[start..i]
  {
    if buf[start] == stop || buf[start] == SPACE {
      return start, [];
    }
    i := start;
    ghost var end := NextStop(buf, start + 1, {stop, SPACE});
    while true
      invariant start <= i < |buf| && NextStop(buf, i + 1, {stop, SPACE}) == end
      decreases |buf| - i
    {
      i := i + 1;
      if buf[i - 1] == BACKSLASH {
        continue;
      }
      if i >= |buf| {
        return i, buf[start..i];
      }
      if buf[i] == stop || buf[i] == SPACE {
        return i, buf[start..i];
      }
    }
  }
}
