/**
 Escaping of measurements, tags and string fields in the line protocol, the
 inverse of each, and the scanner for field values.
 */
module Escape {
  import opened Bytes
  import opened Scanner
  import opened LineKey
  import opened ScanKey
  import opened TagSort

  // ----- Replacing -----

  /** Every `c` becomes a backslash and `c`. */
  function Escaped(s: Bytes, c: byte): Bytes
  {
    if s == [] then [] else (if s[0] == c then [BACKSLASH, c] else [s[0]]) + Escaped(s[1..], c)
  }

  /** Every backslash followed by `c` becomes `c`. */
  function Unescaped(s: Bytes, c: byte): Bytes
  {
    if s == [] then []
    else if |s| > 1 && s[0] == BACKSLASH && s[1] == c then [c] + Unescaped(s[2..], c)
    else [s[0]] + Unescaped(s[1..], c)
  }

  lemma {:induction false} EscapedAbsent(s: Bytes, c: byte)
    requires c !in s
    ensures Escaped(s, c) == s && Unescaped(s, c) == s
  {
    if s != [] {
      EscapedAbsent(s[1..], c);
    }
  }

  lemma {:induction false} UnescapedPlain(s: Bytes, c: byte)
    requires BACKSLASH !in s
    ensures Unescaped(s, c) == s
  {
    if s != [] {
      UnescapedPlain(s[1..], c);
    }
  }

  lemma UnescapedSkips(b: byte, s: Bytes, c: byte)
    requires b != BACKSLASH || s == [] || s[0] != c
    ensures Unescaped([b] + s, c) == [b] + Unescaped(s, c)
  {
    assert ([b] + s)[1..] == s;
  }

  lemma EscapedHead(s: Bytes, c: byte)
    requires s != [] && c != BACKSLASH
    ensures Escaped(s, c) != [] && Escaped(s, c)[0] == (if s[0] == c then BACKSLASH else s[0])
  {
  }

  lemma {:induction false} UnescapeInverts(s: Bytes, c: byte)
    requires c != BACKSLASH
    ensures Unescaped(Escaped(s, c), c) == s
  {
    if s != [] {
      UnescapeInverts(s[1..], c);
      var rest := Escaped(s[1..], c);
      if s[0] == c {
        assert ([BACKSLASH, c] + rest)[2..] == rest;
      } else {
        if s[1..] != [] {
          EscapedHead(s[1..], c);
        }
        UnescapedSkips(s[0], rest, c);
      }
    }
  }

  lemma EscapedCons(b: byte, s: Bytes, c: byte)
    ensures Escaped([b] + s, c) == (if b == c then [BACKSLASH, c] else [b]) + Escaped(s, c)
  {
    assert ([b] + s)[1..] == s;
  }

  lemma UnescapedPair(s: Bytes, c: byte)
    ensures Unescaped([BACKSLASH] + ([c] + s), c) == [c] + Unescaped(s, c)
  {
    assert ([BACKSLASH] + ([c] + s))[2..] == s;
  }

  lemma EmptyEscaped(c: byte)
    ensures Escaped([], c) == [] && Unescaped([], c) == []
  {
  }

  /** Escaping one byte does not disturb the unescaping of another. */
  lemma {:induction false} EscapesCommute(s: Bytes, c: byte, d: byte)
    requires c != d && c != BACKSLASH && d != BACKSLASH
    ensures Unescaped(Escaped(s, d), c) == Escaped(Unescaped(s, c), d)
    decreases |s|
  {
    hide Escaped, Unescaped;
    if s == [] {
      EmptyEscaped(c);
      EmptyEscaped(d);
    } else if |s| > 1 && s[0] == BACKSLASH && s[1] == c {
      var r := s[2..];
      EscapesCommute(r, c, d);
      assert s == [BACKSLASH] + ([c] + r);
      EscapedCons(BACKSLASH, [c] + r, d);
      EscapedCons(c, r, d);
      UnescapedPair(Escaped(r, d), c);
      UnescapedPair(r, c);
      EscapedCons(c, Unescaped(r, c), d);
    } else {
      CommuteSkips(s[0], s[1..], c, d);
      EscapesCommute(s[1..], c, d);
      assert s == [s[0]] + s[1..];
    }
  }

  /** The step over a byte that is not part of an escaped `c`. */
  lemma CommuteSkips(b: byte, r: Bytes, c: byte, d: byte)
    requires c != d && c != BACKSLASH && d != BACKSLASH && !(b == BACKSLASH && r != [] && r[0] == c)
    ensures
      var head := if b == d then [BACKSLASH, d] else [b];
      && Unescaped(Escaped([b] + r, d), c) == head + Unescaped(Escaped(r, d), c)
      && Escaped(Unescaped([b] + r, c), d) == head + Escaped(Unescaped(r, c), d)
  {
    var rest := Escaped(r, d);
    if r != [] {
      EscapedHead(r, d);
    }
    hide Escaped, Unescaped;
    EmptyEscaped(d);
    EscapedCons(b, r, d);
    UnescapedSkips(b, r, c);
    EscapedCons(b, Unescaped(r, c), d);
    UnescapedSkips(b, rest, c);
    if b == d {
      UnescapedSkips(BACKSLASH, [d] + rest, c);
      assert [BACKSLASH, d] + rest == [BACKSLASH] + ([d] + rest);
    }
  }

  // ----- Measurements and tags -----

  const MEASUREMENT_CODES: Bytes := [COMMA, SPACE]
  const TAG_CODES: Bytes := [COMMA, SPACE, EQUALS]

  function EscapeAll(s: Bytes, codes: Bytes): Bytes
    decreases |codes|
  {
    if codes == [] then s
    else EscapeAll(if codes[0] in s then Escaped(s, codes[0]) else s, codes[1..])
  }

  function UnescapeEach(s: Bytes, codes: Bytes): Bytes
    decreases |codes|
  {
    if codes == [] then s
    else UnescapeEach(if codes[0] in s then Unescaped(s, codes[0]) else s, codes[1..])
  }

  function UnescapeAll(s: Bytes, codes: Bytes): Bytes
  {
    if BACKSLASH !in s then s else UnescapeEach(s, codes)
  }

  function EscapeMeasurement(s: Bytes): Bytes { EscapeAll(s, MEASUREMENT_CODES) }

  function UnescapeMeasurement(s: Bytes): Bytes { UnescapeAll(s, MEASUREMENT_CODES) }

  function EscapeTag(s: Bytes): Bytes { EscapeAll(s, TAG_CODES) }

  function UnescapeTag(s: Bytes): Bytes { UnescapeAll(s, TAG_CODES) }

  /** Skipping a byte that does not occur changes nothing. */
  lemma EachStep(s: Bytes, codes: Bytes)
    requires codes != []
    ensures EscapeAll(s, codes) == EscapeAll(Escaped(s, codes[0]), codes[1..])
    ensures UnescapeEach(s, codes) == UnescapeEach(Unescaped(s, codes[0]), codes[1..])
  {
    if codes[0] !in s {
      EscapedAbsent(s, codes[0]);
    }
  }

  ghost predicate Codes(codes: Bytes)
  {
    BACKSLASH !in codes && forall i, j | 0 <= i < j < |codes| :: codes[i] != codes[j]
  }

  lemma {:induction false} UnescapeCommutes(s: Bytes, c: byte, codes: Bytes)
    requires Codes(codes) && c !in codes && c != BACKSLASH
    ensures Unescaped(EscapeAll(s, codes), c) == EscapeAll(Unescaped(s, c), codes)
    decreases |codes|
  {
    if codes != [] {
      EachStep(s, codes);
      EachStep(Unescaped(s, c), codes);
      EscapesCommute(s, c, codes[0]);
      UnescapeCommutes(Escaped(s, codes[0]), c, codes[1..]);
    }
  }

  lemma {:induction false} UnescapeEachInverts(s: Bytes, codes: Bytes)
    requires Codes(codes)
    ensures UnescapeEach(EscapeAll(s, codes), codes) == s
    decreases |codes|
  {
    if codes != [] {
      var c, rest := codes[0], codes[1..];
      assert c !in rest;
      EachStep(s, codes);
      EachStep(EscapeAll(s, codes), codes);
      UnescapeCommutes(Escaped(s, c), c, rest);
      UnescapeInverts(s, c);
      UnescapeEachInverts(s, rest);
    }
  }

  lemma {:induction false} UnescapePlain(s: Bytes, codes: Bytes)
    requires BACKSLASH !in s
    ensures UnescapeEach(s, codes) == s
    decreases |codes|
  {
    if codes != [] {
      UnescapedPlain(s, codes[0]);
      UnescapePlain(s, codes[1..]);
    }
  }

  /** Unescaping gives back every measurement and every tag, whatever its bytes. */
  lemma EscapeRoundTrip(s: Bytes)
    ensures UnescapeMeasurement(EscapeMeasurement(s)) == s
    ensures UnescapeTag(EscapeTag(s)) == s
  {
    UnescapeEachInverts(s, MEASUREMENT_CODES);
    UnescapeEachInverts(s, TAG_CODES);
    if BACKSLASH !in EscapeMeasurement(s) {
      UnescapePlain(EscapeMeasurement(s), MEASUREMENT_CODES);
    }
    if BACKSLASH !in EscapeTag(s) {
      UnescapePlain(EscapeTag(s), TAG_CODES);
    }
  }

  /** A backslash before each byte of `stops`, everything else as it is. */
  function EachEscaped(s: Bytes, stops: set<byte>): Bytes
  {
    if s == [] then [] else (if s[0] in stops then [BACKSLASH, s[0]] else [s[0]]) + EachEscaped(s[1..], stops)
  }

  lemma {:induction false} EscapedAppend(a: Bytes, b: Bytes, c: byte)
    ensures Escaped(a + b, c) == Escaped(a, c) + Escaped(b, c)
  {
    hide Escaped;
    if a == [] {
      EmptyEscaped(c);
      assert a + b == b;
    } else {
      EscapedAppend(a[1..], b, c);
      EscapedCons(a[0], a[1..], c);
      EscapedCons(a[0], a[1..] + b, c);
      assert a == [a[0]] + a[1..] && a + b == [a[0]] + (a[1..] + b);
    }
  }

  lemma {:induction false} EscapeAllAppend(a: Bytes, b: Bytes, codes: Bytes)
    ensures EscapeAll(a + b, codes) == EscapeAll(a, codes) + EscapeAll(b, codes)
    decreases |codes|
  {
    hide Escaped;
    if codes != [] {
      EachStep(a + b, codes);
      EachStep(a, codes);
      EachStep(b, codes);
      EscapedAppend(a, b, codes[0]);
      EscapeAllAppend(Escaped(a, codes[0]), Escaped(b, codes[0]), codes[1..]);
    }
  }

  /** Codes that do not occur change nothing. */
  lemma {:induction false} EscapeAllAbsent(s: Bytes, codes: Bytes)
    requires forall c | c in codes :: c !in s
    ensures EscapeAll(s, codes) == s
    decreases |codes|
  {
    if codes != [] {
      EscapeAllAbsent(s, codes[1..]);
    }
  }

  lemma {:induction false} EscapeOne(b: byte, codes: Bytes)
    requires Codes(codes)
    ensures EscapeAll([b], codes) == if b in codes then [BACKSLASH, b] else [b]
    decreases |codes|
  {
    if codes != [] {
      EachStep([b], codes);
      assert [b][1..] == [];
      if b == codes[0] {
        assert Escaped([b], codes[0]) == [BACKSLASH, b];
        EscapeAllAbsent([BACKSLASH, b], codes[1..]);
      } else {
        assert Escaped([b], codes[0]) == [b];
        EscapeOne(b, codes[1..]);
      }
    }
  }

  lemma {:induction false} EscapesEach(s: Bytes, codes: Bytes)
    requires Codes(codes)
    ensures EscapeAll(s, codes) == EachEscaped(s, set c | c in codes)
    decreases |s|
  {
    hide EscapeAll;
    if s == [] {
      EscapeAllAbsent(s, codes);
    } else {
      EscapeAllAppend([s[0]], s[1..], codes);
      assert [s[0]] + s[1..] == s;
      EscapeOne(s[0], codes);
      EscapesEach(s[1..], codes);
    }
  }

  /** Escaping puts a backslash before commas and spaces, in tags also before equals signs, and changes nothing else. */
  lemma EscapesStopsOnly(s: Bytes)
    ensures EscapeMeasurement(s) == EachEscaped(s, {COMMA, SPACE})
    ensures EscapeTag(s) == EachEscaped(s, {COMMA, SPACE, EQUALS})
  {
    EscapesEach(s, MEASUREMENT_CODES);
    EscapesEach(s, TAG_CODES);
    assert (set c | c in MEASUREMENT_CODES) == {COMMA, SPACE};
    assert (set c | c in TAG_CODES) == {COMMA, SPACE, EQUALS};
  }

  // ----- Escaped text is scanned whole -----

  /** Every stop byte comes after a backslash; `after` says whether the text before ends in one. */
  ghost predicate Guarded(s: Bytes, after: bool, stops: set<byte>)
  {
    s == [] || ((s[0] in stops ==> after) && Guarded(s[1..], s[0] == BACKSLASH, stops))
  }

  lemma {:induction false} EscapedGuards(s: Bytes, c: byte, after: bool, stops: set<byte>)
    requires Guarded(s, after, stops) && c != BACKSLASH && BACKSLASH !in stops
    ensures Guarded(Escaped(s, c), after, stops + {c})
  {
    if s != [] {
      EscapedGuards(s[1..], c, s[0] == BACKSLASH, stops);
      var rest := Escaped(s[1..], c);
      if s[0] == c {
        assert Escaped(s, c)[1..] == [c] + rest && ([c] + rest)[1..] == rest;
      } else {
        assert Escaped(s, c)[1..] == rest;
      }
    }
  }

  lemma {:induction false} AllGuarded(s: Bytes, after: bool)
    ensures Guarded(s, after, {})
  {
    if s != [] {
      AllGuarded(s[1..], s[0] == BACKSLASH);
    }
  }

  lemma {:induction false} EscapedLast(s: Bytes, c: byte)
    requires s != []
    ensures Escaped(s, c) != [] && Escaped(s, c)[|Escaped(s, c)| - 1] == s[|s| - 1]
  {
    if |s| > 1 {
      EscapedLast(s[1..], c);
    }
  }

  function CodeSet(codes: Bytes): set<byte>
  {
    set c | c in codes
  }

  lemma {:induction false} EscapeAllGuards(s: Bytes, codes: Bytes, stops: set<byte>)
    requires BACKSLASH !in codes && BACKSLASH !in stops && Guarded(s, false, stops)
    ensures Guarded(EscapeAll(s, codes), false, stops + CodeSet(codes))
    decreases |codes|
  {
    if codes == [] {
      assert stops + CodeSet(codes) == stops;
    } else {
      EachStep(s, codes);
      EscapedGuards(s, codes[0], false, stops);
      EscapeAllGuards(Escaped(s, codes[0]), codes[1..], stops + {codes[0]});
      assert stops + {codes[0]} + CodeSet(codes[1..]) == stops + CodeSet(codes);
    }
  }

  /** Escaping keeps the last byte, and shields the first if it is escaped. */
  lemma {:induction false} EscapeAllEnds(s: Bytes, codes: Bytes)
    requires BACKSLASH !in codes
    ensures s == [] ==> EscapeAll(s, codes) == []
    ensures s != [] ==>
              var e := EscapeAll(s, codes);
              e != [] && e[|e| - 1] == s[|s| - 1] && e[0] == if s[0] in codes then BACKSLASH else s[0]
    decreases |codes|
  {
    hide Escaped;
    if codes == [] {
    } else if s == [] {
      EachStep(s, codes);
      EmptyEscaped(codes[0]);
      EscapeAllEnds(s, codes[1..]);
    } else {
      EachStep(s, codes);
      if s != [] {
        EscapedLast(s, codes[0]);
        EscapedHead(s, codes[0]);
      }
      EscapeAllEnds(Escaped(s, codes[0]), codes[1..]);
    }
  }

  lemma {:induction false} GuardedHasNoStop(s: Bytes, i: nat, stops: set<byte>)
    requires 1 <= i <= |s| && Guarded(s[i..], s[i - 1] == BACKSLASH, stops)
    ensures NextStop(s, i, stops) == |s|
    decreases |s| - i
  {
    if i < |s| {
      assert s[i..][1..] == s[i + 1..];
      GuardedHasNoStop(s, i + 1, stops);
    }
  }

  /** An escaped measurement is well formed exactly if it is not empty, does not begin blank and does not end in a backslash. */
  lemma EscapedIsName(m: Bytes)
    ensures IsName(EscapeMeasurement(m)) <==> m != [] && m[0] !in {TAB, 0} && m[|m| - 1] != BACKSLASH
  {
    hide EscapeAll;
    var e := EscapeMeasurement(m);
    EscapeAllEnds(m, MEASUREMENT_CODES);
    if m != [] {
      AllGuarded(m, false);
      EscapeAllGuards(m, MEASUREMENT_CODES, {});
      assert {} + CodeSet(MEASUREMENT_CODES) == NAME_STOPS;
      assert Guarded(e, false, NAME_STOPS);
      GuardedHasNoStop(e, 1, NAME_STOPS);
    }
  }

  // ----- Tags -----

  function Tag(key: Bytes, value: Bytes): Bytes
  {
    EscapeTag(key) + [EQUALS] + EscapeTag(value)
  }

  /** Text that can be written as the key or the value of a tag. */
  predicate Writable(s: Bytes)
  {
    s != [] && s[|s| - 1] != BACKSLASH
  }

  lemma EscapeTagGuards(s: Bytes)
    ensures Guarded(EscapeTag(s), false, KEY_STOPS)
    ensures s == [] <==> EscapeTag(s) == []
    ensures s != [] ==> var e := EscapeTag(s); e[0] !in KEY_STOPS && e[|e| - 1] == s[|s| - 1]
  {
    AllGuarded(s, false);
    EscapeAllGuards(s, TAG_CODES, {});
    assert {} + CodeSet(TAG_CODES) == KEY_STOPS;
    EscapeAllEnds(s, TAG_CODES);
  }

  lemma GuardedTail(s: Bytes, stops: set<byte>)
    requires s != [] && Guarded(s, false, stops)
    ensures Guarded(s[1..], s[0] == BACKSLASH, stops)
  {
  }

  lemma GuardedStop(s: Bytes, t: Bytes, i: nat, stops: set<byte>)
    requires 1 <= i <= |s| && Guarded(s[i..], s[i - 1] == BACKSLASH, stops)
    requires t != [] && t[0] in stops && s[|s| - 1] != BACKSLASH
    ensures NextStop(s + t, i, stops) == |s|
  {
    GuardedHasNoStop(s, i, stops);
    StopPrefix(s, t, i, stops);
  }

  lemma TokenParts(k: Bytes, v: Bytes)
    requires k != [] && v != []
    ensures
      var t := k + [EQUALS] + v;
      && t == k + ([EQUALS] + v) && t[0] == k[0] && t[|k|] == EQUALS && t[|k| + 1] == v[0]
      && t[|k| + 2..] == v[1..] && t[|t| - 1] == v[|v| - 1]
  {
  }

  lemma WritableIsTag(key: Bytes, value: Bytes)
    requires Writable(key) && Writable(value)
    ensures IsTag(Tag(key, value)) && TagKey(Tag(key, value)) == EscapeTag(key)
  {
    hide EscapeTag, NextStop, Guarded, TagKey;
    var k, v := EscapeTag(key), EscapeTag(value);
    var t := Tag(key, value);
    EscapeTagGuards(key);
    EscapeTagGuards(value);
    GuardedTail(k, KEY_STOPS);
    GuardedTail(v, KEY_STOPS);
    TokenParts(k, v);
    GuardedStop(k, [EQUALS] + v, 1, KEY_STOPS);
    assert NextStop(t, 1, KEY_STOPS) == |k|;
    GuardedHasNoStop(t, |k| + 2, KEY_STOPS);
    TagKeyEnds(t);
  }

  lemma {:induction false} GuardedAppend(a: Bytes, b: Bytes, after: bool, stops: set<byte>)
    requires a != [] && Guarded(a, after, stops) && Guarded(b, a[|a| - 1] == BACKSLASH, stops)
    ensures Guarded(a + b, after, stops)
  {
    assert (a + b)[1..] == a[1..] + b;
    if |a| > 1 {
      GuardedAppend(a[1..], b, a[0] == BACKSLASH, stops);
    } else {
      assert a[1..] + b == b;
    }
  }

  /** A tag can be read back exactly if neither side is empty or ends in a backslash. */
  lemma EscapedIsTag(key: Bytes, value: Bytes)
    ensures IsTag(Tag(key, value)) <==> Writable(key) && Writable(value)
  {
    hide EscapeTag, NextStop;
    var k, v := EscapeTag(key), EscapeTag(value);
    var t := Tag(key, value);
    EscapeTagGuards(key);
    EscapeTagGuards(value);
    if Writable(key) && Writable(value) {
      WritableIsTag(key, value);
    } else if key != [] && key[|key| - 1] == BACKSLASH {
      assert ([EQUALS] + v)[1..] == v;
      GuardedAppend(k, [EQUALS] + v, false, KEY_STOPS);
      assert t == k + ([EQUALS] + v);
      GuardedHasNoStop(t, 1, KEY_STOPS);
    } else if key != [] && value == [] {
      GuardedStop(k, [EQUALS], 1, KEY_STOPS);
      assert t == k + [EQUALS];
    }
  }

  /** What follows the equals sign of a tag. */
  function AfterKey(token: Bytes): Bytes
  {
    var n := |TagKey(token)|;
    if n < |token| then token[n + 1..] else []
  }

  lemma AfterKeyIsValue(key: Bytes, value: Bytes)
    requires Writable(key) && Writable(value)
    ensures AfterKey(Tag(key, value)) == EscapeTag(value)
  {
    WritableIsTag(key, value);
    hide EscapeTag, TagKey;
  }

  /** The measurement and the tags of a point, escaped, are scanned as they were written, and unescaping gives them back. */
  lemma EscapedLineScans(m: Bytes, keys: seq<Bytes>, values: seq<Bytes>, tokens: seq<Bytes>, rest: Bytes)
    requires m != [] && m[0] !in {TAB, 0} && m[|m| - 1] != BACKSLASH
    requires |keys| == |values| == |tokens|
    requires forall i | 0 <= i < |keys| :: Writable(keys[i]) && Writable(values[i]) && tokens[i] == Tag(keys[i], values[i])
    ensures ScanResult(Line(EscapeMeasurement(m), tokens, rest), 0) == LineResult(EscapeMeasurement(m), tokens)
    ensures UnescapeMeasurement(EscapeMeasurement(m)) == m
    ensures forall i | 0 <= i < |keys| ::
              UnescapeTag(TagKey(tokens[i])) == keys[i] && UnescapeTag(AfterKey(tokens[i])) == values[i]
    ensures DistinctKeys(tokens, TagKey) <==> forall i, j | 0 <= i < j < |keys| :: keys[i] != keys[j]
  {
    EscapedIsName(m);
    EscapeRoundTrip(m);
    forall i | 0 <= i < |keys|
      ensures IsTag(tokens[i]) && TagKey(tokens[i]) == EscapeTag(keys[i]) && UnescapeTag(EscapeTag(keys[i])) == keys[i]
      ensures UnescapeTag(AfterKey(tokens[i])) == values[i]
    {
      WritableIsTag(keys[i], values[i]);
      AfterKeyIsValue(keys[i], values[i]);
      EscapeRoundTrip(keys[i]);
      EscapeRoundTrip(values[i]);
    }
    hide EscapeTag, UnescapeTag, TagKey, AfterKey;
    LineScans(EscapeMeasurement(m), tokens, rest);
  }

  // ----- String fields -----

  /** Quotes and backslashes get a backslash before them. */
  function EscapeStringField(s: Bytes): Bytes
  {
    if s == [] then []
    else (if s[0] == QUOTE || s[0] == BACKSLASH then [BACKSLASH, s[0]] else [s[0]]) + EscapeStringField(s[1..])
  }

  function FieldUnescaped(s: Bytes): Bytes
  {
    if s == [] then []
    else if |s| > 1 && s[0] == BACKSLASH && (s[1] == QUOTE || s[1] == BACKSLASH) then [s[1]] + FieldUnescaped(s[2..])
    else [s[0]] + FieldUnescaped(s[1..])
  }

  lemma {:induction false} FieldWithoutBackslash(s: Bytes)
    requires BACKSLASH !in s
    ensures FieldUnescaped(s) == s
  {
    if s != [] {
      FieldWithoutBackslash(s[1..]);
    }
  }

  lemma FieldStep(s: Bytes, i: nat)
    requires i < |s|
    ensures FieldUnescaped(s[i..]) ==
            if i + 1 < |s| && s[i] == BACKSLASH && (s[i + 1] == QUOTE || s[i + 1] == BACKSLASH)
            then [s[i + 1]] + FieldUnescaped(s[i + 2..]) else [s[i]] + FieldUnescaped(s[i + 1..])
  {
    assert s[i..][1..] == s[i + 1..];
    assert i + 1 < |s| ==> s[i..][2..] == s[i + 2..];
  }

  /** The bytes put out so far, with what is left to unescape, are the whole. */
  ghost predicate Progress(s: Bytes, i: nat, out: Bytes)
  {
    i <= |s| && out + FieldUnescaped(s[i..]) == FieldUnescaped(s)
  }

  lemma ProgressSteps(s: Bytes, i: nat, out: Bytes)
    requires Progress(s, i, out) && i < |s|
    ensures
      if i + 1 < |s| && s[i] == BACKSLASH && (s[i + 1] == QUOTE || s[i + 1] == BACKSLASH)
      then Progress(s, i + 2, out + [s[i + 1]]) else Progress(s, i + 1, out + [s[i]])
  {
    hide FieldUnescaped;
    FieldStep(s, i);
  }

  lemma ProgressEnds(s: Bytes, out: Bytes)
    ensures Progress(s, 0, [])
    ensures Progress(s, |s|, out) ==> out == FieldUnescaped(s)
  {
    assert s[0..] == s && s[|s|..] == [];
  }

  method UnescapeStringField(s: Bytes) returns (out: Bytes)
    ensures out == FieldUnescaped(s)
  {
    if BACKSLASH !in s {
      FieldWithoutBackslash(s);
      return s;
    }
    hide FieldUnescaped, Progress;
    out := [];
    var i := 0;
    ProgressEnds(s, out);
    while i < |s|
      invariant 0 <= i <= |s| && Progress(s, i, out)
    {
      ProgressSteps(s, i, out);
      if s[i] == BACKSLASH && i + 1 < |s| && s[i + 1] == BACKSLASH {
        out := out + [BACKSLASH];
        i := i + 2;
        continue;
      }
      if s[i] == BACKSLASH && i + 1 < |s| && s[i + 1] == QUOTE {
        out := out + [QUOTE];
        i := i + 2;
        continue;
      }
      out := out + [s[i]];
      i := i + 1;
    }
    ProgressEnds(s, out);
  }

  /** Unescaping gives back every string, whatever its bytes. */
  lemma {:induction false} FieldRoundTrip(s: Bytes)
    ensures FieldUnescaped(EscapeStringField(s)) == s
  {
    if s != [] {
      FieldRoundTrip(s[1..]);
      var rest := EscapeStringField(s[1..]);
      if s[0] == QUOTE || s[0] == BACKSLASH {
        assert EscapeStringField(s)[2..] == rest;
      } else {
        assert EscapeStringField(s)[1..] == rest;
      }
    }
  }

  /** Where a backslash stands before a quote or a backslash. */
  ghost predicate HasPair(s: Bytes)
  {
    exists i :: 0 <= i < |s| - 1 && s[i] == BACKSLASH && s[i + 1] in {QUOTE, BACKSLASH}
  }

  lemma {:induction false} UnescapingShrinks(s: Bytes)
    ensures |FieldUnescaped(s)| <= |s|
    ensures HasPair(s) ==> |FieldUnescaped(s)| < |s|
    ensures !HasPair(s) ==> FieldUnescaped(s) == s
    decreases |s|
  {
    if s != [] {
      if |s| > 1 && s[0] == BACKSLASH && (s[1] == QUOTE || s[1] == BACKSLASH) {
        assert HasPair(s);
        UnescapingShrinks(s[2..]);
      } else {
        UnescapingShrinks(s[1..]);
        if HasPair(s[1..]) {
          var i :| 0 <= i < |s[1..]| - 1 && s[1..][i] == BACKSLASH && s[1..][i + 1] in {QUOTE, BACKSLASH};
          assert s[i + 1] == BACKSLASH && s[i + 2] in {QUOTE, BACKSLASH};
        }
        if i :| 0 <= i < |s| - 1 && s[i] == BACKSLASH && s[i + 1] in {QUOTE, BACKSLASH} {
          assert i > 0 && s[1..][i - 1] == BACKSLASH && s[1..][i] in {QUOTE, BACKSLASH};
        }
      }
    }
  }

  /** Text stays as it is if and only if no backslash stands before a quote or a backslash. */
  lemma UnescapingKeeps(s: Bytes)
    ensures FieldUnescaped(s) == s <==>
            forall i | 0 <= i < |s| - 1 && s[i] == BACKSLASH :: s[i + 1] != QUOTE && s[i + 1] != BACKSLASH
  {
    UnescapingShrinks(s);
    assert (forall i | 0 <= i < |s| - 1 && s[i] == BACKSLASH :: s[i + 1] != QUOTE && s[i + 1] != BACKSLASH) <==> !HasPair(s);
  }

  /** A backslash before any other byte stays, and what follows is unescaped on its own. */
  lemma LoneBackslashStays(c: byte, rest: Bytes)
    requires c != QUOTE && c != BACKSLASH
    ensures FieldUnescaped([BACKSLASH, c] + rest) == [BACKSLASH, c] + FieldUnescaped(rest)
  {
    var s := [BACKSLASH, c] + rest;
    assert s[1..] == [c] + rest && s[1..][1..] == rest;
  }

  // ----- Scanning a field value -----

  /** The length of the field value that `s` begins with: up to a comma outside quotes. */
  function ValueLength(s: Bytes, quoted: bool): (n: nat)
    ensures n <= |s| && (n < |s| ==> s[n] == COMMA)
  {
    if s == [] then 0
    else if |s| > 1 && s[0] == BACKSLASH && (s[1] == QUOTE || s[1] == BACKSLASH) then 2 + ValueLength(s[2..], quoted)
    else if s[0] == QUOTE then 1 + ValueLength(s[1..], !quoted)
    else if s[0] == COMMA && !quoted then 0
    else 1 + ValueLength(s[1..], quoted)
  }

  method ScanFieldValue(buf: Bytes, start: nat) returns (i: nat, value: Bytes)
    requires start <= |buf|
    ensures i == start + ValueLength(buf[start..], false) && value == buf[start..i]
  {
    i := start;
    var quoted := false;
    while i < |buf|
      invariant start <= i <= |buf|
      invariant i + ValueLength(buf[i..], quoted) == start + ValueLength(buf[start..], false)
    {
      if buf[i] == BACKSLASH && i + 1 < |buf| && (buf[i + 1] == QUOTE || buf[i + 1] == BACKSLASH) {
        assert buf[i..][2..] == buf[i + 2..];
        i := i + 2;
        continue;
      }
      assert buf[i..][1..] == buf[i + 1..];
      if buf[i] == QUOTE {
        i := i + 1;
        quoted := !quoted;
        continue;
      }
      if buf[i] == COMMA && !quoted {
        break;
      }
      i := i + 1;
    }
    value := buf[start..i];
  }

  lemma {:induction false} EscapedValueLength(s: Bytes, rest: Bytes)
    ensures ValueLength(EscapeStringField(s) + [QUOTE] + rest, true) == |EscapeStringField(s)| + 1 + ValueLength(rest, false)
  {
    hide ValueLength;
    var e := EscapeStringField(s);
    if s == [] {
      assert e + [QUOTE] + rest == [QUOTE] + rest;
      ValueStep(QUOTE, rest, true);
    } else {
      EscapedValueLength(s[1..], rest);
      var f := EscapeStringField(s[1..]) + [QUOTE] + rest;
      if s[0] == QUOTE || s[0] == BACKSLASH {
        assert e + [QUOTE] + rest == [BACKSLASH, s[0]] + f;
        ValuePair(s[0], f, true);
      } else {
        assert e + [QUOTE] + rest == [s[0]] + f;
        ValueStep(s[0], f, true);
      }
    }
  }

  lemma ValueStep(b: byte, s: Bytes, quoted: bool)
    requires b != BACKSLASH && (b == COMMA ==> quoted)
    ensures ValueLength([b] + s, quoted) == 1 + ValueLength(s, if b == QUOTE then !quoted else quoted)
  {
    assert ([b] + s)[1..] == s;
  }

  lemma ValuePair(b: byte, s: Bytes, quoted: bool)
    requires b == QUOTE || b == BACKSLASH
    ensures ValueLength([BACKSLASH, b] + s, quoted) == 2 + ValueLength(s, quoted)
  {
    assert ([BACKSLASH, b] + s)[2..] == s;
  }

  /** A quoted, escaped string before a comma or the end is scanned exactly to its closing quote. */
  lemma QuotedValueScans(s: Bytes, rest: Bytes)
    requires rest == [] || rest[0] == COMMA
    ensures ValueLength([QUOTE] + EscapeStringField(s) + [QUOTE] + rest, false) == |EscapeStringField(s)| + 2
  {
    var e := EscapeStringField(s);
    EscapedValueLength(s, rest);
    assert [QUOTE] + e + [QUOTE] + rest == [QUOTE] + (e + [QUOTE] + rest);
    ValueStep(QUOTE, e + [QUOTE] + rest, false);
  }
}
