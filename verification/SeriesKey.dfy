/**
 The series key codec: a length-prefixed encoding of a measurement name and its
 tags, the reader that takes it apart and the comparison that orders encoded
 keys without decoding them. Lengths of the whole key and the tag count are
 variable-length integers (the "Base 128 Varints" section of the Protocol
 Buffers encoding specification); every other length is a big-endian uint16.
 */
module SeriesKey {
  import opened Wrappers
  import opened Arithmetic
  import opened Bytes

  datatype Tag = Tag(key: Bytes, value: Bytes)

  /** Go's slice lengths are signed 64-bit integers. */
  const MAX_INT := 0x8000_0000_0000_0000

  // ----- Variable-length integers -----

  function PutUvarint(x: nat): (r: Bytes)
    ensures |r| >= 1
  {
    if x < 128 then [x as byte] else [(x % 128 + 128) as byte] + PutUvarint(x / 128)
  }

  /** The number of bytes of the encoding, by the shifting loop. */
  method UvarintSize(x: nat) returns (n: nat)
    ensures n == |PutUvarint(x)|
  {
    var i, rest := 0, x;
    while rest >= 0x80
      invariant |PutUvarint(x)| == i + |PutUvarint(rest)|
      decreases rest
    {
      rest := rest / 128;
      i := i + 1;
    }
    return i + 1;
  }

  /** A decoded integer and the bytes read; 0 bytes when the data ends early, a negative number on overflow. */
  datatype Decoded = Decoded(value: nat, n: int)

  /** Go's `binary.Uvarint` from its `i`-th byte on. */
  function Uvarint(data: Bytes, i: nat := 0): Decoded
    decreases |data|
  {
    if data == [] then Decoded(0, 0)
    else
      var b := data[0] as int;
      if b < 128 then
        if i > 9 || (i == 9 && b > 1) then Decoded(0, -(i + 1)) else Decoded(b, i + 1)
      else
        var rest := Uvarint(data[1..], i + 1);
        if rest.n <= 0 then rest else Decoded(b - 128 + 128 * rest.value, rest.n)
  }

  /** The values that still fit in 64 bits after `i` bytes. */
  ghost function Limit(i: nat): nat
    requires i <= 9
    decreases 9 - i
  {
    if i == 9 then 2 else 128 * Limit(i + 1)
  }

  lemma {:induction false} UvarintRoundTrip(x: nat, rest: Bytes, i: nat)
    requires i <= 9 && x < Limit(i)
    ensures Uvarint(PutUvarint(x) + rest, i) == Decoded(x, i + |PutUvarint(x)|)
    decreases x
  {
    var data := PutUvarint(x) + rest;
    if x >= 128 {
      UvarintRoundTrip(x / 128, rest, i + 1);
      assert data[1..] == PutUvarint(x / 128) + rest;
    }
  }

  /** The number that groups of seven bits stand for, the least first. */
  function GroupsValue(r: Bytes): nat
  {
    if r == [] then 0 else r[0] as nat % 128 + 128 * GroupsValue(r[1..])
  }

  /** Seven bits a byte, the least first; every byte but the last has its high bit set. */
  lemma {:induction false} UvarintLayout(x: nat)
    ensures
      var r := PutUvarint(x);
      && GroupsValue(r) == x && r[|r| - 1] < 128 && forall i | 0 <= i < |r| - 1 :: r[i] >= 128
    decreases x
  {
    var r := PutUvarint(x);
    if x >= 128 {
      UvarintLayout(x / 128);
      var tail := PutUvarint(x / 128);
      assert r == [(x % 128 + 128) as byte] + tail && r[1..] == tail;
      hide PutUvarint;
      forall i | 0 <= i < |r| - 1 ensures r[i] >= 128 {
        assert i > 0 ==> r[i] == r[1..][i - 1];
      }
    } else {
      assert r[1..] == [];
    }
  }

  lemma IntFits(x: nat)
    requires x < MAX_INT
    ensures x < Limit(0)
  {
    assert Limit(9) == 2;
    assert Limit(8) == 256;
    assert Limit(7) == 128 * 256;
    assert Limit(6) == 128 * 128 * 256;
    assert Limit(5) == 128 * 128 * 128 * 256;
    assert Limit(4) == 128 * 128 * 128 * 128 * 256;
    assert Limit(3) == 128 * 128 * 128 * 128 * 128 * 256;
    assert Limit(2) == 128 * 128 * 128 * 128 * 128 * 128 * 256;
    assert Limit(1) == 128 * 128 * 128 * 128 * 128 * 128 * 128 * 256;
  }

  // ----- Encoding -----

  /** A big-endian uint16; a longer length loses its high bits. */
  function PutUint16(n: nat): Bytes
  {
    [(n / 256 % 256) as byte, (n % 256) as byte]
  }

  function EncodeTag(t: Tag): Bytes
  {
    PutUint16(|t.key|) + t.key + PutUint16(|t.value|) + t.value
  }

  function EncodeTags(tags: seq<Tag>): Bytes
  {
    if tags == [] then [] else EncodeTag(tags[0]) + EncodeTags(tags[1..])
  }

  function Body(name: Bytes, tags: seq<Tag>): Bytes
  {
    PutUint16(|name|) + name + PutUvarint(|tags|) + EncodeTags(tags)
  }

  /** The encoded series key. */
  function Encode(name: Bytes, tags: seq<Tag>): (r: Bytes)
    ensures |r| > |Body(name, tags)|
  {
    PutUvarint(|Body(name, tags)|) + Body(name, tags)
  }

  /** The bytes of all tag keys and values. */
  function TagsSize(tags: seq<Tag>): nat
  {
    if tags == [] then 0 else |tags[0].key| + |tags[0].value| + TagsSize(tags[1..])
  }

  lemma {:induction false} EncodeTagsSize(tags: seq<Tag>)
    ensures |EncodeTags(tags)| == 4 * |tags| + TagsSize(tags)
  {
    if tags != [] {
      EncodeTagsSize(tags[1..]);
    }
  }

  lemma {:induction false} EncodeTagsAppend(tags: seq<Tag>, t: Tag)
    ensures EncodeTags(tags + [t]) == EncodeTags(tags) + EncodeTag(t)
    ensures TagsSize(tags + [t]) == TagsSize(tags) + |t.key| + |t.value|
  {
    if tags == [] {
      assert tags + [t] == [t] && EncodeTags([t]) == EncodeTag(t) + EncodeTags([]);
    } else {
      EncodeTagsAppend(tags[1..], t);
      assert (tags + [t])[1..] == tags[1..] + [t];
      assert EncodeTags(tags + [t]) == EncodeTag(tags[0]) + (EncodeTags(tags[1..]) + EncodeTag(t));
    }
  }

  lemma NoTags()
    ensures EncodeTags([]) == []
  {
  }

  lemma AppendTag(out: Bytes, t: Tag)
    ensures out + PutUint16(|t.key|) + t.key + PutUint16(|t.value|) + t.value == out + EncodeTag(t)
  {
  }

  method AppendTags(dst: Bytes, tags: seq<Tag>) returns (out: Bytes)
    ensures out == dst + EncodeTags(tags)
  {
    hide PutUint16, EncodeTag, EncodeTags;
    out := dst;
    assert tags[..0] == [];
    NoTags();
    for i := 0 to |tags|
      invariant out == dst + EncodeTags(tags[..i])
    {
      EncodeTagsAppend(tags[..i], tags[i]);
      assert tags[..i + 1] == tags[..i] + [tags[i]];
      AppendTag(out, tags[i]);
      out := out + PutUint16(|tags[i].key|) + tags[i].key;
      out := out + PutUint16(|tags[i].value|) + tags[i].value;
    }
    assert tags[..|tags|] == tags;
  }

  /** Appends the encoded key to `dst`; the source's check that the size was computed right never fires. */
  method AppendSeriesKey(dst: Bytes, name: Bytes, tags: seq<Tag>) returns (out: Bytes)
    ensures out == dst + Encode(name, tags)
  {
    var tcBuf := PutUvarint(|tags|);
    var size := 2 + |name| + |tcBuf| + 4 * |tags| + TagsSize(tags);
    var buf := PutUvarint(size);
    EncodeTagsSize(tags);
    assert size == |Body(name, tags)|;
    out := dst + buf;
    out := out + PutUint16(|name|) + name;
    out := out + tcBuf;
    out := AppendTags(out, tags);
    assert out == dst + (buf + Body(name, tags));
    assert |out| - |dst| == size + |buf|;
  }

  /** The size of an encoded key, by summing the parts. */
  method SeriesKeySize(name: Bytes, tags: seq<Tag>) returns (n: nat)
    ensures n == |Encode(name, tags)|
  {
    n := 2 + |name|;
    var k := UvarintSize(|tags|);
    n := n + k;
    ghost var head := n;
    for i := 0 to |tags|
      invariant n == head + 4 * i + TagsSize(tags[..i])
    {
      EncodeTagsAppend(tags[..i], tags[i]);
      assert tags[..i + 1] == tags[..i] + [tags[i]];
      n := n + 2 + |tags[i].key|;
      n := n + 2 + |tags[i].value|;
    }
    assert tags[..|tags|] == tags;
    EncodeTagsSize(tags);
    var j := UvarintSize(n);
    n := n + j;
  }

  // ----- Decoding; None is a slice out of range, which stops the program -----

  datatype Read<T> = Fault | Read(value: T, rest: Bytes)

  function Slice(data: Bytes, n: nat): Read<Bytes>
  {
    if n <= |data| then Read(data[..n], data[n..]) else Fault
  }

  function ReadUint16(data: Bytes): Read<nat>
  {
    if |data| < 2 then Fault else Read(data[0] as nat * 256 + data[1] as nat, data[2..])
  }

  /** A 64-bit unsigned number converted to a signed one. */
  function ToInt(n: nat): int
  {
    if n >= MAX_INT then n - 2 * MAX_INT else n
  }

  /** A variable-length number and what follows it. */
  function ReadNumber(data: Bytes): Read<int>
  {
    var d := Uvarint(data);
    if d.n < 0 || d.n > |data| then Fault else Read(ToInt(d.value), data[d.n..])
  }

  /** A uint16 length and that many bytes. */
  function ReadString(data: Bytes): Read<Bytes>
  {
    var n := ReadUint16(data);
    if n.Fault? then Fault else Slice(n.rest, n.value)
  }

  function ReadTag(data: Bytes): Read<Tag>
  {
    var key := ReadString(data);
    if key.Fault? then Fault
    else
      var value := ReadString(key.rest);
      if value.Fault? then Fault else Read(Tag(key.value, value.value), value.rest)
  }

  lemma ReadTagShrinks(data: Bytes)
    ensures ReadTag(data).Fault? || |ReadTag(data).rest| < |data|
  {
  }

  function ReadTags(data: Bytes, n: nat): Read<seq<Tag>>
  {
    if n == 0 then Read([], data)
    else
      var before := ReadTags(data, n - 1);
      if before.Fault? then Fault
      else
        var last := ReadTag(before.rest);
        if last.Fault? then Fault else Read(before.value + [last.value], last.rest)
  }

  /** The first series key of the data, and what follows it. */
  function ReadSeriesKey(data: Bytes): Read<Bytes>
  {
    var d := Uvarint(data);
    var size := ToInt(d.value) + d.n;
    if size < 0 then Fault else Slice(data, size)
  }

  datatype Key = Key(name: Bytes, tags: seq<Tag>)

  function Parse(data: Bytes): Option<Key>
  {
    var size := ReadNumber(data);
    if size.Fault? then None
    else
      var name := ReadString(size.rest);
      if name.Fault? then None
      else
        var tagN := ReadNumber(name.rest);
        if tagN.Fault? || tagN.value < 0 then None
        else
          var tags := ReadTags(tagN.rest, tagN.value);
          if tags.Fault? then None else Some(Key(name.value, tags.value))
  }

  /** The parse loop reads the counted tags one after the other. */
  method ParseSeriesKey(data: Bytes) returns (r: Option<Key>)
    ensures r == Parse(data)
  {
    var size := ReadNumber(data);
    if size.Fault? { return None; }
    var name := ReadString(size.rest);
    if name.Fault? { return None; }
    var tagN := ReadNumber(name.rest);
    if tagN.Fault? || tagN.value < 0 { return None; }
    var tags, rest := [], tagN.rest;
    for i := 0 to tagN.value
      invariant ReadTags(tagN.rest, i) == Read(tags, rest)
    {
      var t := ReadTag(rest);
      if t.Fault? {
        FaultStays(tagN.rest, i + 1, tagN.value);
        return None;
      }
      tags, rest := tags + [t.value], t.rest;
    }
    return Some(Key(name.value, tags));
  }

  lemma {:induction false} FaultStays(data: Bytes, m: nat, n: nat)
    requires m <= n && ReadTags(data, m).Fault?
    ensures ReadTags(data, n).Fault?
  {
    hide ReadTag;
    if m < n {
      FaultStays(data, m, n - 1);
    }
  }

  /** The key of `cpu,host=a`, byte for byte. */
  lemma EncodedExample()
    ensures
      var cpu, host: Bytes := [99, 112, 117], [104, 111, 115, 116];
      Encode(cpu, [Tag(host, [97])]) == [15] + [0, 3] + cpu + [1] + [0, 4] + host + [0, 1] + [97]
  {
    var cpu, host: Bytes := [99, 112, 117], [104, 111, 115, 116];
    var tag := Tag(host, [97]);
    assert [tag][1..] == [];
    assert EncodeTag(tag) == [0, 4] + host + [0, 1] + [97];
    assert EncodeTags([tag]) == EncodeTag(tag);
    assert Body(cpu, [tag]) == [0, 3] + cpu + [1] + EncodeTag(tag);
  }

  // ----- Decoding inverts encoding -----

  predicate FitsTag(t: Tag)
  {
    |t.key| < 0x1_0000 && |t.value| < 0x1_0000
  }

  /** Every length fits the 16 bits it is written in. */
  predicate Fits(name: Bytes, tags: seq<Tag>)
  {
    |name| < 0x1_0000 && FitTags(tags)
  }

  lemma ReadStringBack(s: Bytes, rest: Bytes)
    ensures
      var n := |s| % 0x1_0000;
      ReadString(PutUint16(|s|) + s + rest) == Read(s[..n], s[n..] + rest)
  {
    var n := |s| % 0x1_0000;
    ReadUint16Back(|s|, s + rest);
    assert PutUint16(|s|) + s + rest == PutUint16(|s|) + (s + rest);
    hide PutUint16, ReadUint16;
    assert (s + rest)[..n] == s[..n] && (s + rest)[n..] == s[n..] + rest;
  }

  /** A length loses all but its low sixteen bits. */
  lemma ReadUint16Back(n: nat, rest: Bytes)
    ensures ReadUint16(PutUint16(n) + rest) == Read(n % 0x1_0000, rest)
  {
    var data := PutUint16(n) + rest;
    assert data[2..] == rest;
    assert data[0] as nat == n / 256 % 256 && data[1] as nat == n % 256;
    LowBytes(n);
  }

  lemma LowBytes(n: nat)
    ensures n / 256 % 256 * 256 + n % 256 == n % 0x1_0000
  {
    var high, top := n / 256, n / 256 / 256;
    assert n == high * 256 + n % 256 && high == top * 256 + high % 256;
    QuotientUnique(n, 0x1_0000, top);
  }

  lemma ReadStringFits(s: Bytes, rest: Bytes)
    requires |s| < 0x1_0000
    ensures ReadString(PutUint16(|s|) + s + rest) == Read(s, rest)
  {
    ReadStringBack(s, rest);
    assert s[..|s|] == s && s[|s|..] + rest == rest;
  }

  lemma ReadTagBack(t: Tag, rest: Bytes)
    requires FitsTag(t)
    ensures ReadTag(EncodeTag(t) + rest) == Read(t, rest)
  {
    var tail := PutUint16(|t.value|) + t.value + rest;
    assert EncodeTag(t) + rest == PutUint16(|t.key|) + t.key + tail;
    ReadStringFits(t.key, tail);
    ReadStringFits(t.value, rest);
  }

  /** A tag with a length that does not fit is not read back. */
  lemma LongTagDiffers(t: Tag, rest: Bytes)
    requires !FitsTag(t)
    ensures var r := ReadTag(EncodeTag(t) + rest); r.Fault? || r.value != t
  {
    var tail := PutUint16(|t.value|) + t.value + rest;
    assert EncodeTag(t) + rest == PutUint16(|t.key|) + t.key + tail;
    ReadStringBack(t.key, tail);
    if |t.key| < 0x1_0000 {
      ReadStringFits(t.key, tail);
      ReadStringBack(t.value, rest);
    }
  }

  predicate FitTags(tags: seq<Tag>)
  {
    forall i | 0 <= i < |tags| :: FitsTag(tags[i])
  }

  lemma EncodeTagsSplit(init: seq<Tag>, t: Tag, rest: Bytes)
    ensures EncodeTags(init + [t]) + rest == EncodeTags(init) + (EncodeTag(t) + rest)
  {
    EncodeTagsAppend(init, t);
  }

  lemma {:induction false} ReadTagsBack(tags: seq<Tag>, rest: Bytes)
    requires FitTags(tags)
    ensures ReadTags(EncodeTags(tags) + rest, |tags|) == Read(tags, rest)
  {
    hide ReadTag, EncodeTag, FitsTag;
    if tags == [] {
      assert EncodeTags(tags) + rest == rest;
    } else {
      var init, t := tags[..|tags| - 1], tags[|tags| - 1];
      assert tags == init + [t];
      EncodeTagsSplit(init, t, rest);
      ReadTagsBack(init, EncodeTag(t) + rest);
      ReadTagBack(t, rest);
    }
  }

  lemma {:induction false} LongTagsDiffer(tags: seq<Tag>, rest: Bytes)
    requires !FitTags(tags)
    ensures var r := ReadTags(EncodeTags(tags) + rest, |tags|); r.Fault? || r.value != tags
  {
    hide ReadTag, EncodeTag, EncodeTags, FitsTag;
    var init, t := tags[..|tags| - 1], tags[|tags| - 1];
    assert tags == init + [t];
    EncodeTagsSplit(init, t, rest);
    if FitTags(init) {
      ReadTagsBack(init, EncodeTag(t) + rest);
      LongTagDiffers(t, rest);
    } else {
      LongTagsDiffer(init, EncodeTag(t) + rest);
    }
  }

  lemma ReadNumberBack(n: nat, rest: Bytes)
    requires n < MAX_INT
    ensures ReadNumber(PutUvarint(n) + rest) == Read(n, rest)
  {
    IntFits(n);
    UvarintRoundTrip(n, rest, 0);
    assert (PutUvarint(n) + rest)[|PutUvarint(n)|..] == rest;
  }

  function AfterName(tags: seq<Tag>): Bytes
  {
    PutUvarint(|tags|) + EncodeTags(tags)
  }

  lemma BodyParts(name: Bytes, tags: seq<Tag>)
    ensures Body(name, tags) == PutUint16(|name|) + name + AfterName(tags)
    ensures |tags| < |Body(name, tags)| < |Encode(name, tags)|
  {
    EncodeTagsSize(tags);
  }

  /** Parsing an encoded key gives back the name and the tags exactly when every length fits in 16 bits. */
  lemma ParseInvertsEncode(name: Bytes, tags: seq<Tag>)
    requires |Encode(name, tags)| < MAX_INT
    ensures Parse(Encode(name, tags)) == Some(Key(name, tags)) <==> Fits(name, tags)
  {
    BodyParts(name, tags);
    ReadNumberBack(|Body(name, tags)|, Body(name, tags));
    ReadNumberBack(|tags|, EncodeTags(tags));
    if |name| < 0x1_0000 {
      ReadStringFits(name, AfterName(tags));
      assert EncodeTags(tags) + [] == EncodeTags(tags);
      if FitTags(tags) {
        ReadTagsBack(tags, []);
      } else {
        LongTagsDiffer(tags, []);
      }
    } else {
      ReadStringBack(name, AfterName(tags));
    }
  }

  /** Keys written one after the other are taken off the front one at a time. */
  lemma ReadSeriesKeyPeels(name: Bytes, tags: seq<Tag>, rest: Bytes)
    requires |Encode(name, tags)| < MAX_INT
    ensures ReadSeriesKey(Encode(name, tags) + rest) == Read(Encode(name, tags), rest)
  {
    var body := Body(name, tags);
    IntFits(|body|);
    UvarintRoundTrip(|body|, body + rest, 0);
    var data := Encode(name, tags) + rest;
    assert data == PutUvarint(|body|) + (body + rest);
    assert data[..|Encode(name, tags)|] == Encode(name, tags) && data[|Encode(name, tags)|..] == rest;
  }

  // ----- Comparing encoded keys -----

  function PairOrder(a: Tag, b: Tag): int
  {
    if Compare(a.key, b.key) != 0 then Compare(a.key, b.key) else Compare(a.value, b.value)
  }

  /** The order of tag lists: pairwise, then the shorter list first. */
  function TagsOrder(a: seq<Tag>, b: seq<Tag>): int
  {
    if a == [] && b == [] then 0
    else if a == [] then -1
    else if b == [] then 1
    else if PairOrder(a[0], b[0]) != 0 then PairOrder(a[0], b[0])
    else TagsOrder(a[1..], b[1..])
  }

  /** Names first, then tags. */
  function KeyOrder(a: Key, b: Key): int
  {
    if Compare(a.name, b.name) != 0 then Compare(a.name, b.name) else TagsOrder(a.tags, b.tags)
  }

  /** The comparison of tag lists, by the loop up to the shorter length. */
  method CompareTags(a: seq<Tag>, b: seq<Tag>) returns (c: int)
    ensures c == TagsOrder(a, b)
    ensures (c < 0 <==> TagsPrecede(a, b)) && (c == 0 <==> a == b) && (c > 0 <==> TagsPrecede(b, a))
  {
    TagsOrderIsLexicographic(a, b);
    TagsOrderIsLexicographic(b, a);
    TagsOrderLaws(a, b);
    hide TagsPrecede, Compare;
    var i := 0;
    while i < |a| && i < |b|
      invariant 0 <= i <= |a| && i <= |b| && TagsOrder(a, b) == TagsOrder(a[i..], b[i..])
    {
      if Compare(a[i].key, b[i].key) != 0 {
        return Compare(a[i].key, b[i].key);
      }
      if Compare(a[i].value, b[i].value) != 0 {
        return Compare(a[i].value, b[i].value);
      }
      assert a[i..][1..] == a[i + 1..] && b[i..][1..] == b[i + 1..];
      i := i + 1;
    }
    if |a| < |b| {
      return -1;
    } else if |a| > |b| {
      return 1;
    }
    return 0;
  }

  /** What remains to compare when `n` tags of `a` and `m` tags of `b` are unread; a negative count never runs out. */
  function TagDataOrder(a: Bytes, n: int, b: Bytes, m: int): Option<int>
    decreases |a|
  {
    if n == 0 && m == 0 then Some(0)
    else if n == 0 then Some(-1)
    else if m == 0 then Some(1)
    else
      var t, u := ReadTag(a), ReadTag(b);
      ReadTagShrinks(a);
      if t.Fault? || u.Fault? then None
      else if PairOrder(t.value, u.value) != 0 then Some(PairOrder(t.value, u.value))
      else TagDataOrder(t.rest, n - 1, u.rest, m - 1)
  }

  /** The comparison of two encoded keys; None is a slice out of range. */
  method CompareSeriesKeys(a: Bytes, b: Bytes) returns (c: Option<int>)
    ensures a == [] || b == [] ==> c == Some(if a != [] then 1 else if b != [] then -1 else 0)
    ensures a != [] && b != [] ==> c == EncodedOrder(a, b)
  {
    if |a| == 0 && |b| == 0 { return Some(0); }
    else if |a| == 0 { return Some(-1); }
    else if |b| == 0 { return Some(1); }
    var sizeA, sizeB := ReadNumber(a), ReadNumber(b);
    if sizeA.Fault? || sizeB.Fault? { return None; }
    var nameA, nameB := ReadString(sizeA.rest), ReadString(sizeB.rest);
    if nameA.Fault? || nameB.Fault? { return None; }
    if Compare(nameA.value, nameB.value) != 0 { return Some(Compare(nameA.value, nameB.value)); }
    var countA, countB := ReadNumber(nameA.rest), ReadNumber(nameB.rest);
    if countA.Fault? || countB.Fault? { return None; }
    c := CompareTagData(countA.rest, countA.value, countB.rest, countB.value);
  }

  function EncodedOrder(a: Bytes, b: Bytes): Option<int>
  {
    var sizeA, sizeB := ReadNumber(a), ReadNumber(b);
    if sizeA.Fault? || sizeB.Fault? then None
    else
      var nameA, nameB := ReadString(sizeA.rest), ReadString(sizeB.rest);
      if nameA.Fault? || nameB.Fault? then None
      else if Compare(nameA.value, nameB.value) != 0 then Some(Compare(nameA.value, nameB.value))
      else
        var countA, countB := ReadNumber(nameA.rest), ReadNumber(nameB.rest);
        if countA.Fault? || countB.Fault? then None
        else TagDataOrder(countA.rest, countA.value, countB.rest, countB.value)
  }

  /** The tag-by-tag loop of the comparison. */
  method CompareTagData(dataA: Bytes, tagA: int, dataB: Bytes, tagB: int) returns (c: Option<int>)
    ensures c == TagDataOrder(dataA, tagA, dataB, tagB)
  {
    hide ReadTag, Compare;
    var a, b, i := dataA, dataB, 0;
    while true
      invariant TagDataOrder(dataA, tagA, dataB, tagB) == TagDataOrder(a, tagA - i, b, tagB - i)
      decreases |a|
    {
      if i == tagA && i == tagB { return Some(0); }
      else if i == tagA { return Some(-1); }
      else if i == tagB { return Some(1); }
      var t, u := ReadTag(a), ReadTag(b);
      ReadTagShrinks(a);
      if t.Fault? || u.Fault? { return None; }
      if Compare(t.value.key, u.value.key) != 0 { return Some(Compare(t.value.key, u.value.key)); }
      else if Compare(t.value.value, u.value.value) != 0 { return Some(Compare(t.value.value, u.value.value)); }
      a, b, i := t.rest, u.rest, i + 1;
    }
  }

  lemma {:induction false} TagDataOrderIsTagsOrder(x: seq<Tag>, y: seq<Tag>)
    requires FitTags(x) && FitTags(y)
    ensures TagDataOrder(EncodeTags(x), |x|, EncodeTags(y), |y|) == Some(TagsOrder(x, y))
  {
    hide ReadTag, EncodeTag, Compare;
    if x != [] && y != [] {
      ReadTagBack(x[0], EncodeTags(x[1..]));
      ReadTagBack(y[0], EncodeTags(y[1..]));
      TagDataOrderIsTagsOrder(x[1..], y[1..]);
    }
  }

  /** Comparing encodings is comparing names, then tags. */
  lemma CompareEncodedIsKeyOrder(x: Key, y: Key)
    requires Fits(x.name, x.tags) && |Encode(x.name, x.tags)| < MAX_INT
    requires Fits(y.name, y.tags) && |Encode(y.name, y.tags)| < MAX_INT
    ensures
      var c := EncodedOrder(Encode(x.name, x.tags), Encode(y.name, y.tags));
      && c == Some(KeyOrder(x, y)) && (c.value < 0 <==> KeyPrecedes(x, y)) && (c.value > 0 <==> KeyPrecedes(y, x))
      && (c.value == 0 <==> x == y)
  {
    hide ReadNumber, ReadString, Body, AfterName, Encode, EncodeTags, TagDataOrder, TagsOrder, Compare, KeyPrecedes;
    KeyOrderLaws(x, y);
    KeyOrderIsLexicographic(x, y);
    ReadHeader(x);
    ReadHeader(y);
    TagDataOrderIsTagsOrder(x.tags, y.tags);
  }

  lemma ReadHeader(x: Key)
    requires Fits(x.name, x.tags) && |Encode(x.name, x.tags)| < MAX_INT
    ensures
      var body := Body(x.name, x.tags);
      && ReadNumber(Encode(x.name, x.tags)) == Read(|body|, body)
      && ReadString(body) == Read(x.name, AfterName(x.tags))
      && ReadNumber(AfterName(x.tags)) == Read(|x.tags|, EncodeTags(x.tags))
  {
    BodyParts(x.name, x.tags);
    ReadNumberBack(|Body(x.name, x.tags)|, Body(x.name, x.tags));
    ReadNumberBack(|x.tags|, EncodeTags(x.tags));
    ReadStringFits(x.name, AfterName(x.tags));
  }

  lemma {:induction false} TagsOrderLaws(a: seq<Tag>, b: seq<Tag>)
    ensures TagsOrder(a, b) == 0 <==> a == b
    ensures TagsOrder(b, a) == -TagsOrder(a, b)
  {
    if a != [] && b != [] {
      CompareEqual(a[0].key, b[0].key);
      CompareEqual(a[0].value, b[0].value);
      CompareFlips(a[0].key, b[0].key);
      CompareFlips(a[0].value, b[0].value);
      TagsOrderLaws(a[1..], b[1..]);
      assert a == [a[0]] + a[1..] && b == [b[0]] + b[1..];
    }
  }

  /** The order tells apart any two keys, and swapping them negates it. */
  lemma KeyOrderLaws(a: Key, b: Key)
    ensures KeyOrder(a, b) == 0 <==> a == b
    ensures KeyOrder(b, a) == -KeyOrder(a, b)
  {
    CompareEqual(a.name, b.name);
    CompareFlips(a.name, b.name);
    TagsOrderLaws(a.tags, b.tags);
  }

  // ----- The order is lexicographic -----

  ghost predicate PairPrecedes(a: Tag, b: Tag)
  {
    Precedes(a.key, b.key) || (a.key == b.key && Precedes(a.value, b.value))
  }

  /** One list of tags is a proper prefix of the other, or they differ first in a tag that precedes. */
  ghost predicate TagsPrecede(a: seq<Tag>, b: seq<Tag>)
  {
    exists k :: 0 <= k <= |a| && k < |b| && a[..k] == b[..k] && (k < |a| ==> PairPrecedes(a[k], b[k]))
  }

  ghost predicate KeyPrecedes(a: Key, b: Key)
  {
    Precedes(a.name, b.name) || (a.name == b.name && TagsPrecede(a.tags, b.tags))
  }

  lemma PairOrderIsLexicographic(a: Tag, b: Tag)
    ensures PairOrder(a, b) < 0 <==> PairPrecedes(a, b)
    ensures PairOrder(a, b) == 0 <==> a == b
  {
    CompareIsLexicographic(a.key, b.key);
    CompareIsLexicographic(a.value, b.value);
    CompareEqual(a.key, b.key);
    CompareEqual(a.value, b.value);
    NotBefore(a.key);
  }

  lemma NotBefore(a: Bytes)
    ensures !Precedes(a, a)
  {
  }

  lemma {:induction false} TagsOrderIsLexicographic(a: seq<Tag>, b: seq<Tag>)
    ensures TagsOrder(a, b) < 0 <==> TagsPrecede(a, b)
  {
    hide PairOrder, PairPrecedes;
    if a == [] && b != [] {
      assert a[..0] == b[..0];
    } else if a != [] && b != [] {
      PairOrderIsLexicographic(a[0], b[0]);
      if a[0] == b[0] {
        TagsOrderIsLexicographic(a[1..], b[1..]);
        TagsPrecedeTail(a, b);
      } else {
        assert a[..0] == b[..0];
        forall k | 0 < k <= |a| && k < |b| ensures a[..k] != b[..k] {
          assert a[..k][0] == a[0] && b[..k][0] == b[0];
        }
      }
    }
  }

  lemma TagsPrecedeTail(a: seq<Tag>, b: seq<Tag>)
    requires a != [] && b != [] && a[0] == b[0]
    ensures TagsPrecede(a, b) <==> TagsPrecede(a[1..], b[1..])
  {
    hide PairPrecedes;
    NotBeforePair(a[0]);
    if TagsPrecede(a[1..], b[1..]) {
      var k :| 0 <= k <= |a[1..]| && k < |b[1..]| && a[1..][..k] == b[1..][..k]
               && (k < |a[1..]| ==> PairPrecedes(a[1..][k], b[1..][k]));
      assert a[..k + 1] == [a[0]] + a[1..][..k] && b[..k + 1] == [b[0]] + b[1..][..k];
    }
    if k :| 0 <= k <= |a| && k < |b| && a[..k] == b[..k] && (k < |a| ==> PairPrecedes(a[k], b[k])) {
      assert k > 0;
      assert a[1..][..k - 1] == a[..k][1..] && b[1..][..k - 1] == b[..k][1..];
    }
  }

  lemma NotBeforePair(a: Tag)
    ensures !PairPrecedes(a, a)
  {
    NotBefore(a.key);
    NotBefore(a.value);
  }

  /**
   A key comes before another if their names differ first in a smaller byte or an
   end, or else their tags do, by key and then by value, tag by tag.
   */
  lemma KeyOrderIsLexicographic(a: Key, b: Key)
    ensures KeyOrder(a, b) < 0 <==> KeyPrecedes(a, b)
    ensures KeyOrder(a, b) > 0 <==> KeyPrecedes(b, a)
  {
    CompareIsLexicographic(a.name, b.name);
    CompareIsLexicographic(b.name, a.name);
    CompareEqual(a.name, b.name);
    NotBefore(a.name);
    CompareFlips(a.name, b.name);
    TagsOrderIsLexicographic(a.tags, b.tags);
    TagsOrderIsLexicographic(b.tags, a.tags);
    TagsOrderLaws(a.tags, b.tags);
    hide TagsOrder, TagsPrecede, Precedes, Compare;
  }

  lemma PairOrderChains(a: Tag, b: Tag, c: Tag)
    requires PairOrder(a, b) <= 0 && PairOrder(b, c) <= 0
    ensures PairOrder(a, c) <= 0
    ensures PairOrder(a, b) < 0 || PairOrder(b, c) < 0 ==> PairOrder(a, c) < 0
    ensures PairOrder(a, b) == 0 ==> PairOrder(a, c) == PairOrder(b, c)
    ensures PairOrder(b, c) == 0 ==> PairOrder(a, c) == PairOrder(a, b)
  {
    CompareChains(a.key, b.key, c.key);
    CompareEqual(a.key, b.key);
    CompareEqual(b.key, c.key);
    CompareEqual(a.value, b.value);
    CompareEqual(b.value, c.value);
    if a.key == b.key == c.key {
      CompareChains(a.value, b.value, c.value);
    }
  }

  lemma {:induction false} TagsOrderChains(a: seq<Tag>, b: seq<Tag>, c: seq<Tag>)
    requires TagsOrder(a, b) <= 0 && TagsOrder(b, c) <= 0
    ensures TagsOrder(a, c) <= 0
  {
    if a != [] && b != [] && c != [] {
      PairOrderChains(a[0], b[0], c[0]);
      if PairOrder(a[0], b[0]) == 0 && PairOrder(b[0], c[0]) == 0 {
        TagsOrderChains(a[1..], b[1..], c[1..]);
      }
    }
  }

  /** Encoded keys are totally ordered. */
  lemma KeyOrderChains(a: Key, b: Key, c: Key)
    requires KeyOrder(a, b) <= 0 && KeyOrder(b, c) <= 0
    ensures KeyOrder(a, c) <= 0
  {
    CompareChains(a.name, b.name, c.name);
    CompareEqual(a.name, b.name);
    CompareEqual(b.name, c.name);
    if a.name == b.name == c.name {
      TagsOrderChains(a.tags, b.tags, c.tags);
    }
  }

  /** Generates all keys into one buffer; each returned slice is one key. */
  method GenerateSeriesKeys(names: seq<Bytes>, tagsSlice: seq<seq<Tag>>) returns (keys: seq<Bytes>)
    requires |names| == |tagsSlice|
    ensures |keys| == |names| && forall i | 0 <= i < |keys| :: keys[i] == Encode(names[i], tagsSlice[i])
  {
    var buf: Bytes := [];
    keys := [];
    for i := 0 to |names|
      invariant |keys| == i && forall j | 0 <= j < i :: keys[j] == Encode(names[j], tagsSlice[j])
    {
      var offset := |buf|;
      var before := buf;
      buf := AppendSeriesKey(buf, names[i], tagsSlice[i]);
      assert buf[offset..] == Encode(names[i], tagsSlice[i]);
      keys := keys + [buf[offset..]];
    }
  }
}
