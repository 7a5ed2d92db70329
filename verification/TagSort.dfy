/** Insertion sort by a byte-string key, as the line protocol sorts tags. */
module TagSort {
  import opened Bytes

  /** Inserts `x` after the elements whose key is not greater, from the right. */
  function InsertBy<T>(s: seq<T>, x: T, key: T -> Bytes): seq<T>
  {
    if s == [] || Compare(key(x), key(s[|s| - 1])) >= 0 then s + [x]
    else InsertBy(s[..|s| - 1], x, key) + [s[|s| - 1]]
  }

  function SortBy<T>(s: seq<T>, key: T -> Bytes): (r: seq<T>)
    ensures |r| == |s|
  {
    if s == [] then []
    else
      var init := SortBy(s[..|s| - 1], key);
      InsertKeeps(init, s[|s| - 1], key);
      InsertBy(init, s[|s| - 1], key)
  }

  ghost predicate Sorted<T>(s: seq<T>, key: T -> Bytes)
  {
    forall i, j | 0 <= i < j < |s| :: Compare(key(s[i]), key(s[j])) <= 0
  }

  ghost predicate StrictlySorted<T>(s: seq<T>, key: T -> Bytes)
  {
    forall i, j | 0 <= i < j < |s| :: Compare(key(s[i]), key(s[j])) < 0
  }

  /** Of any two keys, the earlier one ends or has the smaller byte where they differ first. */
  ghost predicate Ascending<T>(s: seq<T>, key: T -> Bytes)
  {
    forall i, j | 0 <= i < j < |s| :: Precedes(key(s[i]), key(s[j]))
  }

  lemma StrictIsAscending<T>(s: seq<T>, key: T -> Bytes)
    ensures StrictlySorted(s, key) <==> Ascending(s, key)
  {
    forall i, j | 0 <= i < j < |s| ensures Compare(key(s[i]), key(s[j])) < 0 <==> Precedes(key(s[i]), key(s[j])) {
      CompareIsLexicographic(key(s[i]), key(s[j]));
    }
  }

  ghost predicate DistinctKeys<T>(s: seq<T>, key: T -> Bytes)
  {
    forall i, j | 0 <= i < j < |s| :: key(s[i]) != key(s[j])
  }

  lemma {:induction false} InsertKeeps<T>(s: seq<T>, x: T, key: T -> Bytes)
    ensures |InsertBy(s, x, key)| == |s| + 1
    ensures multiset(InsertBy(s, x, key)) == multiset(s) + multiset{x}
  {
    if s != [] && Compare(key(x), key(s[|s| - 1])) < 0 {
      InsertKeeps(s[..|s| - 1], x, key);
      assert s == s[..|s| - 1] + [s[|s| - 1]];
    }
  }

  lemma {:induction false} SortKeeps<T>(s: seq<T>, key: T -> Bytes)
    ensures multiset(SortBy(s, key)) == multiset(s)
  {
    hide InsertBy, Compare;
    if s != [] {
      var init, last := s[..|s| - 1], s[|s| - 1];
      SortKeeps(init, key);
      InsertKeeps(SortBy(init, key), last, key);
      assert s == init + [last];
    }
  }

  /** Appending an element that is not smaller keeps the order. */
  lemma AppendSorts<T>(s: seq<T>, x: T, key: T -> Bytes)
    requires Sorted(s, key) && (s == [] || Compare(key(s[|s| - 1]), key(x)) <= 0)
    ensures Sorted(s + [x], key)
  {
    forall i | 0 <= i < |s| ensures Compare(key(s[i]), key(x)) <= 0 {
      if i < |s| - 1 {
        CompareChains(key(s[i]), key(s[|s| - 1]), key(x));
      }
    }
  }

  lemma InsertLast<T>(s: seq<T>, x: T, key: T -> Bytes, bound: Bytes)
    requires Compare(key(x), bound) <= 0 && forall i | 0 <= i < |s| :: Compare(key(s[i]), bound) <= 0
    ensures forall i | 0 <= i < |InsertBy(s, x, key)| :: Compare(key(InsertBy(s, x, key)[i]), bound) <= 0
  {
    InsertKeeps(s, x, key);
    var t := InsertBy(s, x, key);
    forall i | 0 <= i < |t| ensures Compare(key(t[i]), bound) <= 0 {
      assert t[i] in multiset(t);
      assert t[i] in multiset(s) || t[i] == x;
    }
  }

  lemma {:induction false} InsertSorts<T>(s: seq<T>, x: T, key: T -> Bytes)
    requires Sorted(s, key)
    ensures Sorted(InsertBy(s, x, key), key)
  {
    if s != [] {
      var init, last := s[..|s| - 1], s[|s| - 1];
      CompareFlips(key(x), key(last));
      if Compare(key(x), key(last)) >= 0 {
        AppendSorts(s, x, key);
      } else {
        InsertSorts(init, x, key);
        InsertKeeps(init, x, key);
        InsertLast(init, x, key, key(last));
        AppendSorts(InsertBy(init, x, key), last, key);
      }
    }
  }

  lemma {:induction false} SortSorts<T>(s: seq<T>, key: T -> Bytes)
    ensures Sorted(SortBy(s, key), key)
  {
    if s != [] {
      SortSorts(s[..|s| - 1], key);
      InsertSorts(SortBy(s[..|s| - 1], key), s[|s| - 1], key);
    }
  }

  lemma PermutedDistinct<T>(s: seq<T>, t: seq<T>, key: T -> Bytes)
    requires multiset(s) == multiset(t) && DistinctKeys(s, key)
    ensures DistinctKeys(t, key)
  {
    forall i, j | 0 <= i < j < |t| ensures key(t[i]) != key(t[j]) {
      if key(t[i]) == key(t[j]) {
        assert t[i] in multiset(t) && t[j] in multiset(t);
        var a :| 0 <= a < |s| && s[a] == t[i];
        var b :| 0 <= b < |s| && s[b] == t[j];
        assert a == b;
        TwiceTwice(t, i, j);
        OnceOnce(s, a, key);
      }
    }
  }

  lemma TwiceTwice<T>(t: seq<T>, i: nat, j: nat)
    requires i < j < |t| && t[i] == t[j]
    ensures multiset(t)[t[i]] >= 2
  {
    assert t == t[..j] + [t[j]] + t[j + 1..];
    assert t[..j][i] == t[i];
    assert t[i] in multiset(t[..j]);
  }

  lemma OnceOnce<T>(s: seq<T>, a: nat, key: T -> Bytes)
    requires a < |s| && DistinctKeys(s, key)
    ensures multiset(s)[s[a]] == 1
  {
    assert s == s[..a] + [s[a]] + s[a + 1..];
    forall k | 0 <= k < |s| && k != a ensures s[k] != s[a] {}
    assert s[a] !in multiset(s[..a]) && s[a] !in multiset(s[a + 1..]);
  }

  /** Distinct keys sort into strictly increasing order. */
  lemma SortStrict<T>(s: seq<T>, key: T -> Bytes)
    requires DistinctKeys(s, key)
    ensures StrictlySorted(SortBy(s, key), key)
  {
    SortKeeps(s, key);
    SortSorts(s, key);
    var r := SortBy(s, key);
    PermutedDistinct(s, r, key);
    forall i, j | 0 <= i < j < |r| ensures Compare(key(r[i]), key(r[j])) < 0 {
      CompareEqual(key(r[i]), key(r[j]));
    }
  }

  lemma SameSize<T>(s: seq<T>, t: seq<T>)
    requires multiset(s) == multiset(t)
    ensures |s| == |t|
  {
    assert |multiset(s)| == |s| && |multiset(t)| == |t|;
  }

  /** The greatest element comes last, whatever the arrangement. */
  lemma SameLast<T>(s: seq<T>, t: seq<T>, key: T -> Bytes)
    requires multiset(s) == multiset(t) && StrictlySorted(s, key) && StrictlySorted(t, key) && s != []
    ensures |t| == |s| && s[|s| - 1] == t[|t| - 1]
  {
    SameSize(s, t);
    var a, b := s[|s| - 1], t[|t| - 1];
    assert a in multiset(t) && b in multiset(s);
    var i :| 0 <= i < |t| && t[i] == a;
    var j :| 0 <= j < |s| && s[j] == b;
    CompareFlips(key(a), key(b));
  }

  lemma DropLast<T>(s: seq<T>)
    requires s != []
    ensures multiset(s[..|s| - 1]) == multiset(s) - multiset{s[|s| - 1]}
    ensures s == s[..|s| - 1] + [s[|s| - 1]]
  {
    assert s == s[..|s| - 1] + [s[|s| - 1]];
  }

  /** A strictly sorted arrangement of given elements is unique. */
  lemma {:induction false} StrictlySortedUnique<T>(s: seq<T>, t: seq<T>, key: T -> Bytes)
    requires multiset(s) == multiset(t) && StrictlySorted(s, key) && StrictlySorted(t, key)
    ensures s == t
    decreases |s|
  {
    SameSize(s, t);
    if s != [] {
      SameLast(s, t, key);
      DropLast(s);
      DropLast(t);
      StrictlySortedUnique(s[..|s| - 1], t[..|t| - 1], key);
    }
  }

  /** The order of the input does not matter when keys are distinct. */
  lemma SortForgetsOrder<T>(s: seq<T>, t: seq<T>, key: T -> Bytes)
    requires multiset(s) == multiset(t) && DistinctKeys(s, key)
    ensures SortBy(s, key) == SortBy(t, key)
  {
    PermutedDistinct(s, t, key);
    SortStrict(s, key);
    SortStrict(t, key);
    SortKeeps(s, key);
    SortKeeps(t, key);
    StrictlySortedUnique(SortBy(s, key), SortBy(t, key), key);
  }

  lemma {:induction false} SortedStays<T>(s: seq<T>, key: T -> Bytes)
    requires Sorted(s, key)
    ensures SortBy(s, key) == s
  {
    if s != [] {
      var init := s[..|s| - 1];
      SortedStays(init, key);
      if init != [] {
        CompareFlips(key(s[|s| - 2]), key(s[|s| - 1]));
      }
      assert s == init + [s[|s| - 1]];
    }
  }
}
