/** Sizes of sets, permutations of a sequence and groupings of it. */
module Collections {

  lemma SubsetSize<T>(a: set<T>, b: set<T>)
    requires a <= b
    ensures |a| <= |b|
  {
    assert |b - a| == |b| - |a|;
  }

  lemma SubsetOfSameSize<T>(a: set<T>, b: set<T>)
    requires a <= b && |a| == |b|
    ensures a == b
  {
    assert |b - a| == |b| - |a|;
  }

  lemma Cancel<T>(x: T, a: multiset<T>, b: multiset<T>)
    requires multiset{x} + a == multiset{x} + b
    ensures a == b
  {
    assert a == multiset{x} + a - multiset{x};
    assert b == multiset{x} + b - multiset{x};
  }

  function Without<T>(s: seq<T>, k: nat): seq<T>
    requires k < |s|
  {
    s[..k] + s[k + 1..]
  }

  lemma WithoutOne<T>(s: seq<T>, k: nat)
    requires k < |s|
    ensures multiset(s) == multiset{s[k]} + multiset(Without(s, k))
  {
    assert s == s[..k] + [s[k]] + s[k + 1..];
  }

  /** The first element of a sequence can be taken out of any permutation of it. */
  lemma TakeFirst<T>(s: seq<T>, t: seq<T>) returns (k: nat)
    requires s != [] && multiset(s) == multiset(t)
    ensures k < |t| && t[k] == s[0] && multiset(s[1..]) == multiset(Without(t, k)) && |s| == |t|
  {
    assert s[0] in multiset(t);
    k :| k < |t| && t[k] == s[0];
    WithoutOne(s, 0);
    assert Without(s, 0) == s[1..];
    WithoutOne(t, k);
    Cancel(s[0], multiset(s[1..]), multiset(Without(t, k)));
    assert |multiset(s)| == |multiset(t)|;
  }

  function Flatten<T>(groups: seq<seq<T>>): seq<T>
  {
    if groups == [] then [] else groups[0] + Flatten(groups[1..])
  }

  lemma {:induction false} FlattenAppend<T>(groups: seq<seq<T>>, last: seq<T>)
    ensures Flatten(groups + [last]) == Flatten(groups) + last
  {
    if groups == [] {
      assert groups + [last] == [last] && [last][1..] == [];
    } else {
      assert (groups + [last])[1..] == groups[1..] + [last];
      FlattenAppend(groups[1..], last);
    }
  }

  ghost predicate NonEmpty<T>(groups: seq<seq<T>>)
  {
    forall i | 0 <= i < |groups| :: groups[i] != []
  }

  lemma FlattenNonEmpty<T>(groups: seq<seq<T>>)
    requires groups != [] && NonEmpty(groups)
    ensures Flatten(groups) != []
  {
    assert groups[0] != [];
  }
}
