/**
 The open-addressing scheme shared by the on-disk series index and by the
 in-memory `rhh.HashMap`: a circular table in which every element sits at its
 hash position plus a displacement, and no probe for an element ever meets a
 slot that is empty or that holds an element closer to home than the probe.
 */
module RobinHood {
  import opened Arithmetic

  /** How a table reads its slots: which ones are in use, and each one's hash. */
  datatype Layout<!E> = Layout(used: E -> bool, hash: E -> nat)

  /** The slot where a probe for `hash` starts; capacities are powers of two, so this is `hash & mask`. */
  function Home(hash: nat, cap: nat): (p: nat)
    requires cap > 0
    ensures p < cap
  {
    hash % cap
  }

  /** The slot reached after `j` steps from `home`, wrapping around. */
  function At(home: nat, j: nat, cap: nat): (p: nat)
    requires home < cap && j < cap
    ensures p < cap
  {
    if home + j < cap then home + j else home + j - cap
  }

  /** The number of steps from `home` to slot `p`. */
  function Dist(home: nat, p: nat, cap: nat): (d: nat)
    requires home < cap && p < cap
    ensures d < cap && At(home, d, cap) == p
    ensures forall j: nat | j < cap && At(home, j, cap) == p :: j == d
  {
    if home <= p then p - home else p + cap - home
  }

  function SlotDist<E>(s: seq<E>, f: Layout<E>, q: nat): nat
    requires q < |s|
  {
    Dist(Home(f.hash(s[q]), |s|), q, |s|)
  }

  /** A probe that arrives at slot `q` after `j` steps moves on. */
  ghost predicate Blocks<E>(s: seq<E>, f: Layout<E>, q: nat, j: nat)
    requires q < |s|
  {
    f.used(s[q]) && SlotDist(s, f, q) >= j
  }

  /** A probe starting at `home` is still running after `d` steps. */
  ghost predicate PathClear<E>(s: seq<E>, f: Layout<E>, home: nat, d: nat)
    requires home < |s| && d <= |s|
  {
    forall j: nat | j < d :: Blocks(s, f, At(home, j, |s|), j)
  }

  /** Every stored element is reached by its own probe. */
  ghost predicate Reachable<E>(s: seq<E>, f: Layout<E>)
  {
    forall p: nat | p < |s| && f.used(s[p]) :: PathClear(s, f, Home(f.hash(s[p]), |s|), SlotDist(s, f, p))
  }

  /** The stored elements. */
  ghost function Elems<E>(s: seq<E>, f: Layout<E>): set<E>
  {
    set p: nat | p < |s| && f.used(s[p]) :: s[p]
  }

  /** No element is stored twice. */
  ghost predicate NoRepeats<E>(s: seq<E>, f: Layout<E>)
  {
    forall p: nat, q: nat | p < |s| && q < |s| && f.used(s[p]) && s[p] == s[q] :: p == q
  }

  ghost predicate HasRoom<E>(s: seq<E>, f: Layout<E>)
  {
    exists p: nat :: p < |s| && !f.used(s[p])
  }

  /** Writing an element over a slot that does not block its probe keeps every other element reachable. */
  lemma PlaceKeepsReachable<E>(s: seq<E>, f: Layout<E>, e: E, d: nat)
    requires Reachable(s, f) && d < |s| && f.used(e)
    requires PathClear(s, f, Home(f.hash(e), |s|), d)
    requires !Blocks(s, f, At(Home(f.hash(e), |s|), d, |s|), d)
    ensures
      var p := At(Home(f.hash(e), |s|), d, |s|);
      && Reachable(s[p := e], f)
      && (f.used(s[p]) && SlotDist(s, f, p) + 1 <= |s| ==>
            PathClear(s[p := e], f, Home(f.hash(s[p]), |s|), SlotDist(s, f, p) + 1))
  {
    var home := Home(f.hash(e), |s|);
    var p := At(home, d, |s|);
    var t := s[p := e];
    assert SlotDist(t, f, p) == d;
    forall q: nat, j: nat | q < |s| && Blocks(s, f, q, j) ensures Blocks(t, f, q, j) {}
    forall q: nat | q < |t| && f.used(t[q]) ensures PathClear(t, f, Home(f.hash(t[q]), |t|), SlotDist(t, f, q)) {
      if q != p {
        assert PathClear(s, f, Home(f.hash(s[q]), |s|), SlotDist(s, f, q));
      }
    }
  }

  /** Moving past a blocking slot extends the clear path. */
  lemma StepKeepsPath<E>(s: seq<E>, f: Layout<E>, home: nat, d: nat)
    requires home < |s| && d < |s| && PathClear(s, f, home, d) && Blocks(s, f, At(home, d, |s|), d)
    ensures PathClear(s, f, home, d + 1)
  {
  }

  lemma ElemsUpdate<E>(s: seq<E>, f: Layout<E>, p: nat, e: E)
    requires p < |s| && f.used(e) && NoRepeats(s, f) && e !in Elems(s, f)
    ensures NoRepeats(s[p := e], f)
    ensures Elems(s[p := e], f) == (if f.used(s[p]) then Elems(s, f) - {s[p]} else Elems(s, f)) + {e}
  {
    var t := s[p := e];
    assert t[p] == e;
    forall x | x in Elems(s, f) && !(f.used(s[p]) && x == s[p]) ensures x in Elems(t, f) {
      var q: nat :| q < |s| && f.used(s[q]) && s[q] == x;
      assert t[q] == x;
    }
    forall q: nat | q < |t| && f.used(t[q]) && q != p ensures t[q] in Elems(s, f) {
      assert t[q] == s[q];
    }
  }

  /**
   A probe for `e` stops at `e`: within `|s|` steps it reaches the slot that
   holds it, every earlier slot on the way lets it pass and holds something else.
   */
  lemma ProbeFinds<E>(s: seq<E>, f: Layout<E>, p: nat)
    requires Reachable(s, f) && p < |s| && f.used(s[p])
    ensures
      var home := Home(f.hash(s[p]), |s|);
      var d := SlotDist(s, f, p);
      && d < |s| && At(home, d, |s|) == p
      && forall j: nat | j < d :: At(home, j, |s|) != p && Blocks(s, f, At(home, j, |s|), j)
  {
  }

  // ----- The machine arithmetic: masks instead of remainders -----

  function Power(k: nat): (c: nat)
    ensures c > 0
  {
    if k == 0 then 1 else 2 * Power(k - 1)
  }

  /** Bitwise and. */
  function BitAnd(x: nat, y: nat): nat
  {
    if x == 0 || y == 0 then 0
    else 2 * BitAnd(x / 2, y / 2) + (if x % 2 == 1 && y % 2 == 1 then 1 else 0)
  }

  lemma HalfOfRemainder(x: nat, c: nat)
    requires c > 0
    ensures x % (2 * c) == 2 * (x / 2 % c) + x % 2
  {
    var q, r := x / 2 / c, x / 2 % c;
    assert x / 2 == q * c + r;
    assert x == 2 * (x / 2) + x % 2;
    assert x == q * (2 * c) + (2 * r + x % 2);
    QuotientUnique(x, 2 * c, q);
  }

  /** With a power-of-two capacity, masking a hash selects its home slot. */
  lemma {:induction false} MaskSelectsHome(x: nat, k: nat)
    ensures BitAnd(x, Power(k) - 1) == Home(x, Power(k))
  {
    if k == 0 {
    } else {
      var c := Power(k - 1);
      assert Power(k) == 2 * c;
      MaskSelectsHome(x / 2, k - 1);
      HalfOfRemainder(x, c);
      assert (2 * c - 1) / 2 == c - 1 && (2 * c - 1) % 2 == 1;
      if x == 0 {
        assert BitAnd(0, Power(k) - 1) == 0;
      }
    }
  }

  /** With a power-of-two capacity, the masked distance formula counts the steps from home. */
  lemma MaskedDist(hash: nat, i: nat, k: nat)
    requires i < Power(k)
    ensures
      var cap := Power(k);
      BitAnd(hash, cap - 1) <= cap - 1 &&
      BitAnd(i + cap - BitAnd(hash, cap - 1), cap - 1) == Dist(Home(hash, cap), i, cap)
  {
    var cap := Power(k);
    MaskSelectsHome(hash, k);
    var home := Home(hash, cap);
    MaskSelectsHome(i + cap - home, k);
    if home <= i {
      QuotientUnique(i + cap - home, cap, 1);
    } else {
      QuotientUnique(i + cap - home, cap, 0);
    }
  }
}
