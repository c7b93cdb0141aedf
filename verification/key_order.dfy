/**
 * The order on dictionary keys. Keys are byte strings compared the way
 * memcmp compares them over their common length, with a tie on that common
 * prefix going to the shorter key. The comparison is a static function of
 * the two keys alone, so every Encoding orders keys identically.
 */
module KeyOrder {

  type Byte = bv8
  type Key = seq<Byte>

  /** `a` is a proper prefix of `b`. */
  predicate IsStrictPrefix(a: Key, b: Key) {
    |a| < |b| && a == b[..|a|]
  }

  /** `a` and `b` agree before position `i` and `a` has the smaller byte at `i`. */
  predicate FirstDifferenceBelow(a: Key, b: Key, i: nat) {
    i < |a| && i < |b| && a[..i] == b[..i] && a[i] < b[i]
  }

  /**
   * Reference definition of the key order, independent of how Cmp computes
   * it: `a` sorts before `b` when it is a proper prefix of `b`, or when the
   * first byte in which they differ is smaller in `a`.
   */
  ghost predicate Less(a: Key, b: Key) {
    IsStrictPrefix(a, b) || exists i: nat :: FirstDifferenceBelow(a, b, i)
  }

  /** Length of the longest common prefix of `a` and `b`. */
  function MismatchIndex(a: Key, b: Key): (n: nat)
    ensures n <= |a| && n <= |b|
    ensures a[..n] == b[..n]
    ensures n < |a| && n < |b| ==> a[n] != b[n]
    decreases |a|
  {
    if |a| == 0 || |b| == 0 || a[0] != b[0] then 0
    else
      var m := MismatchIndex(a[1..], b[1..]);
      assert a[..m + 1] == [a[0]] + a[1..][..m];
      assert b[..m + 1] == [b[0]] + b[1..][..m];
      m + 1
  }

  /**
   * The comparator: memcmp over the common length, then the shorter key
   * first. Only the sign of the result is meaningful; this model returns
   * -1, 0 or 1.
   */
  function Cmp(a: Key, b: Key): (r: int)
    ensures -1 <= r <= 1
    ensures r == 0 <==> a == b
  {
    var n := MismatchIndex(a, b);
    if n < |a| && n < |b| then
      (if a[n] < b[n] then -1 else 1)
    else if |a| < |b| then -1
    else if |a| > |b| then 1
    else 0
  }

  /** Any common prefix of two keys is no longer than their mismatch index. */
  lemma CommonPrefixBound(a: Key, b: Key, i: nat)
    requires i <= |a| && i <= |b| && a[..i] == b[..i]
    ensures i <= MismatchIndex(a, b)
  {
  }

  /** A first difference at `i` is exactly the mismatch index. */
  lemma FirstDifferenceIsMismatch(a: Key, b: Key, i: nat)
    requires i < |a| && i < |b| && a[..i] == b[..i] && a[i] != b[i]
    ensures MismatchIndex(a, b) == i
  {
  }

  /** Cmp agrees with the reference order in all three outcomes (memcmp style). */
  lemma CmpMatchesLess(a: Key, b: Key)
    ensures Cmp(a, b) < 0 <==> Less(a, b)
    ensures Cmp(a, b) == 0 <==> a == b
    ensures Cmp(a, b) > 0 <==> Less(b, a)
  {
    var n := MismatchIndex(a, b);
    if n < |a| && n < |b| {
      if a[n] < b[n] {
        assert FirstDifferenceBelow(a, b, n);
        NotLessWhenDifferAt(b, a, n);
      } else {
        assert FirstDifferenceBelow(b, a, n);
        NotLessWhenDifferAt(a, b, n);
      }
      assert a != b by { assert a[n] != b[n]; }
    } else if |a| < |b| {
      assert IsStrictPrefix(a, b);
      NotLessOfPrefix(b, a);
    } else if |a| > |b| {
      assert IsStrictPrefix(b, a);
      NotLessOfPrefix(a, b);
    } else {
      assert a == a[..n] == b[..n] == b;
      NotLessOfSelf(a);
    }
  }

  /** A key whose byte is larger at the first difference is not below the other. */
  lemma NotLessWhenDifferAt(a: Key, b: Key, n: nat)
    requires n < |a| && n < |b| && a[..n] == b[..n] && a[n] > b[n]
    ensures !Less(a, b)
  {
  }

  /** A key is never below one of its proper prefixes. */
  lemma NotLessOfPrefix(a: Key, b: Key)
    requires IsStrictPrefix(b, a)
    ensures !Less(a, b)
  {
  }

  /** No key is below itself. */
  lemma NotLessOfSelf(a: Key)
    ensures !Less(a, a)
  {
  }

  /** Cmp(a, a) == 0. */
  lemma CmpReflexive(a: Key)
    ensures Cmp(a, a) == 0
  {
  }

  /** Swapping the arguments negates the result. */
  lemma CmpAntisymmetric(a: Key, b: Key)
    ensures Cmp(a, b) == -Cmp(b, a)
  {
  }

  /** Cmp(a, b) < 0 and Cmp(b, c) < 0 give Cmp(a, c) < 0. */
  lemma {:induction false} CmpTransitive(a: Key, b: Key, c: Key)
    requires Cmp(a, b) < 0 && Cmp(b, c) < 0
    ensures Cmp(a, c) < 0
  {
    var i := MismatchIndex(a, b);
    var j := MismatchIndex(b, c);
    if i < j {
      // a and c agree up to i, and a[i] < b[i] == c[i], or a ends at i
      assert i < |c|;
      assert a[..i] == c[..i] by {
        assert b[..j][..i] == b[..i];
        assert c[..j][..i] == c[..i];
      }
      assert i < |a| ==> a[i] < c[i] by {
        assert b[..j][i] == b[i] && c[..j][i] == c[i];
      }
      if i < |a| {
        FirstDifferenceIsMismatch(a, c, i);
      } else {
        CommonPrefixBound(a, c, i);
      }
    } else if j < i {
      assert j < |a|;
      assert a[..j] == c[..j] by {
        assert a[..i][..j] == a[..j];
        assert b[..i][..j] == b[..j];
      }
      assert a[j] == b[j] by {
        assert a[..i][j] == a[j] && b[..i][j] == b[j];
      }
      FirstDifferenceIsMismatch(a, c, j);
    } else {
      assert a[..i] == c[..i];
      if i < |a| {
        FirstDifferenceIsMismatch(a, c, i);
      } else {
        CommonPrefixBound(a, c, i);
      }
    }
  }

  /** The non-strict order Cmp(a, b) <= 0 is transitive too. */
  lemma CmpTransitiveNonStrict(a: Key, b: Key, c: Key)
    requires Cmp(a, b) <= 0 && Cmp(b, c) <= 0
    ensures Cmp(a, c) <= 0
  {
    CmpMatchesLess(a, b);
    CmpMatchesLess(b, c);
    if Cmp(a, b) < 0 && Cmp(b, c) < 0 {
      CmpTransitive(a, b, c);
    }
  }

  /** A proper prefix sorts first: the length tiebreak of an index encoding. */
  lemma PrefixSortsFirst(a: Key, b: Key)
    requires IsStrictPrefix(a, b)
    ensures Cmp(a, b) < 0
  {
  }

  /** Past a common prefix, the first differing byte decides, as in memcmp. */
  lemma FirstDifferenceDecides(a: Key, b: Key, i: nat)
    requires i < |a| && i < |b| && a[..i] == b[..i] && a[i] != b[i]
    ensures Cmp(a, b) < 0 <==> a[i] < b[i]
    ensures Cmp(a, b) > 0 <==> a[i] > b[i]
  {
  }

  // ---------------------------------------------------------------------
  // Iteration directions

  /** The direction a cursor iterates in. */
  datatype Direction = Forward | Backward

  /** `a` comes strictly before `b` when iterating in direction `dir`. */
  predicate Precedes(dir: Direction, a: Key, b: Key) {
    match dir
    case Forward => Cmp(a, b) < 0
    case Backward => Cmp(b, a) < 0
  }

  /** Precedes is a strict total order in each direction. */
  lemma PrecedesStrictTotalOrder(dir: Direction)
    ensures forall a: Key :: !Precedes(dir, a, a)
    ensures forall a: Key, b: Key :: Precedes(dir, a, b) ==> !Precedes(dir, b, a)
    ensures forall a: Key, b: Key :: a != b ==> Precedes(dir, a, b) || Precedes(dir, b, a)
    ensures forall a: Key, b: Key, c: Key :: Precedes(dir, a, b) && Precedes(dir, b, c) ==> Precedes(dir, a, c)
  {
    forall a: Key
      ensures !Precedes(dir, a, a)
    {
      CmpReflexive(a);
    }
    forall a: Key, b: Key
      ensures Precedes(dir, a, b) ==> !Precedes(dir, b, a)
      ensures a != b ==> Precedes(dir, a, b) || Precedes(dir, b, a)
    {
      CmpAntisymmetric(a, b);
      CmpMatchesLess(a, b);
    }
    forall a: Key, b: Key, c: Key | Precedes(dir, a, b) && Precedes(dir, b, c)
      ensures Precedes(dir, a, c)
    {
      if dir == Forward {
        CmpTransitive(a, b, c);
      } else {
        CmpTransitive(c, b, a);
      }
    }
  }

  /** `k` is the element of `s` that comes before every other one in direction `dir`. */
  predicate IsFirst(s: set<Key>, dir: Direction, k: Key) {
    k in s && forall j :: j in s && j != k ==> Precedes(dir, k, j)
  }

  /** Every non-empty finite set of keys has a first element in each direction. */
  lemma {:induction false} FirstExists(s: set<Key>, dir: Direction)
    requires s != {}
    ensures exists k :: IsFirst(s, dir, k)
    decreases |s|
  {
    var x :| x in s;
    if s != {x} {
      var rest := s - {x};
      FirstExists(rest, dir);
      var m :| IsFirst(rest, dir, m);
      PrecedesStrictTotalOrder(dir);
      if Precedes(dir, x, m) {
        assert IsFirst(s, dir, x);
      } else {
        assert IsFirst(s, dir, m);
      }
    } else {
      assert IsFirst(s, dir, x);
    }
  }

  /** The first element of a non-empty set of keys in direction `dir`. */
  function First(s: set<Key>, dir: Direction): (k: Key)
    requires s != {}
    ensures IsFirst(s, dir, k)
  {
    FirstExists(s, dir);
    PrecedesStrictTotalOrder(dir);
    var k :| IsFirst(s, dir, k); k
  }
}
