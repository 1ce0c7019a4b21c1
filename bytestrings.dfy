/** Byte strings and their lexicographic order: the order in which the
    storage engine keeps its keys and walks a range. */
module ByteStrings {

  newtype byte = x: int | 0 <= x < 256

  type Bytes = seq<byte>

  /** `a` sorts strictly before `b`: the empty string precedes every
      non-empty one, otherwise the first bytes decide and equal first
      bytes defer to the rest (the order of Rust's `Ord` on `[u8]`). */
  predicate Less(a: Bytes, b: Bytes)
    decreases |a|
  {
    |b| > 0 && (|a| == 0 || a[0] < b[0] || (a[0] == b[0] && Less(a[1..], b[1..])))
  }

  predicate LessEq(a: Bytes, b: Bytes) {
    a == b || Less(a, b)
  }

  /** Membership of `k` in the half-open interval `[lo, hi)`. */
  predicate InRange(k: Bytes, lo: Bytes, hi: Bytes) {
    LessEq(lo, k) && Less(k, hi)
  }

  predicate IsProperPrefix(a: Bytes, b: Bytes) {
    |a| < |b| && a == b[..|a|]
  }

  /** `a` and `b` agree before position `i` and differ at `i`, with `a` smaller. */
  predicate FirstDifferenceAt(a: Bytes, b: Bytes, i: nat) {
    i < |a| && i < |b| && a[..i] == b[..i] && a[i] < b[i]
  }

  lemma {:induction false} LessIrreflexive(a: Bytes)
    ensures !Less(a, a)
  {
    if |a| > 0 {
      LessIrreflexive(a[1..]);
    }
  }

  lemma {:induction false} LessTransitive(a: Bytes, b: Bytes, c: Bytes)
    requires Less(a, b) && Less(b, c)
    ensures Less(a, c)
  {
    if |a| > 0 && a[0] == b[0] && b[0] == c[0] {
      LessTransitive(a[1..], b[1..], c[1..]);
    }
  }

  lemma {:induction false} LessTrichotomy(a: Bytes, b: Bytes)
    ensures Less(a, b) || a == b || Less(b, a)
  {
    if |a| > 0 && |b| > 0 && a[0] == b[0] {
      LessTrichotomy(a[1..], b[1..]);
      if a[1..] == b[1..] {
        assert a == [a[0]] + a[1..] && b == [b[0]] + b[1..];
      }
    }
  }

  lemma LessAsymmetric(a: Bytes, b: Bytes)
    requires Less(a, b)
    ensures !Less(b, a)
  {
    if Less(b, a) {
      LessTransitive(a, b, a);
      LessIrreflexive(a);
    }
  }

  lemma LessEqTransitive(a: Bytes, b: Bytes, c: Bytes)
    requires LessEq(a, b) && LessEq(b, c)
    ensures LessEq(a, c)
  {
    if a != b && b != c {
      LessTransitive(a, b, c);
    }
  }

  /** The recursive order is the textbook one: `a < b` exactly when `a` is a
      proper prefix of `b` or the first differing byte is smaller in `a`. */
  lemma {:induction false} LessCharacterization(a: Bytes, b: Bytes)
    ensures Less(a, b) <==> IsProperPrefix(a, b) || exists i: nat :: FirstDifferenceAt(a, b, i)
  {
    if |a| == 0 || |b| == 0 {
      forall i: nat ensures !FirstDifferenceAt(a, b, i) { }
    } else if a[0] != b[0] {
      forall i: nat | FirstDifferenceAt(a, b, i) ensures i == 0 && a[0] < b[0] { }
      if a[0] < b[0] {
        assert FirstDifferenceAt(a, b, 0);
      }
    } else {
      var a', b' := a[1..], b[1..];
      LessCharacterization(a', b');
      assert a == [a[0]] + a' && b == [b[0]] + b';
      if IsProperPrefix(a', b') {
        assert a[..|a|] == [a[0]] + a' && b[..|a|] == [b[0]] + b'[..|a'|];
      }
      if IsProperPrefix(a, b) {
        assert a' == a[1..] == b[..|a|][1..] == b'[..|a'|];
      }
      forall i: nat | FirstDifferenceAt(a', b', i) ensures FirstDifferenceAt(a, b, i + 1) {
        assert a[..i + 1] == [a[0]] + a'[..i];
        assert b[..i + 1] == [b[0]] + b'[..i];
      }
      forall i: nat | FirstDifferenceAt(a, b, i) ensures i > 0 && FirstDifferenceAt(a', b', i - 1) {
        assert a'[..i - 1] == a[..i][1..];
        assert b'[..i - 1] == b[..i][1..];
      }
    }
  }

  /** Two strings that share a prefix are ordered by what follows it. */
  lemma {:induction false} LessCommonPrefix(p: Bytes, a: Bytes, b: Bytes)
    ensures Less(p + a, p + b) <==> Less(a, b)
  {
    if |p| > 0 {
      assert (p + a)[1..] == p[1..] + a;
      assert (p + b)[1..] == p[1..] + b;
      LessCommonPrefix(p[1..], a, b);
    } else {
      assert p + a == a && p + b == b;
    }
  }

  /** `m` is the least element of `s`. */
  predicate IsLeast(m: Bytes, s: set<Bytes>) {
    m in s && forall k :: k in s ==> LessEq(m, k)
  }

  lemma {:induction false} LeastExists(s: set<Bytes>)
    requires s != {}
    ensures exists m :: IsLeast(m, s)
    decreases |s|
  {
    var x :| x in s;
    if s == {x} {
      assert IsLeast(x, s);
    } else {
      LeastExists(s - {x});
      var y :| IsLeast(y, s - {x});
      LessTrichotomy(x, y);
      if Less(x, y) {
        forall k | k in s ensures LessEq(x, k) {
          if k != x { LessEqTransitive(x, y, k); }
        }
        assert IsLeast(x, s);
      } else {
        assert IsLeast(y, s);
      }
    }
  }

  predicate StrictlyIncreasing(ks: seq<Bytes>) {
    forall i, j :: 0 <= i < j < |ks| ==> Less(ks[i], ks[j])
  }

  /** The elements of a finite set of keys in ascending order. */
  ghost function SortedKeys(s: set<Bytes>): (r: seq<Bytes>)
    ensures forall k :: k in r <==> k in s
    ensures |r| == |s|
    decreases |s|
  {
    if s == {} then []
    else
      LeastExists(s);
      var m :| IsLeast(m, s);
      [m] + SortedKeys(s - {m})
  }

  /** The enumeration is ascending: each key sorts before every later one. */
  lemma {:induction false} SortedKeysIncreasing(s: set<Bytes>)
    ensures StrictlyIncreasing(SortedKeys(s))
    decreases |s|
  {
    if s != {} {
      var r := SortedKeys(s);
      var m := r[0];
      assert IsLeast(m, s) && r == [m] + SortedKeys(s - {m});
      SortedKeysIncreasing(s - {m});
      forall i, j | 0 <= i < j < |r| ensures Less(r[i], r[j]) {
        if i == 0 {
          assert r[j] in s - {m};
        }
      }
    }
  }

  /** A set has only one ascending enumeration. */
  lemma {:induction false} SortedUnique(a: seq<Bytes>, b: seq<Bytes>)
    requires StrictlyIncreasing(a) && StrictlyIncreasing(b)
    requires forall k :: k in a <==> k in b
    ensures a == b
  {
    assert a != [] ==> a[0] in b;
    assert b != [] ==> b[0] in a;
    if a != [] && b != [] {
      var i :| 0 <= i < |b| && b[i] == a[0];
      var j :| 0 <= j < |a| && a[j] == b[0];
      if a[0] != b[0] {
        assert i > 0 && j > 0;
        assert Less(b[0], a[0]) && Less(a[0], b[0]);
        LessAsymmetric(a[0], b[0]);
      }
      forall k ensures k in a[1..] <==> k in b[1..] {
        if k in a[1..] {
          var p :| 1 <= p < |a| && a[p] == k;
          assert Less(a[0], k);
          LessIrreflexive(k);
          assert k in b && k != b[0];
        }
        if k in b[1..] {
          var p :| 1 <= p < |b| && b[p] == k;
          assert Less(b[0], k);
          LessIrreflexive(k);
          assert k in a && k != a[0];
        }
      }
      SortedUnique(a[1..], b[1..]);
      assert a == [a[0]] + a[1..] && b == [b[0]] + b[1..];
    }
  }

  /** Taking the least element off the front of a set's enumeration. */
  lemma SortedKeysUnfold(s: set<Bytes>, m: Bytes)
    requires IsLeast(m, s)
    ensures SortedKeys(s) == [m] + SortedKeys(s - {m})
  {
    var r := [m] + SortedKeys(s - {m});
    SortedKeysIncreasing(s);
    SortedKeysIncreasing(s - {m});
    forall i, j | 0 <= i < j < |r| ensures Less(r[i], r[j]) {
      if i == 0 {
        assert r[j] in s - {m};
      }
    }
    SortedUnique(SortedKeys(s), r);
  }
}
