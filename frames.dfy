/**
 * Sequence operations standing for the data-frame operations the catalogue code uses:
 * row filters, first-wins de-duplication on a key column, and concatenation of frames.
 * A frame is a sequence of rows; its row order is the sequence order.
 */
module Frames {

  /** The elements of s at the positions where keep is true, in their original order. */
  function Select<T>(s: seq<T>, keep: seq<bool>): (r: seq<T>)
    requires |keep| == |s|
    ensures |r| <= |s|
    decreases |s|
  {
    if s == [] then []
    else if keep[0] then [s[0]] + Select(s[1..], keep[1..])
    else Select(s[1..], keep[1..])
  }

  /** Selection keeps exactly the elements found at a kept position. */
  lemma {:induction false} SelectMember<T>(s: seq<T>, keep: seq<bool>, x: T)
    requires |keep| == |s|
    ensures x in Select(s, keep) <==> exists i :: 0 <= i < |s| && keep[i] && s[i] == x
    decreases |s|
  {
    if s != [] {
      SelectMember(s[1..], keep[1..], x);
      if x in Select(s[1..], keep[1..]) {
        var i :| 0 <= i < |s| - 1 && keep[1..][i] && s[1..][i] == x;
        assert keep[i + 1] && s[i + 1] == x;
      }
      if exists i :: 0 <= i < |s| && keep[i] && s[i] == x {
        var i :| 0 <= i < |s| && keep[i] && s[i] == x;
        if i > 0 {
          assert keep[1..][i - 1] && s[1..][i - 1] == x;
        }
      }
    }
  }

  /** The rows of s for which p holds, in order (a boolean-mask filter on a frame). */
  function Filter<T(!new)>(s: seq<T>, p: T -> bool): (r: seq<T>)
    ensures |r| <= |s|
    ensures forall x :: x in r <==> x in s && p(x)
    decreases |s|
  {
    if s == [] then []
    else if p(s[0]) then [s[0]] + Filter(s[1..], p)
    else Filter(s[1..], p)
  }

  /** The mask that keeps position i when keep[i] holds and p holds of the element there. */
  function AndMask<T>(s: seq<T>, keep: seq<bool>, p: T -> bool): (m: seq<bool>)
    requires |keep| == |s|
    ensures |m| == |s|
    ensures forall i :: 0 <= i < |s| ==> (m[i] <==> keep[i] && p(s[i]))
  {
    seq(|s|, i requires 0 <= i < |s| => keep[i] && p(s[i]))
  }

  /** Filtering a selection is one selection with the two conditions combined. */
  lemma {:induction false} FilterOfSelect<T(!new)>(s: seq<T>, keep: seq<bool>, p: T -> bool)
    requires |keep| == |s|
    ensures Filter(Select(s, keep), p) == Select(s, AndMask(s, keep, p))
    decreases |s|
  {
    if s != [] {
      FilterOfSelect(s[1..], keep[1..], p);
      assert AndMask(s, keep, p)[1..] == AndMask(s[1..], keep[1..], p);
      if keep[0] {
        var t := Select(s[1..], keep[1..]);
        assert ([s[0]] + t)[1..] == t;
      }
    }
  }

  /** No two elements of s share a key. */
  ghost predicate DistinctKeys<T, K>(s: seq<T>, key: T -> K)
  {
    forall i, j :: 0 <= i < j < |s| ==> key(s[i]) != key(s[j])
  }

  /** No element before position i has the key of s[i]. */
  ghost predicate IsFirstKey<T, K>(s: seq<T>, key: T -> K, i: int)
    requires 0 <= i < |s|
  {
    forall j :: 0 <= j < i ==> key(s[j]) != key(s[i])
  }

  /** The keys of the elements of s. */
  ghost function KeysOf<T, K>(s: seq<T>, key: T -> K): set<K>
  {
    set x | x in s :: key(x)
  }

  /**
   * The rows of s whose key is not in seen and has not occurred earlier in s:
   * a left-to-right walk that remembers the keys it has kept.
   */
  function DropSeen<T, K(==)>(s: seq<T>, key: T -> K, seen: set<K>): (r: seq<T>)
    ensures |r| <= |s|
    ensures forall x :: x in r ==> x in s && key(x) !in seen
    ensures DistinctKeys(r, key)
    decreases |s|
  {
    if s == [] then []
    else if key(s[0]) in seen then DropSeen(s[1..], key, seen)
    else [s[0]] + DropSeen(s[1..], key, seen + {key(s[0])})
  }

  /** De-duplication on a key column keeping the first row of each key. */
  function DropDuplicates<T, K(==)>(s: seq<T>, key: T -> K): (r: seq<T>)
    ensures |r| <= |s|
    ensures DistinctKeys(r, key)
    ensures forall x :: x in r ==> x in s
  {
    DropSeen(s, key, {})
  }

  /** The positions a walk starting with the keys in seen keeps. */
  ghost function FirstMask<T, K>(s: seq<T>, key: T -> K, seen: set<K>): (m: seq<bool>)
    ensures |m| == |s|
    ensures forall i :: 0 <= i < |s| ==> (m[i] <==> key(s[i]) !in seen && IsFirstKey(s, key, i))
  {
    seq(|s|, i requires 0 <= i < |s| => key(s[i]) !in seen && IsFirstKey(s, key, i))
  }

  /** The walk keeps exactly the first row of every key not already seen, in order. */
  lemma {:induction false} DropSeenIsSelect<T, K>(s: seq<T>, key: T -> K, seen: set<K>)
    ensures DropSeen(s, key, seen) == Select(s, FirstMask(s, key, seen))
    decreases |s|
  {
    if s != [] {
      var k0 := key(s[0]);
      var m := FirstMask(s, key, seen);
      var seen' := if k0 in seen then seen else seen + {k0};
      DropSeenIsSelect(s[1..], key, seen');
      var m' := FirstMask(s[1..], key, seen');
      forall i | 0 <= i < |s| - 1
        ensures m[1..][i] == m'[i]
      {
        assert s[1..][i] == s[i + 1];
        if IsFirstKey(s[1..], key, i) && key(s[i + 1]) != k0 {
          forall j | 0 <= j < i + 1
            ensures key(s[j]) != key(s[i + 1])
          {
            if j > 0 {
              assert s[1..][j - 1] == s[j];
            }
          }
        }
        if IsFirstKey(s, key, i + 1) {
          forall j | 0 <= j < i
            ensures key(s[1..][j]) != key(s[1..][i])
          {
            assert s[1..][j] == s[j + 1];
          }
        }
      }
      assert m[1..] == m';
    }
  }

  /** A row survives de-duplication exactly when it is the first row with its key. */
  lemma DropDuplicatesKeepsFirst<T, K>(s: seq<T>, key: T -> K, x: T)
    ensures x in DropDuplicates(s, key) <==> exists i :: 0 <= i < |s| && IsFirstKey(s, key, i) && s[i] == x
  {
    DropSeenIsSelect(s, key, {});
    SelectMember(s, FirstMask(s, key, {}), x);
  }

  /** De-duplicating a frame whose keys are already distinct and unseen changes nothing. */
  lemma {:induction false} DropSeenOfDistinct<T, K>(s: seq<T>, key: T -> K, seen: set<K>)
    requires DistinctKeys(s, key)
    requires forall x :: x in s ==> key(x) !in seen
    ensures DropSeen(s, key, seen) == s
    decreases |s|
  {
    if s != [] {
      forall x | x in s[1..]
        ensures key(x) !in seen + {key(s[0])}
      {
        var j :| 0 <= j < |s| - 1 && s[1..][j] == x;
        assert s[j + 1] == x;
      }
      DropSeenOfDistinct(s[1..], key, seen + {key(s[0])});
    }
  }

  /** Walking a concatenation is walking the front, then the back with the front's keys seen. */
  lemma {:induction false} DropSeenAppend<T, K>(a: seq<T>, b: seq<T>, key: T -> K, seen: set<K>)
    ensures DropSeen(a + b, key, seen) == DropSeen(a, key, seen) + DropSeen(b, key, seen + KeysOf(a, key))
    decreases |a|
  {
    if a == [] {
      assert a + b == b;
      assert KeysOf(a, key) == {};
      assert seen + KeysOf(a, key) == seen;
    } else {
      var k0 := key(a[0]);
      assert (a + b)[0] == a[0];
      assert (a + b)[1..] == a[1..] + b;
      assert KeysOf(a, key) == {k0} + KeysOf(a[1..], key) by {
        assert a == [a[0]] + a[1..];
      }
      var seen' := if k0 in seen then seen else seen + {k0};
      DropSeenAppend(a[1..], b, key, seen');
      assert seen' + KeysOf(a[1..], key) == seen + KeysOf(a, key);
    }
  }

  /** DataFrame.head(k): the first k rows, or all of them when there are fewer. */
  function Head<T>(s: seq<T>, k: nat): (r: seq<T>)
    ensures |r| == if |s| < k then |s| else k
    ensures r == s[..|r|]
  {
    if |s| <= k then s else s[..k]
  }

  /** f applied to each element of xs, in order. */
  function Map<A, B>(xs: seq<A>, f: A -> B): (r: seq<B>)
    ensures |r| == |xs|
    ensures forall j :: 0 <= j < |xs| ==> r[j] == f(xs[j])
    decreases |xs|
  {
    if xs == [] then []
    else
      var n := |xs| - 1;
      assert forall j :: 0 <= j < n ==> xs[..n][j] == xs[j];
      Map(xs[..n], f) + [f(xs[n])]
  }

  /** The frames of parts concatenated in order. */
  function Flatten<T>(parts: seq<seq<T>>): seq<T>
    decreases |parts|
  {
    if parts == [] then []
    else Flatten(parts[..|parts| - 1]) + parts[|parts| - 1]
  }

  /** Every row of every frame is in the concatenation. */
  lemma {:induction false} FlattenContains<T>(parts: seq<seq<T>>, j: int, x: T)
    requires 0 <= j < |parts| && x in parts[j]
    ensures x in Flatten(parts)
    decreases |parts|
  {
    var n := |parts| - 1;
    if j < n {
      assert parts[..n][j] == parts[j];
      FlattenContains(parts[..n], j, x);
    }
  }

  /** A concatenation of frames of at most cap rows each has at most cap rows per frame. */
  lemma {:induction false} FlattenLength<T>(parts: seq<seq<T>>, cap: nat)
    requires forall j :: 0 <= j < |parts| ==> |parts[j]| <= cap
    ensures |Flatten(parts)| <= cap * |parts|
    decreases |parts|
  {
    if parts != [] {
      var n := |parts| - 1;
      FlattenLength(parts[..n], cap);
      assert cap * |parts| == cap * n + cap;
    }
  }

  /**
   * De-duplicating a concatenation keeps, for each surviving row, the first frame its key
   * occurs in: no earlier frame holds a row with the same key.
   */
  lemma {:induction false} DropSeenOfFlatten<T, K>(parts: seq<seq<T>>, key: T -> K, seen: set<K>, x: T)
    requires x in DropSeen(Flatten(parts), key, seen)
    ensures key(x) !in seen
    ensures exists j :: 0 <= j < |parts| && x in parts[j] &&
              forall j', y :: 0 <= j' < j && y in parts[j'] ==> key(y) != key(x)
    decreases |parts|
  {
    var n := |parts| - 1;
    var front := Flatten(parts[..n]);
    DropSeenAppend(front, parts[n], key, seen);
    if x in DropSeen(front, key, seen) {
      DropSeenOfFlatten(parts[..n], key, seen, x);
      var j :| 0 <= j < n && x in parts[..n][j] &&
               forall j', y :: 0 <= j' < j && y in parts[..n][j'] ==> key(y) != key(x);
      assert parts[..n][j] == parts[j];
      forall j', y | 0 <= j' < j && y in parts[j']
        ensures key(y) != key(x)
      {
        assert parts[..n][j'] == parts[j'];
      }
    } else {
      assert x in DropSeen(parts[n], key, seen + KeysOf(front, key));
      forall j', y | 0 <= j' < n && y in parts[j']
        ensures key(y) != key(x)
      {
        assert parts[..n][j'] == parts[j'];
        FlattenContains(parts[..n], j', y);
      }
    }
  }

  /** Two positions holding the same value make that value occur at least twice. */
  lemma TwoPositionsCount<T>(s: seq<T>, i: int, j: int)
    requires 0 <= i < j < |s| && s[i] == s[j]
    ensures multiset(s)[s[i]] >= 2
  {
    assert s == s[..j] + s[j..];
    assert s[i] in s[..j];
    assert s[j..] == [s[j]] + s[j + 1..];
  }

  /** A value occurring at least twice sits at two distinct positions. */
  lemma CountTwoPositions<T>(s: seq<T>, x: T)
    requires multiset(s)[x] >= 2
    ensures exists i, j :: 0 <= i < j < |s| && s[i] == x && s[j] == x
  {
    var p :| 0 <= p < |s| && s[p] == x;
    assert s == s[..p] + [x] + s[p + 1..];
    if x in s[..p] {
      var i :| 0 <= i < p && s[..p][i] == x;
      assert s[i] == x;
    } else {
      assert x in s[p + 1..];
      var j :| 0 <= j < |s| - p - 1 && s[p + 1..][j] == x;
      assert s[p + 1 + j] == x;
    }
  }

  /** Every sub-multiset of a frame with distinct keys has distinct keys, in any order. */
  lemma DistinctKeysSubMultiset<T, K>(a: seq<T>, b: seq<T>, key: T -> K)
    requires multiset(a) <= multiset(b)
    requires DistinctKeys(b, key)
    ensures DistinctKeys(a, key)
  {
    forall i, j | 0 <= i < j < |a|
      ensures key(a[i]) != key(a[j])
    {
      if a[i] == a[j] {
        TwoPositionsCount(a, i, j);
        CountTwoPositions(b, a[i]);
      } else {
        assert a[i] in multiset(b) && a[j] in multiset(b);
        var p :| 0 <= p < |b| && b[p] == a[i];
        var q :| 0 <= q < |b| && b[q] == a[j];
        assert p != q;
      }
    }
  }

  /** Filtering keeps distinct keys distinct. */
  lemma {:induction false} FilterDistinct<T(!new), K>(s: seq<T>, p: T -> bool, key: T -> K)
    requires DistinctKeys(s, key)
    ensures DistinctKeys(Filter(s, p), key)
    decreases |s|
  {
    if s != [] {
      FilterDistinct(s[1..], p, key);
      forall x | x in Filter(s[1..], p)
        ensures key(x) != key(s[0])
      {
        var j :| 0 <= j < |s| - 1 && s[1..][j] == x;
        assert s[j + 1] == x;
      }
    }
  }
}
