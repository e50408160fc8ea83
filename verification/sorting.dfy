/** Python's `sorted()` / `list.sort(key=...)` as used by the kernel: a stable
    sort on a key compared lexicographically. Tuples of two numbers compare
    component by component; a single numeric key is the pair (k, 0). */
module Sorting {

  /** A sort key: compared first on `major`, then on `minor`. */
  datatype Key = Key(major: real, minor: real)

  predicate KeyLe(a: Key, b: Key)
  {
    a.major < b.major || (a.major == b.major && a.minor <= b.minor)
  }

  /** The key of a plain number. */
  function RealKey(v: real): Key
  {
    Key(v, 0.0)
  }

  predicate SortedBy<T>(s: seq<T>, key: T -> Key)
  {
    forall i, j :: 0 <= i < j < |s| ==> KeyLe(key(s[i]), key(s[j]))
  }

  predicate Ascending(s: seq<real>)
  {
    forall i, j :: 0 <= i < j < |s| ==> s[i] <= s[j]
  }

  /** Inserts `x` after every element whose key is not greater than its own,
      which is what makes the insertion sort stable. */
  function InsertBy<T>(x: T, s: seq<T>, key: T -> Key): (r: seq<T>)
    ensures |r| == |s| + 1
  {
    if |s| == 0 then [x]
    else if KeyLe(key(s[|s| - 1]), key(x)) then s + [x]
    else InsertBy(x, s[..|s| - 1], key) + [s[|s| - 1]]
  }

  /** Insertion adds exactly one copy of `x`. */
  lemma {:induction false} InsertByPerm<T>(x: T, s: seq<T>, key: T -> Key)
    ensures multiset(InsertBy(x, s, key)) == multiset(s) + multiset{x}
    decreases |s|
  {
    if |s| > 0 && !KeyLe(key(s[|s| - 1]), key(x)) {
      var init, last := s[..|s| - 1], s[|s| - 1];
      assert s == init + [last];
      InsertByPerm(x, init, key);
    }
  }

  /** Inserting into a sorted sequence keeps it sorted. */
  lemma {:induction false} InsertBySorted<T>(x: T, s: seq<T>, key: T -> Key)
    requires SortedBy(s, key)
    ensures SortedBy(InsertBy(x, s, key), key)
    decreases |s|
  {
    if |s| == 0 {
    } else if KeyLe(key(s[|s| - 1]), key(x)) {
      SortedAppend(s, x, key);
    } else {
      var init, last := s[..|s| - 1], s[|s| - 1];
      SortedAppend(init, last, key);
      InsertBySorted(x, init, key);
      InsertByPerm(x, init, key);
      var r' := InsertBy(x, init, key);
      forall k | 0 <= k < |r'|
        ensures KeyLe(key(r'[k]), key(last))
      {
        assert r'[k] in multiset(r');
        if r'[k] != x {
          assert r'[k] in multiset(init);
          var j :| 0 <= j < |init| && init[j] == r'[k];
          assert s[j] == init[j];
        }
      }
      SortedAppendBack(r', last, key);
    }
  }

  /** A sorted sequence followed by an element at least its last one is
      sorted, and a sorted sequence's prefix is. */
  lemma SortedAppend<T>(s: seq<T>, x: T, key: T -> Key)
    requires |s| > 0 ==> KeyLe(key(s[|s| - 1]), key(x))
    ensures SortedBy(s, key) ==> SortedBy(s + [x], key)
    ensures SortedBy(s + [x], key) ==> SortedBy(s, key)
  {
    var r := s + [x];
    if SortedBy(s, key) {
      forall i, j | 0 <= i < j < |r|
        ensures KeyLe(key(r[i]), key(r[j]))
      {
        if j < |s| {
          assert r[i] == s[i] && r[j] == s[j];
        } else {
          assert r[i] == s[i] && r[j] == x;
          assert KeyLe(key(s[i]), key(s[|s| - 1]));
        }
      }
    }
    if SortedBy(r, key) {
      forall i, j | 0 <= i < j < |s|
        ensures KeyLe(key(s[i]), key(s[j]))
      {
        assert r[i] == s[i] && r[j] == s[j];
      }
    }
  }

  /** A sorted sequence followed by an element at least all of its
      elements is sorted. */
  lemma SortedAppendBack<T>(s: seq<T>, x: T, key: T -> Key)
    requires SortedBy(s, key)
    requires forall k :: 0 <= k < |s| ==> KeyLe(key(s[k]), key(x))
    ensures SortedBy(s + [x], key)
  {
    var r := s + [x];
    forall i, j | 0 <= i < j < |r|
      ensures KeyLe(key(r[i]), key(r[j]))
    {
      assert r[i] == s[i];
      if j < |s| {
        assert r[j] == s[j];
      }
    }
  }


  /** Stable insertion sort of `s` by `key`. */
  function SortBy<T>(s: seq<T>, key: T -> Key): (r: seq<T>)
    ensures |r| == |s|
  {
    if |s| == 0 then []
    else InsertBy(s[|s| - 1], SortBy(s[..|s| - 1], key), key)
  }

  /** Sorting is a permutation of its input. */
  lemma {:induction false} SortByPerm<T>(s: seq<T>, key: T -> Key)
    ensures multiset(SortBy(s, key)) == multiset(s)
    decreases |s|
  {
    if |s| > 0 {
      var init := s[..|s| - 1];
      assert s == init + [s[|s| - 1]];
      SortByPerm(init, key);
      InsertByPerm(s[|s| - 1], SortBy(init, key), key);
    }
  }

  /** Sorting puts the keys in non-decreasing order. */
  lemma {:induction false} SortBySorted<T>(s: seq<T>, key: T -> Key)
    ensures SortedBy(SortBy(s, key), key)
    decreases |s|
  {
    if |s| > 0 {
      SortBySorted(s[..|s| - 1], key);
      InsertBySorted(s[|s| - 1], SortBy(s[..|s| - 1], key), key);
    }
  }

  /** Sorting plain numbers. */
  function SortReals(s: seq<real>): (r: seq<real>)
    ensures |r| == |s|
  {
    SortBy(s, RealKey)
  }

  /** Sorting plain numbers gives their ascending permutation. */
  lemma SortRealsAscending(s: seq<real>)
    ensures Ascending(SortReals(s))
    ensures multiset(SortReals(s)) == multiset(s)
  {
    SortBySorted(s, RealKey);
    SortByPerm(s, RealKey);
    var r := SortReals(s);
    forall i, j | 0 <= i < j < |r|
      ensures r[i] <= r[j]
    {
      assert KeyLe(RealKey(r[i]), RealKey(r[j]));
    }
  }

  /** Two ascending sequences holding the same numbers are the same sequence:
      the outcome of sorting does not depend on the order of the input. */
  lemma {:induction false} AscendingUnique(a: seq<real>, b: seq<real>)
    requires Ascending(a) && Ascending(b)
    requires multiset(a) == multiset(b)
    ensures a == b
    decreases |a|
  {
    if |a| == 0 {
      assert |multiset(b)| == 0;
    } else {
      assert |b| == |multiset(b)| == |a|;
      assert a[0] in multiset(b);
      assert b[0] in multiset(a);
      assert a[0] == b[0];
      assert a == [a[0]] + a[1..];
      assert b == [b[0]] + b[1..];
      assert multiset(a[1..]) == multiset(a) - multiset{a[0]};
      assert multiset(b[1..]) == multiset(b) - multiset{b[0]};
      AscendingUnique(a[1..], b[1..]);
    }
  }
}
