/** Sequence helpers shared by the rasterisers and the fills: element-wise map,
    order-preserving filter, concatenation of frames, and the facts about
    multisets that let two differently ordered computations be compared. */
module Seqs {

  /** Applies `f` to every element, keeping the order. */
  function Map<A, B>(f: A -> B, s: seq<A>): (r: seq<B>)
    ensures |r| == |s|
    ensures forall i :: 0 <= i < |s| ==> r[i] == f(s[i])
  {
    if |s| == 0 then [] else [f(s[0])] + Map(f, s[1..])
  }

  /** Keeps the elements satisfying `p`, in their original order. */
  function Filter<A>(p: A -> bool, s: seq<A>): (r: seq<A>)
    ensures |r| <= |s|
    ensures forall i :: 0 <= i < |r| ==> p(r[i])
  {
    if |s| == 0 then []
    else (if p(s[0]) then [s[0]] else []) + Filter(p, s[1..])
  }

  /** Concatenates a sequence of frames into one sequence. */
  function Flatten<T>(ss: seq<seq<T>>): seq<T>
  {
    if |ss| == 0 then [] else ss[0] + Flatten(ss[1..])
  }

  lemma MapConcat<A, B>(f: A -> B, a: seq<A>, b: seq<A>)
    ensures Map(f, a + b) == Map(f, a) + Map(f, b)
  {
  }

  lemma {:induction false} FilterConcat<A>(p: A -> bool, a: seq<A>, b: seq<A>)
    ensures Filter(p, a + b) == Filter(p, a) + Filter(p, b)
    decreases |a|
  {
    if |a| == 0 {
      assert a + b == b;
    } else {
      assert (a + b)[1..] == a[1..] + b;
      FilterConcat(p, a[1..], b);
    }
  }

  lemma {:induction false} FlattenConcat<T>(a: seq<seq<T>>, b: seq<seq<T>>)
    ensures Flatten(a + b) == Flatten(a) + Flatten(b)
    decreases |a|
  {
    if |a| == 0 {
      assert a + b == b;
    } else {
      assert (a + b)[1..] == a[1..] + b;
      FlattenConcat(a[1..], b);
    }
  }

  /** One step of a loop that appends frame after frame: if the frames still
      to come are `row` followed by `rest`, appending `row` leaves `rest`. */
  lemma FlattenStep<T>(acc: seq<T>, row: seq<T>, frames: seq<seq<T>>, rest: seq<seq<T>>, total: seq<T>)
    requires frames == [row] + rest
    requires acc + Flatten(frames) == total
    ensures (acc + row) + Flatten(rest) == total
  {
    assert frames[1..] == rest;
  }

  /** One step of a loop that appends element after element: if what is
      still to come is `x` followed by `rest`, appending `x` leaves `rest`. */
  lemma ConsStep<T>(acc: seq<T>, x: T, whole: seq<T>, rest: seq<T>, total: seq<T>)
    requires whole == [x] + rest
    requires acc + whole == total
    ensures (acc + [x]) + rest == total
  {
  }

  /** Appending the same elements to two sequences with equal multisets
      keeps their multisets equal. */
  lemma MultisetJoin<T>(a: seq<T>, b: seq<T>, c: seq<T>)
    requires multiset(a) == multiset(b)
    ensures multiset(a + c) == multiset(b + c)
  {
  }

  /** An element other than the last one survives dropping the last. */
  lemma InDropLast<T>(s: seq<T>, x: T)
    requires x in s && x != s[|s| - 1]
    ensures x in s[..|s| - 1]
  {
    var i :| 0 <= i < |s| && s[i] == x;
    assert s[..|s| - 1][i] == x;
  }

  /** Filtering keeps every copy of a selected element and drops every copy of
      the others. */
  lemma {:induction false} FilterCount<A>(p: A -> bool, s: seq<A>, x: A)
    ensures multiset(Filter(p, s))[x] == if p(x) then multiset(s)[x] else 0
    decreases |s|
  {
    if |s| > 0 {
      FilterCount(p, s[1..], x);
      assert s == [s[0]] + s[1..];
    }
  }

  /** Filtering two permutations of each other gives permutations of each other. */
  lemma FilterPerm<A>(p: A -> bool, a: seq<A>, b: seq<A>)
    requires multiset(a) == multiset(b)
    ensures multiset(Filter(p, a)) == multiset(Filter(p, b))
  {
    forall x
      ensures multiset(Filter(p, a))[x] == multiset(Filter(p, b))[x]
    {
      FilterCount(p, a, x);
      FilterCount(p, b, x);
      assert multiset(a)[x] == multiset(b)[x];
    }
    MultisetExt(multiset(Filter(p, a)), multiset(Filter(p, b)));
  }

  lemma MultisetExt<A>(m: multiset<A>, n: multiset<A>)
    requires forall x :: m[x] == n[x]
    ensures m == n
  {
  }

  lemma MultisetCancel<A>(h: A, m: multiset<A>, n: multiset<A>)
    requires multiset{h} + m == multiset{h} + n
    ensures m == n
  {
    assert forall x :: m[x] == (multiset{h} + m)[x] - multiset{h}[x];
  }

  /** Mapping two permutations of each other gives permutations of each other. */
  lemma {:induction false} MapPerm<A, B>(f: A -> B, a: seq<A>, b: seq<A>)
    requires multiset(a) == multiset(b)
    ensures multiset(Map(f, a)) == multiset(Map(f, b))
    decreases |a|
  {
    if |a| == 0 {
      assert |multiset(b)| == 0;
      assert b == [];
    } else {
      var h := a[0];
      assert h in multiset(a);
      assert h in multiset(b);
      var i :| 0 <= i < |b| && b[i] == h;
      var b1, b2 := b[..i], b[i + 1..];
      assert b == b1 + [h] + b2;
      var rest := b1 + b2;
      assert multiset(a) == multiset{h} + multiset(a[1..]) by {
        assert a == [h] + a[1..];
      }
      assert multiset(b) == multiset{h} + multiset(rest);
      MultisetCancel(h, multiset(a[1..]), multiset(rest));
      MapPerm(f, a[1..], rest);
      MapSplit(f, b1, h, b2);
      assert Map(f, a) == [f(h)] + Map(f, a[1..]);
    }
  }

  lemma MapSplit<A, B>(f: A -> B, b1: seq<A>, h: A, b2: seq<A>)
    ensures multiset(Map(f, b1 + [h] + b2)) == multiset{f(h)} + multiset(Map(f, b1 + b2))
  {
    MapConcat(f, b1 + [h], b2);
    MapConcat(f, b1, [h]);
    MapConcat(f, b1, b2);
  }

  /** Filtering by a predicate every element meets changes nothing. */
  lemma {:induction false} FilterAll<A>(p: A -> bool, s: seq<A>)
    requires forall i :: 0 <= i < |s| ==> p(s[i])
    ensures Filter(p, s) == s
    decreases |s|
  {
    if |s| > 0 {
      FilterAll(p, s[1..]);
      assert s == [s[0]] + s[1..];
    }
  }

  /** Filtering by a predicate no element meets leaves nothing. */
  lemma {:induction false} FilterNone<A>(p: A -> bool, s: seq<A>)
    requires forall i :: 0 <= i < |s| ==> !p(s[i])
    ensures Filter(p, s) == []
    decreases |s|
  {
    if |s| > 0 {
      FilterNone(p, s[1..]);
    }
  }

  /** Two predicates that agree on every element filter alike. */
  lemma {:induction false} FilterSame<A>(p: A -> bool, q: A -> bool, s: seq<A>)
    requires forall i :: 0 <= i < |s| ==> p(s[i]) == q(s[i])
    ensures Filter(p, s) == Filter(q, s)
    decreases |s|
  {
    if |s| > 0 {
      FilterSame(p, q, s[1..]);
    }
  }

  /** Filtering by a stronger predicate after a weaker one is filtering by
      the stronger one alone. */
  lemma {:induction false} FilterFilter<A>(p: A -> bool, q: A -> bool, s: seq<A>)
    requires forall i :: 0 <= i < |s| ==> p(s[i]) ==> q(s[i])
    ensures Filter(p, Filter(q, s)) == Filter(p, s)
    decreases |s|
  {
    if |s| > 0 {
      FilterFilter(p, q, s[1..]);
      FilterConcat(p, if q(s[0]) then [s[0]] else [], Filter(q, s[1..]));
    }
  }

  /** A map that keeps what the predicate looks at commutes with the filter. */
  lemma {:induction false} FilterMap<A, B>(p: B -> bool, f: A -> B, q: A -> bool, s: seq<A>)
    requires forall i :: 0 <= i < |s| ==> p(f(s[i])) == q(s[i])
    ensures Filter(p, Map(f, s)) == Map(f, Filter(q, s))
    decreases |s|
  {
    if |s| > 0 {
      FilterMap(p, f, q, s[1..]);
      assert Map(f, s)[1..] == Map(f, s[1..]);
      MapConcat(f, if q(s[0]) then [s[0]] else [], Filter(q, s[1..]));
    }
  }
}
