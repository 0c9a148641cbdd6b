/** Sequence operations that stand for the Kotlin collection calls the
    heuristics chain together: `filter`, `flatMap`, `distinct`, and the
    `toSet` view of a list. */
module Seqs {

  /** The elements of a sequence, as a set (Kotlin `toSet`). */
  function Elems<T>(s: seq<T>): set<T>
  {
    set x | x in s
  }

  predicate NoDuplicates<T(==)>(s: seq<T>)
  {
    forall i, j :: 0 <= i < j < |s| ==> s[i] != s[j]
  }

  /** `a` is obtained from `b` by deleting elements: the order of `b` is kept. */
  predicate IsSubsequence<T(==)>(a: seq<T>, b: seq<T>)
    decreases |b|
  {
    if b == [] then a == []
    else (a != [] && a[0] == b[0] && IsSubsequence(a[1..], b[1..])) || IsSubsequence(a, b[1..])
  }

  /** Kotlin `filter`: keeps, in order, the elements satisfying `p`. */
  function Filter<T(!new)>(s: seq<T>, p: T -> bool): (r: seq<T>)
    ensures |r| <= |s|
    ensures forall x :: x in r <==> x in s && p(x)
  {
    if s == [] then []
    else (if p(s[0]) then [s[0]] else []) + Filter(s[1..], p)
  }

  lemma {:induction false} FilterConcat<T(!new)>(s: seq<T>, t: seq<T>, p: T -> bool)
    ensures Filter(s + t, p) == Filter(s, p) + Filter(t, p)
    decreases |s|
  {
    if s != [] {
      assert (s + t)[1..] == s[1..] + t;
      FilterConcat(s[1..], t, p);
    } else {
      assert s + t == t;
    }
  }

  /** Filtering never reorders: the result is a subsequence of the input. */
  lemma {:induction false} FilterIsSubsequence<T(!new)>(s: seq<T>, p: T -> bool)
    ensures IsSubsequence(Filter(s, p), s)
    decreases |s|
  {
    if s != [] {
      FilterIsSubsequence(s[1..], p);
      if p(s[0]) {
        var r := Filter(s, p);
        assert r == [s[0]] + Filter(s[1..], p);
        assert r[1..] == Filter(s[1..], p);
      } else {
        assert Filter(s, p) == [] + Filter(s[1..], p) == Filter(s[1..], p);
      }
    }
  }

  lemma {:induction false} FilterNoDuplicates<T(!new)>(s: seq<T>, p: T -> bool)
    requires NoDuplicates(s)
    ensures NoDuplicates(Filter(s, p))
    decreases |s|
  {
    if s != [] {
      assert NoDuplicates(s[1..]) by {
        forall i, j | 0 <= i < j < |s[1..]| ensures s[1..][i] != s[1..][j] {
          assert s[1..][i] == s[i + 1] && s[1..][j] == s[j + 1];
        }
      }
      FilterNoDuplicates(s[1..], p);
      if p(s[0]) {
        assert s[0] !in s[1..] by {
          forall i | 0 <= i < |s[1..]| ensures s[1..][i] != s[0] {
            assert s[1..][i] == s[i + 1];
          }
        }
        assert s[0] !in Filter(s[1..], p);
      }
    }
  }

  /** Kotlin `flatMap`. */
  function FlatMap<T, U(!new)>(s: seq<T>, f: T -> seq<U>): (r: seq<U>)
    ensures forall y :: y in r <==> exists x :: x in s && y in f(x)
  {
    if s == [] then []
    else
      var rest := FlatMap(s[1..], f);
      assert forall x :: x in s[1..] ==> x in s;
      assert forall x :: x in s ==> x == s[0] || x in s[1..];
      f(s[0]) + rest
  }

  /** Kotlin `distinct`: the first occurrence of every element, in order. */
  function Distinct<T(==,!new)>(s: seq<T>): (r: seq<T>)
    ensures forall x :: x in r <==> x in s
    ensures NoDuplicates(r)
    ensures |r| <= |s|
    decreases |s|
  {
    if s == [] then []
    else
      var init := s[..|s| - 1];
      var last := s[|s| - 1];
      assert s == init + [last];
      var d := Distinct(init);
      if last in init then d else d + [last]
  }

  /** `distinct` keeps first occurrences, in order: wherever an element kept
      later occurs in `s`, every element kept before it has already occurred. */
  lemma {:induction false} DistinctFirstOccurrence<T(!new)>(s: seq<T>, i: int, j: int, k: int)
    requires 0 <= i < j < |Distinct(s)| && 0 <= k < |s| && s[k] == Distinct(s)[j]
    ensures Distinct(s)[i] in s[..k]
    decreases |s|
  {
    var init := s[..|s| - 1];
    var last := s[|s| - 1];
    assert s == init + [last];
    var d := Distinct(init);
    if k < |init| {
      assert s[k] == init[k];
      assert j < |d| by {
        if last !in init {
          assert Distinct(s) == d + [last];
          assert Distinct(s)[j] in init;
        }
      }
      assert Distinct(s)[j] == d[j] && Distinct(s)[i] == d[i];
      DistinctFirstOccurrence(init, i, j, k);
      assert init[..k] == s[..k];
    } else if last in init {
      var k' :| 0 <= k' < |init| && init[k'] == last;
      assert Distinct(s) == d;
      DistinctFirstOccurrence(init, i, j, k');
      assert forall x :: x in init[..k'] ==> x in s[..k];
    } else {
      assert Distinct(s) == d + [last];
      assert Distinct(s)[i] == d[i] && d[i] in init;
      assert s[..k] == init;
    }
  }

  /** `distinct` leaves a list without duplicates as it is. */
  lemma {:induction false} DistinctOfDistinct<T(!new)>(s: seq<T>)
    requires NoDuplicates(s)
    ensures Distinct(s) == s
    decreases |s|
  {
    if s != [] {
      var init := s[..|s| - 1];
      assert NoDuplicates(init) by {
        forall i, j | 0 <= i < j < |init| ensures init[i] != init[j] {
          assert init[i] == s[i] && init[j] == s[j];
        }
      }
      DistinctOfDistinct(init);
      assert s[|s| - 1] !in init by {
        forall i | 0 <= i < |init| ensures init[i] != s[|s| - 1] {
          assert init[i] == s[i];
        }
      }
      assert s == init + [s[|s| - 1]];
    }
  }

  /** Kotlin `map`. */
  function MapSeq<T(!new), U(!new)>(s: seq<T>, f: T -> U): (r: seq<U>)
    ensures |r| == |s|
    ensures forall i :: 0 <= i < |s| ==> r[i] == f(s[i])
    ensures forall y :: y in r <==> exists x :: x in s && f(x) == y
  {
    var r := seq(|s|, i requires 0 <= i < |s| => f(s[i]));
    assert forall i :: 0 <= i < |s| ==> s[i] in s && r[i] == f(s[i]);
    assert forall x :: x in s ==> exists i :: 0 <= i < |s| && s[i] == x;
    r
  }

  /** Pairs every element of `xs` with `b`. */
  function PairEach<A(!new), B(!new)>(xs: seq<A>, b: B): (r: seq<(A, B)>)
    ensures |r| == |xs|
    ensures forall i :: 0 <= i < |xs| ==> r[i] == (xs[i], b)
    ensures forall p :: p in r <==> p.0 in xs && p.1 == b
  {
    if xs == [] then []
    else
      var rest := PairEach(xs[1..], b);
      assert forall x :: x in xs ==> x == xs[0] || x in xs[1..];
      [(xs[0], b)] + rest
  }

  /** Pairs `a` with every element of `ys`. */
  function PairWith<A(!new), B(!new)>(a: A, ys: seq<B>): (r: seq<(A, B)>)
    ensures |r| == |ys|
    ensures forall i :: 0 <= i < |ys| ==> r[i] == (a, ys[i])
    ensures forall p :: p in r <==> p.0 == a && p.1 in ys
  {
    if ys == [] then []
    else
      var rest := PairWith(a, ys[1..]);
      assert forall y :: y in ys ==> y == ys[0] || y in ys[1..];
      [(a, ys[0])] + rest
  }

  /** Removes every occurrence of `x` (Kotlin `MutableSet.remove` on the
      enumeration of a set). */
  function Without<T(==,!new)>(s: seq<T>, x: T): (r: seq<T>)
    ensures x !in r
    ensures forall y :: y != x ==> (y in r <==> y in s)
    ensures NoDuplicates(s) ==> NoDuplicates(r)
  {
    var keep := y => y != x;
    if NoDuplicates(s) then FilterNoDuplicates(s, keep); Filter(s, keep) else Filter(s, keep)
  }

  /** Removing what was just appended restores the original sequence. */
  lemma WithoutAppended<T(!new)>(s: seq<T>, x: T)
    requires x !in s
    ensures Without(s + [x], x) == s
  {
    var keep := y => y != x;
    assert Without(s + [x], x) == Filter(s + [x], keep);
    FilterConcat(s, [x], keep);
    FilterKeepsAll(s, keep);
  }

  lemma {:induction false} FilterKeepsAll<T(!new)>(s: seq<T>, p: T -> bool)
    requires forall x :: x in s ==> p(x)
    ensures Filter(s, p) == s
    decreases |s|
  {
    if s != [] {
      assert forall x :: x in s[1..] ==> x in s;
      FilterKeepsAll(s[1..], p);
      assert s == [s[0]] + s[1..];
    }
  }
}
