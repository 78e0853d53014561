/**
 * Sorting a column of reals. The source sorts with `std::sort` (C++) and
 * `rb_ary_sort_bang` (Ruby); both promise an ascending permutation, and over a
 * total order that permutation is unique (`SortedPermutationUnique`), so the
 * insertion sort below fixes the one result either library can produce.
 */
module Sorting {

  predicate Sorted(s: seq<real>) {
    forall i, j :: 0 <= i < j < |s| ==> s[i] <= s[j]
  }

  /** Inserts `x` into an ascending sequence. */
  function Insert(x: real, s: seq<real>): (r: seq<real>)
    requires Sorted(s)
    ensures Sorted(r)
    ensures multiset(r) == multiset(s) + multiset{x}
    ensures |r| == |s| + 1
    ensures s != [] ==> r[0] == x || r[0] == s[0]
  {
    if s == [] then [x]
    else if x <= s[0] then
      ConsSorted(x, s);
      [x] + s
    else
      var rest := Insert(x, s[1..]);
      InsertBehind(x, s, rest);
      [s[0]] + rest
  }

  /** The recursive case of `Insert`: the head stays in front of the tail's insertion. */
  lemma InsertBehind(x: real, s: seq<real>, rest: seq<real>)
    requires Sorted(s) && s != [] && s[0] < x
    requires Sorted(rest) && |rest| == |s|
    requires multiset(rest) == multiset(s[1..]) + multiset{x}
    requires s[1..] != [] ==> rest[0] == x || rest[0] == s[1]
    ensures Sorted([s[0]] + rest)
    ensures multiset([s[0]] + rest) == multiset(s) + multiset{x}
  {
    assert s == [s[0]] + s[1..];
    if |s| == 1 {
      assert rest[0] in multiset(rest);
    } else {
      assert s[0] <= s[1];
    }
    ConsSorted(s[0], rest);
  }

  /** Putting a head no greater than the first element before an ascending tail. */
  lemma ConsSorted(h: real, t: seq<real>)
    requires Sorted(t) && (t != [] ==> h <= t[0])
    ensures Sorted([h] + t)
  {
    var r := [h] + t;
    forall i, j | 0 <= i < j < |r|
      ensures r[i] <= r[j]
    {
      if i > 0 {
        assert r[i] == t[i - 1] && r[j] == t[j - 1];
      } else {
        assert r[j] == t[j - 1] && t[0] <= t[j - 1];
      }
    }
  }

  /** The ascending permutation of `s`. */
  function SortSeq(s: seq<real>): (r: seq<real>)
    ensures Sorted(r)
    ensures multiset(r) == multiset(s)
    ensures |r| == |s|
  {
    if s == [] then []
    else
      assert s == [s[0]] + s[1..];
      Insert(s[0], SortSeq(s[1..]))
  }

  /** The head of an ascending sequence is below each of its elements. */
  lemma HeadIsLeast(s: seq<real>, x: real)
    requires Sorted(s) && x in multiset(s)
    ensures s != [] && s[0] <= x
  {
    assert x in s;
  }

  /** Two ascending sequences with the same elements are equal. */
  lemma {:induction false} SortedPermutationUnique(a: seq<real>, b: seq<real>)
    requires Sorted(a) && Sorted(b)
    requires multiset(a) == multiset(b)
    ensures a == b
  {
    if a == [] {
      assert |multiset(b)| == 0;
    } else {
      assert a[0] in multiset(a);
      HeadIsLeast(b, a[0]);
      assert b[0] in multiset(b);
      HeadIsLeast(a, b[0]);
      var x := a[0];
      assert a == [x] + a[1..];
      assert b == [x] + b[1..];
      calc {
        multiset(a[1..]);
        multiset(a) - multiset{x};
        multiset(b) - multiset{x};
        multiset(b[1..]);
      }
      SortedPermutationUnique(a[1..], b[1..]);
    }
  }

  /** Whatever ascending permutation a library sort returns, it is `SortSeq`. */
  lemma SortIsCanonical(s: seq<real>, t: seq<real>)
    requires Sorted(t) && multiset(t) == multiset(s)
    ensures t == SortSeq(s)
  {
    SortedPermutationUnique(t, SortSeq(s));
  }

  /** Sorting an already sorted column changes nothing. */
  lemma SortIdempotent(s: seq<real>)
    ensures SortSeq(SortSeq(s)) == SortSeq(s)
  {
    SortedPermutationUnique(SortSeq(SortSeq(s)), SortSeq(s));
  }

  /** The sorted column holds exactly the elements of the input column. */
  lemma SortSameElements(s: seq<real>, x: real)
    ensures x in SortSeq(s) <==> x in s
  {
    assert x in SortSeq(s) <==> x in multiset(SortSeq(s));
    assert x in s <==> x in multiset(s);
  }

  /**
   * The first and last elements of the sorted column come from the input
   * and bound every input element.
   */
  lemma SortedEnds(s: seq<real>)
    requires |s| >= 1
    ensures var t := SortSeq(s);
      && t[0] in s && t[|t| - 1] in s
      && forall i :: 0 <= i < |s| ==> t[0] <= s[i] <= t[|t| - 1]
  {
    var t := SortSeq(s);
    SortSameElements(s, t[0]);
    SortSameElements(s, t[|t| - 1]);
    forall i | 0 <= i < |s|
      ensures t[0] <= s[i] <= t[|t| - 1]
    {
      SortSameElements(s, s[i]);
      SortedBounds(t, s[i]);
    }
  }

  /** Every element of an ascending sequence lies between its ends. */
  lemma SortedBounds(t: seq<real>, x: real)
    requires Sorted(t) && x in t
    ensures t[0] <= x <= t[|t| - 1]
  {
    var k :| 0 <= k < |t| && t[k] == x;
    assert t[0] <= t[k] <= t[|t| - 1];
  }

  /** A column of zero or one element is its own sort. */
  lemma ShortSortIsIdentity(s: seq<real>)
    requires |s| <= 1
    ensures SortSeq(s) == s
  {
    SortedPermutationUnique(SortSeq(s), s);
  }
}
