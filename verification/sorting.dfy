/** Sorting and de-duplication over a caller-supplied total order.
    Python's `sorted` on a list of strings and pandas' ordering of the
    levels produced by `unstack` are both modelled with these functions. */
module Sorting {

  /** `le` is a total order: reflexive, antisymmetric, transitive and total. */
  ghost predicate TotalOrder<T(!new)>(le: (T, T) -> bool) {
    && (forall x :: le(x, x))
    && (forall x, y :: le(x, y) && le(y, x) ==> x == y)
    && (forall x, y, z :: le(x, y) && le(y, z) ==> le(x, z))
    && (forall x, y :: le(x, y) || le(y, x))
  }

  /** Every earlier element is `le` every later one. */
  ghost predicate Sorted<T>(s: seq<T>, le: (T, T) -> bool) {
    forall i, j :: 0 <= i < j < |s| ==> le(s[i], s[j])
  }

  /** No value occurs twice. */
  ghost predicate Distinct<T>(s: seq<T>) {
    forall i, j :: 0 <= i < j < |s| ==> s[i] != s[j]
  }

  /** Inserts `x` into the sorted sequence `s`, before the first element it is `le`. */
  function Insert<T(!new)>(x: T, s: seq<T>, le: (T, T) -> bool): (r: seq<T>)
    requires TotalOrder(le)
    requires Sorted(s, le)
    ensures Sorted(r, le)
    ensures multiset(r) == multiset(s) + multiset{x}
  {
    if |s| == 0 then [x]
    else if le(x, s[0]) then
      assert s == [s[0]] + s[1..];
      [x] + s
    else
      var rest := Insert(x, s[1..], le);
      assert s == [s[0]] + s[1..];
      assert forall k :: 0 <= k < |rest| ==> le(s[0], rest[k]) by {
        forall k | 0 <= k < |rest|
          ensures le(s[0], rest[k])
        {
          assert rest[k] in multiset(rest);
          if rest[k] != x {
            assert rest[k] in multiset(s[1..]);
            var j :| 0 <= j < |s[1..]| && s[1..][j] == rest[k];
            assert s[1 + j] == rest[k];
          }
        }
      }
      [s[0]] + rest
  }

  /** Insertion sort: an ascending permutation of `s`. */
  function SortBy<T(!new)>(s: seq<T>, le: (T, T) -> bool): (r: seq<T>)
    requires TotalOrder(le)
    ensures Sorted(r, le)
    ensures multiset(r) == multiset(s)
  {
    if |s| == 0 then []
    else
      assert s == [s[0]] + s[1..];
      Insert(s[0], SortBy(s[1..], le), le)
  }

  /** Two sorted permutations of the same multiset are the same sequence,
      so `SortBy` is the one and only ascending arrangement of its input. */
  lemma {:induction false} SortedPermutationsEqual<T(!new)>(a: seq<T>, b: seq<T>, le: (T, T) -> bool)
    requires TotalOrder(le)
    requires Sorted(a, le) && Sorted(b, le)
    requires multiset(a) == multiset(b)
    ensures a == b
  {
    if |a| == 0 {
      assert |multiset(b)| == 0;
    } else {
      assert |b| == |multiset(b)| == |multiset(a)| == |a|;
      assert a == [a[0]] + a[1..];
      assert b == [b[0]] + b[1..];
      assert a[0] in multiset(b);
      var i :| 0 <= i < |b| && b[i] == a[0];
      assert b[0] in multiset(a);
      var j :| 0 <= j < |a| && a[j] == b[0];
      assert le(b[0], a[0]) by {
        if i != 0 {
          assert le(b[0], b[i]);
        }
      }
      assert le(a[0], b[0]) by {
        if j != 0 {
          assert le(a[0], a[j]);
        }
      }
      assert a[0] == b[0];
      assert multiset(a[1..]) == multiset(a) - multiset{a[0]} by {
        assert multiset(a) == multiset{a[0]} + multiset(a[1..]);
      }
      assert multiset(b[1..]) == multiset(b) - multiset{b[0]} by {
        assert multiset(b) == multiset{b[0]} + multiset(b[1..]);
      }
      SortedPermutationsEqual(a[1..], b[1..], le);
    }
  }

  /** Drops adjacent repeats; on a sorted input this leaves each value once. */
  function Dedup<T(==,!new)>(s: seq<T>, le: (T, T) -> bool): (r: seq<T>)
    requires TotalOrder(le)
    requires Sorted(s, le)
    ensures Sorted(r, le)
    ensures Distinct(r)
    ensures forall x :: x in r <==> x in s
    ensures |r| <= |s|
  {
    if |s| <= 1 then s
    else if s[0] == s[1] then Dedup(s[1..], le)
    else
      var rest := Dedup(s[1..], le);
      assert forall k :: 0 <= k < |rest| ==> le(s[0], rest[k]) && s[0] != rest[k] by {
        forall k | 0 <= k < |rest|
          ensures le(s[0], rest[k]) && s[0] != rest[k]
        {
          assert rest[k] in s[1..];
          var j :| 0 <= j < |s[1..]| && s[1..][j] == rest[k];
          assert s[1 + j] == rest[k];
          assert le(s[0], s[1]) && le(s[1], s[1 + j]);
        }
      }
      assert s == [s[0]] + s[1..];
      [s[0]] + rest
  }

  /** The distinct values of `s`, in ascending order. */
  function SortedDistinct<T(==,!new)>(s: seq<T>, le: (T, T) -> bool): (r: seq<T>)
    requires TotalOrder(le)
    ensures Sorted(r, le)
    ensures Distinct(r)
    ensures forall x :: x in r <==> x in s
  {
    var sorted := SortBy(s, le);
    assert forall x :: x in sorted <==> x in s by {
      forall x
        ensures x in sorted <==> x in s
      {
        assert x in sorted <==> x in multiset(sorted);
        assert x in s <==> x in multiset(s);
      }
    }
    Dedup(sorted, le)
  }
}
