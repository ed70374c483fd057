/**
  The stable sort behind `commits.stream().sorted(Comparator.comparing(...))`
  and Python's `sorted(..., key=...)`. Both library sorts are stable, so for a
  total preorder their result is the unique stable ordering; the insertion
  sort below produces exactly that ordering.
 */
module StableSort {

  /** `le` is total and transitive: a comparator on some key. */
  ghost predicate TotalPreorder<T(!new)>(le: (T, T) -> bool)
  {
    (forall a, b :: le(a, b) || le(b, a)) &&
    (forall a, b, c :: le(a, b) && le(b, c) ==> le(a, c))
  }

  predicate SortedBy<T>(s: seq<T>, le: (T, T) -> bool)
  {
    forall i, j :: 0 <= i < j < |s| ==> le(s[i], s[j])
  }

  /** `s[i]` is a least element and no earlier element ties with it. */
  ghost predicate IsFirstLeast<T>(s: seq<T>, le: (T, T) -> bool, i: int)
  {
    0 <= i < |s| &&
    (forall k :: 0 <= k < |s| ==> le(s[i], s[k])) &&
    (forall k :: 0 <= k < i ==> !le(s[k], s[i]))
  }

  /** `s[j]` is a greatest element and no later element ties with it. */
  ghost predicate IsLastGreatest<T>(s: seq<T>, le: (T, T) -> bool, j: int)
  {
    0 <= j < |s| &&
    (forall k :: 0 <= k < |s| ==> le(s[k], s[j])) &&
    (forall k :: j < k < |s| ==> !le(s[j], s[k]))
  }

  /** Puts `x` before the first element it is not above. */
  function Insert<T>(x: T, s: seq<T>, le: (T, T) -> bool): (r: seq<T>)
    ensures |r| == |s| + 1
    ensures multiset(r) == multiset(s) + multiset{x}
  {
    if s == [] || le(x, s[0]) then [x] + s
    else
      assert s == [s[0]] + s[1..];
      [s[0]] + Insert(x, s[1..], le)
  }

  /** Stable sort: equal elements keep their input order. */
  function SortBy<T>(s: seq<T>, le: (T, T) -> bool): (r: seq<T>)
    ensures |r| == |s|
    ensures multiset(r) == multiset(s)
  {
    if s == [] then []
    else
      assert s == [s[0]] + s[1..];
      Insert(s[0], SortBy(s[1..], le), le)
  }

  lemma {:induction false} InsertSorted<T(!new)>(x: T, s: seq<T>, le: (T, T) -> bool)
    requires TotalPreorder(le) && SortedBy(s, le)
    ensures SortedBy(Insert(x, s, le), le)
  {
    if s != [] && !le(x, s[0]) {
      InsertSorted(x, s[1..], le);
      var r := Insert(x, s, le);
      var t := Insert(x, s[1..], le);
      assert r == [s[0]] + t;
      assert le(s[0], x);
      assert forall e :: e in multiset(t) ==> e == x || e in s[1..];
      forall j | 0 < j < |r|
        ensures le(r[0], r[j])
      {
        assert r[j] in multiset(t);
      }
    }
  }

  /** The stable sort is ordered by `le`. */
  lemma {:induction false} SortBySorted<T(!new)>(s: seq<T>, le: (T, T) -> bool)
    requires TotalPreorder(le)
    ensures SortedBy(SortBy(s, le), le)
  {
    if s != [] {
      SortBySorted(s[1..], le);
      InsertSorted(s[0], SortBy(s[1..], le), le);
    }
  }

  /** Inserting into a sorted list leaves its last element last unless `x` is strictly above it. */
  lemma {:induction false} InsertLast<T(!new)>(x: T, s: seq<T>, le: (T, T) -> bool)
    requires TotalPreorder(le) && SortedBy(s, le) && s != []
    ensures var r := Insert(x, s, le);
            r[|r| - 1] == if le(x, s[|s| - 1]) then s[|s| - 1] else x
  {
    if le(x, s[0]) {
      assert le(s[0], s[|s| - 1]) || |s| == 1;
    } else if |s| > 1 {
      assert SortedBy(s[1..], le);
      InsertLast(x, s[1..], le);
      var t := Insert(x, s[1..], le);
      assert Insert(x, s, le) == [s[0]] + t;
    }
  }

  /** Prepending `x` to `rest`, whose earliest least element is at `i`: where the earliest least element moves. */
  lemma FirstLeastCons<T(!new)>(x: T, rest: seq<T>, le: (T, T) -> bool, i: nat)
    requires TotalPreorder(le) && IsFirstLeast(rest, le, i)
    ensures le(x, rest[i]) ==> IsFirstLeast([x] + rest, le, 0)
    ensures !le(x, rest[i]) ==> IsFirstLeast([x] + rest, le, i + 1)
  {
    var s := [x] + rest;
    if le(x, rest[i]) {
      forall k | 0 < k < |s|
        ensures le(x, s[k])
      {
        assert s[k] == rest[k - 1];
      }
    } else {
      forall k | 0 < k < |s|
        ensures le(rest[i], s[k])
      {
        assert s[k] == rest[k - 1];
      }
      forall k | 0 < k < i + 1
        ensures !le(s[k], rest[i])
      {
        assert s[k] == rest[k - 1];
      }
    }
  }

  /** Prepending `x` to `rest`, whose latest greatest element is at `j`: where the latest greatest element moves. */
  lemma LastGreatestCons<T(!new)>(x: T, rest: seq<T>, le: (T, T) -> bool, j: nat)
    requires TotalPreorder(le) && IsLastGreatest(rest, le, j)
    ensures le(x, rest[j]) ==> IsLastGreatest([x] + rest, le, j + 1)
    ensures !le(x, rest[j]) ==> IsLastGreatest([x] + rest, le, 0)
  {
    var s := [x] + rest;
    if le(x, rest[j]) {
      forall k | 0 < k < |s|
        ensures le(s[k], rest[j])
      {
        assert s[k] == rest[k - 1];
      }
      forall k | j + 1 < k < |s|
        ensures !le(rest[j], s[k])
      {
        assert s[k] == rest[k - 1];
      }
    } else {
      forall k | 0 < k < |s|
        ensures le(s[k], x) && !le(x, s[k])
      {
        assert s[k] == rest[k - 1];
      }
    }
  }

  /** The head of the stable sort is the earliest least element of the input. */
  lemma {:induction false} SortByHead<T(!new)>(s: seq<T>, le: (T, T) -> bool) returns (i: nat)
    requires TotalPreorder(le) && s != []
    ensures IsFirstLeast(s, le, i) && SortBy(s, le)[0] == s[i]
  {
    var x, rest := s[0], s[1..];
    assert s == [x] + rest;
    if rest == [] {
      i := 0;
    } else {
      var i' := SortByHead(rest, le);
      assert SortBy(s, le) == Insert(x, SortBy(rest, le), le);
      FirstLeastCons(x, rest, le, i');
      assert SortBy(rest, le)[0] == rest[i'];
      if le(x, rest[i']) {
        i := 0;
      } else {
        i := i' + 1;
        assert s[i] == rest[i'];
      }
    }
  }

  /** The tail of the stable sort is the latest greatest element of the input. */
  lemma {:induction false} SortByLast<T(!new)>(s: seq<T>, le: (T, T) -> bool) returns (j: nat)
    requires TotalPreorder(le) && s != []
    ensures IsLastGreatest(s, le, j) && SortBy(s, le)[|s| - 1] == s[j]
  {
    var x, rest := s[0], s[1..];
    assert s == [x] + rest;
    if rest == [] {
      j := 0;
    } else {
      var j' := SortByLast(rest, le);
      var sorted := SortBy(rest, le);
      assert SortBy(s, le) == Insert(x, sorted, le);
      SortBySorted(rest, le);
      InsertLast(x, sorted, le);
      LastGreatestCons(x, rest, le, j');
      assert sorted[|sorted| - 1] == rest[j'];
      if le(x, rest[j']) {
        j := j' + 1;
        assert s[j] == rest[j'];
      } else {
        j := 0;
      }
    }
  }
}
