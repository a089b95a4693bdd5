/** A stable sort, as `Array.prototype.sort` with a comparator is (ECMAScript 2019
    onwards): elements the order cannot tell apart keep their input order. It is
    written as an insertion sort whose comparator `le(a, b)` means "a may precede b". */
module Sorting {

  ghost predicate Total<T(!new)>(le: (T, T) -> bool) {
    forall a, b :: le(a, b) || le(b, a)
  }

  ghost predicate Transitive<T(!new)>(le: (T, T) -> bool) {
    forall a, b, c :: le(a, b) && le(b, c) ==> le(a, c)
  }

  ghost predicate SortedBy<T>(s: seq<T>, le: (T, T) -> bool) {
    forall i, j :: 0 <= i < j < |s| ==> le(s[i], s[j])
  }

  /** Puts x in front of the first element it may precede. */
  function Insert<T>(x: T, s: seq<T>, le: (T, T) -> bool): (r: seq<T>)
    ensures multiset(r) == multiset(s) + multiset{x}
  {
    if s == [] || le(x, s[0]) then [x] + s
    else
      assert s == [s[0]] + s[1..];
      [s[0]] + Insert(x, s[1..], le)
  }

  function InsertionSort<T>(s: seq<T>, le: (T, T) -> bool): (r: seq<T>)
    ensures multiset(r) == multiset(s)
    ensures |r| == |s|
  {
    if s == [] then []
    else
      assert s == [s[0]] + s[1..];
      var r := Insert(s[0], InsertionSort(s[1..], le), le);
      assert |r| == |multiset(r)| == |multiset(s)| == |s|;
      r
  }

  /** The elements of s that `le` cannot tell apart from v, in their order in s. */
  function EquivalentTo<T>(s: seq<T>, le: (T, T) -> bool, v: T): seq<T> {
    if s == [] then []
    else (if le(s[0], v) && le(v, s[0]) then [s[0]] else []) + EquivalentTo(s[1..], le, v)
  }

  lemma SortedCons<T>(a: T, r: seq<T>, le: (T, T) -> bool)
    requires SortedBy(r, le)
    requires forall y :: y in r ==> le(a, y)
    ensures SortedBy([a] + r, le)
  {
    var ar := [a] + r;
    forall i, j | 0 <= i < j < |ar|
      ensures le(ar[i], ar[j])
    {
      assert ar[j] == r[j - 1];
      if i > 0 {
        assert ar[i] == r[i - 1];
      }
    }
  }

  lemma {:induction false} InsertSorted<T(!new)>(x: T, s: seq<T>, le: (T, T) -> bool)
    requires Total(le) && Transitive(le)
    requires SortedBy(s, le)
    ensures SortedBy(Insert(x, s, le), le)
  {
    if s == [] || le(x, s[0]) {
      forall y | y in s
        ensures le(x, y)
      {
        var j :| 0 <= j < |s| && s[j] == y;
        if j > 0 {
          assert le(s[0], s[j]);
        }
      }
      SortedCons(x, s, le);
    } else {
      var tail := Insert(x, s[1..], le);
      InsertSorted(x, s[1..], le);
      assert le(s[0], x);
      forall y | y in tail
        ensures le(s[0], y)
      {
        assert y in multiset(tail);
        if y != x {
          var j :| 0 <= j < |s[1..]| && s[1..][j] == y;
          assert s[j + 1] == y;
        }
      }
      assert SortedBy(s[1..], le) by {
        forall i, j | 0 <= i < j < |s[1..]|
          ensures le(s[1..][i], s[1..][j])
        {
          assert s[1..][i] == s[i + 1] && s[1..][j] == s[j + 1];
        }
      }
      SortedCons(s[0], tail, le);
    }
  }

  /** The result is ordered by `le` when `le` is a total preorder. */
  lemma {:induction false} InsertionSortSorted<T(!new)>(s: seq<T>, le: (T, T) -> bool)
    requires Total(le) && Transitive(le)
    ensures SortedBy(InsertionSort(s, le), le)
  {
    if s != [] {
      InsertionSortSorted(s[1..], le);
      InsertSorted(s[0], InsertionSort(s[1..], le), le);
    }
  }

  lemma EquivalentToCons<T>(a: T, s: seq<T>, le: (T, T) -> bool, v: T)
    ensures EquivalentTo([a] + s, le, v) == (if le(a, v) && le(v, a) then [a] else []) + EquivalentTo(s, le, v)
  {
    assert ([a] + s)[1..] == s;
  }

  lemma PrependCommutes<T>(a: seq<T>, b: seq<T>, rest: seq<T>)
    requires a == [] || b == []
    ensures a + (b + rest) == b + (a + rest)
  {
  }

  lemma {:induction false} InsertKeepsEquivalentOrder<T(!new)>(x: T, s: seq<T>, le: (T, T) -> bool, v: T)
    requires Transitive(le)
    ensures EquivalentTo(Insert(x, s, le), le, v)
         == (if le(x, v) && le(v, x) then [x] else []) + EquivalentTo(s, le, v)
  {
    if s == [] || le(x, s[0]) {
      EquivalentToCons(x, s, le, v);
    } else {
      var ex := if le(x, v) && le(v, x) then [x] else [];
      var e0 := if le(s[0], v) && le(v, s[0]) then [s[0]] else [];
      var rest := EquivalentTo(s[1..], le, v);
      InsertKeepsEquivalentOrder(x, s[1..], le, v);
      EquivalentToCons(s[0], Insert(x, s[1..], le), le, v);
      EquivalentToCons(s[0], s[1..], le, v);
      assert s == [s[0]] + s[1..];
      // x cannot be equivalent to s[0]: it would then have been placed in front of it.
      assert ex == [] || e0 == [];
      PrependCommutes(e0, ex, rest);
    }
  }

  /** Stability: for every equivalence class of `le`, the members of that class appear
      in the output in the same order as in the input. */
  lemma {:induction false} InsertionSortStable<T(!new)>(s: seq<T>, le: (T, T) -> bool, v: T)
    requires Transitive(le)
    ensures EquivalentTo(InsertionSort(s, le), le, v) == EquivalentTo(s, le, v)
  {
    if s != [] {
      InsertionSortStable(s[1..], le, v);
      InsertKeepsEquivalentOrder(s[0], InsertionSort(s[1..], le), le, v);
    }
  }
}
