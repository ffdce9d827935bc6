/** Orderings the queries use: documents newest first (`sort({createdAt:
    -1})`) and ids in ascending, that is insertion, order. */
module Ordering {

  predicate NewestFirst<T>(s: seq<T>, key: T -> int) {
    forall i, j :: 0 <= i < j < |s| ==> key(s[i]) >= key(s[j])
  }

  /** Inserts `x` before the first element that is not newer than it. */
  function InsertByKey<T>(x: T, s: seq<T>, key: T -> int): (r: seq<T>)
    requires NewestFirst(s, key)
    ensures NewestFirst(r, key)
    ensures multiset(r) == multiset(s) + multiset{x}
    ensures |r| == |s| + 1
    ensures r[0] == x || (|s| > 0 && r[0] == s[0])
  {
    if s == [] || key(x) >= key(s[0]) then [x] + s
    else
      var rest := InsertByKey(x, s[1..], key);
      assert s == [s[0]] + s[1..];
      assert key(s[0]) >= key(rest[0]);
      [s[0]] + rest
  }

  /** Insertion sort by descending key; elements with equal keys keep their
      input order. */
  function SortNewestFirst<T>(s: seq<T>, key: T -> int): (r: seq<T>)
    ensures NewestFirst(r, key)
    ensures multiset(r) == multiset(s)
    ensures |r| == |s|
  {
    if s == [] then []
    else
      assert s == [s[0]] + s[1..];
      InsertByKey(s[0], SortNewestFirst(s[1..], key), key)
  }

  /** Sorting what is already sorted changes nothing. */
  lemma {:induction false} SortSorted<T>(s: seq<T>, key: T -> int)
    requires NewestFirst(s, key)
    ensures SortNewestFirst(s, key) == s
  {
    if s != [] {
      assert NewestFirst(s[1..], key);
      SortSorted(s[1..], key);
    }
  }

  /** The members of `s` below `n`, in increasing order: a scan of the id
      range. */
  function Ascending(s: set<nat>, n: nat): (r: seq<nat>)
    ensures |r| <= n
  {
    if n == 0 then []
    else
      var front := Ascending(s, n - 1);
      if n - 1 in s then front + [n - 1] else front
  }

  /** The scan is strictly increasing and lists exactly the members below
      `n`. */
  lemma {:induction false} AscendingContents(s: set<nat>, n: nat)
    ensures var r := Ascending(s, n);
      && (forall i, j :: 0 <= i < j < |r| ==> r[i] < r[j])
      && (forall k :: k in r <==> k in s && k < n)
  {
    if n > 0 {
      AscendingContents(s, n - 1);
      var front := Ascending(s, n - 1);
      assert forall i :: 0 <= i < |front| ==> front[i] in front && front[i] < n - 1;
    }
  }

  /** The members of `s` below `n`. */
  function Under(s: set<nat>, n: nat): set<nat> {
    if n == 0 then {} else if n - 1 in s then Under(s, n - 1) + {n - 1} else Under(s, n - 1)
  }

  lemma {:induction false} UnderContents(s: set<nat>, n: nat)
    ensures forall k :: k in Under(s, n) <==> k in s && k < n
  {
    if n > 0 {
      UnderContents(s, n - 1);
    }
  }

  /** The scan lists each member below `n` once. */
  lemma {:induction false} AscendingSize(s: set<nat>, n: nat)
    ensures |Ascending(s, n)| == |Under(s, n)|
  {
    if n > 0 {
      AscendingSize(s, n - 1);
      if n - 1 in s {
        UnderContents(s, n - 1);
        AddFresh(Under(s, n - 1), n - 1);
      }
    }
  }

  lemma AddFresh(u: set<nat>, x: nat)
    requires x !in u
    ensures |u + {x}| == |u| + 1
  {
  }
}
