/** The array operations of the handlers, over lists of user ids:
    `filter(Boolean)`, filtering one id out, "add if absent", the
    members-not-seen-before filter, and the newest-first sort. */
module Lists {
  import opened Base

  /** `members.filter(Boolean)`: the present ids, in order; a falsy entry
      (a missing or empty id) is `None`. */
  function Compact(xs: seq<Option<UserId>>): (r: seq<UserId>)
    ensures |r| <= |xs|
  {
    if xs == [] then []
    else
      match xs[0]
      case None => Compact(xs[1..])
      case Some(u) => [u] + Compact(xs[1..])
  }

  /** Compacting keeps exactly the present ids. */
  lemma {:induction false} CompactContents(xs: seq<Option<UserId>>)
    ensures forall u :: u in Compact(xs) <==> Some(u) in xs
  {
    if xs != [] {
      CompactContents(xs[1..]);
      assert forall o :: o in xs <==> o == xs[0] || o in xs[1..];
    }
  }

  /** An array without falsy entries loses nothing. */
  lemma {:induction false} CompactAllPresent(xs: seq<Option<UserId>>)
    requires forall i :: 0 <= i < |xs| ==> xs[i].Some?
    ensures |Compact(xs)| == |xs|
  {
    if xs != [] {
      CompactAllPresent(xs[1..]);
    }
  }

  /** `xs.filter(u => u !== y)`. */
  function Without(xs: seq<UserId>, y: UserId): (r: seq<UserId>)
    ensures |r| <= |xs|
  {
    if xs == [] then []
    else if xs[0] == y then Without(xs[1..], y)
    else [xs[0]] + Without(xs[1..], y)
  }

  /** Filtering `y` out keeps every other id and drops `y`. */
  lemma {:induction false} WithoutContents(xs: seq<UserId>, y: UserId)
    ensures y !in Without(xs, y)
    ensures forall u :: u in Without(xs, y) <==> u in xs && u != y
  {
    if xs != [] {
      WithoutContents(xs[1..], y);
      assert forall u :: u in xs <==> u == xs[0] || u in xs[1..];
    }
  }

  /** `next.filter(m => !prev.includes(m))`: the entries of `next` that are
      not in `prev`, each as often and in the order it occurs in `next`. */
  function NotIn(next: seq<UserId>, prev: seq<UserId>): (r: seq<UserId>)
    ensures forall u :: u in r <==> u in next && u !in prev
    ensures forall u :: multiset(r)[u] == if u in prev then 0 else multiset(next)[u]
    ensures |r| <= |next|
  {
    if next == [] then []
    else
      var rest := NotIn(next[1..], prev);
      assert next == [next[0]] + next[1..];
      assert forall u :: u in next <==> u == next[0] || u in next[1..];
      if next[0] in prev then rest else [next[0]] + rest
  }

  /** Adds `u` at the end unless it is already present: the assignee update
      of the admin assignment, which works like a set insertion. */
  function Include(xs: seq<UserId>, u: UserId): (r: seq<UserId>)
    ensures u in r
    ensures forall v :: v in r <==> v in xs || v == u
    ensures multiset(r)[u] == if u in xs then multiset(xs)[u] else 1
    ensures forall v :: v != u ==> multiset(r)[v] == multiset(xs)[v]
    ensures |r| == if u in xs then |xs| else |xs| + 1
    ensures r[..|xs|] == xs
  {
    if u in xs then xs else xs + [u]
  }

  /** Including twice is including once. */
  lemma IncludeIdempotent(xs: seq<UserId>, u: UserId)
    ensures Include(Include(xs, u), u) == Include(xs, u)
  {
  }

  predicate NoDuplicates(xs: seq<UserId>) {
    forall i, j :: 0 <= i < j < |xs| ==> xs[i] != xs[j]
  }

  /** Including keeps a list duplicate-free. */
  lemma IncludeNoDuplicates(xs: seq<UserId>, u: UserId)
    requires NoDuplicates(xs)
    ensures NoDuplicates(Include(xs, u))
  {
  }

  /** The distinct entries of `xs` in order of first occurrence (what a query
      `{_id: {$in: xs}}` returns, each matching document once). */
  function Distinct(xs: seq<UserId>): (r: seq<UserId>)
    ensures |r| <= |xs|
    decreases |xs|
  {
    if xs == [] then []
    else
      var last := xs[|xs| - 1];
      var front := Distinct(xs[..|xs| - 1]);
      if last in front then front else front + [last]
  }

  /** Each entry of `xs` appears in the result, and once only. */
  lemma {:induction false} DistinctContents(xs: seq<UserId>)
    ensures NoDuplicates(Distinct(xs))
    ensures forall u :: u in Distinct(xs) <==> u in xs
    decreases |xs|
  {
    if xs != [] {
      var front := xs[..|xs| - 1];
      DistinctContents(front);
      assert xs == front + [xs[|xs| - 1]];
    }
  }
}
