/**
 * The adjacency lists of the graph are `std::list<unsigned int>` values. This
 * module gives them a value model (a `seq<nat>`) together with the two list
 * algorithms the graph relies on: `std::find` (first position of a value, or
 * the end position) and `erase` of the position `std::find` returned.
 */
module Listes {

  /** Number of occurrences of `x` in `s`, counted from the front. */
  function Count(s: seq<nat>, x: nat): nat
  {
    if s == [] then 0
    else Count(s[..|s| - 1], x) + (if s[|s| - 1] == x then 1 else 0)
  }

  /** No value occurs twice in `s`. */
  predicate NoDuplicates(s: seq<nat>)
  {
    forall i, j :: 0 <= i < j < |s| ==> s[i] != s[j]
  }

  /** The set of values that occur in `s`. */
  function Elements(s: seq<nat>): set<nat>
  {
    set x | x in s
  }

  /**
   * `std::find(begin, end, x)`: the position of the first occurrence of `x`,
   * or `|s|` (the end iterator) when `x` does not occur.
   */
  function Find(s: seq<nat>, x: nat): (i: nat)
    ensures i <= |s|
    ensures i < |s| ==> s[i] == x
    ensures forall j :: 0 <= j < i ==> s[j] != x
    ensures i == |s| <==> x !in s
  {
    if s == [] then 0
    else if s[0] == x then 0
    else 1 + Find(s[1..], x)
  }

  /** Reference definition of "remove the first occurrence of `x`". */
  function RemoveFirst(s: seq<nat>, x: nat): seq<nat>
  {
    if s == [] then []
    else if s[0] == x then s[1..]
    else [s[0]] + RemoveFirst(s[1..], x)
  }

  /** Counting distributes over concatenation. */
  lemma {:induction false} CountAppend(a: seq<nat>, b: seq<nat>, x: nat)
    ensures Count(a + b, x) == Count(a, x) + Count(b, x)
  {
    if b == [] {
      assert a + b == a;
    } else {
      assert (a + b)[..|a + b| - 1] == a + b[..|b| - 1];
      CountAppend(a, b[..|b| - 1], x);
    }
  }

  /** In a list without duplicates every value is counted at most once. */
  lemma {:induction false} CountDistinct(s: seq<nat>, x: nat)
    requires NoDuplicates(s)
    ensures Count(s, x) == if x in s then 1 else 0
  {
    if s != [] {
      var p := s[..|s| - 1];
      assert NoDuplicates(p);
      CountDistinct(p, x);
      assert s == p + [s[|s| - 1]];
      if s[|s| - 1] == x {
        assert forall k :: 0 <= k < |p| ==> p[k] == s[k];
      }
    }
  }

  /** Appending a value that is absent keeps a list free of duplicates. */
  lemma AppendDistinct(s: seq<nat>, x: nat)
    requires NoDuplicates(s) && x !in s
    ensures NoDuplicates(s + [x])
    ensures Count(s + [x], x) == 1
  {
    CountDistinct(s + [x], x);
  }

  /**
   * Erasing the position found by `Find` removes exactly the first occurrence:
   * the `std::find` + `erase` pair agrees with the reference definition.
   */
  lemma {:induction false} RemoveFirstIsEraseFind(s: seq<nat>, x: nat)
    ensures x in s ==> RemoveFirst(s, x) == s[..Find(s, x)] + s[Find(s, x) + 1..]
    ensures x !in s ==> RemoveFirst(s, x) == s
  {
    if s != [] && s[0] != x {
      RemoveFirstIsEraseFind(s[1..], x);
      assert s == [s[0]] + s[1..];
      if x in s {
        var i := Find(s[1..], x);
        assert s[..1 + i] == [s[0]] + s[1..][..i];
        assert s[1 + i + 1..] == s[1..][i + 1..];
      }
    }
  }

  /** Removing the first occurrence lowers the count of `x` by one and no other count. */
  lemma {:induction false} RemoveFirstCount(s: seq<nat>, x: nat, y: nat)
    ensures |RemoveFirst(s, x)| == if x in s then |s| - 1 else |s|
    ensures Count(RemoveFirst(s, x), y) == if x == y && x in s then Count(s, y) - 1 else Count(s, y)
  {
    RemoveFirstIsEraseFind(s, x);
    if x in s {
      var i := Find(s, x);
      assert s == s[..i] + [s[i]] + s[i + 1..];
      CountAppend(s[..i] + [s[i]], s[i + 1..], y);
      CountAppend(s[..i], [s[i]], y);
      CountAppend(s[..i], s[i + 1..], y);
      assert Count([s[i]], y) == if x == y then 1 else 0 by {
        assert [s[i]][..0] == [];
      }
    }
  }

  /**
   * Removing from a list without duplicates keeps it free of duplicates, keeps
   * only values it had, and leaves no occurrence of the removed value.
   */
  lemma {:induction false} RemoveFirstDistinct(s: seq<nat>, x: nat)
    requires NoDuplicates(s)
    ensures NoDuplicates(RemoveFirst(s, x))
    ensures forall y :: y in RemoveFirst(s, x) ==> y in s
    ensures x !in RemoveFirst(s, x)
  {
    if s != [] {
      var t := s[1..];
      assert NoDuplicates(t);
      assert forall k :: 0 <= k < |t| ==> t[k] == s[k + 1];
      if s[0] != x {
        RemoveFirstDistinct(t, x);
        var r := RemoveFirst(t, x);
        assert RemoveFirst(s, x) == [s[0]] + r;
        forall i, j | 0 <= i < j < |[s[0]] + r|
          ensures ([s[0]] + r)[i] != ([s[0]] + r)[j]
        {
          if i == 0 {
            assert ([s[0]] + r)[j] == r[j - 1];
            assert r[j - 1] in r;
          } else {
            assert ([s[0]] + r)[i] == r[i - 1] && ([s[0]] + r)[j] == r[j - 1];
          }
        }
      }
    }
  }

  /** A list without duplicates has as many elements as it has distinct values. */
  lemma {:induction false} DistinctCard(s: seq<nat>)
    requires NoDuplicates(s)
    ensures |Elements(s)| == |s|
  {
    if s != [] {
      var p := s[..|s| - 1];
      var last := s[|s| - 1];
      assert NoDuplicates(p);
      DistinctCard(p);
      assert s == p + [last];
      assert Elements(s) == Elements(p) + {last};
      assert forall k :: 0 <= k < |p| ==> p[k] == s[k];
    }
  }
}
