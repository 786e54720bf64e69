/** Sorted permutations: what an in-place sort promises, and why that is enough. */
module Sorting {

  ghost predicate Sorted(s: seq<int>) {
    forall i, j :: 0 <= i < j < |s| ==> s[i] <= s[j]
  }

  /** The last of a sorted list is its greatest element, and what is left without it. */
  lemma TakeGreatest(s: seq<int>)
    requires s != [] && Sorted(s)
    ensures var n := |s| - 1;
            && Sorted(s[..n]) && multiset(s) == multiset(s[..n]) + multiset{s[n]}
            && forall v :: v in multiset(s) ==> v <= s[n]
  {
    var n := |s| - 1;
    assert s == s[..n] + [s[n]];
    forall v | v in multiset(s) ensures v <= s[n] {
      var i :| 0 <= i < |s| && s[i] == v;
    }
  }

  lemma SameSize(a: seq<int>, b: seq<int>)
    requires multiset(a) == multiset(b)
    ensures |a| == |b|
  {
    assert |a| == |multiset(a)| && |b| == |multiset(b)|;
  }

  lemma SameGreatest(a: seq<int>, b: seq<int>)
    requires a != [] && b != [] && Sorted(a) && Sorted(b) && multiset(a) == multiset(b)
    ensures a[|a| - 1] == b[|b| - 1] && multiset(a[..|a| - 1]) == multiset(b[..|b| - 1])
    ensures Sorted(a[..|a| - 1]) && Sorted(b[..|b| - 1])
  {
    TakeGreatest(a);
    TakeGreatest(b);
    hide Sorted;
    var x, y := a[|a| - 1], b[|b| - 1];
    assert x in multiset(a) && y in multiset(b);
    assert multiset(a[..|a| - 1]) == multiset(a) - multiset{x} && multiset(b[..|b| - 1]) == multiset(b) - multiset{y};
  }

  /** An in-place sort leaves nothing open: a list has one sorted permutation. */
  lemma {:induction false} OneSortedPermutation(a: seq<int>, b: seq<int>)
    requires Sorted(a) && Sorted(b) && multiset(a) == multiset(b)
    ensures a == b
    decreases |a|
  {
    hide Sorted;
    SameSize(a, b);
    if a != [] {
      var n := |a| - 1;
      SameGreatest(a, b);
      OneSortedPermutation(a[..n], b[..n]);
      assert a == a[..n] + [a[n]] && b == b[..n] + [b[n]];
    }
  }

  function Insert(x: int, s: seq<int>): (r: seq<int>)
    ensures multiset(r) == multiset(s) + multiset{x}
  {
    if s == [] || x <= s[0] then [x] + s
    else
      assert s == [s[0]] + s[1..];
      [s[0]] + Insert(x, s[1..])
  }

  function Sort(s: seq<int>): (r: seq<int>)
    ensures multiset(r) == multiset(s)
  {
    if s == [] then []
    else
      assert s == s[..|s| - 1] + [s[|s| - 1]];
      Insert(s[|s| - 1], Sort(s[..|s| - 1]))
  }

  lemma SortMembers(s: seq<int>)
    ensures forall i :: 0 <= i < |Sort(s)| ==> Sort(s)[i] in s
  {
    forall i | 0 <= i < |Sort(s)| ensures Sort(s)[i] in s {
      assert Sort(s)[i] in multiset(Sort(s));
    }
  }

  lemma {:induction false} InsertSorted(x: int, s: seq<int>)
    requires Sorted(s)
    ensures Sorted(Insert(x, s))
    decreases |s|
  {
    if s != [] && x > s[0] {
      InsertSorted(x, s[1..]);
      var r := Insert(x, s[1..]);
      forall k | 0 <= k < |r| ensures s[0] <= r[k] {
        assert r[k] in multiset(r);
        assert r[k] == x || r[k] in s[1..];
      }
    }
  }

  lemma {:induction false} SortSorted(s: seq<int>)
    ensures Sorted(Sort(s))
    decreases |s|
  {
    if s != [] {
      SortSorted(s[..|s| - 1]);
      InsertSorted(s[|s| - 1], Sort(s[..|s| - 1]));
    }
  }

  /** Lists with the same elements sort to the same list. */
  lemma SortCanonical(a: seq<int>, b: seq<int>)
    ensures Sort(a) == Sort(b) <==> multiset(a) == multiset(b)
  {
    SortSorted(a);
    SortSorted(b);
    if multiset(a) == multiset(b) {
      OneSortedPermutation(Sort(a), Sort(b));
    }
  }
}
