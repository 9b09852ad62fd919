/**
  Item names: their order, sorted lists of names, and the two standard-library
  algorithms the recipe checks run on such lists.
 */
module Names {

  // ---------------------------------------------------------------------------
  // Lexicographic order
  // ---------------------------------------------------------------------------

  predicate Leq(a: string, b: string) {
    if a == [] then true
    else if b == [] then false
    else if a[0] == b[0] then Leq(a[1..], b[1..])
    else a[0] < b[0]
  }

  lemma {:induction false} LeqTotal(a: string, b: string)
    ensures Leq(a, b) || Leq(b, a)
  {
    if a != [] && b != [] && a[0] == b[0] {
      LeqTotal(a[1..], b[1..]);
    }
  }

  lemma {:induction false} LeqAntisymmetric(a: string, b: string)
    requires Leq(a, b) && Leq(b, a)
    ensures a == b
  {
    if a != [] && b != [] {
      LeqAntisymmetric(a[1..], b[1..]);
      assert a == [a[0]] + a[1..] && b == [b[0]] + b[1..];
    }
  }

  lemma {:induction false} LeqTransitive(a: string, b: string, c: string)
    requires Leq(a, b) && Leq(b, c)
    ensures Leq(a, c)
  {
    if a != [] && b != [] && c != [] && a[0] == b[0] == c[0] {
      LeqTransitive(a[1..], b[1..], c[1..]);
    }
  }

  // ---------------------------------------------------------------------------
  // Sorted lists
  // ---------------------------------------------------------------------------

  ghost predicate Sorted(s: seq<string>) {
    forall i, j :: 0 <= i < j < |s| ==> Leq(s[i], s[j])
  }

  function Insert(x: string, s: seq<string>): (r: seq<string>)
    ensures multiset(r) == multiset(s) + multiset{x}
  {
    if s == [] then [x]
    else
      assert s == [s[0]] + s[1..];
      if Leq(x, s[0]) then [x] + s else [s[0]] + Insert(x, s[1..])
  }

  lemma {:induction false} InsertKeepsSorted(x: string, s: seq<string>)
    requires Sorted(s)
    ensures Sorted(Insert(x, s))
  {
    if s == [] {
    } else if Leq(x, s[0]) {
      forall j | 0 <= j < |s|
        ensures Leq(x, s[j])
      {
        if j > 0 { LeqTransitive(x, s[0], s[j]); }
      }
    } else {
      InsertKeepsSorted(x, s[1..]);
      LeqTotal(x, s[0]);
      var tail := Insert(x, s[1..]);
      forall j | 0 <= j < |tail|
        ensures Leq(s[0], tail[j])
      {
        assert tail[j] in multiset(tail);
        assert tail[j] == x || tail[j] in s[1..];
      }
    }
  }

  /** The sorted rearrangement of `s`, which is what sorting yields whatever the algorithm. */
  function Sort(s: seq<string>): (r: seq<string>)
    ensures multiset(r) == multiset(s)
    ensures Sorted(r)
  {
    if s == [] then []
    else
      assert s == [s[0]] + s[1..];
      InsertKeepsSorted(s[0], Sort(s[1..]));
      Insert(s[0], Sort(s[1..]))
  }

  lemma HeadIsLeast(s: seq<string>, x: string)
    requires Sorted(s) && x in s
    ensures Leq(s[0], x)
  {
    LeqTotal(x, x);
  }

  lemma TailMultiset(s: seq<string>)
    requires s != []
    ensures multiset(s[1..]) == multiset(s) - multiset{s[0]}
    ensures Sorted(s) ==> Sorted(s[1..])
  {
    assert s == [s[0]] + s[1..];
  }

  lemma SortedSameHead(a: seq<string>, b: seq<string>)
    requires Sorted(a) && Sorted(b) && multiset(a) == multiset(b) && a != [] && b != []
    ensures a[0] == b[0]
  {
    assert a[0] in multiset(b) && b[0] in multiset(a);
    HeadIsLeast(a, b[0]);
    HeadIsLeast(b, a[0]);
    LeqAntisymmetric(a[0], b[0]);
  }

  lemma {:induction false} SortedIsUnique(a: seq<string>, b: seq<string>)
    requires Sorted(a) && Sorted(b) && multiset(a) == multiset(b)
    ensures a == b
  {
    assert |a| == |multiset(a)| == |multiset(b)| == |b|;
    if a != [] {
      SortedSameHead(a, b);
      TailMultiset(a);
      TailMultiset(b);
      SortedIsUnique(a[1..], b[1..]);
      assert a == [a[0]] + a[1..] && b == [b[0]] + b[1..];
    }
  }

  // ---------------------------------------------------------------------------
  // Filtering
  // ---------------------------------------------------------------------------

  /** The subsequence of the names that satisfy `p`, in order. */
  function Filter(p: string -> bool, s: seq<string>): (r: seq<string>)
    ensures |r| <= |s|
  {
    if s == [] then [] else if p(s[0]) then [s[0]] + Filter(p, s[1..]) else Filter(p, s[1..])
  }

  lemma {:induction false} FilterMultiset(p: string -> bool, s: seq<string>)
    ensures forall x :: multiset(Filter(p, s))[x] == if p(x) then multiset(s)[x] else 0
  {
    if s != [] {
      FilterMultiset(p, s[1..]);
      assert s == [s[0]] + s[1..];
    }
  }

  lemma {:induction false} FilterKeepsSorted(p: string -> bool, s: seq<string>)
    requires Sorted(s)
    ensures Sorted(Filter(p, s))
  {
    if s != [] {
      FilterKeepsSorted(p, s[1..]);
      FilterMultiset(p, s[1..]);
      var tail := Filter(p, s[1..]);
      forall j | 0 <= j < |tail|
        ensures Leq(s[0], tail[j])
      {
        assert tail[j] in multiset(tail);
        assert tail[j] in s[1..];
      }
    }
  }

  // ---------------------------------------------------------------------------
  // Difference of sorted ranges
  // ---------------------------------------------------------------------------

  /** In the middle of the walk: `r` and the difference of what is left make up `goal`. */
  ghost predicate Merging(r: seq<string>, a: seq<string>, b: seq<string>, goal: multiset<string>) {
    multiset(r) + (multiset(a) - multiset(b)) == goal
  }

  /** A common first name takes nothing away. */
  lemma MergeSame(r: seq<string>, a: seq<string>, b: seq<string>, goal: multiset<string>)
    requires Merging(r, a, b, goal) && a != [] && b != [] && a[0] == b[0]
    ensures Merging(r, a[1..], b[1..], goal)
  {
    assert a == [a[0]] + a[1..] && b == [b[0]] + b[1..];
  }

  lemma MergeKeep(r: seq<string>, a: seq<string>, b: seq<string>, goal: multiset<string>)
    requires Merging(r, a, b, goal) && a != [] && a[0] !in b
    ensures Merging(r + [a[0]], a[1..], b, goal)
  {
    assert a == [a[0]] + a[1..];
    assert multiset(a) - multiset(b) == multiset{a[0]} + (multiset(a[1..]) - multiset(b));
  }

  lemma MergeSkip(r: seq<string>, a: seq<string>, b: seq<string>, goal: multiset<string>)
    requires Merging(r, a, b, goal) && b != [] && b[0] !in a
    ensures Merging(r, a, b[1..], goal)
  {
    assert b == [b[0]] + b[1..];
    assert multiset(a) - multiset(b) == multiset(a) - multiset(b[1..]);
  }

  lemma MergeRest(r: seq<string>, a: seq<string>, goal: multiset<string>)
    requires Merging(r, a, [], goal)
    ensures multiset(r + a) == goal
  {
  }

  /** What comes before the first of a sorted range is not in it. */
  lemma NotBehind(s: seq<string>, x: string)
    requires Sorted(s) && s != [] && x != s[0] && Leq(x, s[0])
    ensures x !in s
  {
    if x in s {
      HeadIsLeast(s, x);
      LeqAntisymmetric(x, s[0]);
    }
  }

  /** Compares the first names of both rests, and drops or keeps one. */
  method MergeStep(a: seq<string>, b: seq<string>, i: nat, j: nat, r: seq<string>,
                   ghost x: seq<string>, ghost y: seq<string>, ghost goal: multiset<string>)
    returns (i': nat, j': nat, r': seq<string>, ghost x': seq<string>, ghost y': seq<string>)
    requires i < |a| && j < |b| && x == a[i..] && y == b[j..]
    requires Sorted(x) && Sorted(y) && Merging(r, x, y, goal)
    ensures i <= i' <= |a| && j <= j' <= |b| && i + j < i' + j' && x' == a[i'..] && y' == b[j'..]
    ensures Sorted(x') && Sorted(y') && Merging(r', x', y', goal)
  {
    i', j', r', x', y' := i, j, r, x, y;
    if a[i] == b[j] {
      MergeSame(r, x, y, goal);
      i', j', x', y' := i + 1, j + 1, x[1..], y[1..];
    } else if Leq(a[i], b[j]) {
      NotBehind(y, a[i]);
      MergeKeep(r, x, y, goal);
      r' := r + [a[i]];
      i', x' := i + 1, x[1..];
    } else {
      LeqTotal(a[i], b[j]);
      NotBehind(x, b[j]);
      MergeSkip(r, x, y, goal);
      j', y' := j + 1, y[1..];
    }
  }

  /** The merge walk over two sorted ranges that keeps what only the first one has. */
  method SetDifference(a: seq<string>, b: seq<string>) returns (r: seq<string>)
    requires Sorted(a) && Sorted(b)
    ensures multiset(r) == multiset(a) - multiset(b)
  {
    r := [];
    var i, j := 0, 0;
    ghost var goal := multiset(a) - multiset(b);
    ghost var x, y := a, b;
    while i < |a|
      invariant 0 <= i <= |a| && 0 <= j <= |b| && x == a[i..] && y == b[j..]
      invariant Sorted(x) && Sorted(y) && Merging(r, x, y, goal)
      decreases |a| - i + |b| - j
    {
      if j == |b| {
        MergeRest(r, x, goal);
        r := r + a[i..];
        i, x := |a|, [];
      } else {
        i, j, r, x, y := MergeStep(a, b, i, j, r, x, y, goal);
      }
    }
    assert multiset(x) - multiset(y) == multiset{};
  }
}
