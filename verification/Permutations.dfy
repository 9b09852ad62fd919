/** Rearrangements of a list as index lists. */
module Permutations {

  ghost predicate Injection(p: seq<nat>, n: nat) {
    && (forall i :: 0 <= i < |p| ==> p[i] < n)
    && (forall i, j :: 0 <= i < j < |p| ==> p[i] != p[j])
  }

  ghost function Select<T>(s: seq<T>, p: seq<nat>): (r: seq<T>)
    requires Injection(p, |s|)
    ensures |r| == |p| && forall i :: 0 <= i < |p| ==> r[i] == s[p[i]]
  {
    seq(|p|, i requires 0 <= i < |p| => s[p[i]])
  }

  ghost function Without<T>(s: seq<T>, k: nat): (r: seq<T>)
    requires k < |s|
    ensures |r| == |s| - 1
    ensures multiset(s) == multiset(r) + multiset{s[k]}
    ensures forall i :: 0 <= i < |r| ==> r[i] == if i < k then s[i] else s[i + 1]
  {
    assert s == s[..k] + [s[k]] + s[k + 1..];
    s[..k] + s[k + 1..]
  }

  /** The index list that addresses the same elements after position `k` is taken out. */
  ghost function Close(p: seq<nat>, k: nat, n: nat): (q: seq<nat>)
    requires Injection(p, n) && k < n && forall i :: 0 <= i < |p| ==> p[i] != k
    ensures |q| == |p| && Injection(q, n - 1)
    ensures forall i :: 0 <= i < |p| ==> q[i] == if p[i] < k then p[i] else p[i] - 1
  {
    seq(|p|, i requires 0 <= i < |p| => if p[i] < k then p[i] else p[i] - 1)
  }

  /** The inverse of `Close`: make room for position `k`. */
  ghost function Open(q: seq<nat>, k: nat, n: nat): (p: seq<nat>)
    requires k < n && Injection(q, n - 1)
    ensures |p| == |q| && Injection(p, n) && forall i :: 0 <= i < |p| ==> p[i] != k
    ensures forall i :: 0 <= i < |p| ==> p[i] == if q[i] < k then q[i] else q[i] + 1
  {
    seq(|q|, i requires 0 <= i < |q| => if q[i] < k then q[i] else q[i] + 1)
  }

  /** Choosing every element once rearranges the list. */
  lemma {:induction false} SelectAll<T>(s: seq<T>, p: seq<nat>)
    requires |p| == |s| && Injection(p, |s|)
    ensures multiset(Select(s, p)) == multiset(s)
  {
    if s == [] {
      assert Select(s, p) == [];
    } else {
      var n := |s| - 1;
      var k := p[n];
      var q := Close(p[..n], k, |s|);
      var t := Without(s, k);
      SelectAll(t, q);
      forall i | 0 <= i < n
        ensures Select(s, p)[i] == Select(t, q)[i]
      {
        assert p[..n][i] == p[i];
      }
      assert Select(s, p) == Select(t, q) + [s[k]];
    }
  }

  lemma OpenSelects<T>(s: seq<T>, k: nat, q: seq<nat>)
    requires k < |s| && Injection(q, |s| - 1)
    ensures Injection(Open(q, k, |s|) + [k], |s|)
    ensures Select(s, Open(q, k, |s|) + [k]) == Select(Without(s, k), q) + [s[k]]
  {
  }

  /** Lists with the same multiset are rearrangements of each other. */
  lemma {:induction false} FindRearrangement<T>(s: seq<T>, t: seq<T>) returns (p: seq<nat>)
    requires multiset(s) == multiset(t)
    ensures |p| == |t| == |s| && Injection(p, |s|) && Select(s, p) == t
  {
    assert |s| == |multiset(s)| == |multiset(t)| == |t|;
    if t == [] {
      p := [];
    } else {
      var n := |t| - 1;
      assert t == t[..n] + [t[n]];
      assert t[n] in multiset(s);
      var k :| 0 <= k < |s| && s[k] == t[n];
      var rest := Without(s, k);
      assert multiset(t[..n]) == multiset(t) - multiset{t[n]};
      assert multiset(rest) == multiset(s) - multiset{s[k]};
      var q := FindRearrangement(rest, t[..n]);
      OpenSelects(s, k, q);
      p := Open(q, k, |s|) + [k];
    }
  }
}
