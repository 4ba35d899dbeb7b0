/** Order-preserving operations on sequences: the `Array.prototype.filter`, `map` and
    `slice(0, n)` the program chains together, with their defining properties. */
module Seqs {

  /** `r` is obtained from `s` by deleting elements, keeping the rest in order. */
  ghost predicate IsSubsequence<T>(r: seq<T>, s: seq<T>)
    decreases |s|
  {
    if |r| == 0 then true
    else if |s| == 0 then false
    else (r[0] == s[0] && IsSubsequence(r[1..], s[1..])) || IsSubsequence(r, s[1..])
  }

  /** The elements of `s` satisfying `keep`, in their original order (`s.filter(keep)`). */
  function Filter<T>(s: seq<T>, keep: T -> bool): (r: seq<T>)
    ensures forall k :: 0 <= k < |r| ==> keep(r[k])
    ensures forall x :: x in r ==> x in s
    ensures |r| <= |s|
    decreases |s|
  {
    if |s| == 0 then []
    else if keep(s[0]) then [s[0]] + Filter(s[1..], keep)
    else Filter(s[1..], keep)
  }

  /** Filtering keeps the survivors in their original order. */
  lemma {:induction false} FilterIsSubsequence<T>(s: seq<T>, keep: T -> bool)
    ensures IsSubsequence(Filter(s, keep), s)
    decreases |s|
  {
    if |s| > 0 {
      FilterIsSubsequence(s[1..], keep);
      var rest := Filter(s[1..], keep);
      if keep(s[0]) {
        assert Filter(s, keep) == [s[0]] + rest;
        assert ([s[0]] + rest)[1..] == rest;
      }
    }
  }

  /** Filtering keeps every survivor as often as it occurs, and drops every other element. */
  lemma {:induction false} FilterMultiset<T>(s: seq<T>, keep: T -> bool, x: T)
    ensures multiset(Filter(s, keep))[x] == if keep(x) then multiset(s)[x] else 0
    decreases |s|
  {
    if |s| > 0 {
      FilterMultiset(s[1..], keep, x);
      assert s == [s[0]] + s[1..];
    }
  }

  /** Filtering distributes over concatenation. */
  lemma {:induction false} FilterAppend<T>(a: seq<T>, b: seq<T>, keep: T -> bool)
    ensures Filter(a + b, keep) == Filter(a, keep) + Filter(b, keep)
    decreases |a|
  {
    if |a| == 0 {
      assert a + b == b;
    } else {
      assert (a + b)[0] == a[0] && (a + b)[1..] == a[1..] + b;
      FilterAppend(a[1..], b, keep);
    }
  }

  /** `f` applied to each element (`s.map(f)`). */
  function Map<T, U>(s: seq<T>, f: T -> U): (r: seq<U>)
    ensures |r| == |s|
    ensures forall k :: 0 <= k < |s| ==> r[k] == f(s[k])
  {
    seq(|s|, k requires 0 <= k < |s| => f(s[k]))
  }

  /** Mapping a sequence with one element marked out maps the parts around it on their own. */
  lemma MapAround<T, U>(a: seq<T>, m: T, b: seq<T>, f: T -> U)
    ensures Map(a + [m] + b, f) == Map(a, f) + [f(m)] + Map(b, f)
  {
    var s := a + [m] + b;
    var n := |a|;
    forall k | 0 <= k < |s| ensures Map(s, f)[k] == (Map(a, f) + [f(m)] + Map(b, f))[k] {
      if k < n {
        assert s[k] == a[k];
      } else if k > n {
        assert s[k] == b[k - n - 1];
      }
    }
  }

  /** One rejected element between two runs of kept ones is the only one filtered out. */
  lemma FilterDropsOne<T>(a: seq<T>, m: T, b: seq<T>, keep: T -> bool)
    requires forall k :: 0 <= k < |a| ==> keep(a[k])
    requires forall k :: 0 <= k < |b| ==> keep(b[k])
    requires !keep(m)
    ensures Filter(a + [m] + b, keep) == a + b
  {
    var am := a + [m];
    FilterAppend(am, b, keep);
    FilterAppend(a, [m], keep);
    var fm := Filter([m], keep);
    assert fm == [] by {
      var one := [m];
      assert one[1..] == [];
    }
    FilterAllKept(a, keep);
    FilterAllKept(b, keep);
    assert Filter(am, keep) == a;
  }

  /** Filtering a sequence all of whose elements are kept returns it unchanged. */
  lemma {:induction false} FilterAllKept<T>(s: seq<T>, keep: T -> bool)
    requires forall k :: 0 <= k < |s| ==> keep(s[k])
    ensures Filter(s, keep) == s
    decreases |s|
  {
    if |s| > 0 {
      FilterAllKept(s[1..], keep);
    }
  }

  function Min(a: nat, b: nat): nat {
    if a <= b then a else b
  }

  /** The first `n` elements of `s`, or all of them when there are fewer (`s.slice(0, n)`). */
  function Take<T>(s: seq<T>, n: nat): (r: seq<T>)
    ensures |r| == Min(n, |s|)
    ensures r <= s
  {
    s[..Min(n, |s|)]
  }
}
