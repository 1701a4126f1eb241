/** The order in which `for (var key in obj)` enumerates the own keys of a
    plain object: array-index keys first, in ascending numeric order, then
    every other key in the order it was first assigned (ECMAScript's
    OrdinaryOwnPropertyKeys). */
module PropertyOrder {
  import opened JsValues

  /** The elements of `xs` on which `p` equals `side`, in their order. */
  function Select<T>(xs: seq<T>, p: T -> bool, side: bool): (r: seq<T>)
    ensures forall x :: x in r ==> p(x) == side
  {
    if |xs| == 0 then []
    else
      var rest := Select(xs[1..], p, side);
      if p(xs[0]) == side then [xs[0]] + rest else rest
  }

  predicate Ascending<T>(xs: seq<T>, key: T -> nat) {
    forall i, j :: 0 <= i < j < |xs| ==> key(xs[i]) <= key(xs[j])
  }

  /** A head no greater than anything after it keeps a sequence ascending. */
  lemma AscendingCons<T>(h: T, xs: seq<T>, key: T -> nat)
    requires Ascending(xs, key)
    requires forall i :: 0 <= i < |xs| ==> key(h) <= key(xs[i])
    ensures Ascending([h] + xs, key)
  {
    var ys := [h] + xs;
    forall i, j | 0 <= i < j < |ys| ensures key(ys[i]) <= key(ys[j]) {
      assert ys[j] == xs[j - 1];
      if i > 0 {
        assert ys[i] == xs[i - 1];
      }
    }
  }

  /** Every element of `ys` is `x` or an element of `xs`, all at least `lo`. */
  lemma BoundedByMultiset<T>(lo: nat, x: T, xs: seq<T>, ys: seq<T>, key: T -> nat)
    requires multiset(ys) == multiset(xs) + multiset{x}
    requires lo <= key(x)
    requires forall i :: 0 <= i < |xs| ==> lo <= key(xs[i])
    ensures forall i :: 0 <= i < |ys| ==> lo <= key(ys[i])
  {
    forall i | 0 <= i < |ys| ensures lo <= key(ys[i]) {
      assert ys[i] in multiset(ys);
      if ys[i] != x {
        assert ys[i] in multiset(xs);
        var k :| 0 <= k < |xs| && xs[k] == ys[i];
      }
    }
  }

  function Insert<T>(x: T, sorted: seq<T>, key: T -> nat): (r: seq<T>)
    requires Ascending(sorted, key)
    ensures Ascending(r, key)
    ensures multiset(r) == multiset(sorted) + multiset{x}
    ensures |r| == |sorted| + 1
  {
    if |sorted| == 0 || key(x) <= key(sorted[0]) then
      AscendingCons(x, sorted, key);
      [x] + sorted
    else
      var rest := Insert(x, sorted[1..], key);
      assert sorted == [sorted[0]] + sorted[1..];
      BoundedByMultiset(key(sorted[0]), x, sorted[1..], rest, key);
      AscendingCons(sorted[0], rest, key);
      [sorted[0]] + rest
  }

  function Sort<T>(xs: seq<T>, key: T -> nat): (r: seq<T>)
    ensures Ascending(r, key)
    ensures multiset(r) == multiset(xs)
    ensures |r| == |xs|
  {
    if |xs| == 0 then []
    else
      assert xs == [xs[0]] + xs[1..];
      Insert(xs[0], Sort(xs[1..], key), key)
  }

  /** The enumeration order of a plain object whose keys were assigned in
      the order `insertion`. */
  function ForInOrder(insertion: seq<string>): (r: seq<string>)
    ensures multiset(r) == multiset(insertion)
    ensures |r| == |insertion|
  {
    SelectSplits(insertion, IsArrayIndex);
    assert |multiset(insertion)| == |insertion|;
    Sort(Select(insertion, IsArrayIndex, true), KeyValue) + Select(insertion, IsArrayIndex, false)
  }

  lemma {:induction false} SelectSplits<T>(xs: seq<T>, p: T -> bool)
    ensures multiset(Select(xs, p, true)) + multiset(Select(xs, p, false)) == multiset(xs)
  {
    if |xs| > 0 {
      var t := xs[1..];
      SelectSplits(t, p);
      assert xs == [xs[0]] + t;
    }
  }

  /** for-in visits every own key exactly as often as it was inserted (a
      permutation of the insertion order), lists the array-index keys first
      and in ascending numeric value, and keeps every other key in insertion
      order. */
  lemma ForInOrderIsPermutation(insertion: seq<string>)
    ensures multiset(ForInOrder(insertion)) == multiset(insertion)
    ensures |ForInOrder(insertion)| == |insertion|
    ensures var o := ForInOrder(insertion);
            var n := |Select(insertion, IsArrayIndex, true)|;
            && (forall i :: 0 <= i < n ==> IsArrayIndex(o[i]))
            && (forall i, j :: 0 <= i < j < n ==> KeyValue(o[i]) <= KeyValue(o[j]))
            && o[n..] == Select(insertion, IsArrayIndex, false)
  {
    var indices := Select(insertion, IsArrayIndex, true);
    SelectSplits(insertion, IsArrayIndex);
    var o := ForInOrder(insertion);
    assert |o| == |multiset(o)| == |multiset(insertion)| == |insertion|;
    var sorted := Sort(indices, KeyValue);
    assert |sorted| == |multiset(sorted)| == |multiset(indices)| == |indices|;
    assert o[..|sorted|] == sorted;
    forall i | 0 <= i < |sorted| ensures IsArrayIndex(o[i]) {
      assert o[i] == sorted[i];
      assert sorted[i] in multiset(indices);
    }
  }

  lemma {:induction false} SelectAll<T>(xs: seq<T>, p: T -> bool, side: bool)
    requires forall i :: 0 <= i < |xs| ==> p(xs[i]) == side
    ensures Select(xs, p, side) == xs
    ensures Select(xs, p, !side) == []
  {
    if |xs| > 0 {
      SelectAll(xs[1..], p, side);
    }
  }

  /** When no key is an array index, for-in order is insertion order. */
  lemma PlainKeysKeepInsertionOrder(insertion: seq<string>)
    requires forall i :: 0 <= i < |insertion| ==> !IsArrayIndex(insertion[i])
    ensures ForInOrder(insertion) == insertion
  {
    SelectAll(insertion, IsArrayIndex, false);
  }

  ghost predicate Distinct<T>(xs: seq<T>) {
    forall i, j :: 0 <= i < j < |xs| ==> xs[i] != xs[j]
  }

  /** Distinct keys stay distinct in enumeration order. */
  lemma ForInOrderDistinct(insertion: seq<string>)
    requires Distinct(insertion)
    ensures Distinct(ForInOrder(insertion))
  {
    ForInOrderIsPermutation(insertion);
    PermutationKeepsDistinct(insertion, ForInOrder(insertion));
  }

  lemma PermutationKeepsDistinct<T>(xs: seq<T>, ys: seq<T>)
    requires Distinct(xs)
    requires multiset(xs) == multiset(ys)
    ensures Distinct(ys)
  {
    forall i, j | 0 <= i < j < |ys| ensures ys[i] != ys[j] {
      if ys[i] == ys[j] {
        DistinctMultiplicity(xs, ys[i]);
        TwoPositionsMultiplicity(ys, i, j);
      }
    }
  }

  lemma {:induction false} DistinctMultiplicity<T>(s: seq<T>, x: T)
    requires Distinct(s)
    ensures multiset(s)[x] <= 1
  {
    if |s| > 0 {
      var t := s[1..];
      assert s == [s[0]] + t;
      DistinctMultiplicity(t, x);
      if s[0] == x {
        forall k | 0 <= k < |t| ensures t[k] != x {
          assert t[k] == s[k + 1];
        }
        assert x !in t;
      }
    }
  }

  lemma TwoPositionsMultiplicity<T>(s: seq<T>, i: nat, j: nat)
    requires i < j < |s| && s[i] == s[j]
    ensures multiset(s)[s[i]] >= 2
  {
    var a, b, c, d, e := s[..i], [s[i]], s[i + 1..j], [s[j]], s[j + 1..];
    assert s == a + b + c + d + e;
    assert multiset(s) == multiset(a) + multiset(b) + multiset(c) + multiset(d) + multiset(e);
  }
}
