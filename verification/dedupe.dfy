/** `[...new Set(values)]`: a JavaScript `Set` remembers insertion order, so
    spreading it lists every distinct value once, in the order of its first
    occurrence. The services use this for their subject and branch lists. */
module Dedupe {

  /** The reference definition: keep a value when it is not already kept. */
  function Distinct<T(==)>(xs: seq<T>): (r: seq<T>)
    ensures forall i :: 0 <= i < |r| ==> r[i] in xs
    ensures forall i :: 0 <= i < |xs| ==> xs[i] in r
    ensures |r| <= |xs|
    decreases |xs|
  {
    if |xs| == 0 then []
    else
      var init := Distinct(xs[..|xs| - 1]);
      var x := xs[|xs| - 1];
      assert xs == xs[..|xs| - 1] + [x];
      if x in init then init else init + [x]
  }

  predicate NoDuplicates<T(==)>(s: seq<T>) {
    forall i, j :: 0 <= i < j < |s| ==> s[i] != s[j]
  }

  /** Index of the first occurrence of `x` in `xs`. */
  function FirstIndex<T(==)>(xs: seq<T>, x: T): (k: nat)
    requires x in xs
    ensures k < |xs| && xs[k] == x
    ensures forall j :: 0 <= j < k ==> xs[j] != x
  {
    if xs[0] == x then 0 else 1 + FirstIndex(xs[1..], x)
  }

  /** A first occurrence in a prefix is the first occurrence in the whole. */
  lemma FirstIndexPrefix<T>(xs: seq<T>, n: nat, x: T)
    requires n <= |xs| && x in xs[..n]
    ensures x in xs && FirstIndex(xs[..n], x) == FirstIndex(xs, x)
  {
    var k := FirstIndex(xs[..n], x);
    assert xs[k] == x;
    var k' := FirstIndex(xs, x);
    assert k' <= k;
  }

  /** Values kept from the input's prefix keep their first occurrence, which
      lies before the input's last position. */
  lemma PrefixFirstIndices<T>(xs: seq<T>)
    requires |xs| > 0
    ensures var pre := xs[..|xs| - 1];
      forall k :: 0 <= k < |Distinct(pre)| ==>
        && Distinct(pre)[k] in xs
        && FirstIndex(xs, Distinct(pre)[k]) == FirstIndex(pre, Distinct(pre)[k]) < |xs| - 1
  {
    var pre := xs[..|xs| - 1];
    var init := Distinct(pre);
    forall k | 0 <= k < |init|
      ensures init[k] in xs && FirstIndex(xs, init[k]) == FirstIndex(pre, init[k]) < |xs| - 1
    {
      FirstIndexPrefix(xs, |xs| - 1, init[k]);
    }
  }

  /** Every value appears once, and the values come in the order of their
      first occurrences in the input. */
  lemma {:induction false} DistinctOrdered<T>(xs: seq<T>)
    ensures NoDuplicates(Distinct(xs))
    ensures forall i, j :: 0 <= i < j < |Distinct(xs)| ==>
      FirstIndex(xs, Distinct(xs)[i]) < FirstIndex(xs, Distinct(xs)[j])
    decreases |xs|
  {
    if |xs| > 0 {
      var pre := xs[..|xs| - 1];
      var x := xs[|xs| - 1];
      var init := Distinct(pre);
      DistinctOrdered(pre);
      PrefixFirstIndices(xs);
      if x !in init {
        // x is new: its first occurrence is the last position, after all others
        assert x !in pre;
        assert FirstIndex(xs, x) == |xs| - 1;
        var r := init + [x];
        assert Distinct(xs) == r;
        forall i, j | 0 <= i < j < |r|
          ensures r[i] != r[j] && FirstIndex(xs, r[i]) < FirstIndex(xs, r[j])
        {
          assert r[i] == init[i];
          if j < |init| {
            assert r[j] == init[j];
          } else {
            assert r[j] == x;
          }
        }
      } else {
        assert Distinct(xs) == init;
      }
    }
  }

  /** Sorted input (as the services order their rows) gives sorted output,
      each value once. */
  lemma DistinctKeepsSorted<T>(xs: seq<T>, le: (T, T) -> bool)
    requires forall i, j :: 0 <= i < j < |xs| ==> le(xs[i], xs[j])
    ensures forall i, j :: 0 <= i < j < |Distinct(xs)| ==> le(Distinct(xs)[i], Distinct(xs)[j])
  {
    var r := Distinct(xs);
    DistinctOrdered(xs);
    forall i, j | 0 <= i < j < |r|
      ensures le(r[i], r[j])
    {
      assert r[i] in xs && r[j] in xs;
      var a := FirstIndex(xs, r[i]);
      var b := FirstIndex(xs, r[j]);
      assert xs[a] == r[i] && xs[b] == r[j];
    }
  }

  /** Distinct values are left as they are. */
  lemma {:induction false} DistinctOfDistinct<T>(xs: seq<T>)
    requires NoDuplicates(xs)
    ensures Distinct(xs) == xs
    decreases |xs|
  {
    if |xs| > 0 {
      var pre := xs[..|xs| - 1];
      assert NoDuplicates(pre);
      DistinctOfDistinct(pre);
      assert xs[|xs| - 1] !in pre;
      assert pre + [xs[|xs| - 1]] == xs;
    }
  }

  /** The `Set` insertion the services perform: walk the values, add each
      one not seen yet. */
  method SpreadSet<T(==)>(xs: seq<T>) returns (out: seq<T>)
    ensures out == Distinct(xs)
  {
    var seen: set<T> := {};
    out := [];
    var i := 0;
    while i < |xs|
      invariant 0 <= i <= |xs|
      invariant out == Distinct(xs[..i])
      invariant forall y :: y in seen <==> y in xs[..i]
    {
      assert xs[..i + 1][..i] == xs[..i];
      if xs[i] !in seen {
        seen := seen + {xs[i]};
        out := out + [xs[i]];
      }
      i := i + 1;
    }
    assert xs[..|xs|] == xs;
  }
}
