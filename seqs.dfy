/** `Array.prototype.filter` on sequences, what "an order-preserving selection" means, and
    the iteration order of a JavaScript `Set` filled from a sequence. */
module Seqs {

  /** `xs.filter(p)`: the elements satisfying `p`, in their original order. */
  function Filter<T>(p: T -> bool, xs: seq<T>): (r: seq<T>)
    ensures |r| <= |xs|
    ensures forall x :: x in r ==> x in xs && p(x)
    ensures forall x :: x in xs && p(x) ==> x in r
  {
    if |xs| == 0 then []
    else
      var last := xs[|xs| - 1];
      assert xs == xs[..|xs| - 1] + [last];
      Filter(p, xs[..|xs| - 1]) + (if p(last) then [last] else [])
  }

  /** `r` consists of the elements of `xs` at the strictly increasing positions `idx`:
      nothing is added, changed or reordered. */
  ghost predicate SelectedAt<T>(r: seq<T>, xs: seq<T>, idx: seq<nat>) {
    && |idx| == |r|
    && (forall k :: 0 <= k < |idx| ==> idx[k] < |xs| && r[k] == xs[idx[k]])
    && (forall k, l :: 0 <= k < l < |idx| ==> idx[k] < idx[l])
  }

  /** `filter` keeps exactly the positions whose element satisfies `p`, in order. */
  lemma {:induction false} FilterSelects<T>(p: T -> bool, xs: seq<T>) returns (idx: seq<nat>)
    ensures SelectedAt(Filter(p, xs), xs, idx)
    ensures forall i :: 0 <= i < |xs| ==> (i in idx <==> p(xs[i]))
    decreases |xs|
  {
    if |xs| == 0 {
      idx := [];
    } else {
      var n := |xs| - 1;
      var before := FilterSelects(p, xs[..n]);
      idx := SelectedExtend(p, Filter(p, xs[..n]), xs, before);
      assert Filter(p, xs) == Filter(p, xs[..n]) + (if p(xs[n]) then [xs[n]] else []);
    }
  }

  /** A selection from all but the last element extends to one from the whole
      sequence, with the last element exactly when it satisfies `p`. */
  lemma SelectedExtend<T>(p: T -> bool, r: seq<T>, xs: seq<T>, idx: seq<nat>) returns (idx': seq<nat>)
    requires |xs| > 0 && SelectedAt(r, xs[..|xs| - 1], idx)
    requires forall i :: 0 <= i < |xs| - 1 ==> (i in idx <==> p(xs[..|xs| - 1][i]))
    ensures SelectedAt(r + (if p(xs[|xs| - 1]) then [xs[|xs| - 1]] else []), xs, idx')
    ensures forall i :: 0 <= i < |xs| ==> (i in idx' <==> p(xs[i]))
  {
    var n := |xs| - 1;
    assert forall k :: 0 <= k < |idx| ==> idx[k] < n && r[k] == xs[idx[k]];
    assert forall i :: 0 <= i < n ==> (i in idx <==> p(xs[i]));
    if p(xs[n]) {
      idx' := idx + [n];
      assert forall k :: 0 <= k < |idx| ==> idx'[k] == idx[k];
    } else {
      idx' := idx;
      assert n !in idx;
    }
  }

  /** Filtering with a predicate every element satisfies returns the sequence unchanged. */
  lemma {:induction false} FilterKeepsAll<T>(p: T -> bool, xs: seq<T>)
    requires forall i :: 0 <= i < |xs| ==> p(xs[i])
    ensures Filter(p, xs) == xs
    decreases |xs|
  {
    if |xs| > 0 {
      var n := |xs| - 1;
      var ys := xs[..n];
      assert xs == ys + [xs[n]];
      assert Filter(p, xs) == Filter(p, ys) + [xs[n]] by {
        assert p(xs[n]);
      }
      assert forall i :: 0 <= i < |ys| ==> p(ys[i]) by {
        assert forall i :: 0 <= i < |ys| ==> ys[i] == xs[i];
      }
      FilterKeepsAll(p, ys);
    }
  }

  /** No element occurs twice. */
  predicate NoDuplicates<T(==)>(xs: seq<T>) {
    forall i, j :: 0 <= i < j < |xs| ==> xs[i] != xs[j]
  }

  /** `Array.from(new Set(xs))`: a `Set` iterates in insertion order, and adding an
      element it already holds changes nothing, so each element appears once, where
      it first occurs in `xs`. */
  function Dedup<T(==)>(xs: seq<T>): (r: seq<T>)
    ensures forall i :: 0 <= i < |r| ==> r[i] in xs
    ensures forall i :: 0 <= i < |xs| ==> xs[i] in r
    ensures NoDuplicates(r)
  {
    if |xs| == 0 then []
    else
      var n := |xs| - 1;
      assert xs == xs[..n] + [xs[n]];
      var r := Dedup(xs[..n]);
      if xs[n] in r then r else r + [xs[n]]
  }

  /** A list without repeats fills a `Set` that lists it unchanged. */
  lemma {:induction false} DedupOfDistinct<T>(xs: seq<T>)
    requires NoDuplicates(xs)
    ensures Dedup(xs) == xs
  {
    if |xs| > 0 {
      var n := |xs| - 1;
      var prefix := xs[..n];
      assert NoDuplicates(prefix);
      DedupOfDistinct(prefix);
      assert forall i :: 0 <= i < n ==> prefix[i] != xs[n];
      assert xs == prefix + [xs[n]];
    }
  }

  /** The position of the first occurrence of `x` in `xs`. */
  function FirstIndex<T(==)>(xs: seq<T>, x: T): (k: nat)
    requires x in xs
    ensures k < |xs| && xs[k] == x && x !in xs[..k]
  {
    var n := |xs| - 1;
    if x in xs[..n] then
      var k := FirstIndex(xs[..n], x);
      assert xs[..k] == xs[..n][..k];
      k
    else
      assert xs == xs[..n] + [xs[n]];
      n
  }

  /** `Dedup` lists the elements in the order of their first occurrences. */
  lemma {:induction false} DedupOrder<T>(xs: seq<T>)
    ensures forall i, j :: 0 <= i < j < |Dedup(xs)| ==>
      FirstIndex(xs, Dedup(xs)[i]) < FirstIndex(xs, Dedup(xs)[j])
    decreases |xs|
  {
    if |xs| > 0 {
      var n := |xs| - 1;
      var ys := xs[..n];
      DedupOrder(ys);
      var r := Dedup(ys);
      var r' := Dedup(xs);
      assert r' == if xs[n] in r then r else r + [xs[n]];
      forall i, j | 0 <= i < j < |r'| ensures FirstIndex(xs, r'[i]) < FirstIndex(xs, r'[j]) {
        FirstIndexInPrefix(xs, r'[i]);
        if j < |r| {
          FirstIndexInPrefix(xs, r'[j]);
        }
      }
    }
  }

  /** Extending a sequence does not move the first occurrence of an element it
      already held; an element first met at the end is found there. */
  lemma FirstIndexInPrefix<T>(xs: seq<T>, x: T)
    requires x in xs
    ensures x in xs[..|xs| - 1] ==> FirstIndex(xs, x) == FirstIndex(xs[..|xs| - 1], x) < |xs| - 1
    ensures x !in xs[..|xs| - 1] ==> FirstIndex(xs, x) == |xs| - 1
  {
  }
}
