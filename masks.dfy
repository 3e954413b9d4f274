/** Boolean-mask indexing, the one selection primitive the dashboard uses:
    NumPy's `values[values != fill]` and pandas' `df[condition]` both keep
    the entries where an element-wise mask is true, in their original order. */
module Masks {

  /** The positions of the true entries of a mask, in increasing order. */
  function TrueIndices(mask: seq<bool>): (idx: seq<nat>)
    ensures forall k :: 0 <= k < |idx| ==> idx[k] < |mask| && mask[idx[k]]
    ensures forall k, l :: 0 <= k < l < |idx| ==> idx[k] < idx[l]
    ensures forall i :: 0 <= i < |mask| && mask[i] ==> i in idx
  {
    if |mask| == 0 then []
    else TrueIndices(mask[..|mask| - 1]) + (if mask[|mask| - 1] then [|mask| - 1] else [])
  }

  /** `v[mask]` for a mask of v's length: entry k of the result is the entry
      of v at the k-th true position of the mask. */
  function Select<T>(v: seq<T>, mask: seq<bool>): (r: seq<T>)
    requires |v| == |mask|
    ensures |r| == |TrueIndices(mask)|
    ensures forall k :: 0 <= k < |r| ==> r[k] == v[TrueIndices(mask)[k]]
  {
    if |v| == 0 then []
    else Select(v[..|v| - 1], mask[..|mask| - 1]) + (if mask[|mask| - 1] then [v[|v| - 1]] else [])
  }

  /** The element-wise mask that a comparison such as `s != c` computes. */
  function Where<T>(s: seq<T>, p: T -> bool): (mask: seq<bool>)
    ensures |mask| == |s| && forall i :: 0 <= i < |s| ==> mask[i] == p(s[i])
  {
    seq(|s|, i requires 0 <= i < |s| => p(s[i]))
  }

  /** The entries of s that satisfy p, in order. */
  function Filter<T>(s: seq<T>, p: T -> bool): seq<T> {
    Select(s, Where(s, p))
  }

  /** Filtering keeps exactly the entries that satisfy p, in their original
      order: the result is the subsequence of s at the increasing positions
      `TrueIndices(Where(s, p))`, which are all the positions where p holds. */
  lemma {:induction false} FilterExactly<T>(s: seq<T>, p: T -> bool)
    ensures var idx := TrueIndices(Where(s, p));
      && |Filter(s, p)| == |idx| <= |s|
      && (forall k :: 0 <= k < |idx| ==> idx[k] < |s| && p(s[idx[k]]) && Filter(s, p)[k] == s[idx[k]])
      && (forall k, l :: 0 <= k < l < |idx| ==> idx[k] < idx[l])
      && (forall i :: 0 <= i < |s| && p(s[i]) ==> i in idx)
  {
    var mask := Where(s, p);
    var idx := TrueIndices(mask);
    assert forall k :: 0 <= k < |idx| ==> mask[idx[k]] == p(s[idx[k]]);
    TrueIndicesBound(mask);
  }

  /** A mask has at most as many true positions as entries. */
  lemma {:induction false} TrueIndicesBound(mask: seq<bool>)
    ensures |TrueIndices(mask)| <= |mask|
  {
    if |mask| > 0 {
      TrueIndicesBound(mask[..|mask| - 1]);
    }
  }

  /** Every entry of a filtered sequence comes from s and satisfies p. */
  lemma FilterMember<T>(s: seq<T>, p: T -> bool, x: T)
    requires x in Filter(s, p)
    ensures x in s && p(x)
  {
    FilterExactly(s, p);
    var k :| 0 <= k < |Filter(s, p)| && Filter(s, p)[k] == x;
  }

  /** Boolean-mask selection distributes over concatenation. */
  lemma {:induction false} SelectAppend<T>(a: seq<T>, ma: seq<bool>, b: seq<T>, mb: seq<bool>)
    requires |a| == |ma| && |b| == |mb|
    ensures Select(a + b, ma + mb) == Select(a, ma) + Select(b, mb)
  {
    if |b| > 0 {
      var n := |b| - 1;
      assert (a + b)[..|a + b| - 1] == a + b[..n];
      assert (ma + mb)[..|ma + mb| - 1] == ma + mb[..n];
      SelectAppend(a, ma, b[..n], mb[..n]);
    } else {
      assert a + b == a && ma + mb == ma;
    }
  }

  /** Filtering distributes over concatenation. */
  lemma FilterAppend<T>(a: seq<T>, b: seq<T>, p: T -> bool)
    ensures Filter(a + b, p) == Filter(a, p) + Filter(b, p)
  {
    assert Where(a + b, p) == Where(a, p) + Where(b, p);
    SelectAppend(a, Where(a, p), b, Where(b, p));
  }

  /** Filtering a single entry keeps it exactly when it satisfies p. */
  lemma FilterSingleton<T>(x: T, p: T -> bool)
    ensures Filter([x], p) == if p(x) then [x] else []
  {
    var w := Where([x], p);
    assert w == [p(x)];
    assert [x][..0] == [] && w[..0] == [];
  }

  /** Filtering a sequence with a first entry x. */
  lemma FilterCons<T>(x: T, s: seq<T>, p: T -> bool)
    ensures Filter([x] + s, p) == (if p(x) then [x] else []) + Filter(s, p)
  {
    FilterAppend([x], s, p);
    FilterSingleton(x, p);
  }
}
