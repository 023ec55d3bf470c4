/** Dropping rows by a boolean mask, as pandas' `dropna` does to every column of a frame at once
    (Task.py:40, 44). A mask has one entry per row; `true` keeps the row. */
module RowFilter {

  /** The number of rows a mask keeps. */
  function CountTrue(mask: seq<bool>): (n: nat)
    ensures n <= |mask|
  {
    if mask == [] then 0
    else CountTrue(mask[..|mask| - 1]) + (if mask[|mask| - 1] then 1 else 0)
  }

  /** A mask that keeps no row counts zero. */
  lemma {:induction false} CountTrueNone(mask: seq<bool>)
    requires forall i :: 0 <= i < |mask| ==> !mask[i]
    ensures CountTrue(mask) == 0
  {
    if mask != [] {
      CountTrueNone(mask[..|mask| - 1]);
    }
  }

  /** A mask that keeps the single row `k` counts one. */
  lemma {:induction false} CountTrueSingle(mask: seq<bool>, k: nat)
    requires k < |mask|
    requires forall i :: 0 <= i < |mask| ==> (mask[i] <==> i == k)
    ensures CountTrue(mask) == 1
  {
    var n := |mask| - 1;
    if k == n {
      CountTrueNone(mask[..n]);
    } else {
      CountTrueSingle(mask[..n], k);
    }
  }

  /** The positions a mask keeps, in increasing order. */
  function KeptIndices(mask: seq<bool>): (ks: seq<nat>)
    ensures |ks| == CountTrue(mask)
    ensures forall j :: 0 <= j < |ks| ==> ks[j] < |mask| && mask[ks[j]]
    ensures forall j, l :: 0 <= j < l < |ks| ==> ks[j] < ks[l]
    ensures forall i :: 0 <= i < |mask| && mask[i] ==> i in ks
  {
    if mask == [] then []
    else
      var n := |mask| - 1;
      assert forall i :: 0 <= i < n ==> mask[..n][i] == mask[i];
      KeptIndices(mask[..n]) + (if mask[n] then [n] else [])
  }

  /** The entries of one column that survive the mask, in their original order. */
  function Keep<T>(s: seq<T>, mask: seq<bool>): (r: seq<T>)
    requires |s| == |mask|
    ensures |r| == CountTrue(mask)
  {
    if s == [] then []
    else
      var n := |s| - 1;
      Keep(s[..n], mask[..n]) + (if mask[n] then [s[n]] else [])
  }

  /** The j-th surviving entry is the entry at the j-th kept position: the rows that survive are
      exactly the kept ones, in their original order. */
  lemma {:induction false} KeepAt<T>(s: seq<T>, mask: seq<bool>, j: nat)
    requires |s| == |mask| && j < CountTrue(mask)
    ensures Keep(s, mask)[j] == s[KeptIndices(mask)[j]]
  {
    var n := |s| - 1;
    var ks', r' := KeptIndices(mask[..n]), Keep(s[..n], mask[..n]);
    assert KeptIndices(mask) == ks' + (if mask[n] then [n] else []);
    assert Keep(s, mask) == r' + (if mask[n] then [s[n]] else []);
    if j < |r'| {
      KeepAt(s[..n], mask[..n], j);
      assert r'[j] == s[..n][ks'[j]];
    }
  }

  /** The mask that tests every row's key with `p`. */
  function MaskOf<K>(keys: seq<K>, p: K -> bool): seq<bool> {
    seq(|keys|, i requires 0 <= i < |keys| => p(keys[i]))
  }

  /** A mask that keeps every row leaves the column as it was. */
  lemma {:induction false} KeepAll<T>(s: seq<T>, mask: seq<bool>)
    requires |s| == |mask|
    requires forall i :: 0 <= i < |mask| ==> mask[i]
    ensures Keep(s, mask) == s
  {
    if s != [] {
      var n := |s| - 1;
      KeepAll(s[..n], mask[..n]);
      assert s[..n] + [s[n]] == s;
    }
  }

  /** The rows both masks keep. */
  function And(m1: seq<bool>, m2: seq<bool>): (m: seq<bool>)
    requires |m1| == |m2|
    ensures |m| == |m1|
  {
    seq(|m1|, i requires 0 <= i < |m1| => m1[i] && m2[i])
  }

  /** Dropping by `m1` and then by what survives of `m2` is dropping once by both masks. */
  lemma {:induction false} KeepThenKeep<T>(s: seq<T>, m1: seq<bool>, m2: seq<bool>)
    requires |s| == |m1| == |m2|
    ensures |Keep(m2, m1)| == |Keep(s, m1)|
    ensures Keep(Keep(s, m1), Keep(m2, m1)) == Keep(s, And(m1, m2))
  {
    if s != [] {
      var n := |s| - 1;
      var s', m1', m2' := s[..n], m1[..n], m2[..n];
      KeepThenKeep(s', m1', m2');
      var both := And(m1, m2);
      assert both[..n] == And(m1', m2');
      assert Keep(s, both) == Keep(s', And(m1', m2')) + (if both[n] then [s[n]] else []);
      var a', b' := Keep(s', m1'), Keep(m2', m1');
      var a, b := Keep(s, m1), Keep(m2, m1);
      if m1[n] {
        assert a == a' + [s[n]] && b == b' + [m2[n]];
        var m := |a| - 1;
        assert a[..m] == a' && b[..m] == b';
        assert Keep(a, b) == Keep(a', b') + (if m2[n] then [s[n]] else []);
      } else {
        assert a == a' && b == b';
      }
    }
  }

  /** Testing the surviving keys is the same as keeping the surviving tests. */
  lemma MaskOfKeep<K>(keys: seq<K>, mask: seq<bool>, p: K -> bool)
    requires |keys| == |mask|
    ensures MaskOf(Keep(keys, mask), p) == Keep(MaskOf(keys, p), mask)
  {
    var l, r := MaskOf(Keep(keys, mask), p), Keep(MaskOf(keys, p), mask);
    forall j | 0 <= j < |l|
      ensures l[j] == r[j]
    {
      KeepAt(keys, mask, j);
      KeepAt(MaskOf(keys, p), mask, j);
    }
  }

  /** Every surviving key passes the test that chose it. */
  lemma KeepSatisfies<K>(keys: seq<K>, p: K -> bool)
    ensures forall j :: 0 <= j < CountTrue(MaskOf(keys, p)) ==> p(Keep(keys, MaskOf(keys, p))[j])
  {
    var mask := MaskOf(keys, p);
    forall j | 0 <= j < CountTrue(mask)
      ensures p(Keep(keys, mask)[j])
    {
      KeepAt(keys, mask, j);
    }
  }

  /** A property every entry has, every surviving entry has. */
  lemma KeepPreserves<T>(s: seq<T>, mask: seq<bool>, q: T -> bool)
    requires |s| == |mask|
    requires forall i :: 0 <= i < |s| ==> q(s[i])
    ensures forall j :: 0 <= j < CountTrue(mask) ==> q(Keep(s, mask)[j])
  {
    forall j | 0 <= j < CountTrue(mask)
      ensures q(Keep(s, mask)[j])
    {
      KeepAt(s, mask, j);
    }
  }
}
