/**
 * The row filter: `dropna(subset=cols)` removes every row in which one of
 * the named columns is missing, keeping the other rows in their order and
 * unchanged.
 */
module RowFilter {

  import opened Frame

  /** None of the columns `cols` is missing in `row`. */
  predicate Complete(row: Row, cols: set<Label>)
    requires cols <= row.Keys
  {
    forall c :: c in cols ==> !row[c].Missing?
  }

  predicate HasColumns(t: Table, cols: set<Label>)
  {
    forall i :: 0 <= i < |t| ==> cols <= t[i].Keys
  }

  /** The complete rows of `t` from position `lo` on, in order. */
  function DropIncompleteFrom(t: Table, cols: set<Label>, lo: nat): (r: Table)
    requires HasColumns(t, cols) && lo <= |t|
    ensures |r| <= |t| - lo
    decreases |t| - lo
  {
    if lo == |t| then []
    else (if Complete(t[lo], cols) then [t[lo]] else []) + DropIncompleteFrom(t, cols, lo + 1)
  }

  /** The positions from `lo` on, in increasing order, of the rows of `t` that are complete. */
  function KeptIndicesFrom(t: Table, cols: set<Label>, lo: nat): (idx: seq<nat>)
    requires HasColumns(t, cols) && lo <= |t|
    ensures |idx| <= |t| - lo
    ensures forall k :: 0 <= k < |idx| ==> lo <= idx[k] < |t|
    ensures forall k, l :: 0 <= k < l < |idx| ==> idx[k] < idx[l]
    decreases |t| - lo
  {
    if lo == |t| then []
    else (if Complete(t[lo], cols) then [lo] else []) + KeptIndicesFrom(t, cols, lo + 1)
  }

  /** A position from `lo` on is kept exactly when its row is complete. */
  lemma {:induction false} KeptIndicesFromComplete(t: Table, cols: set<Label>, lo: nat)
    requires HasColumns(t, cols) && lo <= |t|
    ensures forall i :: lo <= i < |t| ==> (i in KeptIndicesFrom(t, cols, lo) <==> Complete(t[i], cols))
    decreases |t| - lo
  {
    if lo < |t| {
      KeptIndicesFromComplete(t, cols, lo + 1);
      var restIdx := KeptIndicesFrom(t, cols, lo + 1);
      assert lo !in restIdx;
      if Complete(t[lo], cols) {
        assert KeptIndicesFrom(t, cols, lo) == [lo] + restIdx;
      } else {
        assert KeptIndicesFrom(t, cols, lo) == restIdx;
      }
    }
  }

  /** The positions, in increasing order, of the rows of `t` that are complete. */
  function KeptIndices(t: Table, cols: set<Label>): (idx: seq<nat>)
    requires HasColumns(t, cols)
    ensures |idx| <= |t|
    ensures forall k :: 0 <= k < |idx| ==> idx[k] < |t|
    ensures forall k, l :: 0 <= k < l < |idx| ==> idx[k] < idx[l]
    ensures forall i :: 0 <= i < |t| ==> (i in idx <==> Complete(t[i], cols))
  {
    KeptIndicesFromComplete(t, cols, 0);
    KeptIndicesFrom(t, cols, 0)
  }

  /** The rows kept from `lo` on are the rows at the kept positions, in order and unchanged. */
  lemma {:induction false} DropIncompleteFromKeeps(t: Table, cols: set<Label>, lo: nat)
    requires HasColumns(t, cols) && lo <= |t|
    ensures var r, idx := DropIncompleteFrom(t, cols, lo), KeptIndicesFrom(t, cols, lo);
            |r| == |idx| && forall k :: 0 <= k < |r| ==> r[k] == t[idx[k]]
    decreases |t| - lo
  {
    if lo < |t| {
      DropIncompleteFromKeeps(t, cols, lo + 1);
      var rest, restIdx := DropIncompleteFrom(t, cols, lo + 1), KeptIndicesFrom(t, cols, lo + 1);
      var r, idx := DropIncompleteFrom(t, cols, lo), KeptIndicesFrom(t, cols, lo);
      if Complete(t[lo], cols) {
        assert r == [t[lo]] + rest;
        assert idx == [lo] + restIdx;
        forall k | 0 <= k < |r|
          ensures r[k] == t[idx[k]]
        {
          if k > 0 {
            assert r[k] == rest[k - 1];
            assert idx[k] == restIdx[k - 1];
          }
        }
      } else {
        assert r == rest;
        assert idx == restIdx;
      }
    }
  }

  /**
   * `df.dropna(subset=cols)`: the filter keeps exactly the complete rows, in
   * their original order and with every field unchanged. The k-th row left
   * is the input row at the k-th complete position, so every row left is
   * complete and the frame never grows.
   */
  function DropIncomplete(t: Table, cols: set<Label>): (r: Table)
    requires HasColumns(t, cols)
    ensures |r| == |KeptIndices(t, cols)| <= |t|
    ensures forall k :: 0 <= k < |r| ==> r[k] == t[KeptIndices(t, cols)[k]]
    ensures forall k :: 0 <= k < |r| ==> cols <= r[k].Keys && Complete(r[k], cols)
  {
    DropIncompleteFromKeeps(t, cols, 0);
    var r := DropIncompleteFrom(t, cols, 0);
    assert forall k :: 0 <= k < |r| ==> KeptIndices(t, cols)[k] in KeptIndices(t, cols);
    r
  }

  /** Tables that agree on the columns `cols` keep the same positions. */
  lemma {:induction false} KeptIndicesAgree(a: Table, b: Table, cols: set<Label>, lo: nat)
    requires HasColumns(a, cols) && HasColumns(b, cols) && |a| == |b| && lo <= |a|
    requires forall i, c :: 0 <= i < |a| && c in cols ==> a[i][c] == b[i][c]
    ensures KeptIndicesFrom(a, cols, lo) == KeptIndicesFrom(b, cols, lo)
    decreases |a| - lo
  {
    if lo < |a| {
      forall c | c in cols
        ensures a[lo][c] == b[lo][c]
      {
      }
      assert Complete(a[lo], cols) == Complete(b[lo], cols);
      KeptIndicesAgree(a, b, cols, lo + 1);
    }
  }
}
