/** Value views of the dense real matrices the grid and the state are stored in.
    A `Mat` is a row-major sequence of rows; `m[i][j]` is the entry that the
    source addresses as `m(i, j)`. */
module Lattice {

  type Mat = seq<seq<real>>

  /** `m` is a rectangular `rows x cols` matrix. */
  predicate IsMat(m: Mat, rows: int, cols: int)
  {
    |m| == rows && forall i :: 0 <= i < |m| ==> |m[i]| == cols
  }

  /** The contents of a two-dimensional array, as a value. */
  function View(a: array2<real>): (m: Mat)
    reads a
    ensures IsMat(m, a.Length0, a.Length1)
    ensures forall i, j :: 0 <= i < a.Length0 && 0 <= j < a.Length1 ==> m[i][j] == a[i, j]
  {
    seq(a.Length0, i requires 0 <= i < a.Length0 reads a =>
      seq(a.Length1, j requires 0 <= j < a.Length1 reads a => a[i, j]))
  }

  /** Two matrices of the same shape that agree entry by entry are equal. */
  lemma MatExt(a: Mat, b: Mat, rows: int, cols: int)
    requires IsMat(a, rows, cols) && IsMat(b, rows, cols)
    requires forall i, j :: 0 <= i < rows && 0 <= j < cols ==> a[i][j] == b[i][j]
    ensures a == b
  {
    forall i | 0 <= i < rows
      ensures a[i] == b[i]
    {
      assert forall j :: 0 <= j < cols ==> a[i][j] == b[i][j];
    }
  }

  /** The contents of a three-dimensional array, as a sequence of matrices
      indexed `[k][i][j]`. */
  function View3(a: array3<real>): (f: seq<Mat>)
    reads a
    ensures |f| == a.Length0 && forall k :: 0 <= k < a.Length0 ==> |f[k]| == a.Length1
    ensures forall k, i :: 0 <= k < a.Length0 && 0 <= i < a.Length1 ==> |f[k][i]| == a.Length2
    ensures forall k, i, j :: 0 <= k < a.Length0 && 0 <= i < a.Length1 && 0 <= j < a.Length2 ==>
      f[k][i][j] == a[k, i, j]
  {
    seq(a.Length0, k requires 0 <= k < a.Length0 reads a =>
      seq(a.Length1, i requires 0 <= i < a.Length1 reads a =>
        seq(a.Length2, j requires 0 <= j < a.Length2 reads a => a[k, i, j])))
  }
}
