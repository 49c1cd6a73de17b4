/** The ghost-layer ("halo") extension of a structured node lattice, as
    `GridHandler::haloCell` computes it for one coordinate array
    (src/GridHandler.cpp:72-109). The extension is described entry by entry,
    following the order in which the source writes the augmented array:
    centre block and left/right ghost columns first, then the top and bottom
    ghost rows across all columns, reading the columns already written. */
module HaloExtension {
  import opened Lattice

  /** What the reads of `haloCell` need to stay in bounds: at least one row,
      and two columns (the side columns read `m(i, 1)` and `m(i, ny - 2)`). */
  predicate Extendable(m: Mat)
  {
    |m| >= 1 && |m[0]| >= 2 && IsMat(m, |m|, |m[0]|)
  }

  /** Entry `(i, j)` of the augmented array after the centre copy and the
      left/right loop; the two ghost rows still hold the zeros they were
      allocated with. */
  function SideFilled(m: Mat, i: int, j: int): real
    requires Extendable(m) && 0 <= i < |m| + 2 && 0 <= j < |m[0]| + 2
  {
    var nx, ny := |m|, |m[0]|;
    if i == 0 || i == nx + 1 then 0.0
    else if j == 0 then 2.0 * m[i - 1][0] - m[i - 1][1]
    else if j == ny + 1 then 2.0 * m[i - 1][ny - 1] - m[i - 1][ny - 2]
    else m[i - 1][j - 1]
  }

  /** The top ghost row, mirrored from rows 1 and 2 of the side-filled array. */
  function TopGhost(m: Mat, j: int): real
    requires Extendable(m) && 0 <= j < |m[0]| + 2
  {
    2.0 * SideFilled(m, 1, j) - SideFilled(m, 2, j)
  }

  /** Entry `(i, j)` of the finished augmented array. The bottom ghost row is
      mirrored from rows `nx` and `nx - 1`; with a single row (`nx == 1`),
      row `nx - 1` is the top ghost row, written just before it. */
  function HaloAt(m: Mat, i: int, j: int): real
    requires Extendable(m) && 0 <= i < |m| + 2 && 0 <= j < |m[0]| + 2
  {
    var nx := |m|;
    if i == 0 then TopGhost(m, j)
    else if i == nx + 1 then
      2.0 * SideFilled(m, nx, j) - (if nx == 1 then TopGhost(m, j) else SideFilled(m, nx - 1, j))
    else SideFilled(m, i, j)
  }

  /** The halo-extended lattice: two more rows and two more columns. */
  function Halo(m: Mat): (h: Mat)
    requires Extendable(m)
    ensures IsMat(h, |m| + 2, |m[0]| + 2) && Extendable(h)
    ensures forall i, j :: 0 <= i < |m| + 2 && 0 <= j < |m[0]| + 2 ==> h[i][j] == HaloAt(m, i, j)
  {
    seq(|m| + 2, i requires 0 <= i < |m| + 2 =>
      seq(|m[0]| + 2, j requires 0 <= j < |m[0]| + 2 => HaloAt(m, i, j)))
  }

  /** The original lattice sits in the centre of the extension, shifted by one
      in each direction. */
  lemma HaloKeepsCentre(m: Mat)
    requires Extendable(m)
    ensures forall i, j :: 0 <= i < |m| && 0 <= j < |m[0]| ==> Halo(m)[i + 1][j + 1] == m[i][j]
  {
  }

  /** The left and right ghost columns of the original rows are the linear
      mirror of the first two and the last two original columns. */
  lemma HaloSideColumns(m: Mat)
    requires Extendable(m)
    ensures forall i :: 0 <= i < |m| ==>
      Halo(m)[i + 1][0] == 2.0 * m[i][0] - m[i][1] &&
      Halo(m)[i + 1][|m[0]| + 1] == 2.0 * m[i][|m[0]| - 1] - m[i][|m[0]| - 2]
  {
  }

  /** With at least two rows, the top and bottom ghost rows are the linear
      mirror of the two rows next to them in the extended lattice, across all
      `ny + 2` columns, ghost columns included. */
  lemma HaloGhostRows(m: Mat)
    requires Extendable(m) && |m| >= 2
    ensures forall j :: 0 <= j < |m[0]| + 2 ==>
      Halo(m)[0][j] == 2.0 * Halo(m)[1][j] - Halo(m)[2][j] &&
      Halo(m)[|m| + 1][j] == 2.0 * Halo(m)[|m|][j] - Halo(m)[|m| - 1][j]
  {
  }

  /** Each ghost corner follows from the two edge columns: it is the mirror of
      a mirror, so it depends on the 2 x 2 block of original nodes next to it. */
  lemma HaloCorners(m: Mat)
    requires Extendable(m) && |m| >= 2
    ensures var h, nx, ny := Halo(m), |m|, |m[0]|;
      h[0][0] == 4.0 * m[0][0] - 2.0 * m[0][1] - 2.0 * m[1][0] + m[1][1] &&
      h[0][ny + 1] == 4.0 * m[0][ny - 1] - 2.0 * m[0][ny - 2] - 2.0 * m[1][ny - 1] + m[1][ny - 2] &&
      h[nx + 1][0] == 4.0 * m[nx - 1][0] - 2.0 * m[nx - 1][1] - 2.0 * m[nx - 2][0] + m[nx - 2][1] &&
      h[nx + 1][ny + 1] ==
        4.0 * m[nx - 1][ny - 1] - 2.0 * m[nx - 1][ny - 2] - 2.0 * m[nx - 2][ny - 1] + m[nx - 2][ny - 2]
  {
  }

  /** With a single row the bottom ghost row is read from the top ghost row
      that the same loop iteration has just written: the top row comes out as
      twice the original row and the bottom row as zero. */
  lemma HaloSingleRow(m: Mat)
    requires Extendable(m) && |m| == 1
    ensures forall j :: 0 <= j < |m[0]| + 2 ==>
      Halo(m)[0][j] == 2.0 * Halo(m)[1][j] && Halo(m)[2][j] == 0.0
  {
  }

  /** `m(i, j) = a + b*i + c*j` on every node. */
  predicate Affine(m: Mat, a: real, b: real, c: real)
  {
    forall i, j :: 0 <= i < |m| && 0 <= j < |m[i]| ==> m[i][j] == a + b * (i as real) + c * (j as real)
  }

  /** On an affine lattice, every original row of the side-filled array is
      the shifted affine function, ghost columns included. */
  lemma SideFilledAffine(m: Mat, a: real, b: real, c: real, r: int, j: int)
    requires Extendable(m) && Affine(m, a, b, c) && 1 <= r <= |m| && 0 <= j < |m[0]| + 2
    ensures SideFilled(m, r, j) == (a - b - c) + b * (r as real) + c * (j as real)
  {
    var ny := |m[0]|;
    var row := a + b * ((r - 1) as real);
    assert b * (r as real) == b * ((r - 1) as real) + b;
    if j == 0 {
      assert m[r - 1][0] == row && m[r - 1][1] == row + c;
    } else if j == ny + 1 {
      assert m[r - 1][ny - 1] == row + c * ((ny - 1) as real);
      assert m[r - 1][ny - 2] == row + c * ((ny - 2) as real);
      assert c * ((ny + 1) as real) == c * ((ny - 1) as real) + 2.0 * c;
      assert c * ((ny - 1) as real) == c * ((ny - 2) as real) + c;
    } else {
      assert m[r - 1][j - 1] == row + c * ((j - 1) as real);
      assert c * (j as real) == c * ((j - 1) as real) + c;
    }
  }

  /** The top ghost row of an affine lattice with at least two rows. */
  lemma TopGhostAffine(m: Mat, a: real, b: real, c: real, j: int)
    requires Extendable(m) && |m| >= 2 && Affine(m, a, b, c) && 0 <= j < |m[0]| + 2
    ensures HaloAt(m, 0, j) == (a - b - c) + b * (0 as real) + c * (j as real)
  {
    SideFilledAffine(m, a, b, c, 1, j);
    SideFilledAffine(m, a, b, c, 2, j);
    assert b * (2 as real) == 2.0 * b;
  }

  /** The bottom ghost row of an affine lattice with at least two rows. */
  lemma BottomGhostAffine(m: Mat, a: real, b: real, c: real, j: int)
    requires Extendable(m) && |m| >= 2 && Affine(m, a, b, c) && 0 <= j < |m[0]| + 2
    ensures HaloAt(m, |m| + 1, j) == (a - b - c) + b * ((|m| + 1) as real) + c * (j as real)
  {
    var nx := |m|;
    SideFilledAffine(m, a, b, c, nx, j);
    SideFilledAffine(m, a, b, c, nx - 1, j);
    assert b * ((nx + 1) as real) == b * (nx as real) + b;
    assert b * (nx as real) == b * ((nx - 1) as real) + b;
  }

  /** Linear extrapolation is exact on affine lattices: with at least two rows,
      the extension of an affine lattice is the same affine function, shifted
      by the one-node offset, on every node including the four corners. */
  lemma HaloPreservesAffine(m: Mat, a: real, b: real, c: real)
    requires Extendable(m) && |m| >= 2 && Affine(m, a, b, c)
    ensures Affine(Halo(m), a - b - c, b, c)
  {
    var h, nx, ny := Halo(m), |m|, |m[0]|;
    forall i, j | 0 <= i < nx + 2 && 0 <= j < ny + 2
      ensures h[i][j] == (a - b - c) + b * (i as real) + c * (j as real)
    {
      if i == 0 {
        TopGhostAffine(m, a, b, c, j);
      } else if i == nx + 1 {
        BottomGhostAffine(m, a, b, c, j);
      } else {
        SideFilledAffine(m, a, b, c, i, j);
      }
    }
  }
}
