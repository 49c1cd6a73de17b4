/** Cell and face metrics of a (halo-extended) node lattice, as
    `GridHandler::computeCellMetrics` computes them after its call to
    `haloCell` (src/GridHandler.cpp:115-151). Nodes are `(x(i, j), y(i, j))`;
    cell `(i, j)` lies between nodes `(i, j)`, `(i + 1, j)`, `(i, j + 1)` and
    `(i + 1, j + 1)`. */
module Metrics {
  import opened Lattice
  import opened HaloExtension

  /** Two equal-shaped node arrays, large enough for every output array of
      `computeCellMetrics` to have a non-negative size. */
  predicate Nodes2D(xs: Mat, ys: Mat)
  {
    |xs| >= 3 && |xs[0]| >= 3 && IsMat(xs, |xs|, |xs[0]|) && IsMat(ys, |xs|, |xs[0]|)
  }

  /** Cell centre coordinate, written as the source writes it: the first corner
      plus half the diagonal to the opposite corner. */
  function CellCenter(m: Mat, i: int, j: int): (c: real)
    requires |m| >= 1 && IsMat(m, |m|, |m[0]|)
    requires 0 <= i < |m| - 1 && 0 <= j < |m[0]| - 1
    ensures c == (m[i][j] + m[i + 1][j + 1]) / 2.0
  {
    m[i][j] + 0.5 * (m[i + 1][j + 1] - m[i][j])
  }

  /** The `(nx - 1) x (ny - 1)` array of cell centre coordinates. */
  function Centers(m: Mat): (c: Mat)
    requires |m| >= 1 && IsMat(m, |m|, |m[0]|) && |m[0]| >= 1
    ensures IsMat(c, |m| - 1, |m[0]| - 1)
    ensures forall i, j :: 0 <= i < |m| - 1 && 0 <= j < |m[0]| - 1 ==> c[i][j] == CellCenter(m, i, j)
  {
    seq(|m| - 1, i requires 0 <= i < |m| - 1 =>
      seq(|m[0]| - 1, j requires 0 <= j < |m[0]| - 1 => CellCenter(m, i, j)))
  }

  /** Signed volume of cell `(i, j)`: half the cross product of its two
      diagonals, `(i, j)->(i + 1, j + 1)` and `(i + 1, j)->(i, j + 1)`. */
  function CellVolume(xs: Mat, ys: Mat, i: int, j: int): real
    requires Nodes2D(xs, ys) && 0 <= i < |xs| - 1 && 0 <= j < |xs[0]| - 1
  {
    0.5 * ((xs[i + 1][j + 1] - xs[i][j]) * (ys[i][j + 1] - ys[i + 1][j]) -
           (ys[i + 1][j + 1] - ys[i][j]) * (xs[i][j + 1] - xs[i + 1][j]))
  }

  /** The `(nx - 1) x (ny - 1)` array of cell volumes. */
  function Volumes(xs: Mat, ys: Mat): (v: Mat)
    requires Nodes2D(xs, ys)
    ensures IsMat(v, |xs| - 1, |xs[0]| - 1)
    ensures forall i, j :: 0 <= i < |xs| - 1 && 0 <= j < |xs[0]| - 1 ==> v[i][j] == CellVolume(xs, ys, i, j)
  {
    seq(|xs| - 1, i requires 0 <= i < |xs| - 1 =>
      seq(|xs[0]| - 1, j requires 0 <= j < |xs[0]| - 1 => CellVolume(xs, ys, i, j)))
  }

  /** Entry `(r, c)` of a xi-direction face array (`xArea_Xi` from `y`,
      `yArea_Xi` from `x`): the difference between nodes `(r + 2, c + 2)` and
      `(r + 2, c + 1)`. */
  function XiFace(m: Mat, r: int, c: int): real
    requires |m| >= 2 && IsMat(m, |m|, |m[0]|) && |m[0]| >= 3
    requires 0 <= r < |m| - 2 && 0 <= c < |m[0]| - 3
  {
    m[r + 2][c + 2] - m[r + 2][c + 1]
  }

  /** A xi-direction face array: shape `(nx - 2) x (ny - 3)`, every entry written. */
  function XiFaces(m: Mat): (f: Mat)
    requires |m| >= 2 && IsMat(m, |m|, |m[0]|) && |m[0]| >= 3
    ensures IsMat(f, |m| - 2, |m[0]| - 3)
    ensures forall r, c :: 0 <= r < |m| - 2 && 0 <= c < |m[0]| - 3 ==> f[r][c] == XiFace(m, r, c)
  {
    seq(|m| - 2, r requires 0 <= r < |m| - 2 =>
      seq(|m[0]| - 3, c requires 0 <= c < |m[0]| - 3 => XiFace(m, r, c)))
  }

  /** Entry `(r, c)` of an eta-direction face array (`xArea_Eta` from `y`,
      `yArea_Eta` from `x`): the difference between nodes `(r + 2, c + 2)` and
      `(r + 1, c + 2)`, except in the last column, which the loop never reaches
      and which keeps the zero it was allocated with. */
  function EtaFace(m: Mat, r: int, c: int): real
    requires |m| >= 3 && IsMat(m, |m|, |m[0]|) && |m[0]| >= 1
    requires 0 <= r < |m| - 3 && 0 <= c < |m[0]| - 1
  {
    if c < |m[0]| - 2 then m[r + 2][c + 2] - m[r + 1][c + 2] else 0.0
  }

  /** An eta-direction face array: shape `(nx - 3) x (ny - 1)`. */
  function EtaFaces(m: Mat): (f: Mat)
    requires |m| >= 3 && IsMat(m, |m|, |m[0]|) && |m[0]| >= 1
    ensures IsMat(f, |m| - 3, |m[0]| - 1)
    ensures forall r, c :: 0 <= r < |m| - 3 && 0 <= c < |m[0]| - 1 ==> f[r][c] == EtaFace(m, r, c)
  {
    seq(|m| - 3, r requires 0 <= r < |m| - 3 =>
      seq(|m[0]| - 1, c requires 0 <= c < |m[0]| - 1 => EtaFace(m, r, c)))
  }

  /** Twice the signed area of a closed polygon, by the shoelace formula:
      the sum of `x_k y_(k+1) - x_(k+1) y_k` over its edges, from vertex `k` on. */
  function ShoelaceSum(px: seq<real>, py: seq<real>, k: nat): real
    requires |px| == |py| && |px| >= 1 && k <= |px|
    decreases |px| - k
  {
    if k == |px| then 0.0
    else
      var n := if k + 1 == |px| then 0 else k + 1;
      px[k] * py[n] - px[n] * py[k] + ShoelaceSum(px, py, k + 1)
  }

  /** The cell volume is the shoelace area of the quadrilateral traversed
      `(i, j) -> (i + 1, j) -> (i + 1, j + 1) -> (i, j + 1)`: positive when that
      traversal is counter-clockwise. */
  lemma VolumeIsShoelace(xs: Mat, ys: Mat, i: int, j: int)
    requires Nodes2D(xs, ys) && 0 <= i < |xs| - 1 && 0 <= j < |xs[0]| - 1
    ensures CellVolume(xs, ys, i, j) ==
      0.5 * ShoelaceSum([xs[i][j], xs[i + 1][j], xs[i + 1][j + 1], xs[i][j + 1]],
                        [ys[i][j], ys[i + 1][j], ys[i + 1][j + 1], ys[i][j + 1]], 0)
  {
    var px := [xs[i][j], xs[i + 1][j], xs[i + 1][j + 1], xs[i][j + 1]];
    var py := [ys[i][j], ys[i + 1][j], ys[i + 1][j + 1], ys[i][j + 1]];
    assert ShoelaceSum(px, py, 4) == 0.0;
    assert ShoelaceSum(px, py, 3) == px[3] * py[0] - px[0] * py[3];
    assert ShoelaceSum(px, py, 2) == px[2] * py[3] - px[3] * py[2] + ShoelaceSum(px, py, 3);
    assert ShoelaceSum(px, py, 1) == px[1] * py[2] - px[2] * py[1] + ShoelaceSum(px, py, 2);
    assert ShoelaceSum(px, py, 0) == px[0] * py[1] - px[1] * py[0] + ShoelaceSum(px, py, 1);
  }

  /** Every coordinate shifted by the same amount. */
  function Shift(m: Mat, t: real): (s: Mat)
    ensures |s| == |m| && forall i :: 0 <= i < |m| ==> |s[i]| == |m[i]|
    ensures forall i, j :: 0 <= i < |m| && 0 <= j < |m[i]| ==> s[i][j] == m[i][j] + t
  {
    seq(|m|, i requires 0 <= i < |m| => seq(|m[i]|, j requires 0 <= j < |m[i]| => m[i][j] + t))
  }

  /** Translating the whole mesh leaves every cell volume unchanged. */
  lemma VolumesTranslationInvariant(xs: Mat, ys: Mat, tx: real, ty: real)
    requires Nodes2D(xs, ys)
    ensures Nodes2D(Shift(xs, tx), Shift(ys, ty))
    ensures Volumes(Shift(xs, tx), Shift(ys, ty)) == Volumes(xs, ys)
  {
    var sx, sy := Shift(xs, tx), Shift(ys, ty);
    assert Nodes2D(sx, sy);
    MatExt(Volumes(sx, sy), Volumes(xs, ys), |xs| - 1, |xs[0]| - 1);
  }

  /** On a Cartesian lattice `x = x0 + dx*i`, `y = y0 + dy*j` every cell has
      volume `dx*dy` (1 for the unit lattice `x = i`, `y = j`) and its centre
      at `(x0 + dx*(i + 1/2), y0 + dy*(j + 1/2))`. */
  lemma CartesianCells(xs: Mat, ys: Mat, x0: real, dx: real, y0: real, dy: real)
    requires Nodes2D(xs, ys) && Affine(xs, x0, dx, 0.0) && Affine(ys, y0, 0.0, dy)
    ensures forall i, j :: 0 <= i < |xs| - 1 && 0 <= j < |xs[0]| - 1 ==>
      Volumes(xs, ys)[i][j] == dx * dy &&
      Centers(xs)[i][j] == x0 + dx * (i as real + 0.5) &&
      Centers(ys)[i][j] == y0 + dy * (j as real + 0.5)
  {
    forall i, j | 0 <= i < |xs| - 1 && 0 <= j < |xs[0]| - 1
      ensures Volumes(xs, ys)[i][j] == dx * dy
      ensures Centers(xs)[i][j] == x0 + dx * (i as real + 0.5)
      ensures Centers(ys)[i][j] == y0 + dy * (j as real + 0.5)
    {
      CartesianCell(xs, ys, x0, dx, y0, dy, i, j);
    }
  }

  /** One cell of a Cartesian lattice: its volume and its centre. */
  lemma CartesianCell(xs: Mat, ys: Mat, x0: real, dx: real, y0: real, dy: real, i: int, j: int)
    requires Nodes2D(xs, ys) && Affine(xs, x0, dx, 0.0) && Affine(ys, y0, 0.0, dy)
    requires 0 <= i < |xs| - 1 && 0 <= j < |xs[0]| - 1
    ensures CellVolume(xs, ys, i, j) == dx * dy
    ensures CellCenter(xs, i, j) == x0 + dx * (i as real + 0.5)
    ensures CellCenter(ys, i, j) == y0 + dy * (j as real + 0.5)
  {
    var xi, yj := x0 + dx * (i as real), y0 + dy * (j as real);
    assert dx * ((i + 1) as real) == dx * (i as real) + dx;
    assert dy * ((j + 1) as real) == dy * (j as real) + dy;
    assert xs[i][j] == xi && xs[i][j + 1] == xi;
    assert xs[i + 1][j] == xi + dx && xs[i + 1][j + 1] == xi + dx;
    assert ys[i][j] == yj && ys[i + 1][j] == yj;
    assert ys[i][j + 1] == yj + dy && ys[i + 1][j + 1] == yj + dy;
  }

  /** On the same Cartesian lattice the xi faces are `(dy, 0)` and the eta
      faces `(0, dx)`, away from the unwritten last eta column. */
  lemma CartesianFaces(xs: Mat, ys: Mat, x0: real, dx: real, y0: real, dy: real)
    requires Nodes2D(xs, ys) && Affine(xs, x0, dx, 0.0) && Affine(ys, y0, 0.0, dy)
    ensures forall r, c :: 0 <= r < |xs| - 2 && 0 <= c < |xs[0]| - 3 ==>
      XiFaces(ys)[r][c] == dy && XiFaces(xs)[r][c] == 0.0
    ensures forall r, c :: 0 <= r < |xs| - 3 && 0 <= c < |xs[0]| - 2 ==>
      EtaFaces(ys)[r][c] == 0.0 && EtaFaces(xs)[r][c] == dx
  {
    var nx, ny := |xs|, |xs[0]|;
    forall r, c | 0 <= r < nx - 2 && 0 <= c < ny - 3
      ensures XiFaces(ys)[r][c] == dy && XiFaces(xs)[r][c] == 0.0
    {
      assert dy * ((c + 2) as real) == dy * ((c + 1) as real) + dy;
      assert ys[r + 2][c + 2] == y0 + dy * ((c + 2) as real);
      assert ys[r + 2][c + 1] == y0 + dy * ((c + 1) as real);
      assert xs[r + 2][c + 2] == xs[r + 2][c + 1];
    }
    forall r, c | 0 <= r < nx - 3 && 0 <= c < ny - 2
      ensures EtaFaces(ys)[r][c] == 0.0 && EtaFaces(xs)[r][c] == dx
    {
      assert dx * ((r + 2) as real) == dx * ((r + 1) as real) + dx;
      assert xs[r + 2][c + 2] == x0 + dx * ((r + 2) as real);
      assert xs[r + 1][c + 2] == x0 + dx * ((r + 1) as real);
      assert ys[r + 2][c + 2] == ys[r + 1][c + 2];
    }
  }

  /** Sum of the first `n` entries of a row. */
  function RowSum(s: seq<real>, n: nat): real
    requires n <= |s|
  {
    if n == 0 then 0.0 else RowSum(s, n - 1) + s[n - 1]
  }

  /** The xi faces along one grid line tile it: the first `n` face vectors of
      row `r` add up to the chord from node `(r + 2, 1)` to node `(r + 2, n + 1)`. */
  lemma {:induction false} XiFacesTelescope(m: Mat, r: int, n: nat)
    requires |m| >= 2 && IsMat(m, |m|, |m[0]|) && |m[0]| >= 3
    requires 0 <= r < |m| - 2 && n <= |m[0]| - 3
    ensures RowSum(XiFaces(m)[r], n) == m[r + 2][n + 1] - m[r + 2][1]
  {
    if n > 0 {
      XiFacesTelescope(m, r, n - 1);
    }
  }

  /** The eta faces down one grid column tile it the same way, away from the
      unwritten last column. */
  lemma {:induction false} EtaFacesTelescope(m: Mat, c: int, n: nat)
    requires |m| >= 3 && IsMat(m, |m|, |m[0]|) && |m[0]| >= 1
    requires 0 <= c < |m[0]| - 2 && n <= |m| - 3
    ensures SumDown(EtaFaces(m), c, n) == m[n + 1][c + 2] - m[1][c + 2]
  {
    if n > 0 {
      EtaFacesTelescope(m, c, n - 1);
    }
  }

  /** Sum of the first `n` entries of column `c`. */
  function SumDown(f: Mat, c: int, n: nat): real
    requires 0 <= c && n <= |f| && forall r :: 0 <= r < |f| ==> c < |f[r]|
  {
    if n == 0 then 0.0 else SumDown(f, c, n - 1) + f[n - 1][c]
  }

  /** The last eta column is never written: it stays zero. */
  lemma EtaLastColumnZero(m: Mat)
    requires |m| >= 3 && IsMat(m, |m|, |m[0]|) && |m[0]| >= 2
    ensures forall r :: 0 <= r < |m| - 3 ==> EtaFaces(m)[r][|m[0]| - 2] == 0.0
  {
  }

  /** Around cell `(r + 1, c + 1)` of the band where both face arrays are
      written, its two xi faces and its two eta faces close up (discrete
      geometric conservation): the four edge vectors of the cell sum to zero. */
  lemma FacesClose(m: Mat, r: int, c: int)
    requires |m| >= 3 && IsMat(m, |m|, |m[0]|) && |m[0]| >= 3
    requires 1 <= r < |m| - 3 && 1 <= c < |m[0]| - 3
    ensures XiFaces(m)[r][c] - XiFaces(m)[r - 1][c] == EtaFaces(m)[r][c] - EtaFaces(m)[r][c - 1]
  {
  }
}
