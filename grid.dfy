/** The grid store of the solver (class `GridHandler`, src/GridHandler.cpp and
    include/GridHandler.h): node coordinates, the halo extension applied in
    place, and the derived cell and face arrays. */
module Grid {
  import opened Lattice
  import opened HaloExtension
  import opened Metrics

  /** The node values read from a grid file, laid out column-major as
      `Eigen::Map` lays them out: node `(i, j)` is value `i + j*nx`. */
  function ColumnMajor(vals: seq<real>, nx: nat, ny: nat): (m: Mat)
    requires |vals| == nx * ny
    ensures IsMat(m, nx, ny)
  {
    seq(nx, i requires 0 <= i < nx =>
      seq(ny, j requires 0 <= j < ny => ColumnMajorIndex(nx, ny, i, j); vals[i + j * nx]))
  }

  /** Node `(i, j)` of an `nx x ny` lattice has a place among the `nx*ny` values. */
  lemma ColumnMajorIndex(nx: nat, ny: nat, i: int, j: int)
    requires 0 <= i < nx && 0 <= j < ny
    ensures 0 <= i + j * nx < nx * ny
  {
    var d := ny - 1 - j;
    assert d * nx >= 0;
    assert nx * ny == j * nx + d * nx + nx;
  }

  /** Reading the matrix back column by column gives the values in file order:
      the column-major layout loses nothing and adds nothing. */
  lemma ColumnMajorRoundTrip(vals: seq<real>, nx: nat, ny: nat)
    requires |vals| == nx * ny && nx > 0
    ensures forall k :: 0 <= k < |vals| ==> k / nx < ny && ColumnMajor(vals, nx, ny)[k % nx][k / nx] == vals[k]
  {
    forall k | 0 <= k < |vals|
      ensures k / nx < ny && ColumnMajor(vals, nx, ny)[k % nx][k / nx] == vals[k]
    {
      ColumnMajorPlace(nx, ny, k);
    }
  }

  /** Value `k` of the file belongs to node `(k % nx, k / nx)`. */
  lemma ColumnMajorPlace(nx: nat, ny: nat, k: int)
    requires nx > 0 && 0 <= k < nx * ny
    ensures 0 <= k / nx < ny && k == k % nx + (k / nx) * nx
  {
    var j := k / nx;
    assert k == j * nx + k % nx;
    assert (ny - j) * nx == ny * nx - j * nx;
    assert (ny - j) * nx > 0;
  }

  /** The augmented coordinate arrays of `haloCell` (src/GridHandler.cpp:74-102).
      The source fills `xAug` and `yAug` side by side in the same loops; the
      two never read each other, so each is built on its own here. */
  method ExtendLattice(x: Mat, y: Mat) returns (xAug: array2<real>, yAug: array2<real>)
    requires Extendable(x) && IsMat(y, |x|, |x[0]|)
    ensures View(xAug) == Halo(x) && View(yAug) == Halo(y)
  {
    xAug := ExtendArray(x);
    yAug := ExtendArray(y);
  }

  /** One augmented array: zero-filled, the old array copied into the centre
      block, then the ghost columns and the ghost rows. */
  method ExtendArray(m: Mat) returns (aug: array2<real>)
    requires Extendable(m)
    ensures View(aug) == Halo(m)
  {
    var nx, ny := |m|, |m[0]|;
    aug := new real[nx + 2, ny + 2]((i, j) => 0.0);
    forall i, j | 0 <= i < nx && 0 <= j < ny {
      aug[i + 1, j + 1] := m[i][j];
    }
    FillGhostColumns(m, aug);
    FillGhostRows(m, aug);
    MatExt(View(aug), Halo(m), nx + 2, ny + 2);
  }

  /** The left and right ghost columns of every original row, extrapolated
      from the original array (src/GridHandler.cpp:82-91). */
  method FillGhostColumns(m: Mat, aug: array2<real>)
    requires Extendable(m) && aug.Length0 == |m| + 2 && aug.Length1 == |m[0]| + 2
    requires forall r, c :: 0 <= r < |m| + 2 && 0 <= c < |m[0]| + 2 ==>
      aug[r, c] == (if c == 0 || c == |m[0]| + 1 then 0.0 else SideFilled(m, r, c))
    modifies aug
    ensures forall r, c :: 0 <= r < |m| + 2 && 0 <= c < |m[0]| + 2 ==> aug[r, c] == SideFilled(m, r, c)
  {
    var nx, ny := |m|, |m[0]|;
    for i := 0 to nx
      invariant forall r, c :: 0 <= r < nx + 2 && 0 <= c < ny + 2 ==>
        aug[r, c] == (if (c == 0 || c == ny + 1) && i < r then 0.0 else SideFilled(m, r, c))
    {
      aug[i + 1, 0] := 2.0 * m[i][0] - m[i][1];
      aug[i + 1, ny + 1] := 2.0 * m[i][ny - 1] - m[i][ny - 2];
    }
  }

  /** The top and bottom ghost rows across all columns, ghost columns
      included, each extrapolated from the augmented array itself
      (src/GridHandler.cpp:94-102). The top row of a column is written before
      the bottom row, which reads it when there is a single original row. */
  method FillGhostRows(m: Mat, aug: array2<real>)
    requires Extendable(m) && aug.Length0 == |m| + 2 && aug.Length1 == |m[0]| + 2
    requires forall r, c :: 0 <= r < |m| + 2 && 0 <= c < |m[0]| + 2 ==> aug[r, c] == SideFilled(m, r, c)
    modifies aug
    ensures forall r, c :: 0 <= r < |m| + 2 && 0 <= c < |m[0]| + 2 ==> aug[r, c] == HaloAt(m, r, c)
  {
    var nx, ny := |m|, |m[0]|;
    for j := 0 to ny + 2
      invariant forall r, c :: 0 <= r < nx + 2 && 0 <= c < ny + 2 ==>
        aug[r, c] == (if (r == 0 || r == nx + 1) && c < j then HaloAt(m, r, c) else SideFilled(m, r, c))
    {
      aug[0, j] := 2.0 * aug[1, j] - aug[2, j];
      aug[nx + 1, j] := 2.0 * aug[nx, j] - aug[nx - 1, j];
    }
  }

  /** The cell volume array of `computeCellMetrics` (src/GridHandler.cpp:122-129). */
  method ComputeVolumes(x: Mat, y: Mat) returns (vol: array2<real>)
    requires Nodes2D(x, y)
    ensures View(vol) == Volumes(x, y)
  {
    var nx, ny := |x|, |x[0]|;
    vol := new real[nx - 1, ny - 1]((i, j) => 0.0);
    for i := 0 to nx - 1
      invariant forall r, c :: 0 <= r < i && 0 <= c < ny - 1 ==> vol[r, c] == CellVolume(x, y, r, c)
    {
      for j := 0 to ny - 1
        invariant forall r, c :: 0 <= r < i && 0 <= c < ny - 1 ==> vol[r, c] == CellVolume(x, y, r, c)
        invariant forall c :: 0 <= c < j ==> vol[i, c] == CellVolume(x, y, i, c)
      {
        vol[i, j] := 0.5 * ((x[i + 1][j + 1] - x[i][j]) * (y[i][j + 1] - y[i + 1][j]) -
                            (y[i + 1][j + 1] - y[i][j]) * (x[i][j + 1] - x[i + 1][j]));
        assert vol[i, j] == CellVolume(x, y, i, j);
      }
    }
    MatExt(View(vol), Volumes(x, y), nx - 1, ny - 1);
  }

  /** The xi face arrays `xArea_Xi`, `yArea_Xi` (src/GridHandler.cpp:132-140):
      the loops cover every entry. */
  method ComputeXiAreas(x: Mat, y: Mat) returns (xArea: array2<real>, yArea: array2<real>)
    requires Nodes2D(x, y)
    ensures View(xArea) == XiFaces(y) && View(yArea) == XiFaces(x)
  {
    var nx, ny := |x|, |x[0]|;
    xArea := new real[nx - 2, ny - 3]((i, j) => 0.0);
    yArea := new real[nx - 2, ny - 3]((i, j) => 0.0);
    var i := 1;
    while i < nx - 1
      invariant 1 <= i <= nx - 1
      invariant forall r, c :: 0 <= r < i - 1 && 0 <= c < ny - 3 ==>
        xArea[r, c] == XiFace(y, r, c) && yArea[r, c] == XiFace(x, r, c)
    {
      var j := 1;
      while j < ny - 2
        invariant 1 <= j <= ny - 2
        invariant forall r, c :: 0 <= r < nx - 2 && 0 <= c < ny - 3 && (r < i - 1 || (r == i - 1 && c < j - 1)) ==>
          xArea[r, c] == XiFace(y, r, c) && yArea[r, c] == XiFace(x, r, c)
      {
        xArea[i - 1, j - 1] := y[i + 1][j + 1] - y[i + 1][j];
        yArea[i - 1, j - 1] := x[i + 1][j + 1] - x[i + 1][j];
        j := j + 1;
      }
      i := i + 1;
    }
    MatExt(View(xArea), XiFaces(y), nx - 2, ny - 3);
    MatExt(View(yArea), XiFaces(x), nx - 2, ny - 3);
  }

  /** The eta face arrays `xArea_Eta`, `yArea_Eta` (src/GridHandler.cpp:143-151):
      the loops stop one column short, so the last column stays zero. */
  method ComputeEtaAreas(x: Mat, y: Mat) returns (xArea: array2<real>, yArea: array2<real>)
    requires Nodes2D(x, y)
    ensures View(xArea) == EtaFaces(y) && View(yArea) == EtaFaces(x)
  {
    var nx, ny := |x|, |x[0]|;
    xArea := new real[nx - 3, ny - 1]((i, j) => 0.0);
    yArea := new real[nx - 3, ny - 1]((i, j) => 0.0);
    var i := 1;
    while i < nx - 2
      invariant 1 <= i <= nx - 2
      invariant forall r, c :: 0 <= r < i - 1 && 0 <= c < ny - 2 ==>
        xArea[r, c] == EtaFace(y, r, c) && yArea[r, c] == EtaFace(x, r, c)
      invariant forall r, c :: 0 <= r < nx - 3 && 0 <= c < ny - 1 && (r >= i - 1 || c == ny - 2) ==>
        xArea[r, c] == 0.0 && yArea[r, c] == 0.0
    {
      var j := 1;
      while j < ny - 1
        invariant 1 <= j <= ny - 1
        invariant forall r, c :: 0 <= r < nx - 3 && 0 <= c < ny - 2 && (r < i - 1 || (r == i - 1 && c < j - 1)) ==>
          xArea[r, c] == EtaFace(y, r, c) && yArea[r, c] == EtaFace(x, r, c)
        invariant forall r, c :: 0 <= r < nx - 3 && 0 <= c < ny - 1 && (r > i - 1 || (r == i - 1 && c >= j - 1) || c == ny - 2) ==>
          xArea[r, c] == 0.0 && yArea[r, c] == 0.0
      {
        xArea[i - 1, j - 1] := y[i + 1][j + 1] - y[i][j + 1];
        yArea[i - 1, j - 1] := x[i + 1][j + 1] - x[i][j + 1];
        j := j + 1;
      }
      i := i + 1;
    }
    MatExt(View(xArea), EtaFaces(y), nx - 3, ny - 1);
    MatExt(View(yArea), EtaFaces(x), nx - 3, ny - 1);
  }

  /** Everything `computeCellMetrics` derives from the extended nodes
      (src/GridHandler.cpp:115-151), as the values its arrays end up holding. */
  method ComputeMetrics(x: Mat, y: Mat)
    returns (xc: Mat, yc: Mat, vol: Mat, xXi: Mat, yXi: Mat, xEta: Mat, yEta: Mat)
    requires Nodes2D(x, y)
    ensures xc == Centers(x) && yc == Centers(y)
    ensures vol == Volumes(x, y)
    ensures xXi == XiFaces(y) && yXi == XiFaces(x)
    ensures xEta == EtaFaces(y) && yEta == EtaFaces(x)
  {
    xc, yc := Centers(x), Centers(y);
    var v := ComputeVolumes(x, y);
    vol := View(v);
    var a, b := ComputeXiAreas(x, y);
    xXi, yXi := View(a), View(b);
    var c, d := ComputeEtaAreas(x, y);
    xEta, yEta := View(c), View(d);
  }

  class GridHandler {
    var nx: int  // node count along i
    var ny: int  // node count along j
    var x: Mat   // node coordinates
    var y: Mat
    var xCenter: Mat  // cell centres
    var yCenter: Mat
    var cellVolume: Mat
    var xAreaEta: Mat  // eta-direction face areas
    var yAreaEta: Mat
    var xAreaXi: Mat   // xi-direction face areas
    var yAreaXi: Mat

    /** `nx` and `ny` are the shape of both node arrays. */
    ghost predicate Valid()
      reads this
    {
      IsMat(x, nx, ny) && IsMat(y, nx, ny)
    }

    /** Both counts zero and every matrix empty (src/GridHandler.cpp:11). */
    constructor ()
      ensures Valid() && nx == 0 && ny == 0 && x == [] && y == []
      ensures xCenter == yCenter == cellVolume == []
      ensures xAreaEta == yAreaEta == xAreaXi == yAreaXi == []
    {
      nx, ny := 0, 0;
      x, y := [], [];
      xCenter, yCenter, cellVolume := [], [], [];
      xAreaEta, yAreaEta, xAreaXi, yAreaXi := [], [], [], [];
    }

    /** What `readGridFile` does once the header has given `i=` and `j=` and
        the coordinate pairs have been read (src/GridHandler.cpp:29, 39, 45-69):
        the counts are stored first; the data is accepted only when there are
        exactly `nx*ny` pairs, and then mapped column-major. On a size mismatch
        the counts are already overwritten while the node arrays keep their
        old contents. */
    method StoreGridData(headerNx: nat, headerNy: nat, xvals: seq<real>, yvals: seq<real>) returns (ok: bool)
      requires |xvals| == |yvals|
      modifies this`nx, this`ny, this`x, this`y
      ensures nx == headerNx && ny == headerNy
      ensures ok <==> |xvals| == headerNx * headerNy
      ensures ok ==> Valid() && x == ColumnMajor(xvals, nx, ny) && y == ColumnMajor(yvals, nx, ny)
      ensures !ok ==> x == old(x) && y == old(y)
    {
      nx := headerNx;
      ny := headerNy;
      if |xvals| != nx * ny {
        return false;
      }
      x := ColumnMajor(xvals, nx, ny);
      y := ColumnMajor(yvals, nx, ny);
      return true;
    }

    /** Replaces the node arrays by their halo extension and grows both
        counts by 2 (src/GridHandler.cpp:72-109). */
    method HaloCell()
      requires Valid() && Extendable(x)
      modifies this`x, this`y, this`nx, this`ny
      ensures Valid() && nx == old(nx) + 2 && ny == old(ny) + 2
      ensures x == Halo(old(x)) && y == Halo(old(y))
    {
      var xAug, yAug := ExtendLattice(x, y);
      x := View(xAug);
      y := View(yAug);
      nx := nx + 2;
      ny := ny + 2;
    }

    /** Halo-extends the node arrays once more, then regenerates every derived
        array from the extended nodes (src/GridHandler.cpp:111-152). Each call
        grows the lattice again: the method is not idempotent. */
    method ComputeCellMetrics()
      requires Valid() && Extendable(x)
      modifies this
      ensures Valid() && nx == old(nx) + 2 && ny == old(ny) + 2
      ensures x == Halo(old(x)) && y == Halo(old(y))
      ensures Nodes2D(x, y)
      ensures xCenter == Centers(x) && yCenter == Centers(y)
      ensures cellVolume == Volumes(x, y)
      ensures xAreaXi == XiFaces(y) && yAreaXi == XiFaces(x)
      ensures xAreaEta == EtaFaces(y) && yAreaEta == EtaFaces(x)
    {
      HaloCell();
      xCenter, yCenter, cellVolume, xAreaXi, yAreaXi, xAreaEta, yAreaEta := ComputeMetrics(x, y);
    }
  }
}
