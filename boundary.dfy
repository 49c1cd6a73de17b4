/** The boundary step of the state initialisation (`Initialize` in
    src/Initialize.cpp:48-98): the conserved variables live on the
    halo-extended node lattice, and the inlet, outlet and wall helpers fill the
    one-node ghost ring from the nodes next to it. Each helper is described
    here as a function of the whole state; `Initialize` in module State
    performs the same copies in place. */
module Boundary {
  import opened Lattice

  /** The four conserved variables, each an `ni x nj` matrix, indexed
      `q[k][i][j]` with `k` one of the constants below. */
  type Field = seq<Mat>

  const RHO := 0      // density
  const RHO_U := 1    // x-momentum
  const RHO_V := 2    // y-momentum, normal to the walls
  const ENERGY := 3   // total energy per unit volume

  /** Four matrices of shape `ni x nj`. */
  predicate Shape(q: Field, ni: int, nj: int)
  {
    |q| == 4 && forall k :: 0 <= k < 4 ==> IsMat(q[k], ni, nj)
  }

  /** Two fields of the same shape that agree entry by entry are equal. */
  lemma FieldExt(a: Field, b: Field, ni: int, nj: int)
    requires Shape(a, ni, nj) && Shape(b, ni, nj)
    requires forall k, i, j :: 0 <= k < 4 && 0 <= i < ni && 0 <= j < nj ==> a[k][i][j] == b[k][i][j]
    ensures a == b
  {
    forall k | 0 <= k < 4
      ensures a[k] == b[k]
    {
      MatExt(a[k], b[k], ni, nj);
    }
  }

  /** Supersonic inflow (src/Initialize.cpp:54-64): for every column, row 0 of
      every component becomes a copy of row 1. */
  function Inlet(q: Field, ni: nat, nj: nat): (r: Field)
    requires Shape(q, ni, nj) && (nj == 0 || ni >= 2)
    ensures Shape(r, ni, nj)
    ensures forall k, i, j :: 0 <= k < 4 && 0 <= i < ni && 0 <= j < nj ==>
      r[k][i][j] == (if i == 0 then q[k][1][j] else q[k][i][j])
  {
    seq(4, k requires 0 <= k < 4 =>
      seq(ni, i requires 0 <= i < ni =>
        seq(nj, j requires 0 <= j < nj => if i == 0 then q[k][1][j] else q[k][i][j])))
  }

  /** Supersonic outflow (src/Initialize.cpp:66-77): for every column, row
      `ni - 1` of every component becomes a copy of row `ni - 2`. */
  function Outlet(q: Field, ni: nat, nj: nat): (r: Field)
    requires Shape(q, ni, nj) && (nj == 0 || ni >= 2)
    ensures Shape(r, ni, nj)
    ensures forall k, i, j :: 0 <= k < 4 && 0 <= i < ni && 0 <= j < nj ==>
      r[k][i][j] == (if i == ni - 1 then q[k][ni - 2][j] else q[k][i][j])
  {
    seq(4, k requires 0 <= k < 4 =>
      seq(ni, i requires 0 <= i < ni =>
        seq(nj, j requires 0 <= j < nj => if i == ni - 1 then q[k][ni - 2][j] else q[k][i][j])))
  }

  /** The factor the top wall applies to component `k`: only the normal
      momentum changes sign. */
  function TopSign(k: int): real
  {
    if k == RHO_V then -1.0 else 1.0
  }

  /** Entry `(k, i, j)` after the wall step. The bottom ghost column is a copy
      of column 1 for all four components; the top ghost column is a copy of
      column `nj - 2` with `rho v` negated. The top copy of a row is made
      after the bottom copy of the same row, so with `nj == 2` it reads the
      bottom ghost just written. */
  function WallAt(q: Field, ni: nat, nj: nat, k: int, i: int, j: int): real
    requires Shape(q, ni, nj) && 0 <= k < 4 && 0 <= i < ni && 0 <= j < nj && nj >= 2
  {
    if j == 0 then q[k][i][1]
    else if j == nj - 1 then TopSign(k) * (if nj == 2 then q[k][i][1] else q[k][i][nj - 2])
    else q[k][i][j]
  }

  /** Slip walls on the bottom and top (src/Initialize.cpp:79-98). */
  function Wall(q: Field, ni: nat, nj: nat): (r: Field)
    requires Shape(q, ni, nj) && (ni == 0 || nj >= 2)
    ensures Shape(r, ni, nj)
    ensures forall k, i, j :: 0 <= k < 4 && 0 <= i < ni && 0 <= j < nj ==> r[k][i][j] == WallAt(q, ni, nj, k, i, j)
  {
    seq(4, k requires 0 <= k < 4 =>
      seq(ni, i requires 0 <= i < ni =>
        seq(nj, j requires 0 <= j < nj => WallAt(q, ni, nj, k, i, j))))
  }

  /** What the source needs for the three helpers to read and write in bounds. */
  predicate Boundable(q: Field, ni: nat, nj: nat)
  {
    Shape(q, ni, nj) && (nj == 0 || ni >= 2) && (ni == 0 || nj >= 2)
  }

  /** `applyBoundaryConditions` (src/Initialize.cpp:48-52): inlet, then
      outlet, then wall. */
  function ApplyBC(q: Field, ni: nat, nj: nat): (r: Field)
    requires Boundable(q, ni, nj)
    ensures Shape(r, ni, nj)
  {
    Wall(Outlet(Inlet(q, ni, nj), ni, nj), ni, nj)
  }

  /** Index `i` of an `n`-node line pulled onto the interior: the ghost nodes
      `0` and `n - 1` map to their neighbours `1` and `n - 2`. */
  function Clamp(i: int, n: int): int
  {
    if i == 0 then 1 else if i == n - 1 then n - 2 else i
  }

  /** With at least three nodes each way, every entry after the boundary step
      is an interior entry of the old state: the ghost ring reads its nearest
      interior node (the ghost corners read the diagonal interior node, since
      the wall step runs last and reads the inlet/outlet rows), and only the
      top ghost `rho v` has its sign flipped. */
  lemma ApplyBCClosedForm(q: Field, ni: nat, nj: nat)
    requires Shape(q, ni, nj) && ni >= 3 && nj >= 3
    ensures forall k, i, j :: 0 <= k < 4 && 0 <= i < ni && 0 <= j < nj ==>
      ApplyBC(q, ni, nj)[k][i][j] ==
        (if j == nj - 1 then TopSign(k) else 1.0) * q[k][Clamp(i, ni)][Clamp(j, nj)]
  {
    var a := Inlet(q, ni, nj);
    var b := Outlet(a, ni, nj);
    forall k, i, j | 0 <= k < 4 && 0 <= i < ni && 0 <= j < nj
      ensures ApplyBC(q, ni, nj)[k][i][j] ==
        (if j == nj - 1 then TopSign(k) else 1.0) * q[k][Clamp(i, ni)][Clamp(j, nj)]
    {
      var j' := Clamp(j, nj);
      assert b[k][i][j'] == q[k][Clamp(i, ni)][j'];
    }
  }

  /** The boundary step writes the ghost ring only: every interior entry keeps
      its value. */
  lemma ApplyBCKeepsInterior(q: Field, ni: nat, nj: nat)
    requires Boundable(q, ni, nj)
    ensures forall k, i, j :: 0 <= k < 4 && 1 <= i < ni - 1 && 1 <= j < nj - 1 ==>
      ApplyBC(q, ni, nj)[k][i][j] == q[k][i][j]
  {
  }

  /** Applying the boundary step a second time changes nothing. */
  lemma ApplyBCIdempotent(q: Field, ni: nat, nj: nat)
    requires Shape(q, ni, nj) && ni >= 3 && nj >= 3
    ensures ApplyBC(ApplyBC(q, ni, nj), ni, nj) == ApplyBC(q, ni, nj)
  {
    var once := ApplyBC(q, ni, nj);
    ApplyBCClosedForm(q, ni, nj);
    ApplyBCClosedForm(once, ni, nj);
    FieldExt(ApplyBC(once, ni, nj), once, ni, nj);
  }

  /** As written, the two walls differ: at the top the ghost and first
      interior `rho v` are opposite, so their mean at the wall face is zero;
      at the bottom the ghost `rho v` equals the interior one. */
  lemma WallMomentumAsWritten(q: Field, ni: nat, nj: nat)
    requires Shape(q, ni, nj) && ni >= 3 && nj >= 3
    ensures forall i :: 0 <= i < ni ==>
      ApplyBC(q, ni, nj)[RHO_V][i][nj - 1] + ApplyBC(q, ni, nj)[RHO_V][i][nj - 2] == 0.0 &&
      ApplyBC(q, ni, nj)[RHO_V][i][0] == ApplyBC(q, ni, nj)[RHO_V][i][1]
  {
    ApplyBCClosedForm(q, ni, nj);
  }

  /** The field that holds `c` in every entry. */
  function Uniform(ni: nat, nj: nat, c: real): (q: Field)
    ensures Shape(q, ni, nj)
    ensures forall k, i, j :: 0 <= k < 4 && 0 <= i < ni && 0 <= j < nj ==> q[k][i][j] == c
  {
    seq(4, k => seq(ni, i => seq(nj, j => c)))
  }

  /** A uniform flow with `rho v = 1` towards the top wall on a 3 x 3 lattice:
      after the boundary step the bottom wall face still carries the normal
      momentum `rho v = 1`, while the top wall face carries none. */
  lemma BottomWallLeaksMomentum()
    ensures var r := ApplyBC(Uniform(3, 3, 1.0), 3, 3);
      (r[RHO_V][1][0] + r[RHO_V][1][1]) / 2.0 == 1.0 &&
      (r[RHO_V][1][2] + r[RHO_V][1][1]) / 2.0 == 0.0
  {
    var q := Uniform(3, 3, 1.0);
    ApplyBCClosedForm(q, 3, 3);
  }

  /** Entry `(k, i, j)` after a reflecting wall step that negates `rho v` on
      both walls, as the comment at src/Initialize.cpp:86 describes; the order
      of the copies is the same as in `WallAt`. */
  function ReflectingWallAt(q: Field, ni: nat, nj: nat, k: int, i: int, j: int): real
    requires Shape(q, ni, nj) && 0 <= k < 4 && 0 <= i < ni && 0 <= j < nj && nj >= 2
  {
    if j == 0 then TopSign(k) * q[k][i][1]
    else if j == nj - 1 then TopSign(k) * (if nj == 2 then TopSign(k) * q[k][i][1] else q[k][i][nj - 2])
    else q[k][i][j]
  }

  /** The corrected wall step. */
  function ReflectingWall(q: Field, ni: nat, nj: nat): (r: Field)
    requires Shape(q, ni, nj) && (ni == 0 || nj >= 2)
    ensures Shape(r, ni, nj)
    ensures forall k, i, j :: 0 <= k < 4 && 0 <= i < ni && 0 <= j < nj ==>
      r[k][i][j] == ReflectingWallAt(q, ni, nj, k, i, j)
  {
    seq(4, k requires 0 <= k < 4 =>
      seq(ni, i requires 0 <= i < ni =>
        seq(nj, j requires 0 <= j < nj => ReflectingWallAt(q, ni, nj, k, i, j))))
  }

  /** The corrected boundary step: inlet, outlet, then reflecting walls. */
  function ApplyReflectingBC(q: Field, ni: nat, nj: nat): (r: Field)
    requires Boundable(q, ni, nj)
    ensures Shape(r, ni, nj)
  {
    ReflectingWall(Outlet(Inlet(q, ni, nj), ni, nj), ni, nj)
  }

  /** With reflecting walls both wall faces carry no normal momentum, the
      other three components have zero gradient across both walls, and the
      interior is untouched. */
  lemma ReflectingWallsSymmetric(q: Field, ni: nat, nj: nat)
    requires Shape(q, ni, nj) && ni >= 3 && nj >= 3
    ensures var r := ApplyReflectingBC(q, ni, nj);
      forall i :: 0 <= i < ni ==>
        r[RHO_V][i][0] + r[RHO_V][i][1] == 0.0 &&
        r[RHO_V][i][nj - 1] + r[RHO_V][i][nj - 2] == 0.0
    ensures var r := ApplyReflectingBC(q, ni, nj);
      forall k, i :: 0 <= k < 4 && k != RHO_V && 0 <= i < ni ==>
        r[k][i][0] == r[k][i][1] && r[k][i][nj - 1] == r[k][i][nj - 2]
    ensures var r := ApplyReflectingBC(q, ni, nj);
      forall k, i, j :: 0 <= k < 4 && 1 <= i < ni - 1 && 1 <= j < nj - 1 ==> r[k][i][j] == q[k][i][j]
  {
  }

  /** The corrected boundary step is idempotent as well. */
  lemma ApplyReflectingBCIdempotent(q: Field, ni: nat, nj: nat)
    requires Shape(q, ni, nj) && ni >= 3 && nj >= 3
    ensures ApplyReflectingBC(ApplyReflectingBC(q, ni, nj), ni, nj) == ApplyReflectingBC(q, ni, nj)
  {
    var once := ApplyReflectingBC(q, ni, nj);
    var twice := ApplyReflectingBC(once, ni, nj);
    forall k, i, j | 0 <= k < 4 && 0 <= i < ni && 0 <= j < nj
      ensures twice[k][i][j] == once[k][i][j]
    {
      var b := Outlet(Inlet(q, ni, nj), ni, nj);
      var b' := Outlet(Inlet(once, ni, nj), ni, nj);
      assert b'[k][i][Clamp(j, nj)] == once[k][Clamp(i, ni)][Clamp(j, nj)];
      assert b[k][i][Clamp(j, nj)] == q[k][Clamp(i, ni)][Clamp(j, nj)];
    }
    FieldExt(twice, once, ni, nj);
  }
}
