/** The solver state (class `Initialize`, src/Initialize.cpp): the four
    conserved variables on the halo-extended node lattice of a grid, their
    freestream initialisation, the ghost-ring boundary copies performed in
    place, and the pressure read back from them. */
module State {
  import opened Lattice
  import opened Boundary
  import opened Conserved
  import opened Grid

  /** An `ni x nj` array that is `c` on the interior block and zero on the
      one-node ring, built as `setInitialConditions` builds each of its local
      fields: allocated as zeros, then the interior block set to the constant
      (src/Initialize.cpp:33-42). */
  method FillInterior(ni: nat, nj: nat, c: real) returns (m: array2<real>)
    requires ni >= 2 && nj >= 2
    ensures View(m) == InteriorFill(ni, nj, c)
  {
    m := new real[ni, nj]((i, j) => 0.0);
    forall i, j | 1 <= i < ni - 1 && 1 <= j < nj - 1 {
      m[i, j] := c;
    }
    MatExt(View(m), InteriorFill(ni, nj, c), ni, nj);
  }

  /** Entry `(k, i, c)` after the wall step, from the old entries `(k, i, 1)`,
      `(k, i, nj - 2)` and `(k, i, c)` of the same row: `Boundary.WallAt` of
      the old state, taken on the three array entries it reads so that the
      loop invariants can speak of the array itself. */
  function WallCell(second: real, secondLast: real, here: real, k: int, c: int, nj: int): real
  {
    if c == 0 then second
    else if c == nj - 1 then TopSign(k) * (if nj == 2 then second else secondLast)
    else here
  }

  class Initialize {
    const grid: GridHandler
    const R: real      // gas constant
    const gamma: real  // ratio of specific heats
    const Cp: real     // specific heat at constant pressure
    /** `Q[k, i, j]`: conserved variable `k` (`RHO`, `RHO_U`, `RHO_V`,
        `ENERGY`) at node `(i, j)`. */
    const Q: array3<real>

    /** The state has the four variables and the grid's current node shape. */
    predicate Sized()
      reads grid
    {
      Q.Length0 == 4 && Q.Length1 == grid.nx && Q.Length2 == grid.ny
    }

    /** Stores the grid and the gas constants, and zero-fills the four
        variables with the grid's node counts at construction time
        (src/Initialize.cpp:6-19). */
    constructor (grid: GridHandler, R: real, gamma: real, Cp: real)
      requires grid.nx >= 0 && grid.ny >= 0
      ensures this.grid == grid && this.R == R && this.gamma == gamma && this.Cp == Cp
      ensures fresh(Q) && Sized()
      ensures View3(Q) == Uniform(grid.nx, grid.ny, 0.0)
    {
      this.grid := grid;
      this.R := R;
      this.gamma := gamma;
      this.Cp := Cp;
      Q := new real[4, grid.nx, grid.ny]((k, i, j) => 0.0);
      new;
      FieldExt(View3(Q), Uniform(grid.nx, grid.ny, 0.0), grid.nx, grid.ny);
    }

    /** `setInitialConditions` (src/Initialize.cpp:21-46) with `a0` the speed
        of sound `sqrt(gamma R T0)`: the freestream state and the four
        primitive fields pressure, velocity `u`, velocity `v` and temperature
        that are handed to `packToQ`, each its freestream value on the
        interior block and zero on the ring. */
    method SetInitialConditions(P0: real, T0: real, M0: real, a0: real)
      returns (fs: FreeState, P: array2<real>, u: array2<real>, v: array2<real>, T: array2<real>)
      requires a0 >= 0.0 && a0 * a0 == gamma * R * T0
      requires R * T0 != 0.0 && gamma != 1.0
      requires grid.nx >= 2 && grid.ny >= 2
      ensures fs == Freestream(P0, T0, M0, a0, R, gamma)
      ensures View(P) == InteriorFill(grid.nx, grid.ny, P0)
      ensures View(u) == InteriorFill(grid.nx, grid.ny, M0 * a0)
      ensures View(v) == InteriorFill(grid.nx, grid.ny, 0.0)
      ensures View(T) == InteriorFill(grid.nx, grid.ny, T0)
    {
      fs := Freestream(P0, T0, M0, a0, R, gamma);
      var ni, nj := grid.nx, grid.ny;
      P := FillInterior(ni, nj, P0);
      u := FillInterior(ni, nj, fs.u);
      v := FillInterior(ni, nj, fs.v);
      T := FillInterior(ni, nj, T0);
    }

    /** Supersonic inflow, in place (src/Initialize.cpp:54-64). */
    method SetInletConditions()
      requires Sized() && (grid.ny == 0 || grid.nx >= 2)
      modifies Q
      ensures View3(Q) == Inlet(old(View3(Q)), grid.nx, grid.ny)
    {
      var ni, nj := grid.nx, grid.ny;
      for j := 0 to nj
        invariant forall k, i, c :: 0 <= k < 4 && 0 <= i < ni && 0 <= c < nj ==>
          Q[k, i, c] == (if i == 0 && c < j then old(Q[k, 1, c]) else old(Q[k, i, c]))
      {
        Q[RHO, 0, j] := Q[RHO, 1, j];
        Q[RHO_U, 0, j] := Q[RHO_U, 1, j];
        Q[RHO_V, 0, j] := Q[RHO_V, 1, j];
        Q[ENERGY, 0, j] := Q[ENERGY, 1, j];
      }
      FieldExt(View3(Q), Inlet(old(View3(Q)), ni, nj), ni, nj);
    }

    /** Supersonic outflow, in place (src/Initialize.cpp:66-77). */
    method SetOutletConditions()
      requires Sized() && (grid.ny == 0 || grid.nx >= 2)
      modifies Q
      ensures View3(Q) == Outlet(old(View3(Q)), grid.nx, grid.ny)
    {
      var ni, nj := grid.nx, grid.ny;
      for j := 0 to nj
        invariant forall k, i, c :: 0 <= k < 4 && 0 <= i < ni && 0 <= c < nj ==>
          Q[k, i, c] == (if i == ni - 1 && c < j then old(Q[k, ni - 2, c]) else old(Q[k, i, c]))
      {
        Q[RHO, ni - 1, j] := Q[RHO, ni - 2, j];
        Q[RHO_U, ni - 1, j] := Q[RHO_U, ni - 2, j];
        Q[RHO_V, ni - 1, j] := Q[RHO_V, ni - 2, j];
        Q[ENERGY, ni - 1, j] := Q[ENERGY, ni - 2, j];
      }
      FieldExt(View3(Q), Outlet(old(View3(Q)), ni, nj), ni, nj);
    }

    /** Bottom and top walls, in place (src/Initialize.cpp:79-98), one row
        at a time. */
    method SetWallConditions()
      requires Sized() && (grid.nx == 0 || grid.ny >= 2)
      modifies Q
      ensures View3(Q) == Wall(old(View3(Q)), grid.nx, grid.ny)
    {
      var ni, nj := grid.nx, grid.ny;
      for i := 0 to ni
        invariant forall k, r, c :: 0 <= k < 4 && 0 <= r < ni && 0 <= c < nj ==>
          Q[k, r, c] == if r < i then WallCell(old(Q[k, r, 1]), old(Q[k, r, nj - 2]), old(Q[k, r, c]), k, c, nj)
                        else old(Q[k, r, c])
      {
        SetWallRow(i);
      }
      FieldExt(View3(Q), Wall(old(View3(Q)), ni, nj), ni, nj);
    }

    /** The body of the wall loop for row `i`: the bottom ghost of all four
        variables first, then the top ghost, `rho v` negated. */
    method SetWallRow(i: int)
      requires Sized() && 0 <= i < grid.nx && grid.ny >= 2
      modifies Q
      ensures forall k, r, c :: 0 <= k < 4 && 0 <= r < grid.nx && 0 <= c < grid.ny ==>
        Q[k, r, c] == if r == i then WallCell(old(Q[k, r, 1]), old(Q[k, r, grid.ny - 2]), old(Q[k, r, c]), k, c, grid.ny)
                      else old(Q[k, r, c])
    {
      var nj := grid.ny;
      Q[RHO, i, 0] := Q[RHO, i, 1];
      Q[RHO_U, i, 0] := Q[RHO_U, i, 1];
      Q[RHO_V, i, 0] := Q[RHO_V, i, 1];
      Q[ENERGY, i, 0] := Q[ENERGY, i, 1];

      Q[RHO, i, nj - 1] := Q[RHO, i, nj - 2];
      Q[RHO_U, i, nj - 1] := Q[RHO_U, i, nj - 2];
      Q[RHO_V, i, nj - 1] := -Q[RHO_V, i, nj - 2];
      Q[ENERGY, i, nj - 1] := Q[ENERGY, i, nj - 2];
    }

    /** `applyBoundaryConditions` (src/Initialize.cpp:48-52): inlet, outlet,
        then walls. */
    method ApplyBoundaryConditions()
      requires Sized() && (grid.ny == 0 || grid.nx >= 2) && (grid.nx == 0 || grid.ny >= 2)
      modifies Q
      ensures View3(Q) == ApplyBC(old(View3(Q)), grid.nx, grid.ny)
    {
      SetInletConditions();
      SetOutletConditions();
      SetWallConditions();
    }

    /** `computePressure` (src/Initialize.cpp:100-107): the pressure of every
        node of the current state, as an array of the state's shape. */
    function ComputePressure(): (p: seq<seq<Option<real>>>)
      requires Q.Length0 == 4
      reads Q
      ensures |p| == Q.Length1 && forall i :: 0 <= i < Q.Length1 ==> |p[i]| == Q.Length2
      ensures forall i, j :: 0 <= i < Q.Length1 && 0 <= j < Q.Length2 ==>
        p[i][j] == PressureAt(Q[RHO, i, j], Q[RHO_U, i, j], Q[RHO_V, i, j], Q[ENERGY, i, j], gamma)
    {
      Pressure(View3(Q), Q.Length1, Q.Length2, gamma)
    }
  }
}
