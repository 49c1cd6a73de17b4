/** Freestream initial values and the pressure recovered from the conserved
    variables (src/Initialize.cpp:21-46, 100-107), for a calorically perfect
    gas with gas constant `R` and ratio of specific heats `gamma`. */
module Conserved {
  import opened Lattice
  import opened Boundary

  datatype Option<T> = None | Some(value: T)

  /** Uniform freestream: density, velocity and total energy per unit volume. */
  datatype FreeState = FreeState(rho: real, u: real, v: real, e: real)

  /** The freestream of `setInitialConditions` (src/Initialize.cpp:23-27) for
      pressure `P0`, temperature `T0` and Mach number `M0`, with `a0` the speed
      of sound. The density satisfies the ideal-gas law, the flow runs along
      `x` at `M0` times the speed of sound, and the energy less the kinetic
      part is the internal energy `P0 / (gamma - 1)`. */
  function Freestream(P0: real, T0: real, M0: real, a0: real, R: real, gamma: real): (s: FreeState)
    requires R * T0 != 0.0 && gamma != 1.0
    ensures s.rho * (R * T0) == P0
    ensures s.u == M0 * a0 && s.v == 0.0
    ensures a0 != 0.0 ==> s.u / a0 == M0
    ensures (gamma - 1.0) * (s.e - 0.5 * s.rho * (s.u * s.u + s.v * s.v)) == P0
  {
    var u0 := M0 * a0;
    var v0 := 0.0;
    var rho0 := P0 / (R * T0);
    FreeState(rho0, u0, v0, P0 / (gamma - 1.0) + 0.5 * rho0 * (u0 * u0 + v0 * v0))
  }

  /** An `ni x nj` matrix that holds `c` on the interior block
      `[1, ni - 2] x [1, nj - 2]` and zero on the one-node ring around it
      (src/Initialize.cpp:33-42). */
  function InteriorFill(ni: nat, nj: nat, c: real): (m: Mat)
    requires ni >= 2 && nj >= 2
    ensures IsMat(m, ni, nj)
    ensures forall i, j :: 1 <= i < ni - 1 && 1 <= j < nj - 1 ==> m[i][j] == c
    ensures forall j :: 0 <= j < nj ==> m[0][j] == 0.0 && m[ni - 1][j] == 0.0
    ensures forall i :: 0 <= i < ni ==> m[i][0] == 0.0 && m[i][nj - 1] == 0.0
  {
    seq(ni, i requires 0 <= i < ni =>
      seq(nj, j requires 0 <= j < nj => if 1 <= i < ni - 1 && 1 <= j < nj - 1 then c else 0.0))
  }

  /** The pressure of one node as `computePressure` evaluates it
      (src/Initialize.cpp:106), from density, the two momenta and the
      energy. Where the density is zero the velocity quotient is undefined
      and there is no value. */
  function PressureAt(rho: real, rhoU: real, rhoV: real, e: real, gamma: real): (p: Option<real>)
    ensures p.None? <==> rho == 0.0
    ensures p.Some? ==> p.value == (gamma - 1.0) * (rho * e - 0.5 * (rhoU * rhoU + rhoV * rhoV) / rho)
  {
    if rho == 0.0 then None
    else
      var u, v := rhoU / rho, rhoV / rho;
      assert rho * (u * u) == (rhoU * rhoU) / rho by {
        assert rhoU == u * rho;
      }
      assert rho * (v * v) == (rhoV * rhoV) / rho by {
        assert rhoV == v * rho;
      }
      Some((gamma - 1.0) * (rho * e - 0.5 * rho * (u * u + v * v)))
  }

  /** The pressure field of a state: one value per node, each computed from
      that node's four conserved variables alone. */
  function Pressure(q: Field, ni: nat, nj: nat, gamma: real): (p: seq<seq<Option<real>>>)
    requires Shape(q, ni, nj)
    ensures |p| == ni && forall i :: 0 <= i < ni ==> |p[i]| == nj
    ensures forall i, j :: 0 <= i < ni && 0 <= j < nj ==>
      p[i][j] == PressureAt(q[RHO][i][j], q[RHO_U][i][j], q[RHO_V][i][j], q[ENERGY][i][j], gamma)
  {
    seq(ni, i requires 0 <= i < ni =>
      seq(nj, j requires 0 <= j < nj =>
        PressureAt(q[RHO][i][j], q[RHO_U][i][j], q[RHO_V][i][j], q[ENERGY][i][j], gamma)))
  }

  /** The pressure of the ideal-gas law, with `e` the total energy per unit
      volume: `(gamma - 1)(e - |rho u|^2 / (2 rho))`. */
  function IntendedPressureAt(rho: real, rhoU: real, rhoV: real, e: real, gamma: real): (p: Option<real>)
    ensures p.None? <==> rho == 0.0
  {
    if rho == 0.0 then None
    else Some((gamma - 1.0) * (e - 0.5 * (rhoU * rhoU + rhoV * rhoV) / rho))
  }

  /** The two formulas differ by `(gamma - 1)(rho - 1) e`: they agree on a node
      exactly when its density is one, its energy is zero or `gamma` is one. */
  lemma PressureExcess(rho: real, rhoU: real, rhoV: real, e: real, gamma: real)
    requires rho != 0.0
    ensures PressureAt(rho, rhoU, rhoV, e, gamma).value - IntendedPressureAt(rho, rhoU, rhoV, e, gamma).value ==
      (gamma - 1.0) * (rho - 1.0) * e
    ensures PressureAt(rho, rhoU, rhoV, e, gamma) == IntendedPressureAt(rho, rhoU, rhoV, e, gamma) <==>
      (rho == 1.0 || e == 0.0 || gamma == 1.0)
  {
    var k := 0.5 * (rhoU * rhoU + rhoV * rhoV) / rho;
    var d := PressureAt(rho, rhoU, rhoV, e, gamma).value - IntendedPressureAt(rho, rhoU, rhoV, e, gamma).value;
    assert d == (gamma - 1.0) * (rho * e - k) - (gamma - 1.0) * (e - k);
    assert d == (gamma - 1.0) * ((rho - 1.0) * e);
    ProductZero(gamma - 1.0, (rho - 1.0) * e);
    ProductZero(rho - 1.0, e);
  }

  /** A product of reals is zero exactly when a factor is. */
  lemma ProductZero(a: real, b: real)
    ensures a * b == 0.0 <==> a == 0.0 || b == 0.0
  {
    if a != 0.0 && a * b == 0.0 {
      assert b == (a * b) / a;
    }
  }

  /** The algebra behind `MovingGasPressure`, on plain numbers. */
  lemma MovingGasAlgebra(rho: real, u: real, v: real, e: real, P0: real, g: real)
    requires rho != 0.0 && v == 0.0 && (g - 1.0) * (e - 0.5 * rho * (u * u + v * v)) == P0
    ensures (g - 1.0) * (rho * e - 0.5 * ((rho * u) * (rho * u) + (rho * v) * (rho * v)) / rho) ==
      rho * P0 + (g - 1.0) * ((rho - 1.0) * (0.5 * rho * (u * u)))
    ensures (g - 1.0) * (e - 0.5 * ((rho * u) * (rho * u) + (rho * v) * (rho * v)) / rho) == P0
  {
    var k := 0.5 * rho * (u * u);
    assert (rho * v) * (rho * v) == 0.0 && v * v == 0.0;
    assert (rho * u) * (rho * u) == rho * (rho * (u * u));
    assert 0.5 * ((rho * u) * (rho * u) + (rho * v) * (rho * v)) / rho == k;
    assert (g - 1.0) * (e - k) == P0;
    assert rho * e - k == rho * (e - k) + (rho - 1.0) * k;
    assert (g - 1.0) * (rho * (e - k) + (rho - 1.0) * k) == rho * ((g - 1.0) * (e - k)) + (g - 1.0) * ((rho - 1.0) * k);
  }

  /** The pressure formula as written on a node with density `rho`, velocity
      `(u, 0)` and energy `e`, where the energy less the kinetic energy is the
      internal energy `P0 / (g - 1)`. */
  lemma MovingGasPressure(rho: real, u: real, v: real, e: real, P0: real, g: real)
    requires rho != 0.0 && v == 0.0 && (g - 1.0) * (e - 0.5 * rho * (u * u + v * v)) == P0
    ensures PressureAt(rho, rho * u, rho * v, e, g) ==
      Some(rho * P0 + (g - 1.0) * ((rho - 1.0) * (0.5 * rho * (u * u))))
  {
    MovingGasAlgebra(rho, u, v, e, P0, g);
  }

  /** The ideal-gas pressure on the same node is `P0`. */
  lemma MovingGasIntendedPressure(rho: real, u: real, v: real, e: real, P0: real, g: real)
    requires rho != 0.0 && v == 0.0 && (g - 1.0) * (e - 0.5 * rho * (u * u + v * v)) == P0
    ensures IntendedPressureAt(rho, rho * u, rho * v, e, g) == Some(P0)
  {
    MovingGasAlgebra(rho, u, v, e, P0, g);
  }

  /** Evaluated on a freestream node, the pressure formula as written gives
      `rho0 P0 + (gamma - 1)(rho0 - 1) k0` with `k0 = rho0 u0^2 / 2` the
      kinetic energy: `P0` only when the density is one or the flow is at
      rest. */
  lemma FreestreamPressure(s: FreeState, P0: real, T0: real, M0: real, a0: real, R: real, gamma: real)
    requires R * T0 != 0.0 && gamma != 1.0
    requires s == Freestream(P0, T0, M0, a0, R, gamma) && s.rho != 0.0
    ensures PressureAt(s.rho, s.rho * s.u, s.rho * s.v, s.e, gamma) ==
      Some(s.rho * P0 + (gamma - 1.0) * ((s.rho - 1.0) * (0.5 * s.rho * (s.u * s.u))))
  {
    MovingGasPressure(s.rho, s.u, s.v, s.e, P0, gamma);
  }

  /** The conditions of the solver's driver: `P0 = 11664`, `T0 = 216.7`,
      `M0 = 3`, `R = 287`, `gamma = 1.4`. The freestream density is about
      0.1875. If the energy variable holds the total energy per unit volume
      `e0` of the freestream (the conserved variable the state's declaration
      names), the pressure formula as written turns the freestream state into
      a negative pressure. */
  lemma DriverFreestreamPressureNegative(s: FreeState, a0: real)
    requires a0 * a0 == 1.4 * 287.0 * 216.7
    requires s == Freestream(11664.0, 216.7, 3.0, a0, 287.0, 1.4)
    ensures 0.1875 < s.rho < 0.1876
    ensures PressureAt(s.rho, s.rho * s.u, s.rho * s.v, s.e, 1.4).value < 0.0
  {
    var rho := 11664.0 / 62192.9;
    assert s.rho == rho;
    FreestreamPressure(s, 11664.0, 216.7, 3.0, a0, 287.0, 1.4);
    assert s.u * s.u == 9.0 * (a0 * a0);
    var w := 783630.54;
    assert s.u * s.u == w;
    assert rho * 11664.0 < 2200.0;
    assert 0.4 * ((rho - 1.0) * (0.5 * rho * w)) < -20000.0;
  }

  /** With the ideal-gas formula, the freestream state gives back exactly the
      freestream pressure `P0`. */
  lemma FreestreamIntendedPressure(s: FreeState, P0: real, T0: real, M0: real, a0: real, R: real, gamma: real)
    requires R * T0 != 0.0 && gamma != 1.0
    requires s == Freestream(P0, T0, M0, a0, R, gamma) && s.rho != 0.0
    ensures IntendedPressureAt(s.rho, s.rho * s.u, s.rho * s.v, s.e, gamma) == Some(P0)
  {
    MovingGasIntendedPressure(s.rho, s.u, s.v, s.e, P0, gamma);
  }

  /** If the energy variable held the specific energy `e0 / rho0` instead,
      the formula as written would be the ideal-gas pressure and give back
      `P0` on the freestream: which of the two the source means depends on
      what `packToQ` stores. */
  lemma FreestreamSpecificEnergyPressure(s: FreeState, P0: real, T0: real, M0: real, a0: real, R: real, gamma: real)
    requires R * T0 != 0.0 && gamma != 1.0
    requires s == Freestream(P0, T0, M0, a0, R, gamma) && s.rho != 0.0
    ensures PressureAt(s.rho, s.rho * s.u, s.rho * s.v, s.e / s.rho, gamma) == Some(P0)
  {
    MovingGasSpecificEnergy(s.rho, s.u, s.v, s.e, P0, gamma);
  }

  /** Density times specific energy is the energy per unit volume. */
  lemma SpecificEnergyBack(rho: real, e: real)
    requires rho != 0.0
    ensures rho * (e / rho) == e
  {
  }

  /** The formula as written, fed the specific energy `e / rho` of a node
      moving along `x` with internal energy `P0 / (g - 1)`, gives `P0`. */
  lemma MovingGasSpecificEnergy(rho: real, u: real, v: real, e: real, P0: real, g: real)
    requires rho != 0.0 && v == 0.0 && (g - 1.0) * (e - 0.5 * rho * (u * u + v * v)) == P0
    ensures PressureAt(rho, rho * u, rho * v, e / rho, g) == Some(P0)
  {
    var k := 0.5 * ((rho * u) * (rho * u) + (rho * v) * (rho * v)) / rho;
    var es := e / rho;
    MovingGasAlgebra(rho, u, v, e, P0, g);
    assert (g - 1.0) * (e - k) == P0;
    SpecificEnergyBack(rho, e);
    assert rho * es - k == e - k;
    var p := PressureAt(rho, rho * u, rho * v, es, g);
    assert p.value == (g - 1.0) * (rho * es - k);
    assert p.value == (g - 1.0) * (e - k);
    assert p == Some(P0);
  }
}
