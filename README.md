# Grid and state preprocessing of an inviscid Euler solver, in Dafny

This project models the preprocessing stage of a 2D structured finite-volume
solver for the compressible Euler equations. That stage covers:

- **`GridHandler`**
  - stores the node coordinates `x(i, j)`, `y(i, j)` of a structured mesh;
  - pads the mesh with one layer of ghost nodes on every side by linear mirror
    extrapolation (`haloCell`);
  - derives cell centres, signed cell volumes and the xi- and eta-direction
    face vectors from the padded mesh (`computeCellMetrics`).
- **`Initialize`**
  - holds the four conserved variables `rho`, `rho u`, `rho v` and `E` on the
    padded lattice;
  - computes the freestream state from pressure, temperature and Mach number
    (`setInitialConditions`);
  - fills the ghost ring with the supersonic inlet, supersonic outlet and
    slip-wall copies (`applyBoundaryConditions`);
  - recovers the pressure from the conserved variables (`computePressure`).

Modules:

- `Lattice` (lattice.dfy): matrices as values (`Mat`) and value views of
  `array2`/`array3`.
- `HaloExtension` (halo.dfy): the padded lattice entry by entry, and what the
  extrapolation keeps.
- `Metrics` (metrics.dfy): centres, volumes and face arrays, with their
  geometry.
- `Grid` (grid.dfy): class `GridHandler`.
  - Its methods update the node arrays and counts in place.
  - The loops of the source are methods over `array2` proved against the
    `Metrics` and `HaloExtension` functions.
- `Boundary` (boundary.dfy): the inlet, outlet and wall steps as functions of
  the whole state. It holds their closed form, idempotence, and the corrected
  reflecting wall.
- `Conserved` (conserved.dfy): freestream state, interior fill, and the
  pressure formula as written and as intended.
- `State` (state.dfy): class `Initialize`.
  - `Q` is one `array3<real>` indexed `[k, i, j]`.
  - The boundary methods update it in place and are proved equal to the
    `Boundary` functions of the old state.

Behaviour a reader might expect to be different; the model follows the code:

- Cell centres are the midpoint of the diagonal from node `(i, j)` to node
  `(i + 1, j + 1)` (src/GridHandler.cpp:116-119). They are not the average of
  all four corners.
- The conserved variables are node-shaped: `ni x nj` with the padded node
  counts (src/Initialize.cpp:13-17). They are not cell-shaped.
- The bottom wall copies `rho v` unchanged (src/Initialize.cpp:89); only the
  top wall negates it (line 95). See "Findings".
- The source checks neither too-small grids nor non-positive volumes. The
  model states the in-bounds conditions as preconditions and raises no
  error.
- The last column of the eta face arrays is never written and stays zero
  (src/GridHandler.cpp:146-151). The model keeps that zero column.

## Model

| member | source | states |
|---|---|---|
| HaloExtension.Halo | src/GridHandler.cpp:74-102 | the padded array has two more rows and columns; every entry is the entry the copy, side-column and ghost-row writes leave there |
| HaloExtension.HaloKeepsCentre | src/GridHandler.cpp:78-79 | the original array sits unchanged in the centre, shifted by one in each direction |
| HaloExtension.HaloSideColumns | src/GridHandler.cpp:82-91 | the left and right ghost nodes of each original row are `2*edge - next` |
| HaloExtension.HaloGhostRows | src/GridHandler.cpp:94-102 | with two or more rows, the top and bottom ghost rows are `2*edge - next` of the padded array, across all columns including the ghost columns |
| HaloExtension.HaloCorners | src/GridHandler.cpp:82-102 | each ghost corner is `4a - 2b - 2c + d` of the 2x2 block of original nodes next to it |
| HaloExtension.HaloSingleRow | src/GridHandler.cpp:94-102 | with one row, the bottom ghost row reads the top ghost row written just before: top = twice the row, bottom = 0 |
| HaloExtension.SideFilledAffine | src/GridHandler.cpp:82-91 | on an affine lattice, the side ghost columns continue the same affine function |
| HaloExtension.TopGhostAffine | src/GridHandler.cpp:96-97 | on an affine lattice, the top ghost row continues the same affine function |
| HaloExtension.BottomGhostAffine | src/GridHandler.cpp:100-101 | on an affine lattice, the bottom ghost row continues the same affine function |
| HaloExtension.HaloPreservesAffine | src/GridHandler.cpp:72-109 | linear extrapolation is exact: the padded lattice of an affine lattice is the same affine function, corners included |
| Metrics.CellCenter | src/GridHandler.cpp:116-119 | the centre coordinate as written equals the midpoint `(m(i,j) + m(i+1,j+1)) / 2` of the cell diagonal |
| Metrics.Centers | src/GridHandler.cpp:116-119 | the centre arrays have shape `(nx-1) x (ny-1)`, entry `(i, j)` being the centre of cell `(i, j)` |
| Metrics.Volumes | src/GridHandler.cpp:122-129 | the volume array has shape `(nx-1) x (ny-1)`, entry `(i, j)` being the volume of cell `(i, j)` |
| Metrics.XiFaces | src/GridHandler.cpp:132-140 | the xi face arrays have shape `(nx-2) x (ny-3)`, every entry the difference of nodes `(r+2, c+2)` and `(r+2, c+1)` |
| Metrics.EtaFaces | src/GridHandler.cpp:143-151 | the eta face arrays have shape `(nx-3) x (ny-1)`, entries the difference of nodes `(r+2, c+2)` and `(r+1, c+2)` except the unwritten last column |
| Metrics.VolumeIsShoelace | src/GridHandler.cpp:126-127 | the diagonal cross-product volume is the shoelace area of the quad `(i,j), (i+1,j), (i+1,j+1), (i,j+1)` |
| Metrics.VolumesTranslationInvariant | src/GridHandler.cpp:122-129 | translating the whole mesh changes no cell volume |
| Metrics.CartesianCells | src/GridHandler.cpp:116-129 | on a Cartesian lattice every volume is `dx*dy` and every centre is `(x0 + dx(i+1/2), y0 + dy(j+1/2))` |
| Metrics.CartesianCell | src/GridHandler.cpp:116-127 | the same, for one cell |
| Metrics.CartesianFaces | src/GridHandler.cpp:132-151 | on a Cartesian lattice the xi faces are `(dy, 0)` and the written eta faces `(0, dx)` |
| Metrics.XiFacesTelescope | src/GridHandler.cpp:137-138 | the first `n` xi faces along a grid line sum to the chord between its end nodes |
| Metrics.EtaFacesTelescope | src/GridHandler.cpp:148-149 | the first `n` eta faces down a grid column sum to the chord between its end nodes |
| Metrics.EtaLastColumnZero | src/GridHandler.cpp:143-151 | the last column of the eta face arrays is zero |
| Metrics.FacesClose | src/GridHandler.cpp:131-151 | around every cell where both face arrays are written, the two xi and two eta faces close up: the edge vectors sum to zero |
| Grid.ColumnMajor | src/GridHandler.cpp:66-67 | the file values become an `nx x ny` matrix |
| Grid.ColumnMajorIndex | src/GridHandler.cpp:66-67 | every node `(i, j)` has the place `i + j*nx` among the `nx*ny` values |
| Grid.ColumnMajorPlace | src/GridHandler.cpp:66-67 | every value `k` has the node `(k % nx, k / nx)` inside the lattice |
| Grid.ColumnMajorRoundTrip | src/GridHandler.cpp:66-67 | reading the matrix back column by column gives the file values in order |
| Grid.ExtendLattice | src/GridHandler.cpp:74-102 | the two augmented arrays hold the padded `x` and `y` |
| Grid.ExtendArray | src/GridHandler.cpp:74-102 | one augmented array, zero-filled and then written in the source's order, equals the padded lattice |
| Grid.FillGhostColumns | src/GridHandler.cpp:82-91 | after the side loop every entry is the side-filled entry, the ghost rows still zero |
| Grid.FillGhostRows | src/GridHandler.cpp:94-102 | after the top and bottom loop every entry is the padded-lattice entry |
| Grid.ComputeVolumes | src/GridHandler.cpp:122-129 | the volume loop fills the array with the volumes of all cells |
| Grid.ComputeXiAreas | src/GridHandler.cpp:132-140 | the xi loop fills both xi face arrays |
| Grid.ComputeEtaAreas | src/GridHandler.cpp:143-151 | the eta loop fills both eta face arrays and leaves the last column zero |
| Grid.ComputeMetrics | src/GridHandler.cpp:115-151 | the seven derived arrays are the centres, volumes and faces of the padded nodes |
| Grid.GridHandler.constructor | src/GridHandler.cpp:11 | both counts zero, every array empty |
| Grid.GridHandler.StoreGridData | src/GridHandler.cpp:29-69 | counts stored first; data accepted iff there are exactly `nx*ny` pairs, then laid out column-major; on mismatch the node arrays are left as they were |
| Grid.GridHandler.HaloCell | src/GridHandler.cpp:72-109 | the node arrays are replaced by their padded lattices; both counts grow by 2 |
| Grid.GridHandler.ComputeCellMetrics | src/GridHandler.cpp:111-152 | pads the nodes once more, then every derived array is the centres, volumes or faces of the new nodes |
| Boundary.Inlet | src/Initialize.cpp:54-64 | row 0 of every component becomes row 1; everything else unchanged |
| Boundary.Outlet | src/Initialize.cpp:66-77 | row `ni-1` of every component becomes row `ni-2`; everything else unchanged |
| Boundary.Wall | src/Initialize.cpp:79-98 | the bottom ghost column copies column 1; the top copies column `nj-2` with `rho v` negated; interior unchanged |
| Boundary.ApplyBC | src/Initialize.cpp:48-52 | inlet, outlet and wall in that order keep the shape of the state |
| Boundary.Uniform | src/Initialize.cpp:16-18 | the field holding one constant everywhere, zero at construction |
| Boundary.ApplyBCClosedForm | src/Initialize.cpp:48-98 | every entry after the boundary step is its nearest interior entry of the old state, ghost corners included; only the top ghost `rho v` is negated |
| Boundary.ApplyBCKeepsInterior | src/Initialize.cpp:48-98 | the boundary step changes no interior entry |
| Boundary.ApplyBCIdempotent | src/Initialize.cpp:48-98 | applying the boundary step twice is the same as once |
| Boundary.WallMomentumAsWritten | src/Initialize.cpp:86-95 | as written, the top wall face carries no normal momentum but the bottom ghost `rho v` equals the interior one |
| Boundary.BottomWallLeaksMomentum | src/Initialize.cpp:86-89 | on a uniform 3x3 state with `rho v = 1`, the bottom wall face keeps normal momentum 1 while the top face has 0 |
| Boundary.ReflectingWall | src/Initialize.cpp:84-97 | the corrected wall step negates `rho v` on both walls |
| Boundary.ApplyReflectingBC | src/Initialize.cpp:48-52 | the corrected boundary step keeps the shape of the state |
| Boundary.ReflectingWallsSymmetric | src/Initialize.cpp:84-97 | with the corrected walls, both wall faces carry no normal momentum, other components have zero gradient across both walls, and the interior is kept |
| Boundary.ApplyReflectingBCIdempotent | src/Initialize.cpp:48-98 | the corrected boundary step is idempotent |
| Conserved.Freestream | src/Initialize.cpp:23-27 | ideal-gas density `rho R T0 = P0`; velocity `(M0 a0, 0)` with Mach `u/a0 = M0`; `(gamma-1)(E - kinetic) = P0` |
| Conserved.InteriorFill | src/Initialize.cpp:33-42 | an `ni x nj` matrix holding `c` on the interior block and zero on the one-node ring |
| Conserved.PressureAt | src/Initialize.cpp:106 | the pressure of a node as written, `(gamma-1)(rho E - (rho u^2 + rho v^2)/(2 rho))`; no value exactly where the density is zero |
| Conserved.Pressure | src/Initialize.cpp:100-107 | one pressure per node, each from that node's four conserved values alone |
| Conserved.IntendedPressureAt | src/Initialize.cpp:106 | the ideal-gas pressure `(gamma-1)(E - (rho u^2 + rho v^2)/(2 rho))`; no value exactly where the density is zero |
| Conserved.PressureExcess | src/Initialize.cpp:106 | the formula as written exceeds the ideal-gas one by `(gamma-1)(rho-1)E`; the two agree iff `rho = 1`, `E = 0` or `gamma = 1` |
| Conserved.MovingGasPressure | src/Initialize.cpp:106 | on a node moving along `x` with internal energy `P0/(gamma-1)`, the formula as written gives `rho P0 + (gamma-1)(rho-1)k` with `k` the kinetic energy |
| Conserved.MovingGasIntendedPressure | src/Initialize.cpp:106 | on the same node the ideal-gas pressure is `P0` |
| Conserved.FreestreamPressure | src/Initialize.cpp:106 | on the freestream state the formula as written gives `rho0 P0 + (gamma-1)(rho0-1)k0` |
| Conserved.DriverFreestreamPressureNegative | src/main.cpp:10-18 | for the driver's conditions the freestream density is about 0.1875; with the energy variable holding the energy per unit volume `e0`, the pressure as written is negative |
| Conserved.MovingGasSpecificEnergy | src/Initialize.cpp:106 | fed the specific energy `E/rho` of an x-moving node, the formula as written gives `P0` |
| Conserved.FreestreamSpecificEnergyPressure | src/Initialize.cpp:106 | if the energy variable held the specific energy `e0/rho0`, the formula as written would give back `P0` on the freestream |
| Conserved.FreestreamIntendedPressure | src/Initialize.cpp:21-46 | the ideal-gas pressure of the freestream state is exactly `P0` |
| State.FillInterior | src/Initialize.cpp:33-42 | a zero-filled array with its interior block set to `c` |
| State.Initialize.constructor | src/Initialize.cpp:6-19 | stores the grid and gas constants; allocates four zero matrices of the grid's current node counts |
| State.Initialize.SetInitialConditions | src/Initialize.cpp:21-46 | returns the freestream state and the four primitive fields `P, u, v, T`: freestream values inside, zero on the ring |
| State.Initialize.SetInletConditions | src/Initialize.cpp:54-64 | the new state is the inlet step of the old state |
| State.Initialize.SetOutletConditions | src/Initialize.cpp:66-77 | the new state is the outlet step of the old state |
| State.Initialize.SetWallConditions | src/Initialize.cpp:79-98 | the new state is the wall step of the old state |
| State.Initialize.SetWallRow | src/Initialize.cpp:86-96 | one pass of the wall loop sets the two ghosts of row `i` and changes nothing else |
| State.Initialize.ApplyBoundaryConditions | src/Initialize.cpp:48-52 | the new state is inlet, outlet and wall applied to the old state |
| State.Initialize.ComputePressure | src/Initialize.cpp:100-107 | one pressure per node of the current state, as `PressureAt` of its four values |

## Left out

- `readGridFile`:
  - Opening the file, parsing the header text (`stoi` on `i=`/`j=`) and
    tokenising the coordinate pairs are I/O and are not modelled.
  - `StoreGridData` takes the parsed counts and value lists as parameters.
  - `StoreGridData` takes the counts as `nat`, which excludes the negative
    values `stoi` can return.
  - A missing `i=` returns `false` and changes nothing.
  - A missing `j=` is not modelled. That path overwrites `nx` (line 29)
    before returning `false` (lines 35-42). It leaves the new `nx` with the
    old `ny` and the old node arrays, so the shape no longer matches.
- `plotGrid` (plotting) is not modelled. Neither is the `ComputationalGrid`
  wrapper, whose header is not part of this model.
- `computeTemp`, `computeU_Velo`, `computeV_Velo`: their bodies are empty in
  the source, so there is nothing to model.
- `packToQ`: its body is not part of this model.
  - `SetInitialConditions` returns the four primitive fields it would be
    handed instead of writing `Q`.
  - `rho0` and `e0` are computed but unused in the source. They are returned
    as the freestream state.
- State.Initialize.SetInitialConditions takes the speed of sound `a0` as a
  parameter with `a0 >= 0 && a0*a0 == gamma R T0`, because the model has no
  square root.
- Floating point: every quantity is an exact real.
  - Rounding, overflow and NaN are not modelled.
  - Conserved.Freestream requires `R T0 != 0` and `gamma != 1` where the
    source divides by them.
  - Conserved.PressureAt returns no value where the source would produce NaN
    or an infinity at zero density.
- Out-of-range indexing is not modelled as behaviour.
  - Grid.GridHandler.HaloCell requires at least one row and two columns.
  - The metric arrays require at least three nodes each way.
  - The boundary steps require the sizes their reads need.
  - The source does not check these sizes; it reads out of bounds or sizes
    a matrix negatively.
- State.Initialize.constructor:
  - The driver (src/main.cpp:20-29) constructs the state before reading the
    grid. It is written against an older `ComputationalGrid` interface
    (include/Initialize.h:9), whose constructor is not part of this model.
    With the current classes in the driver's order, `Q` would be `0 x 0`.
  - The model keeps that behaviour: `Q` has the node counts at construction.
  - The boundary methods require `Q` to match the grid's current counts
    (`Sized`), which the driver's order does not give.
- Grid.ExtendLattice builds `xAug` and `yAug` one after the other, while the
  source fills them in the same loops. The two never read each other, so the
  results are the same.
- State.Initialize.SetWallRow: the wall loop body is a separate method. It
  performs the same eight writes in the same order.
- Grid.ComputeMetrics builds the derived arrays as values, which the class
  then stores. Eigen's block expression for the centres is modelled as the
  function `Centers`, with no loop, since the source has none.
- The node matrices of `GridHandler` are `Mat` values that the methods
  reassign, as the source reassigns whole Eigen matrices; element-wise writes
  happen in the `array2` temporaries.
- The solver loop after initialisation exists only as a comment in
  src/main.cpp and is not modelled.

## Findings

| source | as written | input that shows it | evidently intended | confidence | as-written member | corrected member |
|---|---|---|---|---|---|---|
| src/Initialize.cpp:106 | pressure `(gamma-1)(rho*E - rho*((rho u/rho)^2 + (rho v/rho)^2)/2)`: the energy is multiplied by the density. This is a bug only if `Q[ENERGY]` holds the total energy per unit volume `e0`, as the conserved-variable declaration at include/Initialize.h:39-40 suggests. `packToQ`, which decides it, is not part of this model. If it stored the specific energy `e0/rho0`, line 106 would be correct (Conserved.FreestreamSpecificEnergyPressure) | assuming `packToQ` writes `e0` into `Q[ENERGY]`: the driver's freestream `P0 = 11664`, `T0 = 216.7`, `M0 = 3`, `R = 287`, `gamma = 1.4` gives `rho0 ≈ 0.1875` and a negative pressure instead of `P0` | `(gamma-1)(E - (rho u^2 + rho v^2)/(2 rho))`, which gives back `P0` on the freestream | not executed | Conserved.DriverFreestreamPressureNegative | Conserved.FreestreamIntendedPressure |
| src/Initialize.cpp:89 | the bottom wall copies `rho v` into the ghost unchanged; the comment on line 86 says it should flip, and the top wall (line 95) does flip it | a uniform 3x3 state with every value 1: after the boundary step the bottom wall face carries normal momentum 1, the top face 0 | negate `rho v` at the bottom ghost as at the top, so that neither wall face carries normal momentum | not executed | Boundary.BottomWallLeaksMomentum | Boundary.ReflectingWallsSymmetric |
