# Channel flow past an obstacle, and the field of two bar magnets

This project models two small simulation programs of a physics-demo collection.

## The fluid solver

`Applications/Fluid_Dynamics/Fluid_Dynamics_App.py` advances an incompressible flow past a cylinder or a square in a 2.0 x 1.0 channel, on a 200 x 100 grid. Each time step has two parts:

- **`compute_velocity`.** An explicit sub-step. It updates every interior cell from copies of the old `u` and `v`, then overwrites these in a fixed order:
  - the inlet column;
  - the outlet column;
  - the top and bottom rows;
  - the obstacle cells.
- **`compute_pressure`.** Exactly 50 Jacobi sweeps of the pressure-Poisson stencil. Each sweep is followed by four zero-gradient edge copies.

Each animation frame runs ten of these steps.

## The magnet program

`Applications/Magnetism/Magnetism_App.py` draws the field of two bar magnets. Each magnet is a 30 x 15 grid of point dipoles with moment `(±1, 0)`:

- its field is the ordered sum of the dipole fields;
- inside the closed bounding box of the magnet's dipoles, a constant `0.5 × moment` replaces that sum;
- the plotted field is the sum of the two magnets' fields;
- a flip button negates a magnet's flip state.

## How it is modelled

- **Fields** are `seq<seq<real>>` indexed `[row][column]`, as the numpy arrays are.
- **Every numpy slice assignment** becomes a function that returns the updated field (`Fields.Put`, `FillColumn`, `FillRow`, `CopyColumn`, `CopyRow`). The numerics use exact reals.
- **Obstacle cells:**
  - the obstacle is the list of `(row, col)` cells that `np.where` produces;
  - `Obstacle.MaskOf` and `Obstacle.Where` relate that list to the mesh and the shape predicate.
- **One evaluation point.** The magnet model evaluates the field at one point, because numpy evaluates it elementwise over the whole plotting mesh.
- **Distances as parameters.** The distance `R` to each dipole is a parameter. `Dipoles.IsDistance` (`R ≥ 0`, `R² = Rx² + Ry²`) says what it must be, which keeps `sqrt` out of the model.

Modules, one per file:

- `Fields` — grids and slice assignments;
- `Obstacle` — the shape predicates, the mask and the obstacle cells;
- `Velocity` — `compute_velocity`;
- `Pressure` — `compute_pressure`;
- `Stepper` — the frame loop;
- `Dipoles` — `calculate_dipole_field` and `calculate_total_field`;
- `Magnets` — the moments, the dipole grids, the plotted sum and the flip toggle.

## Notes on the code

- **Obstacle shapes.** The select box offers only `Cylinder` and `Square`, so `Obstacle.Shape` has exactly those two and no error case.
- **Node coordinates.** The mesh is built with `np.linspace(0, Lx, Nx)`, whose spacing is `Lx/(Nx-1)`, while the stencils use `dx = Lx/Nx`. The model takes the coordinate mesh as a parameter of `Obstacle.MaskOf` and the spacings as `Velocity.Params`, and keeps the two separate, as the code does.
- **Parameters.** The code validates no parameter. The model requires positive `dx`, `dy`, `dt` and `rho` (`Velocity.Params.Valid`), which the application's constants satisfy (`Velocity.AppParams`).

## Model

| member | source | states |
|---|---|---|
| Obstacle.MaskOf | Applications/Fluid_Dynamics/Fluid_Dynamics_App.py:32-39 | the mask has the grid's shape and is true exactly at the nodes strictly inside the selected shape: squared distance to (0.5, 0.5) below 0.1² for the cylinder, both offsets below 0.1 for the square |
| Obstacle.Where | Applications/Fluid_Dynamics/Fluid_Dynamics_App.py:41 | the listed cells are exactly the in-grid cells whose mask entry is true, in strictly increasing row-major order, so each appears once |
| Obstacle.ObstacleCells | Applications/Fluid_Dynamics/Fluid_Dynamics_App.py:32-41 | a cell is in the obstacle list if and only if it lies in the grid and the shape covers its node |
| Obstacle.StrictBoundaries | Applications/Fluid_Dynamics/Fluid_Dynamics_App.py:35-39 | both membership tests are strict: every point at exactly the radius from the centre is outside the cylinder, every point with an offset of exactly half the side is outside the square, and the centre is inside both |
| Velocity.AppParams | Applications/Fluid_Dynamics/Fluid_Dynamics_App.py:8-29 | for every Reynolds number on the slider (1 to 500) the application's spacings, time step, density and viscosity are positive, with `dx = dy = 0.01` |
| Velocity.UniformStreamIsSteady | Applications/Fluid_Dynamics/Fluid_Dynamics_App.py:56-66 | a uniform stream `u = c`, `v = 0` under a pressure with no centred gradient is a fixed point of both interior stencils |
| Velocity.InteriorSweep | Applications/Fluid_Dynamics/Fluid_Dynamics_App.py:50-66 | after the double loop, every interior cell holds its stencil evaluated on the pre-call fields, and every edge cell keeps its old value, so the visiting order does not matter |
| Velocity.ZeroObstacle | Applications/Fluid_Dynamics/Fluid_Dynamics_App.py:79-81 | every listed cell ends at `u = v = 0`; every other cell keeps its value |
| Velocity.ComputeVelocity | Applications/Fluid_Dynamics/Fluid_Dynamics_App.py:49-83 | shapes are kept; obstacle cells are at rest even on an edge; `v = 0` on all edges; `u = 0` on the outlet column and the top and bottom rows, corners included; `u = 1` on the inlet column strictly between the corners except at obstacle cells; interior non-obstacle cells hold the stencils of the pre-call fields; the pressure is only read |
| Pressure.Sweep | Applications/Fluid_Dynamics/Fluid_Dynamics_App.py:90-96 | each interior cell gets the pressure stencil of the previous iterate and the velocity; edge cells keep the previous iterate |
| Pressure.ApplyNeumann | Applications/Fluid_Dynamics/Fluid_Dynamics_App.py:98-102 | after the four copies in the code's order, all four zero-gradient equalities hold together, corners included, for any grid of at least 2 x 2; interior cells are not touched |
| Pressure.NeumannCell | Applications/Fluid_Dynamics/Fluid_Dynamics_App.py:99-102 | on a grid with an interior, each cell after the copies holds its nearest interior cell: edge cells their inner neighbour, corners their diagonal neighbour |
| Pressure.Iterate | Applications/Fluid_Dynamics/Fluid_Dynamics_App.py:89-102 | after one pass of the loop body the pressure satisfies all four zero-gradient equalities |
| Pressure.Relax | Applications/Fluid_Dynamics/Fluid_Dynamics_App.py:89-102 | the pressure after `k` passes has the grid's shape and, once `k ≥ 1`, satisfies the four equalities |
| Pressure.JacobiStep | Applications/Fluid_Dynamics/Fluid_Dynamics_App.py:89-102 | every cell of iterate `k` is the stencil, at its nearest interior cell, of iterate `k - 1` and the unchanged velocity: no value of the current pass is read |
| Pressure.UniformStencil | Applications/Fluid_Dynamics/Fluid_Dynamics_App.py:91-96 | a cell whose four neighbours hold `c` under a velocity with zero centred divergence gets `c` back, whatever the mesh and fluid |
| Pressure.UniformPass | Applications/Fluid_Dynamics/Fluid_Dynamics_App.py:89-102 | one pass keeps a constant pressure over a divergence-free velocity |
| Pressure.QuiescentPass | Applications/Fluid_Dynamics/Fluid_Dynamics_App.py:88-102 | if the pressure is still the constant after `k - 1` passes over a divergence-free velocity, it is still that constant after `k` |
| Pressure.QuiescentPressureStays | Applications/Fluid_Dynamics/Fluid_Dynamics_App.py:86-104 | a constant pressure over a divergence-free velocity stays that constant after any number of passes |
| Pressure.ComputePressure | Applications/Fluid_Dynamics/Fluid_Dynamics_App.py:86-104 | the result is exactly 50 passes from the input pressure against the input velocity, and satisfies all four zero-gradient equalities |
| Stepper.Step | Applications/Fluid_Dynamics/Fluid_Dynamics_App.py:123-125 | a time step leaves a settled state (no slip, velocity edge conditions, zero-gradient pressure); its velocity is the stencils of the old state, and its pressure is 50 passes from the old pressure against the new velocity |
| Stepper.Extend | Applications/Fluid_Dynamics/Fluid_Dynamics_App.py:121-125 | a run of time steps followed by one more time step is again a run of time steps |
| Stepper.Advance | Applications/Fluid_Dynamics/Fluid_Dynamics_App.py:121-125 | returns the trajectory of the run: `n + 1` states from the input to the result, each consecutive pair related by one time step as `Stepper.Step` states it; one or more steps leave a settled state |
| Stepper.Frame | Applications/Fluid_Dynamics/Fluid_Dynamics_App.py:121-125 | a frame is a trajectory of exactly ten time steps from the input to the result, each as `Stepper.Step` states it, ending in a settled state |
| Dipoles.DistanceZero | Applications/Magnetism/Magnetism_App.py:36-38 | the distance `R = sqrt(Rx² + Ry²)` is zero exactly when both offsets are zero |
| Dipoles.DipoleFieldZeroAtDipole | Applications/Magnetism/Magnetism_App.py:38-44 | at the dipole's own position its field is zero, which the code achieves by setting `R = inf` there |
| Dipoles.DipoleOdd | Applications/Magnetism/Magnetism_App.py:43-44 | the dipole formula is odd in the moment: `-m` gives the negated field |
| Dipoles.DipoleFieldOdd | Applications/Magnetism/Magnetism_App.py:32-46 | negating the moment negates the dipole field at every point, the dipole's own position included |
| Dipoles.TotalNegate | Applications/Magnetism/Magnetism_App.py:52-58 | the running sum `B_total += B` from zero of negated contributions is the negated sum |
| Dipoles.TotalOfZeros | Applications/Magnetism/Magnetism_App.py:52-58 | the running sum of zero contributions is zero |
| Dipoles.ContributionAtDipole | Applications/Magnetism/Magnetism_App.py:40-56 | when the evaluation point is a dipole's position, that dipole's term of the sum is zero |
| Dipoles.SumNegate | Applications/Magnetism/Magnetism_App.py:54-58 | the summed field of the dipole grid is negated when the moment is |
| Dipoles.SumZeroMoment | Applications/Magnetism/Magnetism_App.py:52-58 | dipoles with zero moment sum to zero |
| Dipoles.MinOf | Applications/Magnetism/Magnetism_App.py:61 | `min()` returns an element that no element is below |
| Dipoles.MaxOf | Applications/Magnetism/Magnetism_App.py:61 | `max()` returns an element that no element is above |
| Dipoles.DipoleInOwnBox | Applications/Magnetism/Magnetism_App.py:61 | every dipole position lies in the closed box of the grid, so the field there is the constant one |
| Dipoles.TotalField | Applications/Magnetism/Magnetism_App.py:49-65 | there is a field exactly when the grid is non-empty (numpy's `min()` of an empty array raises) |
| Dipoles.TotalFieldCases | Applications/Magnetism/Magnetism_App.py:54-63 | inside the closed box the field is `uniform × moment` whatever the dipoles sum to; outside it is exactly their ordered sum |
| Dipoles.TotalFieldNegate | Applications/Magnetism/Magnetism_App.py:49-65 | negating the moment negates the total field, inside the box and out |
| Magnets.Flip | Applications/Magnetism/Magnetism_App.py:219 | the toggle `flip *= -1` yields the additive inverse |
| Magnets.FlipStaysUnit | Applications/Magnetism/Magnetism_App.py:219 | a flip state stays in {-1, 1} under the toggle, and only such states map into it |
| Magnets.FlipInvolutive | Applications/Magnetism/Magnetism_App.py:239 | pressing the toggle twice restores the state |
| Magnets.Moment | Applications/Magnetism/Magnetism_App.py:69-72 | for a flip state of ±1 the moment is `(flip, 0)`: it points along `+x` for `1` and along `-x` for `-1` |
| Magnets.FlipReversesMoment | Applications/Magnetism/Magnetism_App.py:71-72 | toggling the flip negates the moment |
| Magnets.Linspace | Applications/Magnetism/Magnetism_App.py:86-91 | `linspace(a, b, n)` has `n` values, the first `a` and, for two or more, the last `b` |
| Magnets.LinspaceWithin | Applications/Magnetism/Magnetism_App.py:86-91 | every value of an ascending `linspace` lies between its end points |
| Magnets.MeshSize | Applications/Magnetism/Magnetism_App.py:88-92 | the flattened meshgrid has one position per pair of an x and a y |
| Magnets.MeshOrder | Applications/Magnetism/Magnetism_App.py:88-92 | flat index `r·|xs| + c` of the meshgrid holds `(xs[c], ys[r])`: the row-major order `.flat` reads |
| Magnets.MeshWithin | Applications/Magnetism/Magnetism_App.py:88-92 | every meshgrid position pairs one of the xs with one of the ys |
| Magnets.AxisEnds | Applications/Magnetism/Magnetism_App.py:86-91 | a magnet's dipole axis runs from `centre - size/2` to `centre + size/2` and stays between them |
| Magnets.MeshBox | Applications/Magnetism/Magnetism_App.py:61 | the closed box of a meshgrid whose axes are bounded by their end points spans exactly from the first to the last value of each axis |
| Magnets.DipolesOf | Applications/Magnetism/Magnetism_App.py:74-92 | each magnet has 30 × 15 dipoles |
| Magnets.MagnetBox | Applications/Magnetism/Magnetism_App.py:61-92 | for a magnet of non-negative size, the box of its dipoles is exactly its rectangle, edges included |
| Magnets.InsideMagnetValue | Applications/Magnetism/Magnetism_App.py:61-72 | inside its rectangle a magnet contributes exactly `(0.5 × flip, 0)` |
| Magnets.OutsideMagnetValue | Applications/Magnetism/Magnetism_App.py:54-63 | outside its rectangle a magnet contributes exactly the ordered sum of its dipoles' fields |
| Magnets.FlipReversesField | Applications/Magnetism/Magnetism_App.py:69-94 | toggling a magnet's flip negates its field at every point |
| Magnets.OverlapAdds | Applications/Magnetism/Magnetism_App.py:94-98 | where the two rectangles overlap, the plotted field is `(0.5 × (flip1 + flip2), 0)`, so opposite flips cancel |
| Magnets.FlipBothReversesPlot | Applications/Magnetism/Magnetism_App.py:94-98 | toggling both magnets negates the plotted field |

## Left out

- Rendering and user interface: Streamlit widgets and session state, matplotlib plots and streamlines, the animation and GIF export, the magnet rectangle patches and the random presets. None of them affects the computed fields.
- Numba's `@jit(nopython=True)`: compilation leaves the computation unchanged while every index is in range. It does no bounds check, so an out-of-range index reads or writes outside the array instead of raising; the model rules such inputs out by its requires (see `Velocity.ComputeVelocity` and `Pressure.ComputePressure` below).
- Floating point: all arithmetic is over exact reals. Rounding, overflow, NaN and infinity propagation, stability and convergence are not modelled.
- The coordinate meshes: `np.linspace`/`np.meshgrid` of the fluid grid are parameters (`X`, `Y` of `Obstacle.MaskOf`). The 250 × 250 evaluation mesh of the magnet plot is one evaluation point `at`.
- `sqrt` and the `R = inf` assignment: the distance to each dipole is a parameter constrained by `Dipoles.IsDistance`; only its outcome, a zero contribution at the dipole, is modelled.
- The `nt = 2000` constant: it feeds only the animation's frame count, which is rendering.
- The double-pendulum applications: their dynamics are sin/cos based and integrated by `scipy.integrate.solve_ivp`, outside this model.
- Pressure.NeumannCell: stated for grids of at least 3 × 3, since a smaller grid has no interior cell to copy from; the four equalities themselves (`Pressure.ApplyNeumann`) are proved from 2 × 2 on.
- Pressure.ComputePressure: requires a grid of at least 2 × 2, because the code reads column and row `-2` (and row and column `1`), which do not exist on a one-cell axis; plain numpy raises `IndexError` there, and the Numba-compiled function does no bounds check, so its result is undefined.
- Velocity.ComputeVelocity: requires at least one row and one column, because the edge fills write row and column `0` and `-1`, which do not exist on an empty axis; plain numpy raises `IndexError` there, and the Numba-compiled function does no bounds check, so its result is undefined.
- Magnets.MagnetBox: stated for magnets of non-negative length and width; the sliders only offer lengths 1 to 4 and widths 0.5 to 1.5.
- Magnets.InsideMagnetValue: stated for non-negative sizes, for the same reason.
- Magnets.OutsideMagnetValue: stated for non-negative sizes, for the same reason.
- Magnets.OverlapAdds: stated for two magnets of non-negative sizes, for the same reason.
