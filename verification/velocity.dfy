/** One explicit velocity sub-step: the interior advection, pressure-gradient
    and diffusion update read from copies of the fields taken before the sweep,
    then the inlet, outlet, wall and obstacle overwrites in the code's order. */
module Velocity {
  import opened Fields

  /** Mesh spacings, time step, density and kinematic viscosity. */
  datatype Params = Params(dx: real, dy: real, dt: real, rho: real, nu: real) {
    /** `2 * (dx**2 + dy**2)`, the divisor of the pressure stencil. */
    function JacobiDivisor(): real {
      2.0 * (dx * dx + dy * dy)
    }

    /** Positive spacings, time step and density. The last conjunct follows
        from the first two; it is spelled out because the verifier does not
        derive the sign of a sum of squares on its own. */
    predicate Valid() {
      dx > 0.0 && dy > 0.0 && dt > 0.0 && rho > 0.0 && JacobiDivisor() > 0.0
    }
  }

  /** The module-level constants of the application: a 2.0 x 1.0 domain on a
      200 x 100 grid, unit density, time step 1e-4 and viscosity 1/Re for the
      Reynolds number chosen on the slider (1 to 500). */
  const DomainX: real := 2.0
  const DomainY: real := 1.0
  const GridX: nat := 200
  const GridY: nat := 100

  function AppParams(reynolds: int): (prm: Params)
    requires 1 <= reynolds <= 500
    ensures prm.Valid() && prm.nu > 0.0
    ensures prm.dx == prm.dy == 0.01
  {
    Params(DomainX / GridX as real, DomainY / GridY as real, 0.0001, 1.0, 1.0 / reynolds as real)
  }

  /** Velocity imposed on the inlet column. */
  const InletU: real := 1.0

  /** The new `u` of interior cell (j, i), computed from the pre-sweep copies. */
  function UStencil(s: State, prm: Params, ny: nat, nx: nat, j: int, i: int): real
    requires prm.Valid() && s.Shaped(ny, nx) && Interior(j, i, ny, nx)
  {
    var un := s.u;
    var vn := s.v;
    var p := s.p;
    var dx, dy, dt := prm.dx, prm.dy, prm.dt;
    un[j][i]
    - dt * (un[j][i] * (un[j][i] - un[j][i-1]) / dx + vn[j][i] * (un[j][i] - un[j-1][i]) / dy)
    - dt / (2.0 * prm.rho * dx) * (p[j][i+1] - p[j][i-1])
    + prm.nu * dt * ((un[j][i+1] - 2.0 * un[j][i] + un[j][i-1]) / (dx * dx)
                     + (un[j+1][i] - 2.0 * un[j][i] + un[j-1][i]) / (dy * dy))
  }

  /** The new `v` of interior cell (j, i), computed from the pre-sweep copies. */
  function VStencil(s: State, prm: Params, ny: nat, nx: nat, j: int, i: int): real
    requires prm.Valid() && s.Shaped(ny, nx) && Interior(j, i, ny, nx)
  {
    var un := s.u;
    var vn := s.v;
    var p := s.p;
    var dx, dy, dt := prm.dx, prm.dy, prm.dt;
    vn[j][i]
    - dt * (un[j][i] * (vn[j][i] - vn[j][i-1]) / dx + vn[j][i] * (vn[j][i] - vn[j-1][i]) / dy)
    - dt / (2.0 * prm.rho * dy) * (p[j+1][i] - p[j-1][i])
    + prm.nu * dt * ((vn[j][i+1] - 2.0 * vn[j][i] + vn[j][i-1]) / (dx * dx)
                     + (vn[j+1][i] - 2.0 * vn[j][i] + vn[j-1][i]) / (dy * dy))
  }

  /** A uniform stream `u = c`, `v = 0` under a pressure with no gradient
      across the cell is left unchanged by both stencils. */
  lemma UniformStreamIsSteady(s: State, prm: Params, ny: nat, nx: nat, j: int, i: int, c: real)
    requires prm.Valid() && s.Shaped(ny, nx) && Interior(j, i, ny, nx)
    requires s.u[j][i] == s.u[j][i-1] == s.u[j][i+1] == s.u[j-1][i] == s.u[j+1][i] == c
    requires s.v[j][i] == s.v[j][i-1] == s.v[j][i+1] == s.v[j-1][i] == s.v[j+1][i] == 0.0
    requires s.p[j][i+1] == s.p[j][i-1] && s.p[j+1][i] == s.p[j-1][i]
    ensures UStencil(s, prm, ny, nx, j, i) == c
    ensures VStencil(s, prm, ny, nx, j, i) == 0.0
  {
  }

  /** The double loop `for i in range(1, Nx-1): for j in range(1, Ny-1)`:
      each interior cell receives its stencil, read from the untouched input
      `s`, so the value a cell gets does not depend on the visiting order. */
  method InteriorSweep(s: State, prm: Params, ny: nat, nx: nat) returns (u: Field, v: Field)
    requires prm.Valid() && s.Shaped(ny, nx)
    ensures HasShape(u, ny, nx) && HasShape(v, ny, nx)
    ensures forall j, i | Interior(j, i, ny, nx) ::
              u[j][i] == UStencil(s, prm, ny, nx, j, i) && v[j][i] == VStencil(s, prm, ny, nx, j, i)
    ensures forall j, i | 0 <= j < ny && 0 <= i < nx && !Interior(j, i, ny, nx) ::
              u[j][i] == s.u[j][i] && v[j][i] == s.v[j][i]
  {
    u, v := s.u, s.v;
    var i := 1;
    while i < nx - 1
      invariant 1 <= i && (nx >= 2 ==> i <= nx - 1)
      invariant HasShape(u, ny, nx) && HasShape(v, ny, nx)
      invariant forall j', i' | Interior(j', i', ny, nx) && i' < i ::
                  u[j'][i'] == UStencil(s, prm, ny, nx, j', i') && v[j'][i'] == VStencil(s, prm, ny, nx, j', i')
      invariant forall j', i' | 0 <= j' < ny && 0 <= i' < nx && !(Interior(j', i', ny, nx) && i' < i) ::
                  u[j'][i'] == s.u[j'][i'] && v[j'][i'] == s.v[j'][i']
    {
      var j := 1;
      while j < ny - 1
        invariant 1 <= j && (ny >= 2 ==> j <= ny - 1)
        invariant HasShape(u, ny, nx) && HasShape(v, ny, nx)
        invariant forall j', i' | Interior(j', i', ny, nx) && (i' < i || (i' == i && j' < j)) ::
                    u[j'][i'] == UStencil(s, prm, ny, nx, j', i') && v[j'][i'] == VStencil(s, prm, ny, nx, j', i')
        invariant forall j', i' | 0 <= j' < ny && 0 <= i' < nx && !(Interior(j', i', ny, nx) && (i' < i || (i' == i && j' < j))) ::
                    u[j'][i'] == s.u[j'][i'] && v[j'][i'] == s.v[j'][i']
      {
        u := Put(u, ny, nx, j, i, UStencil(s, prm, ny, nx, j, i));
        v := Put(v, ny, nx, j, i, VStencil(s, prm, ny, nx, j, i));
        j := j + 1;
      }
      i := i + 1;
    }
  }

  /** The no-slip loop over the obstacle indices: every listed cell gets
      `u = v = 0`, every other cell keeps its value. */
  method ZeroObstacle(u0: Field, v0: Field, ny: nat, nx: nat, obstacle: seq<Cell>) returns (u: Field, v: Field)
    requires HasShape(u0, ny, nx) && HasShape(v0, ny, nx)
    requires forall k | 0 <= k < |obstacle| :: InGrid(obstacle[k], ny, nx)
    ensures HasShape(u, ny, nx) && HasShape(v, ny, nx)
    ensures forall j, i | 0 <= j < ny && 0 <= i < nx ::
              if Cell(j, i) in obstacle then u[j][i] == 0.0 && v[j][i] == 0.0
              else u[j][i] == u0[j][i] && v[j][i] == v0[j][i]
  {
    u, v := u0, v0;
    for k := 0 to |obstacle|
      invariant HasShape(u, ny, nx) && HasShape(v, ny, nx)
      invariant forall j, i | 0 <= j < ny && 0 <= i < nx ::
                  if Cell(j, i) in obstacle[..k] then u[j][i] == 0.0 && v[j][i] == 0.0
                  else u[j][i] == u0[j][i] && v[j][i] == v0[j][i]
    {
      var c := obstacle[k];
      assert obstacle[..k + 1] == obstacle[..k] + [c];
      u := Put(u, ny, nx, c.row, c.col, 0.0);
      v := Put(v, ny, nx, c.row, c.col, 0.0);
    }
    assert obstacle[..|obstacle|] == obstacle;
  }

  /** No slip: every obstacle cell is at rest. */
  predicate NoSlip(u: Field, v: Field, ny: nat, nx: nat, obstacle: seq<Cell>)
    requires HasShape(u, ny, nx) && HasShape(v, ny, nx)
  {
    forall j, i | 0 <= j < ny && 0 <= i < nx && Cell(j, i) in obstacle :: u[j][i] == 0.0 && v[j][i] == 0.0
  }

  /** The edge conditions after a velocity sub-step: `v = 0` on all four edges;
      `u = 0` on the outlet column and on the top and bottom rows; `u` equals the
      inlet speed on the inlet column strictly between the two corners, except
      at obstacle cells. */
  predicate EdgeConditions(u: Field, v: Field, ny: nat, nx: nat, obstacle: seq<Cell>)
    requires HasShape(u, ny, nx) && HasShape(v, ny, nx)
  {
    && (forall j, i | 0 <= j < ny && 0 <= i < nx && (j == 0 || j == ny - 1 || i == 0 || i == nx - 1) :: v[j][i] == 0.0)
    && (forall j, i | 0 <= j < ny && 0 <= i < nx && (j == 0 || j == ny - 1 || i == nx - 1) :: u[j][i] == 0.0)
    && (forall j | 0 < j < ny - 1 && 1 < nx && Cell(j, 0) !in obstacle :: u[j][0] == InletU)
  }

  /** `compute_velocity`: the interior sweep, then the inlet column, the outlet
      column, the top and bottom rows, and last the obstacle cells. The
      pressure is only read. */
  method ComputeVelocity(s: State, prm: Params, ny: nat, nx: nat, obstacle: seq<Cell>) returns (u: Field, v: Field)
    requires prm.Valid() && 1 <= ny && 1 <= nx && s.Shaped(ny, nx)
    requires forall k | 0 <= k < |obstacle| :: InGrid(obstacle[k], ny, nx)
    ensures HasShape(u, ny, nx) && HasShape(v, ny, nx)
    ensures NoSlip(u, v, ny, nx, obstacle)
    ensures EdgeConditions(u, v, ny, nx, obstacle)
    ensures forall j, i | Interior(j, i, ny, nx) && Cell(j, i) !in obstacle ::
              u[j][i] == UStencil(s, prm, ny, nx, j, i) && v[j][i] == VStencil(s, prm, ny, nx, j, i)
  {
    var u1, v1 := InteriorSweep(s, prm, ny, nx);
    u1 := FillColumn(u1, ny, nx, 0, InletU);
    u1 := FillColumn(u1, ny, nx, nx - 1, 0.0);
    v1 := FillColumn(v1, ny, nx, 0, 0.0);
    v1 := FillColumn(v1, ny, nx, nx - 1, 0.0);
    u1 := FillRow(u1, ny, nx, 0, 0.0);
    u1 := FillRow(u1, ny, nx, ny - 1, 0.0);
    v1 := FillRow(v1, ny, nx, 0, 0.0);
    v1 := FillRow(v1, ny, nx, ny - 1, 0.0);
    u, v := ZeroObstacle(u1, v1, ny, nx, obstacle);
  }
}
