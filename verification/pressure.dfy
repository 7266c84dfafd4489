/** The pressure-Poisson relaxation: a fixed number of Jacobi sweeps, each
    reading only the previous iterate and the (unchanged) velocity, each
    followed by the four zero-gradient edge copies. */
module Pressure {
  import opened Fields
  import opened Velocity

  /** `range(50)`: the number of sweeps per call. */
  const Iterations: nat := 50

  /** The new pressure of interior cell (j, i) from the previous iterate
      `s.p` (the copy `pn`) and the velocity `s.u`, `s.v`. */
  function PStencil(s: State, prm: Params, ny: nat, nx: nat, j: int, i: int): real
    requires prm.Valid() && s.Shaped(ny, nx) && Interior(j, i, ny, nx)
  {
    var pn := s.p;
    var dx2, dy2 := prm.dx * prm.dx, prm.dy * prm.dy;
    ((pn[j][i+1] + pn[j][i-1]) * dy2 + (pn[j+1][i] + pn[j-1][i]) * dx2) / prm.JacobiDivisor()
    - prm.rho * dx2 * dy2 / prm.JacobiDivisor()
      * ((s.u[j][i+1] - s.u[j][i-1]) / (2.0 * prm.dx) + (s.v[j+1][i] - s.v[j-1][i]) / (2.0 * prm.dy))
      / prm.dt
  }

  /** `p[1:-1, 1:-1] = ...` with `pn = p.copy()`: every interior cell is
      computed from the previous iterate at once; the edges keep it. */
  function Sweep(s: State, prm: Params, ny: nat, nx: nat): (r: Field)
    requires prm.Valid() && s.Shaped(ny, nx)
    ensures HasShape(r, ny, nx)
    ensures forall j, i | Interior(j, i, ny, nx) :: r[j][i] == PStencil(s, prm, ny, nx, j, i)
    ensures forall j, i | 0 <= j < ny && 0 <= i < nx && !Interior(j, i, ny, nx) :: r[j][i] == s.p[j][i]
  {
    seq(ny, j requires 0 <= j < ny =>
      seq(nx, i requires 0 <= i < nx =>
        if Interior(j, i, ny, nx) then PStencil(s, prm, ny, nx, j, i) else s.p[j][i]))
  }

  /** The four zero-gradient conditions, all at once, corners included. */
  predicate Neumann(p: Field, ny: nat, nx: nat)
    requires HasShape(p, ny, nx) && 2 <= ny && 2 <= nx
  {
    && (forall j | 0 <= j < ny :: p[j][nx - 1] == p[j][nx - 2] && p[j][0] == p[j][1])
    && (forall i | 0 <= i < nx :: p[0][i] == p[1][i] && p[ny - 1][i] == p[ny - 2][i])
  }

  function Clamp(k: int, lo: int, hi: int): int
    requires lo <= hi
  {
    if k < lo then lo else if k > hi then hi else k
  }

  /** The edge copies, in the code's order: outlet column, inlet column, top
      row, bottom row. Interior cells are not touched, and although each copy
      may undo an earlier condition at a corner, the four hold together at
      the end. */
  function ApplyNeumann(p: Field, ny: nat, nx: nat): (r: Field)
    requires HasShape(p, ny, nx) && 2 <= ny && 2 <= nx
    ensures HasShape(r, ny, nx)
    ensures Neumann(r, ny, nx)
    ensures forall j, i | Interior(j, i, ny, nx) :: r[j][i] == p[j][i]
  {
    var a := CopyColumn(p, ny, nx, nx - 2, nx - 1);
    var b := CopyColumn(a, ny, nx, 1, 0);
    var c := CopyRow(b, ny, nx, 1, 0);
    CopyRow(c, ny, nx, ny - 2, ny - 1)
  }

  /** On a grid with an interior, each cell of the copied field holds its
      nearest interior cell: an edge cell mirrors its inner neighbour, a
      corner its diagonal one. */
  lemma NeumannCell(p: Field, ny: nat, nx: nat, j: int, i: int)
    requires HasShape(p, ny, nx) && 3 <= ny && 3 <= nx && 0 <= j < ny && 0 <= i < nx
    ensures Interior(Clamp(j, 1, ny - 2), Clamp(i, 1, nx - 2), ny, nx)
    ensures ApplyNeumann(p, ny, nx)[j][i] == p[Clamp(j, 1, ny - 2)][Clamp(i, 1, nx - 2)]
  {
  }

  /** One pass of the loop body: a sweep from `s.p`, then the edge copies. */
  function Iterate(s: State, prm: Params, ny: nat, nx: nat): (r: Field)
    requires prm.Valid() && s.Shaped(ny, nx) && 2 <= ny && 2 <= nx
    ensures HasShape(r, ny, nx) && Neumann(r, ny, nx)
  {
    ApplyNeumann(Sweep(s, prm, ny, nx), ny, nx)
  }

  /** The pressure after `k` passes against the fixed velocity `s.u`, `s.v`,
      starting from `s.p`. */
  function Relax(s: State, prm: Params, ny: nat, nx: nat, k: nat): (p: Field)
    requires prm.Valid() && s.Shaped(ny, nx) && 2 <= ny && 2 <= nx
    ensures HasShape(p, ny, nx)
    ensures 1 <= k ==> Neumann(p, ny, nx)
    decreases k
  {
    if k == 0 then s.p else Iterate(s.(p := Relax(s, prm, ny, nx, k - 1)), prm, ny, nx)
  }

  /** Jacobi, not Gauss-Seidel: cell (j, i) of iterate `k` holds the stencil
      of its nearest interior cell evaluated on iterate `k - 1` and the
      velocity, never on a value of the same pass. */
  lemma JacobiStep(s: State, prm: Params, ny: nat, nx: nat, k: nat, j: int, i: int)
    requires prm.Valid() && s.Shaped(ny, nx) && 3 <= ny && 3 <= nx && 1 <= k
    requires 0 <= j < ny && 0 <= i < nx
    ensures Relax(s, prm, ny, nx, k)[j][i]
            == PStencil(s.(p := Relax(s, prm, ny, nx, k - 1)), prm, ny, nx, Clamp(j, 1, ny - 2), Clamp(i, 1, nx - 2))
  {
    NeumannCell(Sweep(s.(p := Relax(s, prm, ny, nx, k - 1)), prm, ny, nx), ny, nx, j, i);
  }

  /** The centred differences of the velocity vanish at interior cell (j, i). */
  predicate FlatAt(u: Field, v: Field, ny: nat, nx: nat, j: int, i: int)
    requires HasShape(u, ny, nx) && HasShape(v, ny, nx) && Interior(j, i, ny, nx)
  {
    u[j][i+1] == u[j][i-1] && v[j+1][i] == v[j-1][i]
  }

  /** The centred divergence that drives the pressure vanishes everywhere. */
  ghost predicate DivergenceFree(u: Field, v: Field, ny: nat, nx: nat)
    requires HasShape(u, ny, nx) && HasShape(v, ny, nx)
  {
    forall j, i | Interior(j, i, ny, nx) :: FlatAt(u, v, ny, nx, j, i)
  }

  /** The stencil of a cell whose four neighbours hold `c` and whose velocity
      has no centred divergence returns `c`, whatever the mesh and fluid. */
  lemma UniformStencil(s: State, prm: Params, ny: nat, nx: nat, j: int, i: int, c: real)
    requires prm.Valid() && s.Shaped(ny, nx) && Interior(j, i, ny, nx)
    requires s.p[j][i+1] == s.p[j][i-1] == s.p[j+1][i] == s.p[j-1][i] == c
    requires s.u[j][i+1] == s.u[j][i-1] && s.v[j+1][i] == s.v[j-1][i]
    ensures PStencil(s, prm, ny, nx, j, i) == c
  {
  }

  /** One pass keeps a constant pressure over a divergence-free velocity. */
  lemma UniformPass(s: State, prm: Params, ny: nat, nx: nat, c: real)
    requires prm.Valid() && s.Shaped(ny, nx) && 2 <= ny && 2 <= nx
    requires s.p == Constant(ny, nx, c) && DivergenceFree(s.u, s.v, ny, nx)
    ensures Iterate(s, prm, ny, nx) == Constant(ny, nx, c)
  {
    var swept := Sweep(s, prm, ny, nx);
    forall j, i | Interior(j, i, ny, nx)
      ensures swept[j][i] == c
    {
      assert FlatAt(s.u, s.v, ny, nx, j, i);
      UniformStencil(s, prm, ny, nx, j, i, c);
    }
    FieldsEqual(Iterate(s, prm, ny, nx), Constant(ny, nx, c), ny, nx);
  }

  /** One more pass keeps a pressure that is still the constant `c`. */
  lemma QuiescentPass(s: State, prm: Params, ny: nat, nx: nat, k: nat, c: real)
    requires prm.Valid() && s.Shaped(ny, nx) && 2 <= ny && 2 <= nx && 1 <= k
    requires DivergenceFree(s.u, s.v, ny, nx)
    ensures Relax(s, prm, ny, nx, k - 1) == Constant(ny, nx, c) ==> Relax(s, prm, ny, nx, k) == Constant(ny, nx, c)
  {
    var prev := Relax(s, prm, ny, nx, k - 1);
    if prev == Constant(ny, nx, c) {
      assert Relax(s, prm, ny, nx, k) == Iterate(s.(p := prev), prm, ny, nx);
      UniformPass(s.(p := prev), prm, ny, nx, c);
    }
  }

  /** A constant pressure `c` over a divergence-free velocity stays `c`
      everywhere, however many passes run. */
  lemma QuiescentPressureStays(s: State, prm: Params, ny: nat, nx: nat, k: nat, c: real)
    requires prm.Valid() && s.Shaped(ny, nx) && 2 <= ny && 2 <= nx
    requires s.p == Constant(ny, nx, c) && DivergenceFree(s.u, s.v, ny, nx)
    ensures Relax(s, prm, ny, nx, k) == Constant(ny, nx, c)
  {
    assert Relax(s, prm, ny, nx, 0) == s.p;
    for t := 0 to k
      invariant Relax(s, prm, ny, nx, t) == Constant(ny, nx, c)
    {
      QuiescentPass(s, prm, ny, nx, t + 1, c);
    }
  }

  /** `compute_pressure`: exactly `Iterations` passes, each a sweep followed
      by the four edge copies in the code's order; the velocity is only read. */
  method ComputePressure(s: State, prm: Params, ny: nat, nx: nat) returns (p: Field)
    requires prm.Valid() && s.Shaped(ny, nx) && 2 <= ny && 2 <= nx
    ensures HasShape(p, ny, nx)
    ensures Neumann(p, ny, nx)
    ensures p == Relax(s, prm, ny, nx, Iterations)
  {
    p := s.p;
    var pn := Constant(ny, nx, 0.0);
    for k := 0 to Iterations
      invariant HasShape(p, ny, nx)
      invariant p == Relax(s, prm, ny, nx, k)
    {
      pn := p;
      p := Sweep(s.(p := pn), prm, ny, nx);
      p := CopyColumn(p, ny, nx, nx - 2, nx - 1);
      p := CopyColumn(p, ny, nx, 1, 0);
      p := CopyRow(p, ny, nx, 1, 0);
      p := CopyRow(p, ny, nx, ny - 2, ny - 1);
    }
  }
}
