/** Two-dimensional real fields on an Ny x Nx grid, indexed [row j][column i]
    like the numpy arrays of the fluid solver, and the slice assignments the
    solver performs on them. Every update returns a new field; the numpy code
    mutates in place, which is the same thing once the old value is dropped. */
module Fields {

  /** A field: `ny` rows of `nx` reals. */
  type Field = seq<seq<real>>

  /** A (row, column) grid index, as produced by `np.where`. */
  datatype Cell = Cell(row: int, col: int)

  /** The velocity components `u`, `v` and the pressure `p` of one simulation. */
  datatype State = State(u: Field, v: Field, p: Field) {
    predicate Shaped(ny: nat, nx: nat) {
      HasShape(u, ny, nx) && HasShape(v, ny, nx) && HasShape(p, ny, nx)
    }
  }

  predicate HasShape(f: Field, ny: nat, nx: nat) {
    |f| == ny && forall j :: 0 <= j < ny ==> |f[j]| == nx
  }

  predicate InGrid(c: Cell, ny: nat, nx: nat) {
    0 <= c.row < ny && 0 <= c.col < nx
  }

  /** The cells `[1:-1, 1:-1]`, which the stencils update. */
  predicate Interior(j: int, i: int, ny: nat, nx: nat) {
    1 <= j < ny - 1 && 1 <= i < nx - 1
  }

  /** The field holding `x` everywhere; `np.zeros((ny, nx))` is `Constant(ny, nx, 0.0)`. */
  function Constant(ny: nat, nx: nat, x: real): (f: Field)
    ensures HasShape(f, ny, nx)
    ensures forall j, i | 0 <= j < ny && 0 <= i < nx :: f[j][i] == x
  {
    seq(ny, _ => seq(nx, _ => x))
  }

  /** Two fields of the same shape are equal when they agree cell by cell. */
  lemma FieldsEqual(f: Field, g: Field, ny: nat, nx: nat)
    requires HasShape(f, ny, nx) && HasShape(g, ny, nx)
    requires forall j, i | 0 <= j < ny && 0 <= i < nx :: f[j][i] == g[j][i]
    ensures f == g
  {
    forall j | 0 <= j < ny
      ensures f[j] == g[j]
    {
      assert forall i | 0 <= i < nx :: f[j][i] == g[j][i];
    }
  }

  /** `f[j, i] = x` */
  function Put(f: Field, ny: nat, nx: nat, j: int, i: int, x: real): (r: Field)
    requires HasShape(f, ny, nx) && 0 <= j < ny && 0 <= i < nx
    ensures HasShape(r, ny, nx)
    ensures r[j][i] == x
    ensures forall j', i' | 0 <= j' < ny && 0 <= i' < nx && (j' != j || i' != i) :: r[j'][i'] == f[j'][i']
  {
    f[j := f[j][i := x]]
  }

  /** `f[:, i] = x` */
  function FillColumn(f: Field, ny: nat, nx: nat, i: int, x: real): (r: Field)
    requires HasShape(f, ny, nx) && 0 <= i < nx
    ensures HasShape(r, ny, nx)
    ensures forall j, k | 0 <= j < ny && 0 <= k < nx :: r[j][k] == if k == i then x else f[j][k]
  {
    seq(ny, j requires 0 <= j < ny => f[j][i := x])
  }

  /** `f[j, :] = x` */
  function FillRow(f: Field, ny: nat, nx: nat, j: int, x: real): (r: Field)
    requires HasShape(f, ny, nx) && 0 <= j < ny
    ensures HasShape(r, ny, nx)
    ensures forall j', k | 0 <= j' < ny && 0 <= k < nx :: r[j'][k] == if j' == j then x else f[j'][k]
  {
    f[j := seq(nx, _ => x)]
  }

  /** `f[:, dst] = f[:, src]` */
  function CopyColumn(f: Field, ny: nat, nx: nat, src: int, dst: int): (r: Field)
    requires HasShape(f, ny, nx) && 0 <= src < nx && 0 <= dst < nx
    ensures HasShape(r, ny, nx)
    ensures forall j, k | 0 <= j < ny && 0 <= k < nx :: r[j][k] == if k == dst then f[j][src] else f[j][k]
  {
    seq(ny, j requires 0 <= j < ny => f[j][dst := f[j][src]])
  }

  /** `f[dst, :] = f[src, :]` */
  function CopyRow(f: Field, ny: nat, nx: nat, src: int, dst: int): (r: Field)
    requires HasShape(f, ny, nx) && 0 <= src < ny && 0 <= dst < ny
    ensures HasShape(r, ny, nx)
    ensures forall j, k | 0 <= j < ny && 0 <= k < nx :: r[j][k] == if j == dst then f[src][k] else f[j][k]
  {
    f[dst := f[src]]
  }
}
