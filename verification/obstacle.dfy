/** The obstacle embedded in the channel: a strict membership test per mesh
    node for the cylinder and the square, the boolean mask over the mesh, and
    the row-major list of masked cells that the velocity update zeroes. */
module Obstacle {
  import opened Fields

  /** The two shapes the selection box offers. */
  datatype Shape = Cylinder | Square

  const Radius: real := 0.1
  const Side: real := 0.2
  const CenterX: real := 0.5
  const CenterY: real := 0.5

  function Abs(x: real): real {
    if x < 0.0 then -x else x
  }

  /** The cylinder test: squared distance to the centre strictly below the squared radius. */
  predicate InCircle(x: real, y: real) {
    (x - CenterX) * (x - CenterX) + (y - CenterY) * (y - CenterY) < Radius * Radius
  }

  /** The square test: both offsets strictly below half the side. */
  predicate InSquare(x: real, y: real) {
    Abs(x - CenterX) < Side / 2.0 && Abs(y - CenterY) < Side / 2.0
  }

  predicate Covers(shape: Shape, x: real, y: real) {
    match shape
    case Cylinder => InCircle(x, y)
    case Square => InSquare(x, y)
  }

  type Mask = seq<seq<bool>>

  predicate MaskShaped(m: Mask, ny: nat, nx: nat) {
    |m| == ny && forall j :: 0 <= j < ny ==> |m[j]| == nx
  }

  /** The mask of the obstacle over the coordinate mesh `X`, `Y`. */
  function MaskOf(shape: Shape, X: Field, Y: Field, ny: nat, nx: nat): (m: Mask)
    requires HasShape(X, ny, nx) && HasShape(Y, ny, nx)
    ensures MaskShaped(m, ny, nx)
    ensures forall j, i | 0 <= j < ny && 0 <= i < nx ::
              m[j][i] <==> Covers(shape, X[j][i], Y[j][i])
  {
    seq(ny, j requires 0 <= j < ny => seq(nx, i requires 0 <= i < nx => Covers(shape, X[j][i], Y[j][i])))
  }

  /** `a` comes strictly before `b` in row-major order. */
  predicate Before(a: Cell, b: Cell) {
    a.row < b.row || (a.row == b.row && a.col < b.col)
  }

  predicate RowMajor(cs: seq<Cell>) {
    forall a, b | 0 <= a < b < |cs| :: Before(cs[a], cs[b])
  }

  /** The masked cells of row `j` from column `i` on, left to right. */
  function RowCells(row: seq<bool>, j: int, i: nat): (cs: seq<Cell>)
    requires i <= |row|
    ensures forall c :: c in cs <==> c.row == j && i <= c.col < |row| && row[c.col]
    ensures RowMajor(cs)
    decreases |row| - i
  {
    if i == |row| then []
    else (if row[i] then [Cell(j, i)] else []) + RowCells(row, j, i + 1)
  }

  /** The masked cells of rows `j` onwards, in row-major order. */
  function RowsCells(m: Mask, j: nat): (cs: seq<Cell>)
    requires j <= |m|
    ensures forall c :: c in cs <==> j <= c.row < |m| && 0 <= c.col < |m[c.row]| && m[c.row][c.col]
    ensures RowMajor(cs)
    decreases |m| - j
  {
    if j == |m| then []
    else
      var here := RowCells(m[j], j, 0);
      var rest := RowsCells(m, j + 1);
      assert forall a | 0 <= a < |here| :: here[a] in here;
      assert forall b | 0 <= b < |rest| :: rest[b] in rest;
      here + rest
  }

  /** `np.where(mask)`: exactly the masked cells, each once, in row-major order. */
  function Where(m: Mask, ny: nat, nx: nat): (cs: seq<Cell>)
    requires MaskShaped(m, ny, nx)
    ensures forall c :: c in cs <==> InGrid(c, ny, nx) && m[c.row][c.col]
    ensures RowMajor(cs)
  {
    RowsCells(m, 0)
  }

  /** The masked cells of the mesh are exactly the nodes the shape covers. */
  lemma ObstacleCells(shape: Shape, X: Field, Y: Field, ny: nat, nx: nat, c: Cell)
    requires HasShape(X, ny, nx) && HasShape(Y, ny, nx)
    ensures c in Where(MaskOf(shape, X, Y, ny, nx), ny, nx) <==>
              InGrid(c, ny, nx) && Covers(shape, X[c.row][c.col], Y[c.row][c.col])
  {
  }

  /** Both tests are strict: a node on the circle or on the square's edge is
      not part of the obstacle, while the centre is. */
  lemma StrictBoundaries(x: real, y: real)
    ensures (x - CenterX) * (x - CenterX) + (y - CenterY) * (y - CenterY) == Radius * Radius ==>
              !Covers(Cylinder, x, y)
    ensures Abs(x - CenterX) == Side / 2.0 || Abs(y - CenterY) == Side / 2.0 ==> !Covers(Square, x, y)
    ensures Covers(Cylinder, CenterX, CenterY) && Covers(Square, CenterX, CenterY)
  {
  }
}
