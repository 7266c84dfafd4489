/** The two bar magnets of the plot: each a 30 x 15 grid of equal dipoles
    spread over its rectangle, with a moment of magnitude one along x whose
    sign is the magnet's flip state, and the plotted field as the sum of the
    two magnets' total fields at the evaluation point. */
module Magnets {
  import opened Dipoles

  const DipoleMagnitude: real := 1.0
  /** The constant field factor inside a magnet's box. */
  const UniformMagnitude: real := 0.5
  /** Dipoles along the length and across the width of a magnet. */
  const DipolesAlong: nat := 30
  const DipolesAcross: nat := 15

  /** One magnet as the plot receives it: rectangle size, centre and flip state. */
  datatype Magnet = Magnet(length: real, width: real, x: real, y: real, flip: int)

  /** The flip buttons' `flip *= -1`. */
  function Flip(f: int): (g: int)
    ensures g + f == 0
  {
    f * -1
  }

  /** A flip state is `1` or `-1`: the initial value is 1 and flipping keeps it so. */
  predicate IsFlip(f: int) {
    f == 1 || f == -1
  }

  lemma FlipStaysUnit(f: int)
    ensures IsFlip(Flip(f)) <==> IsFlip(f)
  {
  }

  /** Pressing a flip button twice restores the state. */
  lemma FlipInvolutive(f: int)
    ensures Flip(Flip(f)) == f
  {
  }

  /** `dipole_moment = (dipole_magnitude * flip, 0)`. */
  function Moment(flip: int): (m: Vec)
    ensures IsFlip(flip) ==> m == Vec(flip as real, 0.0)
  {
    Vec(DipoleMagnitude * flip as real, 0.0)
  }

  /** Flipping a magnet reverses its moment. */
  lemma FlipReversesMoment(f: int)
    ensures Moment(Flip(f)) == Moment(f).Neg()
  {
  }

  /** `np.linspace(a, b, n)`: `n` evenly spaced values from `a`, the last set
      to `b` exactly; a single value is `a`. */
  function Linspace(a: real, b: real, n: nat): (xs: seq<real>)
    ensures |xs| == n
    ensures n >= 1 ==> xs[0] == a
    ensures n >= 2 ==> xs[n - 1] == b
  {
    if n <= 1 then seq(n, _ => a)
    else
      var step := (b - a) / (n - 1) as real;
      seq(n, k requires 0 <= k < n => if k == n - 1 then b else a + k as real * step)
  }

  /** An increment `k * step` with `0 <= k <= d` and `step = w / d` stays
      within `[0, w]`. */
  lemma StepWithin(w: real, k: nat, d: nat)
    requires 0.0 <= w && k <= d && d > 0
    ensures 0.0 <= k as real * (w / d as real) <= w
  {
    var step := w / d as real;
    assert step * d as real == w;
    assert 0.0 <= step;
    assert k as real * step <= d as real * step;
  }

  /** All values of an ascending `linspace` lie between its end points. */
  lemma LinspaceWithin(a: real, b: real, n: nat)
    requires a <= b
    ensures forall k | 0 <= k < n :: a <= Linspace(a, b, n)[k] <= b
  {
    var xs := Linspace(a, b, n);
    forall k | 0 <= k < n
      ensures a <= xs[k] <= b
    {
      if n >= 2 && k < n - 1 {
        StepWithin(b - a, k, n - 1);
      }
    }
  }

  /** `linspace(...) + pos`. */
  function Shift(xs: seq<real>, d: real): (ys: seq<real>)
    ensures |ys| == |xs| && forall k | 0 <= k < |xs| :: ys[k] == xs[k] + d
  {
    seq(|xs|, k requires 0 <= k < |xs| => xs[k] + d)
  }

  /** One row of a mesh: every `x` paired with the row's `y`. */
  function Row(xs: seq<real>, y: real): (row: seq<Vec>)
    ensures |row| == |xs| && forall c | 0 <= c < |xs| :: row[c] == Vec(xs[c], y)
  {
    seq(|xs|, c requires 0 <= c < |xs| => Vec(xs[c], y))
  }

  /** The `meshgrid(xs, ys)` positions read through `.flat`: row `r` of the
      grid is `ys[r]`, rows in order, each row running over `xs`. */
  function Mesh(xs: seq<real>, ys: seq<real>): seq<Vec>
    decreases |ys|
  {
    if |ys| == 0 then [] else Mesh(xs, ys[..|ys| - 1]) + Row(xs, ys[|ys| - 1])
  }

  /** There is one position per pair of an `x` and a `y`. */
  lemma {:induction false} MeshSize(xs: seq<real>, ys: seq<real>)
    ensures |Mesh(xs, ys)| == |ys| * |xs|
    decreases |ys|
  {
    if |ys| > 0 {
      MeshSize(xs, ys[..|ys| - 1]);
    }
  }

  /** Flat index `r * |xs| + c` holds column `c` of row `r`. */
  lemma {:induction false} MeshOrder(xs: seq<real>, ys: seq<real>, r: nat, c: nat)
    requires r < |ys| && c < |xs|
    ensures r * |xs| + c < |Mesh(xs, ys)| && Mesh(xs, ys)[r * |xs| + c] == Vec(xs[c], ys[r])
    decreases |ys|
  {
    var n, w := |ys| - 1, |xs|;
    var front := Mesh(xs, ys[..n]);
    assert Mesh(xs, ys) == front + Row(xs, ys[n]);
    MeshSize(xs, ys[..n]);
    assert |front| == n * w;
    if r < n {
      MeshOrder(xs, ys[..n], r, c);
      assert r * w + c < |front| by {
        assert r + 1 <= n;
        MulMonotone(r + 1, n, w);
        assert (r + 1) * w == r * w + w;
      }
    } else {
      assert r * w + c == |front| + c;
    }
  }

  lemma MulMonotone(a: nat, b: nat, w: nat)
    requires a <= b
    ensures a * w <= b * w
  {
  }

  /** Every position pairs one of the `xs` with one of the `ys`. */
  lemma {:induction false} MeshWithin(xs: seq<real>, ys: seq<real>, k: int)
    requires 0 <= k < |Mesh(xs, ys)|
    ensures Mesh(xs, ys)[k].x in xs && Mesh(xs, ys)[k].y in ys
    decreases |ys|
  {
    var n := |ys| - 1;
    var front := Mesh(xs, ys[..n]);
    if k < |front| {
      MeshWithin(xs, ys[..n], k);
      assert ys[..n] <= ys;
    } else {
      assert Mesh(xs, ys)[k] == Row(xs, ys[n])[k - |front|];
    }
  }

  /** The dipoles of a magnet, centred on its position. */
  function DipolesOf(mg: Magnet): (ps: seq<Vec>)
    ensures |ps| == DipolesAlong * DipolesAcross
  {
    MeshSize(Axis(mg.length, mg.x, DipolesAlong), Axis(mg.width, mg.y, DipolesAcross));
    Mesh(Axis(mg.length, mg.x, DipolesAlong), Axis(mg.width, mg.y, DipolesAcross))
  }

  /** The magnet's rectangle, edges included. */
  predicate InRectangle(at: Vec, mg: Magnet) {
    && mg.x - mg.length / 2.0 <= at.x <= mg.x + mg.length / 2.0
    && mg.y - mg.width / 2.0 <= at.y <= mg.y + mg.width / 2.0
  }

  /** A value of `xs` no greater than any of them is the minimum. */
  lemma MinIs(xs: seq<real>, v: real)
    requires v in xs && forall k | 0 <= k < |xs| :: v <= xs[k]
    ensures MinOf(xs) == v
  {
  }

  lemma MaxIs(xs: seq<real>, v: real)
    requires v in xs && forall k | 0 <= k < |xs| :: xs[k] <= v
    ensures MaxOf(xs) == v
  {
  }

  /** `linspace(-size/2, size/2, n) + centre`: one axis of a magnet's dipoles. */
  function Axis(size: real, centre: real, n: nat): seq<real> {
    Shift(Linspace(-size / 2.0, size / 2.0, n), centre)
  }

  /** An axis of at least two points runs from `centre - size/2` to
      `centre + size/2` and stays between them. */
  lemma AxisEnds(size: real, centre: real, n: nat)
    requires 0.0 <= size && n >= 2
    ensures var xs := Axis(size, centre, n);
      && |xs| == n && xs[0] == centre - size / 2.0 && xs[n - 1] == centre + size / 2.0
      && forall k | 0 <= k < n :: xs[0] <= xs[k] <= xs[n - 1]
  {
    LinspaceWithin(-size / 2.0, size / 2.0, n);
  }

  lemma CoordinatesOf(ps: seq<Vec>, k: int)
    requires 0 <= k < |ps|
    ensures ps[k].x in Xs(ps) && ps[k].y in Ys(ps)
  {
    assert Xs(ps)[k] == ps[k].x && Ys(ps)[k] == ps[k].y;
  }

  /** The coordinates of every node of the mesh occur among the dipoles' `x`s and `y`s. */
  lemma NodeCoordinates(xs: seq<real>, ys: seq<real>, r: nat, c: nat)
    requires r < |ys| && c < |xs|
    ensures xs[c] in Xs(Mesh(xs, ys)) && ys[r] in Ys(Mesh(xs, ys))
  {
    var ps := Mesh(xs, ys);
    var k := r * |xs| + c;
    MeshOrder(xs, ys, r, c);
    MulMonotone(0, r, |xs|);
    CoordinatesOf(ps, k);
  }

  /** When `xs` and `ys` are bounded by their first and last values, the box
      of the mesh spans from the first to the last of each. */
  lemma MeshBox(at: Vec, xs: seq<real>, ys: seq<real>)
    requires |xs| > 0 && |ys| > 0
    requires forall k | 0 <= k < |xs| :: xs[0] <= xs[k] <= xs[|xs| - 1]
    requires forall k | 0 <= k < |ys| :: ys[0] <= ys[k] <= ys[|ys| - 1]
    ensures |Mesh(xs, ys)| > 0
    ensures InBox(at, Mesh(xs, ys)) <==>
              xs[0] <= at.x <= xs[|xs| - 1] && ys[0] <= at.y <= ys[|ys| - 1]
  {
    var ps := Mesh(xs, ys);
    var pxs, pys := Xs(ps), Ys(ps);
    NodeCoordinates(xs, ys, 0, 0);
    NodeCoordinates(xs, ys, |ys| - 1, |xs| - 1);
    forall k | 0 <= k < |ps|
      ensures xs[0] <= pxs[k] <= xs[|xs| - 1] && ys[0] <= pys[k] <= ys[|ys| - 1]
    {
      MeshWithin(xs, ys, k);
    }
    MinIs(pxs, xs[0]);
    MaxIs(pxs, xs[|xs| - 1]);
    MinIs(pys, ys[0]);
    MaxIs(pys, ys[|ys| - 1]);
  }

  /** For a magnet of non-negative size, the box of its dipoles is exactly its
      rectangle: the dipoles reach the four edges and never pass them. */
  lemma MagnetBox(at: Vec, mg: Magnet)
    requires mg.length >= 0.0 && mg.width >= 0.0
    ensures |DipolesOf(mg)| > 0
    ensures InBox(at, DipolesOf(mg)) <==> InRectangle(at, mg)
  {
    AxisEnds(mg.length, mg.x, DipolesAlong);
    AxisEnds(mg.width, mg.y, DipolesAcross);
    MeshBox(at, Axis(mg.length, mg.x, DipolesAlong), Axis(mg.width, mg.y, DipolesAcross));
  }

  /** The field of one magnet at `at`, given the distances `rs` to its dipoles. */
  function MagnetField(at: Vec, mg: Magnet, rs: seq<real>): (b: Vec)
    requires |rs| == DipolesAlong * DipolesAcross
  {
    TotalField(at, DipolesOf(mg), Moment(mg.flip), UniformMagnitude, rs).value
  }

  /** Inside its rectangle a magnet contributes `(0.5 * flip, 0)`, whatever its
      dipoles add up to. */
  lemma InsideMagnetValue(at: Vec, mg: Magnet, rs: seq<real>)
    requires |rs| == DipolesAlong * DipolesAcross
    requires mg.length >= 0.0 && mg.width >= 0.0 && InRectangle(at, mg)
    ensures MagnetField(at, mg, rs) == Vec(UniformMagnitude * mg.flip as real, 0.0)
  {
    MagnetBox(at, mg);
    TotalFieldCases(at, DipolesOf(mg), Moment(mg.flip), UniformMagnitude, rs);
  }

  /** Outside its rectangle a magnet contributes the ordered sum of its dipoles' fields. */
  lemma OutsideMagnetValue(at: Vec, mg: Magnet, rs: seq<real>)
    requires |rs| == DipolesAlong * DipolesAcross
    requires mg.length >= 0.0 && mg.width >= 0.0 && !InRectangle(at, mg)
    ensures MagnetField(at, mg, rs) == DipoleSum(at, DipolesOf(mg), Moment(mg.flip), rs)
  {
    MagnetBox(at, mg);
    TotalFieldCases(at, DipolesOf(mg), Moment(mg.flip), UniformMagnitude, rs);
  }

  /** Flipping a magnet reverses its field everywhere. */
  lemma FlipReversesField(at: Vec, mg: Magnet, rs: seq<real>)
    requires |rs| == DipolesAlong * DipolesAcross
    ensures MagnetField(at, mg.(flip := Flip(mg.flip)), rs) == MagnetField(at, mg, rs).Neg()
  {
    FlipReversesMoment(mg.flip);
    TotalFieldNegate(at, DipolesOf(mg), Moment(mg.flip), UniformMagnitude, rs);
  }

  /** `Bx_total = Bx1 + Bx2`, `By_total = By1 + By2`: the plotted field, each
      magnet with its own override, given the distances to each magnet's dipoles. */
  function PlotField(at: Vec, mg1: Magnet, mg2: Magnet, rs1: seq<real>, rs2: seq<real>): Vec
    requires |rs1| == DipolesAlong * DipolesAcross && |rs2| == DipolesAlong * DipolesAcross
  {
    MagnetField(at, mg1, rs1).Plus(MagnetField(at, mg2, rs2))
  }

  /** Where the two rectangles overlap the two constants add: equal flips give
      `(±1, 0)`, opposite flips cancel to zero. */
  lemma OverlapAdds(at: Vec, mg1: Magnet, mg2: Magnet, rs1: seq<real>, rs2: seq<real>)
    requires |rs1| == DipolesAlong * DipolesAcross && |rs2| == DipolesAlong * DipolesAcross
    requires mg1.length >= 0.0 && mg1.width >= 0.0 && InRectangle(at, mg1)
    requires mg2.length >= 0.0 && mg2.width >= 0.0 && InRectangle(at, mg2)
    ensures PlotField(at, mg1, mg2, rs1, rs2) == Vec(UniformMagnitude * (mg1.flip + mg2.flip) as real, 0.0)
    ensures IsFlip(mg1.flip) && mg2.flip == Flip(mg1.flip) ==> PlotField(at, mg1, mg2, rs1, rs2) == Zero
  {
    InsideMagnetValue(at, mg1, rs1);
    InsideMagnetValue(at, mg2, rs2);
  }

  /** Flipping both magnets reverses the whole plotted field. */
  lemma FlipBothReversesPlot(at: Vec, mg1: Magnet, mg2: Magnet, rs1: seq<real>, rs2: seq<real>)
    requires |rs1| == DipolesAlong * DipolesAcross && |rs2| == DipolesAlong * DipolesAcross
    ensures PlotField(at, mg1.(flip := Flip(mg1.flip)), mg2.(flip := Flip(mg2.flip)), rs1, rs2)
            == PlotField(at, mg1, mg2, rs1, rs2).Neg()
  {
    FlipReversesField(at, mg1, rs1);
    FlipReversesField(at, mg2, rs2);
  }
}
