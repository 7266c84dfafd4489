/** The field of a bar magnet at one evaluation point: a superposition of
    point dipoles laid out on a grid, overridden by a constant field inside
    the grid's bounding box. numpy evaluates these formulas elementwise over
    the whole plotting mesh; one mesh point is modelled here. */
module Dipoles {

  /** A planar vector: a position, a moment or a field value. */
  datatype Vec = Vec(x: real, y: real) {
    function Plus(w: Vec): Vec {
      Vec(x + w.x, y + w.y)
    }

    function Neg(): Vec {
      Vec(-x, -y)
    }

    function Scale(k: real): Vec {
      Vec(k * x, k * y)
    }
  }

  const Zero: Vec := Vec(0.0, 0.0)

  /** `MU_0 / (4 * pi)` with `MU_0 = 4 * pi * 1e-7`. */
  const FieldConstant: real := 0.0000001

  datatype Option<T> = None | Some(value: T)

  /** `r ** n` */
  function Pow(r: real, n: nat): (p: real)
    ensures r != 0.0 ==> p != 0.0
  {
    if n == 0 then 1.0 else r * Pow(r, n - 1)
  }

  /** `r` is the length `sqrt(rx**2 + ry**2)` of the offset (rx, ry). */
  predicate IsDistance(r: real, rx: real, ry: real) {
    r >= 0.0 && Pow(r, 2) == Pow(rx, 2) + Pow(ry, 2)
  }

  /** `x**2` is `x * x`, is never negative, and is zero only at zero. */
  lemma Square(x: real)
    ensures Pow(x, 2) == x * x
    ensures Pow(x, 2) >= 0.0 && (Pow(x, 2) == 0.0 <==> x == 0.0)
  {
    assert Pow(x, 1) == x;
  }

  /** Only the zero offset is at distance zero. */
  lemma DistanceZero(r: real, rx: real, ry: real)
    requires IsDistance(r, rx, ry)
    ensures r == 0.0 <==> rx == 0.0 && ry == 0.0
  {
    Square(r);
    Square(rx);
    Square(ry);
  }

  /** The field of moment `m` at offset (rx, ry) and distance `r`:
      `K (3 (m . R) R / R**5 - m / R**3)` componentwise. */
  function Dipole(m: Vec, rx: real, ry: real, r: real): Vec
    requires r != 0.0
  {
    var dot := m.x * rx + m.y * ry;
    var q3, q5 := 1.0 / Pow(r, 3), 1.0 / Pow(r, 5);
    Vec(FieldConstant * (3.0 * dot * rx * q5 - m.x * q3),
        FieldConstant * (3.0 * dot * ry * q5 - m.y * q3))
  }

  /** `calculate_dipole_field` at point `at` for a dipole at `pos` with moment
      `m`, given the distance `r` between them. At the dipole itself the code
      sets `R = inf`, which turns both terms into zeros. */
  function DipoleField(at: Vec, pos: Vec, m: Vec, r: real): Vec {
    if r == 0.0 then Zero else Dipole(m, at.x - pos.x, at.y - pos.y, r)
  }

  /** The dipole contributes nothing at its own position, which the code
      obtains by setting `R = inf` there. */
  lemma DipoleFieldZeroAtDipole(at: Vec, m: Vec, r: real)
    requires IsDistance(r, 0.0, 0.0)
    ensures DipoleField(at, at, m, r) == Zero
  {
    assert at.x - at.x == 0.0 && at.y - at.y == 0.0;
    DistanceZero(r, 0.0, 0.0);
  }

  /** The kernel is odd in the moment: the reversed moment gives the
      reversed field. */
  lemma DipoleOdd(m: Vec, rx: real, ry: real, r: real)
    requires r != 0.0
    ensures Dipole(m.Neg(), rx, ry, r) == Dipole(m, rx, ry, r).Neg()
  {
    var dot := m.x * rx + m.y * ry;
    assert (-m.x) * rx + (-m.y) * ry == -dot;
  }

  /** The dipole field is odd in the moment, wherever the point lies. */
  lemma DipoleFieldOdd(at: Vec, pos: Vec, m: Vec, r: real)
    ensures DipoleField(at, pos, m.Neg(), r) == DipoleField(at, pos, m, r).Neg()
  {
    if r != 0.0 {
      DipoleOdd(m, at.x - pos.x, at.y - pos.y, r);
    }
  }

  /** `rs[k]` is the distance from `at` to dipole `ps[k]`, for every dipole. */
  predicate Distances(at: Vec, ps: seq<Vec>, rs: seq<real>) {
    |rs| == |ps| && forall k | 0 <= k < |ps| :: IsDistance(rs[k], at.x - ps[k].x, at.y - ps[k].y)
  }

  /** `B_total += ...` over a list of contributions in their order,
      starting from zero. */
  function Total(bs: seq<Vec>): Vec
    decreases |bs|
  {
    if |bs| == 0 then Zero else Total(bs[..|bs| - 1]).Plus(bs[|bs| - 1])
  }

  function NegAll(bs: seq<Vec>): (ns: seq<Vec>)
    ensures |ns| == |bs| && forall k | 0 <= k < |bs| :: ns[k] == bs[k].Neg()
  {
    seq(|bs|, k requires 0 <= k < |bs| => bs[k].Neg())
  }

  /** Reversing every contribution reverses the total. */
  lemma {:induction false} TotalNegate(bs: seq<Vec>)
    ensures Total(NegAll(bs)) == Total(bs).Neg()
    decreases |bs|
  {
    if |bs| > 0 {
      var n := |bs| - 1;
      TotalNegate(bs[..n]);
      assert NegAll(bs)[..n] == NegAll(bs[..n]);
    }
  }

  /** A list of zero contributions totals zero. */
  lemma {:induction false} TotalOfZeros(bs: seq<Vec>)
    requires forall k | 0 <= k < |bs| :: bs[k] == Zero
    ensures Total(bs) == Zero
    decreases |bs|
  {
    if |bs| > 0 {
      TotalOfZeros(bs[..|bs| - 1]);
    }
  }

  /** The field of each dipole at `at`, in the flat order of the dipoles. */
  function Contributions(at: Vec, ps: seq<Vec>, m: Vec, rs: seq<real>): (bs: seq<Vec>)
    requires |rs| == |ps|
    ensures |bs| == |ps| && forall k | 0 <= k < |ps| :: bs[k] == DipoleField(at, ps[k], m, rs[k])
  {
    seq(|ps|, k requires 0 <= k < |ps| => DipoleField(at, ps[k], m, rs[k]))
  }

  /** The loop over the dipoles summing `calculate_dipole_field`. */
  function DipoleSum(at: Vec, ps: seq<Vec>, m: Vec, rs: seq<real>): Vec
    requires |rs| == |ps|
  {
    Total(Contributions(at, ps, m, rs))
  }

  /** When the evaluation point is one of the dipoles, that dipole's own
      term of the sum is zero. */
  lemma ContributionAtDipole(at: Vec, ps: seq<Vec>, m: Vec, rs: seq<real>, k: int)
    requires Distances(at, ps, rs) && 0 <= k < |ps| && ps[k] == at
    ensures Contributions(at, ps, m, rs)[k] == Zero
  {
    assert IsDistance(rs[k], 0.0, 0.0) by {
      assert IsDistance(rs[k], at.x - ps[k].x, at.y - ps[k].y);
    }
    DipoleFieldZeroAtDipole(at, m, rs[k]);
  }

  /** Reversing the moment reverses the accumulated field. */
  lemma SumNegate(at: Vec, ps: seq<Vec>, m: Vec, rs: seq<real>)
    requires |rs| == |ps|
    ensures DipoleSum(at, ps, m.Neg(), rs) == DipoleSum(at, ps, m, rs).Neg()
  {
    var bs := Contributions(at, ps, m, rs);
    forall k | 0 <= k < |ps|
      ensures DipoleField(at, ps[k], m.Neg(), rs[k]) == bs[k].Neg()
    {
      DipoleFieldOdd(at, ps[k], m, rs[k]);
    }
    assert Contributions(at, ps, m.Neg(), rs) == NegAll(bs);
    TotalNegate(bs);
  }

  /** Dipoles with no moment produce no field. */
  lemma SumZeroMoment(at: Vec, ps: seq<Vec>, rs: seq<real>)
    requires |rs| == |ps|
    ensures DipoleSum(at, ps, Zero, rs) == Zero
  {
    TotalOfZeros(Contributions(at, ps, Zero, rs));
  }

  /** `min()` of a non-empty array. */
  function MinOf(xs: seq<real>): (lo: real)
    requires |xs| > 0
    ensures lo in xs
    ensures forall k | 0 <= k < |xs| :: lo <= xs[k]
  {
    if |xs| == 1 then xs[0]
    else
      var rest := MinOf(xs[1..]);
      assert forall k | 1 <= k < |xs| :: xs[k] == xs[1..][k - 1];
      if xs[0] <= rest then xs[0] else rest
  }

  /** `max()` of a non-empty array. */
  function MaxOf(xs: seq<real>): (hi: real)
    requires |xs| > 0
    ensures hi in xs
    ensures forall k | 0 <= k < |xs| :: xs[k] <= hi
  {
    if |xs| == 1 then xs[0]
    else
      var rest := MaxOf(xs[1..]);
      assert forall k | 1 <= k < |xs| :: xs[k] == xs[1..][k - 1];
      if xs[0] >= rest then xs[0] else rest
  }

  function Xs(ps: seq<Vec>): (xs: seq<real>)
    ensures |xs| == |ps| && forall k | 0 <= k < |ps| :: xs[k] == ps[k].x
  {
    seq(|ps|, k requires 0 <= k < |ps| => ps[k].x)
  }

  function Ys(ps: seq<Vec>): (ys: seq<real>)
    ensures |ys| == |ps| && forall k | 0 <= k < |ps| :: ys[k] == ps[k].y
  {
    seq(|ps|, k requires 0 <= k < |ps| => ps[k].y)
  }

  /** The `inside_magnet` test: `at` lies in the closed bounding box of the
      dipole positions, edges included. */
  predicate InBox(at: Vec, ps: seq<Vec>)
    requires |ps| > 0
  {
    && MinOf(Xs(ps)) <= at.x <= MaxOf(Xs(ps))
    && MinOf(Ys(ps)) <= at.y <= MaxOf(Ys(ps))
  }

  /** Every dipole lies inside its own box, so the field at a dipole position
      is always the constant one. */
  lemma DipoleInOwnBox(ps: seq<Vec>, k: int)
    requires 0 <= k < |ps|
    ensures InBox(ps[k], ps)
  {
    assert Xs(ps)[k] == ps[k].x && Ys(ps)[k] == ps[k].y;
  }

  /** `calculate_total_field` at one point: the dipole sum, replaced by
      `uniform * m` inside the box. numpy's `min()` of an empty grid raises,
      which is `None` here. */
  function TotalField(at: Vec, ps: seq<Vec>, m: Vec, uniform: real, rs: seq<real>): (b: Option<Vec>)
    requires |rs| == |ps|
    ensures b.None? <==> |ps| == 0
  {
    if |ps| == 0 then None
    else if InBox(at, ps) then Some(m.Scale(uniform))
    else Some(DipoleSum(at, ps, m, rs))
  }

  /** Inside the box the field is the constant whatever the dipoles add up to;
      outside it is exactly their ordered sum. */
  lemma TotalFieldCases(at: Vec, ps: seq<Vec>, m: Vec, uniform: real, rs: seq<real>)
    requires |rs| == |ps| && |ps| > 0
    ensures InBox(at, ps) ==> TotalField(at, ps, m, uniform, rs) == Some(m.Scale(uniform))
    ensures !InBox(at, ps) ==> TotalField(at, ps, m, uniform, rs) == Some(DipoleSum(at, ps, m, rs))
  {
  }

  /** Reversing the moment reverses the total field, inside the box and out. */
  lemma TotalFieldNegate(at: Vec, ps: seq<Vec>, m: Vec, uniform: real, rs: seq<real>)
    requires |rs| == |ps| && |ps| > 0
    ensures TotalField(at, ps, m.Neg(), uniform, rs) == Some(TotalField(at, ps, m, uniform, rs).value.Neg())
  {
    if InBox(at, ps) {
      assert uniform * -m.x == -(uniform * m.x) && uniform * -m.y == -(uniform * m.y);
      assert m.Neg().Scale(uniform) == m.Scale(uniform).Neg();
    } else {
      SumNegate(at, ps, m, rs);
    }
  }
}
