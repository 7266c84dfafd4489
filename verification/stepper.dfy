/** The frame driver: each animation frame runs a fixed number of time steps,
    each a velocity sub-step followed by a pressure solve against the new
    velocity. */
module Stepper {
  import opened Fields
  import opened Velocity
  import opened Pressure

  /** `n_interval`: time steps per animation frame. */
  const FrameSubsteps: nat := 10

  /** The conditions every state leaves a time step in: no slip on the
      obstacle, the velocity edge conditions, and zero-gradient pressure. */
  predicate Settled(s: State, ny: nat, nx: nat, obstacle: seq<Cell>)
    requires s.Shaped(ny, nx) && 2 <= ny && 2 <= nx
  {
    && NoSlip(s.u, s.v, ny, nx, obstacle)
    && EdgeConditions(s.u, s.v, ny, nx, obstacle)
    && Neumann(s.p, ny, nx)
  }

  /** `r` is what one time step makes of `s`: a settled state whose velocity
      is the stencils of `s` away from the obstacle and whose pressure is the
      full relaxation of the old pressure against that new velocity. */
  ghost predicate StepOf(s: State, r: State, prm: Params, ny: nat, nx: nat, obstacle: seq<Cell>)
  {
    && prm.Valid() && 2 <= ny && 2 <= nx
    && s.Shaped(ny, nx)
    && r.Shaped(ny, nx)
    && Settled(r, ny, nx, obstacle)
    && (forall j, i | Interior(j, i, ny, nx) && Cell(j, i) !in obstacle ::
          r.u[j][i] == UStencil(s, prm, ny, nx, j, i) && r.v[j][i] == VStencil(s, prm, ny, nx, j, i))
    && r.p == Relax(s.(u := r.u, v := r.v), prm, ny, nx, Iterations)
  }

  /** One time step: `compute_velocity` reads the old pressure, then
      `compute_pressure` relaxes the old pressure against the new velocity.
      The new velocity is what the velocity sub-step produced; the pressure
      solve does not alter it. */
  method Step(s: State, prm: Params, ny: nat, nx: nat, obstacle: seq<Cell>) returns (r: State)
    requires prm.Valid() && s.Shaped(ny, nx) && 2 <= ny && 2 <= nx
    requires forall k | 0 <= k < |obstacle| :: InGrid(obstacle[k], ny, nx)
    ensures r.Shaped(ny, nx)
    ensures StepOf(s, r, prm, ny, nx, obstacle)
  {
    var u, v := ComputeVelocity(s, prm, ny, nx, obstacle);
    var p := ComputePressure(State(u, v, s.p), prm, ny, nx);
    r := State(u, v, p);
  }

  /** Every consecutive pair of `states` is one time step. */
  ghost predicate Trajectory(states: seq<State>, prm: Params, ny: nat, nx: nat, obstacle: seq<Cell>)
  {
    forall t | 0 <= t < |states| - 1 :: StepOf(states[t], states[t + 1], prm, ny, nx, obstacle)
  }

  /** `StepOf` depends only on the states it relates. */
  lemma StepOfCopy(a: State, b: State, a': State, b': State, prm: Params, ny: nat, nx: nat, obstacle: seq<Cell>)
    requires StepOf(a, b, prm, ny, nx, obstacle) && a == a' && b == b'
    ensures StepOf(a', b', prm, ny, nx, obstacle)
  {
  }

  /** A trajectory followed by one more step is a trajectory. */
  lemma Extend(states: seq<State>, next: State, prm: Params, ny: nat, nx: nat, obstacle: seq<Cell>)
    requires 1 <= |states|
    requires Trajectory(states, prm, ny, nx, obstacle)
    requires StepOf(states[|states| - 1], next, prm, ny, nx, obstacle)
    ensures Trajectory(states + [next], prm, ny, nx, obstacle)
  {
    var ext := states + [next];
    forall t | 0 <= t < |ext| - 1
      ensures StepOf(ext[t], ext[t + 1], prm, ny, nx, obstacle)
    {
      if t < |states| - 1 {
        StepOfCopy(states[t], states[t + 1], ext[t], ext[t + 1], prm, ny, nx, obstacle);
      } else {
        StepOfCopy(states[|states| - 1], next, ext[t], ext[t + 1], prm, ny, nx, obstacle);
      }
    }
  }

  /** The body of `update` before the drawing: `n` time steps in a row (the
      application uses `n = FrameSubsteps`). `states` is the trajectory:
      the input, then the state after each step, the last being `r`. */
  method Advance(s: State, prm: Params, ny: nat, nx: nat, obstacle: seq<Cell>, n: nat)
    returns (r: State, states: seq<State>)
    requires prm.Valid() && s.Shaped(ny, nx) && 2 <= ny && 2 <= nx
    requires forall k | 0 <= k < |obstacle| :: InGrid(obstacle[k], ny, nx)
    ensures r.Shaped(ny, nx)
    ensures |states| == n + 1 && states[0] == s && states[n] == r
    ensures Trajectory(states, prm, ny, nx, obstacle)
    ensures 1 <= n ==> Settled(r, ny, nx, obstacle)
  {
    r := s;
    states := [s];
    for t := 0 to n
      invariant r.Shaped(ny, nx)
      invariant |states| == t + 1 && states[0] == s && states[t] == r
      invariant Trajectory(states, prm, ny, nx, obstacle)
      invariant 1 <= t ==> Settled(r, ny, nx, obstacle)
    {
      var next := Step(r, prm, ny, nx, obstacle);
      Extend(states, next, prm, ny, nx, obstacle);
      states := states + [next];
      r := next;
    }
  }

  /** One animation frame of the application: exactly `FrameSubsteps` steps. */
  method Frame(s: State, prm: Params, ny: nat, nx: nat, obstacle: seq<Cell>) returns (r: State, states: seq<State>)
    requires prm.Valid() && s.Shaped(ny, nx) && 2 <= ny && 2 <= nx
    requires forall k | 0 <= k < |obstacle| :: InGrid(obstacle[k], ny, nx)
    ensures r.Shaped(ny, nx)
    ensures |states| == FrameSubsteps + 1 && states[0] == s && states[FrameSubsteps] == r
    ensures Trajectory(states, prm, ny, nx, obstacle)
    ensures Settled(r, ny, nx, obstacle)
  {
    r, states := Advance(s, prm, ny, nx, obstacle, FrameSubsteps);
  }
}
