/**
 * `State` of robin_newton.py: a time index and a field of cell temperatures,
 * and `getNext`, the explicit step that builds the next state. The source
 * builds the fluxes and increments as chained generators over the two cursors
 * of a `pair_iter`; since each cursor yields the field in order whatever the
 * interleaving (`PairIter.Tee.Next`), the chain is computed here eagerly from
 * the field and its adjacent pairs.
 */
module Transition {
  import opened PairIter
  import opened Physics

  /** `State`; `get` is the field `temp`. A new state is made per step. */
  datatype State = State(time: nat, temp: seq<real>, beh: Behavior)

  /** The interior loop of `_power_div`: `power_div(i + k, ...)` for each pair k. */
  function Interior(b: Behavior, i: int, ps: seq<(real, real)>): (r: seq<real>)
    requires b.n != 0 && b.dr != 0.0
    ensures |r| == |ps|
    ensures forall k {:trigger r[k]} :: 0 <= k < |ps| ==> r[k] == PowerDiv(b, i + k, ps[k].0, ps[k].1)
    decreases |ps|
  {
    if ps == [] then [] else [PowerDiv(b, i, ps[0].0, ps[0].1)] + Interior(b, i + 1, ps[1..])
  }

  /**
   * `_power_div` over the adjacent pairs of the field: the inner boundary power
   * is computed from the second temperature of the first pair, and the outer
   * one from `t_p`, the first temperature of the last pair. With fewer than two
   * pairs the source fails (no first pair, or `t_p` never bound).
   */
  function PowersOfPairs(b: Behavior, ps: seq<(real, real)>): (r: seq<real>)
    requires b.n != 0 && b.dr != 0.0 && |ps| >= 2
    ensures |r| == |ps| + 2
    ensures r[0] == P1(b, ps[0].1)
    ensures forall k :: 0 <= k < |ps| ==> r[k + 1] == PowerDiv(b, k, ps[k].0, ps[k].1)
    ensures r[|ps| + 1] == P2(b, ps[|ps| - 1].0)
  {
    var (t0, t1) := ps[0];
    var inner := Interior(b, 1, ps[1..]);
    var r := [P1(b, t1), PowerDiv(b, 0, t0, t1)] + inner + [P2(b, ps[|ps| - 1].0)];
    assert forall k :: 0 <= k < |inner| ==> r[k + 2] == inner[k];
    r
  }

  /**
   * The n+1 powers of one step over a field T of n >= 3 cells: P[0] is the
   * inner boundary power of T[1], P[i] the conductive power from cell i-1 to
   * cell i, and P[n] the outer boundary power of T[n-2].
   */
  function Fluxes(b: Behavior, T: seq<real>): (P: seq<real>)
    requires b.n != 0 && b.dr != 0.0 && |T| >= 3
    ensures |P| == |T| + 1
    ensures P[0] == P1(b, T[1])
    ensures forall i {:trigger P[i]} :: 1 <= i < |T| ==> P[i] == PowerDiv(b, i - 1, T[i - 1], T[i])
    ensures P[|T|] == P2(b, T[|T| - 2])
  {
    var ps := AdjacentPairs(T);
    var r := PowersOfPairs(b, ps);
    assert forall i :: 1 <= i < |T| ==> r[i] == r[(i - 1) + 1];
    r
  }

  /** The loop of `_dtemp`: `dtemp(i + k, ...)` for each pair k. */
  function Deltas(b: Behavior, i: int, ps: seq<(real, real)>): (r: seq<real>)
    requires forall j :: i <= j < i + |ps| ==> CellDefined(b, j)
    ensures |r| == |ps|
    ensures forall k {:trigger r[k]} :: 0 <= k < |ps| ==> r[k] == DTemp(b, i + k, ps[k].0, ps[k].1)
    decreases |ps|
  {
    if ps == [] then []
    else
      [DTemp(b, i, ps[0].0, ps[0].1)] + Deltas(b, i + 1, ps[1..])
  }

  /** `_dtemp` over the powers P: one increment per cell, from P[i] and P[i+1]. */
  function Increments(b: Behavior, P: seq<real>): (D: seq<real>)
    requires |P| >= 1 && forall i :: 0 <= i < |P| - 1 ==> CellDefined(b, i)
    ensures |D| == |P| - 1
    ensures forall i {:trigger D[i]} :: 0 <= i < |D| ==> D[i] == DTemp(b, i, P[i], P[i + 1])
  {
    Deltas(b, 0, AdjacentPairs(P))
  }

  /** `map(sum, zip(xs, ys))`: elementwise sums, as long as the shorter input. */
  function ZipSum(xs: seq<real>, ys: seq<real>): (r: seq<real>)
    ensures |r| == Min(|xs|, |ys|)
    ensures forall k {:trigger r[k]} :: 0 <= k < |r| ==> r[k] == xs[k] + ys[k]
  {
    if xs == [] || ys == [] then [] else [xs[0] + ys[0]] + ZipSum(xs[1..], ys[1..])
  }

  /** `getNext` is defined: the field has at least 3 cells and no division is by zero. */
  predicate CanStep(s: State)
  {
    |s.temp| >= 3 && Ready(s.beh, |s.temp|)
  }

  /**
   * `getNext`: a new state one quantum later over the same Behavior, whose
   * cell i is T[i] + dtemp(i, P[i], P[i+1]) with P the fluxes of T.
   */
  function Next(s: State): (r: State)
    requires CanStep(s)
    ensures r.time == s.time + 1 && r.beh == s.beh && |r.temp| == |s.temp|
    ensures forall i {:trigger r.temp[i]} :: 0 <= i < |s.temp| ==>
      r.temp[i] == s.temp[i] + DTemp(s.beh, i, Fluxes(s.beh, s.temp)[i], Fluxes(s.beh, s.temp)[i + 1])
  {
    State(s.time + 1, ZipSum(s.temp, Increments(s.beh, Fluxes(s.beh, s.temp))), s.beh)
  }

  /** k successive transitions, the last one outermost, as the loop of `run` applies them. */
  function Iterate(s: State, k: nat): (r: State)
    requires k > 0 ==> CanStep(s)
    ensures r.time == s.time + k && r.beh == s.beh && |r.temp| == |s.temp|
    ensures k > 0 ==> CanStep(r)
  {
    if k == 0 then s else Next(Iterate(s, k - 1))
  }

  /** The heat each cell of a field holds: its capacity times its temperature. */
  function CellHeats(b: Behavior, T: seq<real>): (H: seq<real>)
    requires b.rad1 + b.dr / 2.0 != 0.0
    ensures |H| == |T|
    ensures forall i {:trigger H[i]} :: 0 <= i < |T| ==> H[i] == Capacity(b, i) * T[i]
  {
    seq(|T|, i requires 0 <= i < |T| => Capacity(b, i) * T[i])
  }

  /** X[0] + ... + X[k-1]. */
  function SumTo(X: seq<real>, k: nat): real
    requires k <= |X|
  {
    if k == 0 then 0.0 else SumTo(X, k - 1) + X[k - 1]
  }

  /** The heat content of a field: the sum of the heats of its cells. */
  function Heat(b: Behavior, T: seq<real>): real
    requires b.rad1 + b.dr / 2.0 != 0.0
  {
    SumTo(CellHeats(b, T), |T|)
  }

  /**
   * When each entry of A exceeds that of B by the energy P[i] * dt let in
   * minus the energy P[i+1] * dt let out, the sums of the first k entries
   * differ by P[0] * dt - P[k] * dt.
   */
  lemma {:induction false} Telescope(A: seq<real>, B: seq<real>, P: seq<real>, dt: real, k: nat)
    requires |A| == |B| && |P| == |A| + 1 && k <= |A|
    requires forall i {:trigger A[i]} :: 0 <= i < |A| ==> A[i] - B[i] == P[i] * dt - P[i + 1] * dt
    ensures SumTo(A, k) - SumTo(B, k) == P[0] * dt - P[k] * dt
  {
    if k > 0 {
      Telescope(A, B, P, dt, k - 1);
      assert A[k - 1] - B[k - 1] == P[k - 1] * dt - P[k] * dt;
    }
  }

  /**
   * A cell updated by `dtemp` gains, in heat, the energy through its inner
   * face minus that through its outer face during one quantum.
   */
  lemma CellBalance(b: Behavior, i: int, pPrev: real, pNext: real, t: real, u: real)
    requires CellDefined(b, i) && u == t + DTemp(b, i, pPrev, pNext)
    ensures Capacity(b, i) * u - Capacity(b, i) * t == pPrev * b.dt - pNext * b.dt
  {
    Gain(Capacity(b, i), t, DTemp(b, i, pPrev, pNext), u, pPrev, pNext, b.dt);
  }

  lemma Gain(c: real, t: real, d: real, u: real, p: real, q: real, dt: real)
    requires u == t + d && c * d == (p - q) * dt
    ensures c * u - c * t == p * dt - q * dt
  {
    assert c * u == c * t + c * d;
  }

  lemma Distribute(x: real, y: real, d: real)
    ensures x * d - y * d == (x - y) * d
  {
  }

  /** Telescope over all the entries: the sums differ by (P[0] - P[n]) * dt. */
  lemma SumsTelescope(A: seq<real>, B: seq<real>, P: seq<real>, dt: real)
    requires |A| == |B| && |P| == |A| + 1
    requires forall i {:trigger A[i]} :: 0 <= i < |A| ==> A[i] - B[i] == P[i] * dt - P[i + 1] * dt
    ensures SumTo(A, |A|) - SumTo(B, |B|) == (P[0] - P[|A|]) * dt
  {
    var n := |A|;
    Telescope(A, B, P, dt, n);
    Distribute(P[0], P[n], dt);
  }

  /**
   * The heat of the field U is that of T plus the energy (P[0] - P[n]) * dt
   * let in at the inner face and out at the outer face of n cells.
   */
  predicate HeatBalanced(b: Behavior, T: seq<real>, U: seq<real>, P: seq<real>)
    requires b.rad1 + b.dr / 2.0 != 0.0 && |P| == |T| + 1
  {
    Heat(b, U) - Heat(b, T) == (P[0] - P[|T|]) * b.dt
  }

  /**
   * A field U obtained from T by adding to each cell i its `dtemp` from the
   * powers P[i] and P[i+1] is heat-balanced against T under P.
   */
  lemma Balance(b: Behavior, T: seq<real>, U: seq<real>, P: seq<real>)
    requires |U| == |T| && |P| == |T| + 1 && Ready(b, |T|)
    requires forall i {:trigger DTemp(b, i, P[i], P[i + 1])} :: 0 <= i < |T| ==> U[i] == T[i] + DTemp(b, i, P[i], P[i + 1])
    ensures HeatBalanced(b, T, U, P)
  {
    CellGains(b, T, U, P);
    SumsTelescope(CellHeats(b, U), CellHeats(b, T), P, b.dt);
  }

  /** Each cell of U holds the heat of its cell in T plus what its faces let through. */
  lemma CellGains(b: Behavior, T: seq<real>, U: seq<real>, P: seq<real>)
    requires |U| == |T| && |P| == |T| + 1 && Ready(b, |T|)
    requires forall i {:trigger DTemp(b, i, P[i], P[i + 1])} :: 0 <= i < |T| ==> U[i] == T[i] + DTemp(b, i, P[i], P[i + 1])
    ensures forall i {:trigger CellHeats(b, U)[i]} :: 0 <= i < |U| ==>
      CellHeats(b, U)[i] - CellHeats(b, T)[i] == P[i] * b.dt - P[i + 1] * b.dt
  {
    var A, B := CellHeats(b, U), CellHeats(b, T);
    forall i {:trigger A[i]} | 0 <= i < |A| ensures A[i] - B[i] == P[i] * b.dt - P[i + 1] * b.dt {
      CellBalance(b, i, P[i], P[i + 1], T[i], U[i]);
    }
  }

  /**
   * One transition changes the heat content of the field by exactly the power
   * entering at the inner face minus the power leaving at the outer one,
   * times dt.
   */
  lemma StepBalance(s: State)
    requires CanStep(s)
    ensures HeatBalanced(s.beh, s.temp, Next(s).temp, Fluxes(s.beh, s.temp))
  {
    Balance(s.beh, s.temp, Next(s).temp, Fluxes(s.beh, s.temp));
  }

  /** Without convective coupling a transition conserves the heat content of the field. */
  lemma InsulatedConserves(s: State)
    requires CanStep(s) && s.beh.alpha1 == 0.0 && s.beh.alpha2 == 0.0
    ensures Heat(s.beh, Next(s).temp) == Heat(s.beh, s.temp)
  {
    var P := Fluxes(s.beh, s.temp);
    assert P[0] == 0.0 && P[|s.temp|] == 0.0;
    StepBalance(s);
  }

  /** A uniform field at the common ambient temperature of both faces is a fixed point. */
  lemma UniformAmbientIsFixed(s: State)
    requires CanStep(s) && s.beh.t1 == s.beh.t2
    requires forall i :: 0 <= i < |s.temp| ==> s.temp[i] == s.beh.t1
    ensures Next(s).temp == s.temp
  {
    var b, T, P := s.beh, s.temp, Fluxes(s.beh, s.temp);
    var U := Next(s).temp;
    forall i | 0 <= i <= |T| ensures P[i] == 0.0 {
      if i == 0 {
        assert T[1] == b.t1;
      } else if i == |T| {
        assert T[|T| - 2] == b.t2;
      } else {
        assert T[i - 1] == T[i];
      }
    }
    forall i | 0 <= i < |T| ensures U[i] == T[i] {
      assert P[i] == P[i + 1];
      assert DTemp(b, i, P[i], P[i + 1]) == 0.0;
    }
  }

  /**
   * Conduction runs from cold to hot: an interior cell hotter than both
   * neighbours receives a positive power from the colder cell before it and a
   * negative power from the colder cell after it, so it grows hotter still.
   */
  lemma HotSpotGrows(s: State, i: int)
    requires CanStep(s) && 1 <= i < |s.temp| - 1
    requires s.beh.termCond > 0.0 && s.beh.dr > 0.0 && s.beh.dt > 0.0
    requires Area(s.beh, i - 1) > 0.0 && Area(s.beh, i) > 0.0 && Capacity(s.beh, i) > 0.0
    requires s.temp[i - 1] < s.temp[i] && s.temp[i + 1] < s.temp[i]
    ensures Next(s).temp[i] > s.temp[i]
  {
    var b, T, P := s.beh, s.temp, Fluxes(s.beh, s.temp);
    assert P[i] == PowerDiv(b, i - 1, T[i - 1], T[i]);
    assert P[i + 1] == PowerDiv(b, i, T[i], T[i + 1]);
    PeakGains(b, i, T[i - 1], T[i], T[i + 1]);
  }
}
