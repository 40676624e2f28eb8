/**
 * `run` of robin_newton.py: builds the Behavior, averages the n+1 node samples
 * into n cell temperatures, applies `dtime_int` transitions and turns the final
 * cells back into n+1 node temperatures. It uses the tee-based `Pair` exactly
 * where the source calls `pair`.
 */
module Simulation {
  import opened PairIter
  import opened Physics
  import opened Transition

  /** The number of iterations of `for i in range(dtime_int)`. */
  function Steps(p: Params): nat
  {
    if p.dtimeInt > 0 then p.dtimeInt else 0
  }

  /** `map(lambda i: sum(i)/2, ps)`: the mean of each pair. */
  function Midpoints(ps: seq<(real, real)>): (r: seq<real>)
    ensures |r| == |ps|
    ensures forall k {:trigger r[k]} :: 0 <= k < |ps| ==> r[k] == (ps[k].0 + ps[k].1) / 2.0
  {
    if ps == [] then [] else [(ps[0].0 + ps[0].1) / 2.0] + Midpoints(ps[1..])
  }

  /** The initial state: at time 0, cell i is the mean of nodes i and i+1. */
  function Initial(b: Behavior, samples: seq<real>): (s: State)
    requires |samples| >= 1
    ensures s.time == 0 && s.beh == b && |s.temp| == |samples| - 1
    ensures forall i {:trigger s.temp[i]} :: 0 <= i < |s.temp| ==>
      s.temp[i] == (samples[i] + samples[i + 1]) / 2.0
  {
    State(0, Midpoints(AdjacentPairs(samples)), b)
  }

  /**
   * The output profile over a field F of cells: the inner ambient temperature,
   * the mean of each two adjacent cells, and the outer ambient temperature.
   */
  function Output(b: Behavior, F: seq<real>): (r: seq<real>)
    requires |F| >= 1
    ensures |r| == |F| + 1 && r[0] == b.t1 && r[|F|] == b.t2
    ensures forall k {:trigger r[k]} :: 0 < k < |F| ==> r[k] == (F[k - 1] + F[k]) / 2.0
  {
    var mids := Midpoints(AdjacentPairs(F));
    Bracket(b.t1, mids, b.t2);
    [b.t1] + mids + [b.t2]
  }

  /** Where the entries of m sit once x is put before them and y after. */
  lemma Bracket<T>(x: T, m: seq<T>, y: T)
    ensures |[x] + m + [y]| == |m| + 2 && ([x] + m + [y])[0] == x && ([x] + m + [y])[|m| + 1] == y
    ensures forall k {:trigger m[k]} :: 0 <= k < |m| ==> ([x] + m + [y])[k + 1] == m[k]
  {
  }

  /**
   * With no transition the interior output nodes are the samples smoothed by
   * the average-then-re-average round trip: (s[k-1] + 2*s[k] + s[k+1]) / 4.
   */
  lemma ZeroStepsSmooths(b: Behavior, samples: seq<real>, k: int)
    requires |samples| >= 2 && 0 < k < |samples| - 1
    ensures Output(b, Initial(b, samples).temp)[k]
            == (samples[k - 1] + 2.0 * samples[k] + samples[k + 1]) / 4.0
  {
    var F := Initial(b, samples).temp;
    assert F[k - 1] == (samples[k - 1] + samples[k]) / 2.0;
    assert F[k] == (samples[k] + samples[k + 1]) / 2.0;
  }

  /**
   * `run`. Fails when the cell count is not positive. Otherwise the result is
   * the output profile of the field reached from the initial state by exactly
   * Steps(p) transitions: n+1 values from temp1 to temp2.
   */
  method Run(p: Params, temp0: seq<real>) returns (r: Result<seq<real>>)
    requires p.n > 0 ==> p.dtimeInt != 0 && |temp0| == p.n + 1
    requires p.n > 0 && p.dtimeInt > 0 ==> p.n >= 3 && Ready(Make(p).value, p.n)
    ensures p.n <= 0 ==> r == Err(InvalidCellCount)
    ensures p.n > 0 ==>
      r == Ok(Output(Make(p).value, Iterate(Initial(Make(p).value, temp0), Steps(p)).temp))
    ensures p.n > 0 ==> |r.value| == p.n + 1 && r.value[0] == p.temp1 && r.value[p.n] == p.temp2
  {
    var made := Make(p);
    if made.Err? {
      return Err(made.error);
    }
    var b := made.value;
    var pairs, _ := Pair(temp0);
    var s := State(0, Midpoints(pairs.value), b);
    for i := 0 to Steps(p)
      invariant s == Iterate(Initial(b, temp0), i)
    {
      s := Next(s);
    }
    var out, _ := Pair(s.temp);
    r := Ok([p.temp1] + Midpoints(out.value) + [p.temp2]);
  }
}
