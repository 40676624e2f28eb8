/**
 * `Behavior` of robin_newton.py: the constants of one simulated pipe wall and
 * the pure flux and temperature-increment formulas of its finite-volume scheme.
 * Arithmetic is over `real`; every division the source performs is guarded by a
 * precondition that its divisor is not zero (Python raises ZeroDivisionError).
 */
module Physics {

  /** `math.pi`. No proof depends on its digits, only on its being positive. */
  const Pi: real := 3.141592653589793

  datatype Error = InvalidCellCount

  datatype Result<T> = Ok(value: T) | Err(error: Error)

  /** The arguments of `Behavior.__init__`, in the source's order. */
  datatype Params = Params(
    rad1: real,         // inner radius R1
    rad2: real,         // outer radius R2
    dtimeS: real,       // simulated time, in seconds
    dtimeInt: int,      // simulated time, in time quanta
    massVol: real,      // density
    heatCapMass: real,  // specific heat capacity
    termCond: real,     // thermal conductivity
    n: int,             // number of cells
    alpha1: real,       // inner convective coefficient
    alpha2: real,       // outer convective coefficient
    temp1: real,        // inner ambient temperature T1
    temp2: real)        // outer ambient temperature T2

  /** The fields a constructed `Behavior` holds. */
  datatype Behavior = Behavior(
    n: int,
    dr: real,           // width of one cell
    rad1: real,
    rad2: real,
    heatCap1Div: real,  // heat capacity of cell 0 per unit pipe length
    dt: real,           // one time quantum, in seconds
    termCond: real,
    alpha1: real,
    alpha2: real,
    t1: real,
    t2: real)

  /** Area per unit length of the annulus between radii r0 and r1. */
  function AnnulusArea(r0: real, r1: real): real
  {
    Pi * (r1 * r1 - r0 * r0)
  }

  /**
   * `Behavior.__init__`. Fails unless 0 < n. Otherwise n cells of width dr fill
   * the wall, dtime_int quanta of dt fill the simulated time, and cell 0's heat
   * capacity is computed from the perimeter 2*pi*((rad1 + dr)/2), so it equals
   * c*rho*pi*dr*(rad1 + dr) (see `Cell0CapacityQuirk`).
   */
  function Make(p: Params): (r: Result<Behavior>)
    requires p.n > 0 ==> p.dtimeInt != 0
    ensures r.Err? <==> p.n <= 0
    ensures r.Err? ==> r.error == InvalidCellCount
    ensures r.Ok? ==> r.value.n == p.n && r.value.dr * (p.n as real) == p.rad2 - p.rad1
    ensures r.Ok? ==> r.value.dt * (p.dtimeInt as real) == p.dtimeS
    ensures r.Ok? ==> r.value.heatCap1Div == p.heatCapMass * p.massVol * Pi * r.value.dr * (p.rad1 + r.value.dr)
    ensures r.Ok? ==> r.value.rad1 == p.rad1 && r.value.rad2 == p.rad2 && r.value.termCond == p.termCond
    ensures r.Ok? ==> r.value.alpha1 == p.alpha1 && r.value.alpha2 == p.alpha2
    ensures r.Ok? ==> r.value.t1 == p.temp1 && r.value.t2 == p.temp2
  {
    if 0 < p.n then
      var dr := (p.rad2 - p.rad1) / (p.n as real);
      var per1 := 2.0 * Pi * ((p.rad1 + dr) / 2.0);
      var v1Div := dr * per1;
      var m1Div := v1Div * p.massVol;
      Ok(Behavior(p.n, dr, p.rad1, p.rad2, p.heatCapMass * m1Div, p.dtimeS / (p.dtimeInt as real),
                  p.termCond, p.alpha1, p.alpha2, p.temp1, p.temp2))
    else
      Err(InvalidCellCount)
  }

  /**
   * `_NewtonRichmann_div`: convective power per unit length through a face of
   * radius r; nothing flows without coupling or without a temperature
   * difference, and with positive coupling it flows from t0 to t1 exactly when
   * t0 is the hotter side.
   */
  function NewtonRichmann(alpha: real, t0: real, t1: real, r: real): (p: real)
    ensures alpha == 0.0 || t0 == t1 || r == 0.0 ==> p == 0.0
    ensures alpha > 0.0 && r > 0.0 ==> (p > 0.0 <==> t0 > t1)
  {
    var k := alpha * 2.0 * Pi * r;
    assert alpha * (t0 - t1) * 2.0 * Pi * r == (t0 - t1) * k;
    assert alpha == 0.0 || r == 0.0 ==> k == 0.0;
    assert alpha > 0.0 && r > 0.0 ==> ((t0 - t1) * k > 0.0 <==> t0 - t1 > 0.0) by {
      if alpha > 0.0 && r > 0.0 {
        PositiveProduct(alpha * 2.0 * Pi, r);
        SignOfScaled(t0 - t1, k);
      }
    }
    alpha * (t0 - t1) * 2.0 * Pi * r
  }

  /** Scaling by a positive factor keeps the sign. */
  lemma SignOfScaled(x: real, k: real)
    requires k > 0.0
    ensures x * k > 0.0 <==> x > 0.0
  {
    if x > 0.0 {
      PositiveProduct(x, k);
    } else {
      assert x * k == -((-x) * k);
      if x < 0.0 {
        PositiveProduct(-x, k);
      }
    }
  }

  lemma PositiveProduct(x: real, y: real)
    requires x > 0.0 && y > 0.0
    ensures x * y > 0.0
  {
  }

  /** `P1_NewtonRichmann_div`: power cell 0 receives from the inner ambient. */
  function P1(b: Behavior, t: real): (p: real)
    ensures b.alpha1 == 0.0 || t == b.t1 ==> p == 0.0
    ensures b.alpha1 > 0.0 && b.rad1 > 0.0 ==> (p > 0.0 <==> t < b.t1)
  {
    NewtonRichmann(b.alpha1, b.t1, t, b.rad1)
  }

  /** `P2_NewtonRichmann_div`: power the last cell gives to the outer ambient. */
  function P2(b: Behavior, t: real): (p: real)
    ensures b.alpha2 == 0.0 || t == b.t2 ==> p == 0.0
    ensures b.alpha2 > 0.0 && b.rad2 > 0.0 ==> (p > 0.0 <==> t > b.t2)
  {
    NewtonRichmann(b.alpha2, t, b.t2, b.rad2)
  }

  /**
   * The area term `S_div` of `power_div`: the circumference at the outer face
   * of cell i, which is the inner wall for i = -1 and the outer wall for i = n-1.
   */
  function Area(b: Behavior, i: int): (s: real)
    requires b.n != 0
    ensures i == -1 ==> s == 2.0 * Pi * b.rad1
    ensures i == b.n - 1 ==> s == 2.0 * Pi * b.rad2
  {
    (b.rad1 + (b.rad2 - b.rad1) * ((i + 1) as real / b.n as real)) * 2.0 * Pi
  }

  /** With the width Make computes, the area term is the circumference at radius rad1 + (i+1)*dr. */
  lemma AreaAtInterface(b: Behavior, i: int)
    requires b.n != 0 && b.dr * (b.n as real) == b.rad2 - b.rad1
    ensures Area(b, i) == 2.0 * Pi * (b.rad1 + (i + 1) as real * b.dr)
  {
    var q := (i + 1) as real / b.n as real;
    assert q * (b.n as real) == (i + 1) as real;
    calc {
      (b.rad2 - b.rad1) * q;
      b.dr * (b.n as real) * q;
      b.dr * (q * (b.n as real));
      (i + 1) as real * b.dr;
    }
  }

  /**
   * `power_div`: the conductive power the source calls passed from cell i to
   * cell i+1; none between equal temperatures, and with a positive
   * conductivity, width and area it is positive exactly when cell i+1 is the
   * hotter one, so heat is passed from the colder cell to the hotter one.
   */
  function PowerDiv(b: Behavior, i: int, tempI: real, tempNext: real): (p: real)
    requires b.n != 0 && b.dr != 0.0
    ensures tempI == tempNext ==> p == 0.0
    ensures b.termCond > 0.0 && b.dr > 0.0 && Area(b, i) > 0.0 ==> (p > 0.0 <==> tempNext > tempI)
  {
    var s := Area(b, i);
    assert b.termCond > 0.0 && b.dr > 0.0 && s > 0.0 ==> s * b.termCond / b.dr > 0.0 by {
      if b.termCond > 0.0 && b.dr > 0.0 && s > 0.0 {
        PositiveProduct(s, b.termCond);
        PositiveQuotient(s * b.termCond, b.dr);
      }
    }
    (tempNext - tempI) * s * b.termCond / b.dr
  }

  /**
   * A cell hotter than both neighbours gains heat in one quantum: the power
   * it receives from the colder cell before it is positive and the power it
   * passes to the colder cell after it is negative.
   */
  lemma PeakGains(b: Behavior, i: int, tPrev: real, t: real, tNext: real)
    requires b.n != 0 && b.termCond > 0.0 && b.dr > 0.0 && b.dt > 0.0
    requires Area(b, i - 1) > 0.0 && Area(b, i) > 0.0
    requires CellDefined(b, i) && Capacity(b, i) > 0.0
    requires tPrev < t && tNext < t
    ensures DTemp(b, i, PowerDiv(b, i - 1, tPrev, t), PowerDiv(b, i, t, tNext)) > 0.0
  {
    var pPrev, pNext := PowerDiv(b, i - 1, tPrev, t), PowerDiv(b, i, t, tNext);
    PowerDivAntisymmetric(b, i, t, tNext);
    assert pNext < 0.0;
    var d := DTemp(b, i, pPrev, pNext);
    PositiveProduct(pPrev - pNext, b.dt);
    assert d * Capacity(b, i) > 0.0;
    SignOfScaled(d, Capacity(b, i));
  }

  lemma PositiveQuotient(x: real, y: real)
    requires x > 0.0 && y > 0.0
    ensures x / y > 0.0
  {
  }

  /** Swapping the two temperatures reverses the conductive power. */
  lemma PowerDivAntisymmetric(b: Behavior, i: int, x: real, y: real)
    requires b.n != 0 && b.dr != 0.0
    ensures PowerDiv(b, i, x, y) == -PowerDiv(b, i, y, x)
  {
    var k := Area(b, i) * b.termCond / b.dr;
    assert PowerDiv(b, i, x, y) == (y - x) * k;
    assert PowerDiv(b, i, y, x) == (x - y) * k;
  }

  /**
   * The radius ratio `b` of `dtemp`: the mean radius of cell i over that of cell 0.
   */
  function Ratio(b: Behavior, i: int): (q: real)
    requires b.rad1 + b.dr / 2.0 != 0.0
    ensures i == 0 ==> q == 1.0
  {
    assert i == 0 ==> (b.rad1 + b.dr * (0.5 + i as real)) / (b.rad1 + b.dr / 2.0) == 1.0 by {
      if i == 0 {
        assert b.dr * (0.5 + i as real) == b.dr / 2.0;
        SelfQuotient(b.rad1 + b.dr / 2.0);
      }
    }
    (b.rad1 + b.dr * (0.5 + i as real)) / (b.rad1 + b.dr / 2.0)
  }

  /** The ratio is the true ratio of the areas (so of the volumes) of cell i and cell 0. */
  lemma RatioIsAreaRatio(b: Behavior, i: int)
    requires b.dr != 0.0 && b.rad1 + b.dr / 2.0 != 0.0
    ensures AnnulusArea(b.rad1, b.rad1 + b.dr) != 0.0
    ensures Ratio(b, i) == AnnulusArea(b.rad1 + i as real * b.dr, b.rad1 + (i + 1) as real * b.dr)
                           / AnnulusArea(b.rad1, b.rad1 + b.dr)
  {
    var lo := b.rad1 + i as real * b.dr;
    assert b.rad1 + (i + 1) as real * b.dr == lo + b.dr;
    assert b.rad1 + b.dr * (0.5 + i as real) == lo + b.dr / 2.0;
    MeanRadiusRatio(lo, b.dr, b.rad1);
  }

  /**
   * For two annuli of the same width w, the ratio of their mean radii is the
   * ratio of their areas.
   */
  lemma MeanRadiusRatio(lo: real, w: real, r0: real)
    requires w != 0.0 && r0 + w / 2.0 != 0.0
    ensures AnnulusArea(r0, r0 + w) != 0.0
    ensures (lo + w / 2.0) / (r0 + w / 2.0) == AnnulusArea(lo, lo + w) / AnnulusArea(r0, r0 + w)
  {
    var mi, m0 := lo + w / 2.0, r0 + w / 2.0;
    AnnulusOfWidth(lo, lo + w, w, mi);
    AnnulusOfWidth(r0, r0 + w, w, m0);
    var k := 2.0 * Pi * w;
    NonZeroProduct(2.0 * Pi, w);
    CancelFactor(k, mi, m0);
  }

  /** An annulus from lo to hi = lo + w has area 2*pi*w times its mean radius m. */
  lemma AnnulusOfWidth(lo: real, hi: real, w: real, m: real)
    requires hi == lo + w && m == lo + w / 2.0
    ensures AnnulusArea(lo, hi) == 2.0 * Pi * w * m
  {
    assert hi * hi - lo * lo == 2.0 * w * m;
  }

  lemma SelfQuotient(x: real)
    requires x != 0.0
    ensures x / x == 1.0
  {
  }

  lemma NonZeroProduct(x: real, y: real)
    requires x != 0.0 && y != 0.0
    ensures x * y != 0.0
  {
  }

  lemma CancelFactor(k: real, x: real, y: real)
    requires k != 0.0 && y != 0.0
    ensures k * y != 0.0 && (k * x) / (k * y) == x / y
  {
    NonZeroProduct(k, y);
  }

  /** Heat capacity of cell i per unit length, as `dtemp` reckons it. */
  function Capacity(b: Behavior, i: int): real
    requires b.rad1 + b.dr / 2.0 != 0.0
  {
    b.heatCap1Div * Ratio(b, i)
  }

  /** The divisors `dtemp` uses for cell i are not zero. */
  predicate CellDefined(b: Behavior, i: int)
  {
    b.rad1 + b.dr / 2.0 != 0.0 && Capacity(b, i) != 0.0
  }

  /**
   * `dtemp`: the temperature increment of cell i during one quantum; the
   * cell's heat capacity times the increment is the net power it receives,
   * times dt.
   */
  function DTemp(b: Behavior, i: int, pPrev: real, pNext: real): (d: real)
    requires CellDefined(b, i)
    ensures Capacity(b, i) * d == (pPrev - pNext) * b.dt
    ensures d == 0.0 <==> pPrev == pNext || b.dt == 0.0
  {
    (pPrev - pNext) * b.dt / (b.heatCap1Div * Ratio(b, i))
  }

  /** Every division of one transition of `cells` cells has a non-zero divisor. */
  predicate Ready(b: Behavior, cells: nat)
  {
    b.n != 0 && b.dr != 0.0 && b.rad1 + b.dr / 2.0 != 0.0 &&
    forall i :: 0 <= i < cells ==> CellDefined(b, i)
  }

  /**
   * A physically meaningful wall (a non-negative inner radius below the
   * outer one, positive density and heat capacity) builds a Behavior whose
   * n cells are all `Ready`.
   */
  lemma PhysicalIsReady(p: Params)
    requires 0 < p.n && p.dtimeInt != 0
    requires 0.0 <= p.rad1 < p.rad2 && p.massVol > 0.0 && p.heatCapMass > 0.0
    ensures Make(p).Ok? && Ready(Make(p).value, p.n)
  {
    PhysicalIsPositive(p);
    var b := Make(p).value;
    forall i | 0 <= i < p.n ensures CellDefined(b, i) {
      PositiveCell(b, i);
    }
  }

  /** For a physical wall, Make gives a positive width and a positive cell-0 capacity. */
  lemma PhysicalIsPositive(p: Params)
    requires 0 < p.n && p.dtimeInt != 0
    requires 0.0 <= p.rad1 < p.rad2 && p.massVol > 0.0 && p.heatCapMass > 0.0
    ensures Make(p).Ok? && Make(p).value.rad1 >= 0.0
    ensures Make(p).value.dr > 0.0 && Make(p).value.heatCap1Div > 0.0
  {
    var b := Make(p).value;
    var dr := (p.rad2 - p.rad1) / (p.n as real);
    assert b.dr == dr;
    PositiveQuotient(p.rad2 - p.rad1, p.n as real);
    var c1 := p.heatCapMass * p.massVol;
    var c2 := c1 * Pi;
    var c3 := c2 * dr;
    PositiveProduct(p.heatCapMass, p.massVol);
    PositiveProduct(c1, Pi);
    PositiveProduct(c2, dr);
    PositiveProduct(c3, p.rad1 + dr);
    assert b.heatCap1Div == c3 * (p.rad1 + dr);
  }

  /** On a positive Behavior, every cell i >= 0 has a positive capacity. */
  lemma PositiveCell(b: Behavior, i: int)
    requires b.rad1 >= 0.0 && b.dr > 0.0 && b.heatCap1Div > 0.0 && 0 <= i
    ensures CellDefined(b, i) && Capacity(b, i) > 0.0
  {
    var x := 0.5 + i as real;
    PositiveProduct(b.dr, x);
    PositiveQuotient(b.rad1 + b.dr * x, b.rad1 + b.dr / 2.0);
    PositiveProduct(b.heatCap1Div, Ratio(b, i));
  }

  /**
   * The capacity Make gives cell 0 is c*rho*pi*dr*(rad1 + dr), whereas cell 0
   * (the annulus from rad1 to rad1 + dr) holds c*rho*pi*dr*(2*rad1 + dr): the
   * two agree only when the inner radius is zero.
   */
  lemma Cell0CapacityQuirk(p: Params)
    requires 0 < p.n && p.dtimeInt != 0
    requires p.rad1 != p.rad2 && p.massVol != 0.0 && p.heatCapMass != 0.0
    ensures Make(p).Ok?
    ensures Make(p).value.heatCap1Div == p.heatCapMass * p.massVol * AnnulusArea(p.rad1, p.rad1 + Make(p).value.dr)
            <==> p.rad1 == 0.0
  {
    var b := Make(p).value;
    var k := p.heatCapMass * p.massVol * Pi * b.dr;
    assert b.dr != 0.0;
    assert k != 0.0;
    assert b.heatCap1Div == k * (p.rad1 + b.dr);
    assert p.heatCapMass * p.massVol * AnnulusArea(p.rad1, p.rad1 + b.dr) == k * (2.0 * p.rad1 + b.dr);
    assert k * (2.0 * p.rad1 + b.dr) - k * (p.rad1 + b.dr) == k * p.rad1;
  }
}
