/** The records of models/domain_models.py, and the exact decimal and calendar date they hold. */
module DomainModels {
  import opened Wrappers
  import opened Text

  /**
   * An exact decimal number as Python's `Decimal` holds a finite value: a sign, an unbounded
   * coefficient and a number of fractional digits, so that `81.03` is (false, 8103, 2).
   */
  datatype Decimal = Decimal(negative: bool, coefficient: nat, scale: nat)

  /** The number a decimal stands for. */
  function Value(d: Decimal): real {
    var magnitude := d.coefficient as real / Pow10(d.scale) as real;
    if d.negative then -magnitude else magnitude
  }

  /** The exact magnitude |d|; `ContextAbs` is what Python's `abs(d)` returns. */
  function Abs(d: Decimal): (a: real)
    ensures a >= 0.0
    ensures a == Value(d) || a == -Value(d)
  {
    d.coefficient as real / Pow10(d.scale) as real
  }

  /** The precision of Python's default decimal context: 28 significant digits. */
  const Precision: nat := 28

  /** The number of decimal digits of `n` (one for zero). */
  function NumDigits(n: nat): (k: nat)
    ensures k >= 1 && n < Pow10(k)
    ensures k > 1 ==> Pow10(k - 1) <= n
  {
    if n < 10 then 1 else 1 + NumDigits(n / 10)
  }

  /** `n` has `k` digits when it lies between `10^(k-1)` and `10^k`. */
  lemma {:induction false} NumDigitsOf(n: nat, k: nat)
    requires k >= 1 && n < Pow10(k) && (k > 1 ==> Pow10(k - 1) <= n)
    ensures NumDigits(n) == k
    decreases k
  {
    if k > 1 {
      assert Pow10(k) == 10 * Pow10(k - 1);
      if k > 2 {
        assert Pow10(k - 1) == 10 * Pow10(k - 2);
      }
      NumDigitsOf(n / 10, k - 1);
    }
  }

  /** `n // 10^k`: the digits of `n` above the last `k`. */
  function DropDigits(n: nat, k: nat): nat {
    if k == 0 then n else DropDigits(n / 10, k - 1)
  }

  lemma {:induction false} DropDigitsBounds(n: nat, k: nat)
    ensures DropDigits(n, k) * Pow10(k) <= n < DropDigits(n, k) * Pow10(k) + Pow10(k)
  {
    if k > 0 {
      DropDigitsBounds(n / 10, k - 1);
      var q, p := DropDigits(n / 10, k - 1), Pow10(k - 1);
      assert q * p <= n / 10 < q * p + p;
      assert DropDigits(n, k) * Pow10(k) == 10 * (q * p);
    }
  }

  /** `n / 10^k` rounded to a whole number as ROUND_HALF_EVEN does (see `RoundHalfEvenNearest`). */
  function RoundHalfEven(n: nat, k: nat): nat {
    var down := DropDigits(n, k);
    var r := n - down * Pow10(k);
    if 2 * r > Pow10(k) || (2 * r == Pow10(k) && down % 2 == 1) then down + 1 else down
  }

  lemma MulSucc(a: nat, b: nat)
    ensures (a + 1) * b == a * b + b
  {
  }

  /** The rounding argument once the multiple below `n` is known: `lo <= n < lo + p`. */
  lemma NearestMultiple(n: nat, p: nat, down: nat, lo: nat, q: nat, m: nat)
    requires lo <= n < lo + p
    requires q == if 2 * (n - lo) > p || (2 * (n - lo) == p && down % 2 == 1) then down + 1 else down
    requires m == if q == down + 1 then lo + p else lo
    ensures 2 * (if m >= n then m - n else n - m) <= p
    ensures 2 * (if m >= n then m - n else n - m) == p ==> q % 2 == 0
  {
  }

  /**
   * The rounding goes to the nearest multiple of `10^k`, at most half a unit away, and of two
   * equally near to the even one.
   */
  lemma RoundHalfEvenNearest(n: nat, k: nat)
    ensures var q, p := RoundHalfEven(n, k), Pow10(k);
      var m := q * p;
      2 * (if m >= n then m - n else n - m) <= p &&
      (2 * (if m >= n then m - n else n - m) == p ==> q % 2 == 0)
  {
    var p, down := Pow10(k), DropDigits(n, k);
    DropDigitsBounds(n, k);
    var lo := down * p;
    var q := RoundHalfEven(n, k);
    MulSucc(down, p);
    var m := if q == down + 1 then lo + p else lo;
    assert q * p == m;
    NearestMultiple(n, p, down, lo, q, m);
  }

  /** How many trailing digits of `d`'s coefficient the default context rounds away. */
  function Excess(d: Decimal): nat {
    if NumDigits(d.coefficient) <= Precision then 0 else NumDigits(d.coefficient) - Precision
  }

  /** The multiple of `10^Excess(d)` the coefficient is rounded to. */
  function RoundedCoefficient(d: Decimal): nat {
    RoundHalfEven(d.coefficient, Excess(d)) * Pow10(Excess(d))
  }

  /**
   * Python's `abs(d)` under the default context: the magnitude, rounded half-even to 28
   * significant digits when the coefficient is longer than that.
   */
  function ContextAbs(d: Decimal): (a: real)
    ensures a >= 0.0
    ensures NumDigits(d.coefficient) <= Precision ==> a == Abs(d)
  {
    if NumDigits(d.coefficient) <= Precision then Abs(d)
    else RoundedCoefficient(d) as real / Pow10(d.scale) as real
  }

  /**
   * The rounding in `abs` is off by at most half a unit in the 28th significant digit: the
   * result is `m / 10^scale` for an `m` within half of `10^Excess(d)` of the coefficient, and
   * a coefficient of at most 28 digits is kept as it is.
   */
  lemma ContextAbsError(d: Decimal)
    ensures ContextAbs(d) == RoundedCoefficient(d) as real / Pow10(d.scale) as real
    ensures var m, n := RoundedCoefficient(d), d.coefficient;
      2 * (if m >= n then m - n else n - m) <= Pow10(Excess(d))
    ensures NumDigits(d.coefficient) <= Precision ==> RoundedCoefficient(d) == d.coefficient
  {
    var n := d.coefficient;
    if NumDigits(n) <= Precision {
      assert Excess(d) == 0 && Pow10(0) == 1 && DropDigits(n, 0) == n;
      assert RoundedCoefficient(d) == n;
    }
    RoundHalfEvenNearest(n, Excess(d));
  }

  /** A calendar date as `datetime.date` holds it. */
  datatype Date = Date(year: nat, month: nat, day: nat)

  predicate IsLeapYear(year: nat) {
    year % 4 == 0 && (year % 100 != 0 || year % 400 == 0)
  }

  function DaysInMonth(year: nat, month: nat): nat
    requires 1 <= month <= 12
  {
    if month == 2 then (if IsLeapYear(year) then 29 else 28)
    else if month == 4 || month == 6 || month == 9 || month == 11 then 30
    else 31
  }

  /** The dates `datetime.date` accepts: years 1 to 9999 of the proleptic Gregorian calendar. */
  predicate ValidDate(d: Date) {
    1 <= d.year <= 9999 && 1 <= d.month <= 12 && 1 <= d.day <= DaysInMonth(d.year, d.month)
  }

  /** One station's figures; never produced by the current parser (see `ExtractStations`). */
  datatype StationData = StationData(
    name: string,
    installedCapacityMw: Option<Decimal>,
    dailyEnergyMillionKwh: Option<Decimal>,
    waterLevel: Option<Decimal>,
    waterVolumeMillionM3: Option<Decimal>,
    powerMw: Option<Decimal>,
    aggregatesTotal: Option<int>,
    aggregatesWorking: Option<int>,
    temperature: Option<string>)

  datatype HydropowerReport = HydropowerReport(
    reportDate: Date,
    totalDailyEnergyMillionKwh: Decimal,
    stations: seq<StationData>)

  /** The payload forwarded downstream: the date and the total, nothing else. */
  datatype ParsedData = ParsedData(reportDate: Date, totalEnergyProduction: Decimal)
}
