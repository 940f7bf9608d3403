/**
 * Presentation arithmetic of the quota dashboard (modules/formatting.py).
 *
 * Byte counts, percentages and data-reduction ratios are exact `real`s here;
 * the two-decimal rendering of a value is left to the caller, so a formatted
 * byte count is the pair of the number that would be printed and the index of
 * its unit in `UnitNames`.
 */
module Formatting {
  import opened Wrappers

  /** The units `format_bytes` walks through, smallest first. */
  const UnitNames: seq<string> := ["B", "KB", "MB", "GB", "TB", "PB"]

  /** Index of "PB", the label used when the walk runs off the end. */
  const LastUnit: nat := |UnitNames| - 1

  /** What `format_bytes` renders: "N/A", or a number and a unit. */
  datatype Display = NotAvailable | Scaled(value: real, unit: nat)

  /** 1024 to the power `k`: the size of unit `k` in bytes. */
  function Pow1024(k: nat): (p: real)
    ensures p >= 1.0
    ensures k > 0 ==> p >= 1024.0
  {
    if k == 0 then 1.0 else 1024.0 * Pow1024(k - 1)
  }

  lemma {:induction false} Pow1024Monotone(i: nat, j: nat)
    requires i <= j
    ensures Pow1024(i) <= Pow1024(j)
    decreases j
  {
    if i < j {
      Pow1024Monotone(i, j - 1);
    }
  }

  /**
   * `n` is below 1024 once scaled down to unit `k` exactly when it is below
   * the size of the next unit.
   */
  lemma FitsAtUnit(n: real, k: nat)
    ensures n / Pow1024(k) < 1024.0 <==> n < Pow1024(k + 1)
  {
    var p := Pow1024(k);
    assert Pow1024(k + 1) == 1024.0 * p;
    assert n == (n / p) * p;
  }

  /** One more division by 1024 scales a value from unit `k` to unit `k + 1`. */
  lemma DivideOnce(n: real, k: nat)
    ensures (n / Pow1024(k)) / 1024.0 == n / Pow1024(k + 1)
  {
    var p := Pow1024(k);
    assert Pow1024(k + 1) == p * 1024.0;
    assert ((n / p) / 1024.0) * (p * 1024.0) == n;
  }

  // ---------------------------------------------------------------------------
  // Unit selection, defined by thresholds rather than by repeated division
  // ---------------------------------------------------------------------------

  /**
   * The first unit index `k` at or after `from` with `n < 1024^(k+1)`, or the
   * last unit when there is none.
   */
  function FirstFit(n: real, from: nat): (k: nat)
    requires from <= LastUnit
    ensures from <= k <= LastUnit
    decreases LastUnit - from
  {
    if from == LastUnit || n < Pow1024(from + 1) then from else FirstFit(n, from + 1)
  }

  /** The unit `format_bytes` labels `n` with. */
  function UnitIndex(n: real): nat
  {
    FirstFit(n, 0)
  }

  /** FirstFit returns `k` when no unit in [from, k) fits and `k` does (or is the last). */
  lemma {:induction false} FirstFitAt(n: real, from: nat, k: nat)
    requires from <= k <= LastUnit
    requires forall j :: from < j <= k ==> n >= Pow1024(j)
    requires k == LastUnit || n < Pow1024(k + 1)
    ensures FirstFit(n, from) == k
    decreases k - from
  {
    if from < k {
      assert n >= Pow1024(from + 1);
      FirstFitAt(n, from + 1, k);
    }
  }

  /** What FirstFit returns: every earlier unit is too small, and the chosen one fits unless it is the last. */
  lemma {:induction false} FirstFitIsFirst(n: real, from: nat)
    requires from <= LastUnit
    ensures var k := FirstFit(n, from);
      (forall j :: from < j <= k ==> n >= Pow1024(j)) &&
      (k < LastUnit ==> n < Pow1024(k + 1))
    decreases LastUnit - from
  {
    if !(from == LastUnit || n < Pow1024(from + 1)) {
      FirstFitIsFirst(n, from + 1);
    }
  }

  /**
   * The unit chosen for `n` is the first one at which `n`, divided by 1024
   * once per earlier unit, is below 1024; if none is, it is PB.
   */
  lemma UnitIndexIsFirst(n: real)
    ensures var k := UnitIndex(n);
      k <= LastUnit &&
      (forall j :: 0 <= j < k ==> n / Pow1024(j) >= 1024.0) &&
      (k < LastUnit ==> n / Pow1024(k) < 1024.0)
  {
    var k := UnitIndex(n);
    FirstFitIsFirst(n, 0);
    forall j | 0 <= j < k
      ensures n / Pow1024(j) >= 1024.0
    {
      FitsAtUnit(n, j);
    }
    FitsAtUnit(n, k);
  }

  lemma {:induction false} FirstFitMonotone(n: real, m: real, from: nat)
    requires n <= m
    requires from <= LastUnit
    ensures FirstFit(n, from) <= FirstFit(m, from)
    decreases LastUnit - from
  {
    if from < LastUnit && !(m < Pow1024(from + 1)) {
      FirstFitMonotone(n, m, from + 1);
    }
  }

  /** A larger input never gets a smaller unit. */
  lemma UnitIndexMonotone(n: real, m: real)
    requires n <= m
    ensures UnitIndex(n) <= UnitIndex(m)
  {
    FirstFitMonotone(n, m, 0);
  }

  // ---------------------------------------------------------------------------
  // format_bytes as written
  // ---------------------------------------------------------------------------

  /**
   * What `format_bytes` reports. Below 1024^6 the number is `n` in the chosen
   * unit. From 1024^6 up the loop has also divided on the PB step before
   * falling out, so the number is n / 1024^6 while the label is still PB.
   */
  function FormatBytesSpec(bytes: Option<real>): Display
  {
    match bytes
    case None => NotAvailable
    case Some(n) =>
      if n < Pow1024(|UnitNames|) then Scaled(n / Pow1024(UnitIndex(n)), UnitIndex(n))
      else Scaled(n / Pow1024(|UnitNames|), LastUnit)
  }

  /** The loop of `format_bytes`: divide by 1024 per unit until the value is below 1024. */
  method FormatBytes(bytes: Option<real>) returns (d: Display)
    ensures d == FormatBytesSpec(bytes)
    ensures bytes.None? <==> d.NotAvailable?
    ensures d.Scaled? ==> d.unit <= LastUnit
  {
    if bytes.None? {
      return NotAvailable;
    }
    var n := bytes.value;
    var value := n;
    for i := 0 to |UnitNames|
      invariant value == n / Pow1024(i)
      invariant forall j :: 0 < j <= i ==> n >= Pow1024(j)
    {
      if value < 1024.0 {
        FitsAtUnit(n, i);
        FirstFitAt(n, 0, i);
        Pow1024Monotone(i + 1, |UnitNames|);
        return Scaled(value, i);
      }
      FitsAtUnit(n, i);
      DivideOnce(n, i);
      value := value / 1024.0;
    }
    return Scaled(value, LastUnit);
  }

  /** The unit `format_bytes` reports is `UnitIndex(n)` on every input, fall-through included. */
  lemma ReportedUnitIsUnitIndex(n: real)
    ensures FormatBytesSpec(Some(n)).unit == UnitIndex(n)
  {
    if n >= Pow1024(|UnitNames|) {
      forall j | 0 < j <= LastUnit
        ensures n >= Pow1024(j)
      {
        Pow1024Monotone(j, |UnitNames|);
      }
      FirstFitAt(n, 0, LastUnit);
    }
  }

  /** A larger input is never reported in a smaller unit. */
  lemma ReportedUnitMonotone(n: real, m: real)
    requires n <= m
    ensures FormatBytesSpec(Some(n)).unit <= FormatBytesSpec(Some(m)).unit
  {
    ReportedUnitIsUnitIndex(n);
    ReportedUnitIsUnitIndex(m);
    UnitIndexMonotone(n, m);
  }

  /** `None` is "N/A"; anything below 1024, zero and negatives included, is bytes, undivided. */
  lemma SmallInputsAreBytes(n: real)
    requires n < 1024.0
    ensures FormatBytesSpec(None) == NotAvailable
    ensures FormatBytesSpec(Some(n)) == Scaled(n, 0)
  {
    assert UnitIndex(n) == 0;
  }

  /** Below 1024^6 the reported number times its unit's size is the input. */
  lemma ReportedValueIsExact(n: real)
    requires n < Pow1024(|UnitNames|)
    ensures var d := FormatBytesSpec(Some(n));
      d.Scaled? && d.unit == UnitIndex(n) && d.value * Pow1024(d.unit) == n
  {
    var p := Pow1024(UnitIndex(n));
    assert (n / p) * p == n;
  }

  /** A non-negative input that does not fall through is reported below 1024. */
  lemma ReportedValueBelow1024(n: real)
    requires 0.0 <= n < Pow1024(|UnitNames|)
    ensures var d := FormatBytesSpec(Some(n));
      d.Scaled? && 0.0 <= d.value < 1024.0
  {
    var k := UnitIndex(n);
    UnitIndexIsFirst(n);
    if k == LastUnit {
      FitsAtUnit(n, k);
    }
  }

  /**
   * From 1024^6 up the input falls through the loop: it is labelled PB but
   * its number is n / 1024^6, i.e. 1024 times too small for a PB figure.
   */
  lemma FallThroughDividesSixTimes(n: real)
    requires n >= Pow1024(|UnitNames|)
    ensures FormatBytesSpec(Some(n)) == Scaled(n / Pow1024(|UnitNames|), LastUnit)
    ensures FormatBytesSpec(Some(n)).value * Pow1024(LastUnit) == n / 1024.0
    ensures FormatBytesSpec(Some(n)).value * Pow1024(LastUnit) != n
  {
    var p := Pow1024(LastUnit);
    assert Pow1024(|UnitNames|) == 1024.0 * p;
    assert (n / (1024.0 * p)) * p == n / 1024.0;
  }

  /** One exbibyte is reported as "1.00 PB". */
  lemma OneExbibyteIsOnePB()
    ensures FormatBytesSpec(Some(Pow1024(6))) == Scaled(1.0, LastUnit)
  {
    FallThroughDividesSixTimes(Pow1024(6));
  }

  // ---------------------------------------------------------------------------
  // format_bytes as intended: the PB step does not divide
  // ---------------------------------------------------------------------------

  /** The intended report: `n` in the first unit it fits, and in PB from there on. */
  function FormatBytesIntended(bytes: Option<real>): Display
  {
    match bytes
    case None => NotAvailable
    case Some(n) => Scaled(n / Pow1024(UnitIndex(n)), UnitIndex(n))
  }

  /** The walk over the units with the division left out after PB. */
  method FormatBytesFixed(bytes: Option<real>) returns (d: Display)
    ensures d == FormatBytesIntended(bytes)
    ensures bytes.None? <==> d.NotAvailable?
    ensures d.Scaled? ==> d.unit <= LastUnit
  {
    if bytes.None? {
      return NotAvailable;
    }
    var n := bytes.value;
    var value := n;
    for i := 0 to LastUnit
      invariant value == n / Pow1024(i)
      invariant forall j :: 0 < j <= i ==> n >= Pow1024(j)
    {
      if value < 1024.0 {
        FitsAtUnit(n, i);
        FirstFitAt(n, 0, i);
        return Scaled(value, i);
      }
      FitsAtUnit(n, i);
      DivideOnce(n, i);
      value := value / 1024.0;
    }
    FirstFitAt(n, 0, LastUnit);
    return Scaled(value, LastUnit);
  }

  /** The intended report is exact for every input: number times unit size is the input. */
  lemma IntendedIsExact(n: real)
    ensures var d := FormatBytesIntended(Some(n));
      d.Scaled? && d.unit <= LastUnit && d.value * Pow1024(d.unit) == n
  {
    var p := Pow1024(UnitIndex(n));
    assert (n / p) * p == n;
  }

  /** The two reports agree exactly below 1024^6 and disagree on every input from there. */
  lemma IntendedDiffersOnlyOnFallThrough(n: real)
    ensures FormatBytesSpec(Some(n)) == FormatBytesIntended(Some(n)) <==> n < Pow1024(|UnitNames|)
  {
    if n >= Pow1024(|UnitNames|) {
      FallThroughDividesSixTimes(n);
      IntendedIsExact(n);
      FirstFitAt(n, 0, LastUnit) by {
        forall j | 0 < j <= LastUnit
          ensures n >= Pow1024(j)
        {
          Pow1024Monotone(j, |UnitNames|);
        }
      }
    }
  }

  // ---------------------------------------------------------------------------
  // Ratios
  // ---------------------------------------------------------------------------

  /** `calculate_percentage`: `used` as a percentage of `total`, 0 when `total` is 0. */
  function CalculatePercentage(used: real, total: real): (pct: real)
    ensures total == 0.0 ==> pct == 0.0
    ensures total != 0.0 ==> pct * total == used * 100.0
  {
    if total == 0.0 then 0.0 else (used / total) * 100.0
  }

  /** Usage within the quota is a percentage between 0 and 100. */
  lemma PercentageWithinQuota(used: real, total: real)
    requires 0.0 <= used <= total && total > 0.0
    ensures 0.0 <= CalculatePercentage(used, total) <= 100.0
  {
    var pct := CalculatePercentage(used, total);
    assert pct * total == used * 100.0;
    assert pct * total <= total * 100.0;
  }

  /** Nothing clamps the result: usage over a positive quota exceeds 100. */
  lemma PercentageOverQuota(used: real, total: real)
    requires used > total > 0.0
    ensures CalculatePercentage(used, total) > 100.0
  {
    var pct := CalculatePercentage(used, total);
    assert pct * total == used * 100.0;
    assert pct * total > total * 100.0;
  }

  /** `calculate_drr`: logical bytes per effective byte, 0 when `effective` is 0. */
  function CalculateDrr(logical: real, effective: real): (drr: real)
    ensures effective == 0.0 ==> drr == 0.0
    ensures effective != 0.0 ==> drr * effective == logical
  {
    if effective == 0.0 then 0.0 else logical / effective
  }

  /** Equal non-zero arguments give a ratio of 1; more logical than effective bytes give at least 1. */
  lemma DrrAtLeastOne(logical: real, effective: real)
    requires logical >= effective > 0.0
    ensures CalculateDrr(logical, effective) >= 1.0
    ensures logical == effective ==> CalculateDrr(logical, effective) == 1.0
  {
    var drr := CalculateDrr(logical, effective);
    assert drr * effective == logical;
    assert drr * effective >= 1.0 * effective;
  }

  /** Worked values: 0 bytes, 1536 bytes, and the three ratios on small inputs. */
  lemma WorkedValues()
    ensures FormatBytesSpec(Some(0.0)) == Scaled(0.0, 0)
    ensures FormatBytesSpec(Some(1536.0)) == Scaled(1.5, 1)
    ensures CalculatePercentage(50.0, 200.0) == 25.0
    ensures CalculatePercentage(549755813888.0, 1099511627776.0) == 50.0
    ensures CalculateDrr(200.0, 100.0) == 2.0
  {
    SmallInputsAreBytes(0.0);
    assert UnitIndex(1536.0) == 1;
  }
}
