/**
  The power heuristic: a straight line from an idle draw to a full-load draw,
  applied to a CPU percentage. Doubles are modelled as reals; the estimate is
  not clamped, so percentages outside 0..100 give watts outside the two anchors.
 */
module Power {

  /** Idle power draw in watts. */
  const BASE_POWER: real := 10.0

  /** Full-load power draw in watts. */
  const MAX_POWER: real := 65.0

  /** estimatePowerConsumption. */
  function EstimatePowerConsumption(cpuUsage: real): (watts: real)
    ensures 0.0 <= cpuUsage <= 100.0 ==> BASE_POWER <= watts <= MAX_POWER
    ensures cpuUsage < 0.0 ==> watts < BASE_POWER
    ensures cpuUsage > 100.0 ==> watts > MAX_POWER
  {
    BASE_POWER + (MAX_POWER - BASE_POWER) * (cpuUsage / 100.0)
  }

  /** getCPUUsage: the load fraction the platform reports, as a percentage. */
  function CpuUsagePercent(processCpuLoad: real): (cpuUsage: real)
    ensures 0.0 <= processCpuLoad <= 1.0 ==> 0.0 <= cpuUsage <= 100.0
  {
    processCpuLoad * 100.0
  }

  lemma EstimateAnchors()
    ensures EstimatePowerConsumption(0.0) == BASE_POWER
    ensures EstimatePowerConsumption(100.0) == MAX_POWER
    ensures EstimatePowerConsumption(50.0) == 37.5
    ensures EstimatePowerConsumption(80.0) == 54.0
  {
  }

  /** Every percentage point adds the same 0.55 W: the estimate is linear. */
  lemma EstimateLinear(a: real, b: real)
    ensures EstimatePowerConsumption(b) - EstimatePowerConsumption(a) == 0.55 * (b - a)
  {
  }

  lemma EstimateMonotone(a: real, b: real)
    requires a <= b
    ensures EstimatePowerConsumption(a) <= EstimatePowerConsumption(b)
  {
    EstimateLinear(a, b);
  }

  /**
    A platform that cannot measure the load reports a negative fraction; the
    estimate passes it through: -1 becomes -100 % and -45 W.
   */
  lemma UnavailableLoadEstimate()
    ensures EstimatePowerConsumption(CpuUsagePercent(-1.0)) == -45.0
  {
  }
}
