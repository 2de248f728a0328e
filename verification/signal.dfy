/**
 The signal-quality percentage shown next to each scanned network:
 Arduino `map(rssi, -100, -50, 0, 100)` followed by `min(·, 100)`.
 `map` is taken to be the integer formula
 `(x - inMin) * (outMax - outMin) / (inMax - inMin) + outMin` with C's
 division, which truncates toward zero.
 */
module Signal {

  /** An RSSI reading in dBm as the Wi-Fi driver reports it (a signed byte). */
  type Rssi = x: int | -128 <= x <= 127

  function Abs(x: int): nat
  {
    if x < 0 then -x else x
  }

  /** C integer division: the quotient of the magnitudes, with the sign of
      the exact quotient (truncation toward zero). */
  function CDiv(a: int, b: int): int
    requires b != 0
  {
    var m := Abs(a) / Abs(b);
    if (a >= 0) == (b > 0) then m else -m
  }

  /** Arduino `map`: rescale `x` from `[inMin, inMax]` to `[outMin, outMax]`. */
  function ArduinoMap(x: int, inMin: int, inMax: int, outMin: int, outMax: int): int
    requires inMax != inMin
  {
    CDiv((x - inMin) * (outMax - outMin), inMax - inMin) + outMin
  }

  /** The percentage computed in `handleRoot`. It is the linear scale through
      (-100 dBm, 0 %) and (-50 dBm, 100 %), two points per dBm, cut at 100 %
      from above only: it never exceeds 100, is exactly 100 from -50 dBm up,
      and is negative below -100 dBm. */
  function SignalPercent(rssi: Rssi): (p: int)
    ensures p <= 100
    ensures rssi >= -50 ==> p == 100
    ensures rssi <= -50 ==> p == 2 * (rssi + 100)
    ensures p >= 0 <==> rssi >= -100
  {
    var mapped := ArduinoMap(rssi, -100, -50, 0, 100);
    if mapped < 100 then mapped else 100
  }

  /** A stronger signal never shows a lower percentage. */
  lemma SignalPercentMonotone(a: Rssi, b: Rssi)
    requires a <= b
    ensures SignalPercent(a) <= SignalPercent(b)
  {
  }

  /** The ends of the mapped range and the floor of the type. */
  lemma SignalPercentEndpoints()
    ensures SignalPercent(-100) == 0
    ensures SignalPercent(-50) == 100
    ensures SignalPercent(-75) == 50
    ensures SignalPercent(-128) == -56
  {
  }
}
