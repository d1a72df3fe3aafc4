// VCOM setting of fw: the panel's common voltage, in millivolts, turned
// into the 8-bit PWM level of the VCOM output.

module Power {
  import opened Words

  /** C's int division, which truncates toward zero. */
  function CDiv(a: int, b: int): int
    requires b > 0
  {
    if a >= 0 then a / b else -((-a) / b)
  }

  /** power_set_vcom's level: vcom / 10 + 324, clamped to the uint8_t range. */
  function VcomLevel(vcom: int): u8
  {
    var level := CDiv(vcom, 10) + 324;
    if level < 0 then 0 else if level > 255 then 255 else level
  }

  /** The voltage, in millivolts, a level stands for under the same formula. */
  function LevelVoltage(level: u8): int
  {
    (level - 324) * 10
  }

  /**
   * Within the adjustable range the level's voltage is vcom rounded toward
   * zero to 10 mV; below it the level saturates at 0, above it at 255.
   */
  lemma VcomLevelRounds(vcom: int)
    ensures -3249 <= vcom <= -690 ==> vcom <= LevelVoltage(VcomLevel(vcom)) < vcom + 10
    ensures vcom <= -3250 ==> VcomLevel(vcom) == 0
    ensures vcom >= -680 ==> VcomLevel(vcom) == 255
  {
  }

  /** A higher VCOM setting never gives a lower level. */
  lemma VcomLevelMonotone(low: int, high: int)
    requires low <= high
    ensures VcomLevel(low) <= VcomLevel(high)
  {
  }

  /** Setting a level's own voltage gives that level back. */
  lemma LevelVoltageRoundTrip(level: u8)
    ensures VcomLevel(LevelVoltage(level)) == level
  {
  }
}
