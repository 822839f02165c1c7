/** What a LED is told to show: pulse widths of 16 bits for red, green, blue and white. */
module LedPowers {

  type Pwm = x: int | 0 <= x < 0x1_0000

  datatype Powers = Powers(r: Pwm, g: Pwm, b: Pwm, w: Pwm)
}
