/**
 Conversion of byte counts into the monitor's display unit.

 The monitor calls its divisor `gigabyte`, but numerically it is 2^20
 (1,048,576): the test fixtures are built as multiples of it and the
 expected conversions (536870912 to 512, and so on) fix its value.
 */
module Units {

  /** The single display-unit divisor, 2^20 bytes. */
  const Gigabyte: real := 1048576.0

  /** `convertToGb`: a byte count in display units, with no rounding. */
  function ConvertToGb(bytes: real): (gb: real)
    ensures gb * Gigabyte == bytes
    ensures bytes >= 0.0 ==> gb >= 0.0
  {
    bytes / Gigabyte
  }

  /** A byte count built as k times the divisor displays as k. */
  lemma ConvertMultiple(k: real)
    ensures ConvertToGb(k * Gigabyte) == k
  {
  }

  /** The three conversions the monitor's test fixes: 2^29, 2^30 and 2^31 bytes. */
  lemma ConvertExamples()
    ensures ConvertToGb(536870912.0) == 512.0
    ensures ConvertToGb(1073741824.0) == 1024.0
    ensures ConvertToGb(2147483648.0) == 2048.0
  {
  }
}
