/** Machine words as sequences of their bits, least significant bit first. */
module BitVectors {

  type Bits = seq<bool>
  type Byte = b: Bits | |b| == 8 witness [false, false, false, false, false, false, false, false]
  type Word = w: Bits | |w| == 32
    witness [false, false, false, false, false, false, false, false] +
            [false, false, false, false, false, false, false, false] +
            [false, false, false, false, false, false, false, false] +
            [false, false, false, false, false, false, false, false]

  const T := true
  const F := false
}
