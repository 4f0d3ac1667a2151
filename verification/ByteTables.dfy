/** Byte substitutions, as the block ciphers use them. */
module ByteTables {
  type Sbox = s: seq<bv8> | |s| == 256 witness seq(256, i => 0)

  function At(sbox: Sbox, a: bv8): bv8 { sbox[a as int] }
}
