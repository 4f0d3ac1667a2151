/** The 16-byte unions of the block ciphers (generators/kuzn.c:74-79, generators/aes128.c:77-84): the same
    128 bits as bytes and as two 64-bit words, in little-endian order. */
module Union128 {

  type Vec = v: seq<bv8> | |v| == 16 witness seq(16, i => 0)

  datatype Words = Words(u0: bv64, u1: bv64)

  function Wide64(x: bv8): bv64 { x as bv64 }

  function Word(b0: bv8, b1: bv8, b2: bv8, b3: bv8, b4: bv8, b5: bv8, b6: bv8, b7: bv8): bv64 {
    Wide64(b0) | (Wide64(b1) << 8) | (Wide64(b2) << 16) | (Wide64(b3) << 24)
    | (Wide64(b4) << 32) | (Wide64(b5) << 40) | (Wide64(b6) << 48) | (Wide64(b7) << 56)
  }

  /** Reading the union as words: bytes in little-endian order. */
  function Pack(v: Vec): Words {
    Words(Word(v[0], v[1], v[2], v[3], v[4], v[5], v[6], v[7]),
          Word(v[8], v[9], v[10], v[11], v[12], v[13], v[14], v[15]))
  }

  /** Byte k of the union is bits 8 k to 8 k + 7 of the word. */
  lemma LittleEndian(b0: bv8, b1: bv8, b2: bv8, b3: bv8, b4: bv8, b5: bv8, b6: bv8, b7: bv8)
    ensures var u := Word(b0, b1, b2, b3, b4, b5, b6, b7);
            && u & 0xFF == Wide64(b0) && (u >> 8) & 0xFF == Wide64(b1)
            && (u >> 16) & 0xFF == Wide64(b2) && (u >> 24) & 0xFF == Wide64(b3)
            && (u >> 32) & 0xFF == Wide64(b4) && (u >> 40) & 0xFF == Wide64(b5)
            && (u >> 48) & 0xFF == Wide64(b6) && u >> 56 == Wide64(b7)
  {
  }

  function Bytes8(u: bv64): (b: seq<bv8>)
    ensures |b| == 8
  {
    [(u & 0xFF) as bv8, ((u >> 8) & 0xFF) as bv8, ((u >> 16) & 0xFF) as bv8, ((u >> 24) & 0xFF) as bv8,
     ((u >> 32) & 0xFF) as bv8, ((u >> 40) & 0xFF) as bv8, ((u >> 48) & 0xFF) as bv8, ((u >> 56) & 0xFF) as bv8]
  }

  function Unpack(w: Words): Vec { Bytes8(w.u0) + Bytes8(w.u1) }

  lemma UnpackWord(b0: bv8, b1: bv8, b2: bv8, b3: bv8, b4: bv8, b5: bv8, b6: bv8, b7: bv8)
    ensures Bytes8(Word(b0, b1, b2, b3, b4, b5, b6, b7)) == [b0, b1, b2, b3, b4, b5, b6, b7]
  {
  }

  lemma PackBytes8(u: bv64)
    ensures var b := Bytes8(u); Word(b[0], b[1], b[2], b[3], b[4], b[5], b[6], b[7]) == u
  {
  }

  /** The two views of the union determine each other. */
  lemma PackUnpack(v: Vec, w: Words)
    ensures Unpack(Pack(v)) == v && Pack(Unpack(w)) == w
  {
    hide Word, Bytes8;
    UnpackWord(v[0], v[1], v[2], v[3], v[4], v[5], v[6], v[7]);
    UnpackWord(v[8], v[9], v[10], v[11], v[12], v[13], v[14], v[15]);
    PackBytes8(w.u0);
    PackBytes8(w.u1);
  }

  // ----- Counters -----

  function Next64(u: bv64): bv64 { u + 1 }

  function Previous64(u: bv64): bv64 { u - 1 }

  lemma NextPrevious(u: bv64)
    ensures Previous64(Next64(u)) == u
  {
  }

  /** A 128-bit counter: the high word takes the carry. */
  function NextCounter(c: Words): Words {
    Words(Next64(c.u0), if Next64(c.u0) == 0 then Next64(c.u1) else c.u1)
  }

  const ALL_ONES: bv64 := 0xFFFF_FFFF_FFFF_FFFF

  /** The counter counts: its value as a 128-bit number goes up by one, and from 2^128 - 1 to 0. */
  lemma NextCounterCounts(c: Words)
    ensures NextCounter(c).u0 == 0 <==> c.u0 == ALL_ONES
    ensures c.u0 != ALL_ONES ==> NextCounter(c).u1 == c.u1 && NextCounter(c).u0 > c.u0 && NextCounter(c).u0 - c.u0 == 1
    ensures c.u0 == ALL_ONES ==> NextCounter(c).u1 - c.u1 == 1
  {
  }

  function PreviousCounter(c: Words): Words {
    Words(Previous64(c.u0), if c.u0 == 0 then Previous64(c.u1) else c.u1)
  }

  lemma CounterRoundTrip(c: Words)
    ensures PreviousCounter(NextCounter(c)) == c
  {
    hide Next64, Previous64;
    NextPrevious(c.u0);
    NextPrevious(c.u1);
  }
}
