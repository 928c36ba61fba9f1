/**
  The bit operations of MT19937: the blend and the twist of the recurrence, and the tempering, which is linear, so that
  its values at the one-bit words say everything.
  */
module MersenneWords {

  type Word = bv32

  /** Upper bit of one word, lower 31 bits of the next. */
  function Blend(u: Word, l: Word): Word { (u & 0x80000000) | (l & 0x7FFFFFFF) }

  function Twist(y: Word): Word { (y >> 1) ^ (if y & 1 == 1 then 0x9908B0DF else 0) }

  function Xor(x: Word, y: Word): Word { x ^ y }

  // What the four steps of tempering add.
  function Right11(y: Word): Word { y >> 11 }
  function Left7(y: Word): Word { (y << 7) & 0x9D2C5680 }
  function Left15(y: Word): Word { (y << 15) & 0xEFC60000 }
  function Right18(y: Word): Word { y >> 18 }

  function Mix11(y: Word): Word { Xor(y, Right11(y)) }
  function Mix7(y: Word): Word { Xor(y, Left7(y)) }
  function Mix15(y: Word): Word { Xor(y, Left15(y)) }
  function Mix18(y: Word): Word { Xor(y, Right18(y)) }

  function Temper(y: Word): Word { Mix18(Mix15(Mix7(Mix11(y)))) }

  // ---- Blend and twist ----

  lemma BlendIs(u: Word, l: Word)
    ensures Blend(u, l) & 0x80000000 == u & 0x80000000 && Blend(u, l) & 0x7FFFFFFF == l & 0x7FFFFFFF
  {
  }

  lemma Halved(y: Word)
    ensures y >> 1 == y / 2
  {
  }

  lemma LowestBit(y: Word)
    ensures y & 1 == y % 2
  {
  }

  lemma NothingAdded(y: Word)
    ensures y ^ 0 == y
  {
  }

  /** The lowest bit decides whether the last row of the matrix is added. */
  lemma TwistIs(y: Word)
    ensures Twist(y) == if y % 2 == 1 then (y / 2) ^ 0x9908B0DF else y / 2
  {
    Halved(y);
    LowestBit(y);
    NothingAdded(y / 2);
  }

  // ---- Tempering ----

  lemma Associative(x: Word, y: Word, z: Word)
    ensures Xor(Xor(x, y), z) == Xor(x, Xor(y, z))
  {
  }

  lemma Commutative(x: Word, y: Word)
    ensures Xor(x, y) == Xor(y, x)
  {
  }

  lemma Exchange(a: Word, b: Word, c: Word, d: Word)
    ensures Xor(Xor(a, b), Xor(c, d)) == Xor(Xor(a, c), Xor(b, d))
  {
    hide Xor;
    Associative(a, b, Xor(c, d));
    Associative(b, c, d);
    Commutative(b, c);
    Associative(c, b, d);
    Associative(a, c, Xor(b, d));
  }

  lemma Right11Linear(x: Word, y: Word)
    ensures Right11(Xor(x, y)) == Xor(Right11(x), Right11(y))
  {
  }

  lemma Mix11Linear(x: Word, y: Word)
    ensures Mix11(Xor(x, y)) == Xor(Mix11(x), Mix11(y))
  {
    hide Xor, Right11;
    Right11Linear(x, y);
    Exchange(x, y, Right11(x), Right11(y));
  }

  lemma Left7Linear(x: Word, y: Word)
    ensures Left7(Xor(x, y)) == Xor(Left7(x), Left7(y))
  {
  }

  lemma Mix7Linear(x: Word, y: Word)
    ensures Mix7(Xor(x, y)) == Xor(Mix7(x), Mix7(y))
  {
    hide Xor, Left7;
    Left7Linear(x, y);
    Exchange(x, y, Left7(x), Left7(y));
  }

  lemma Left15Linear(x: Word, y: Word)
    ensures Left15(Xor(x, y)) == Xor(Left15(x), Left15(y))
  {
  }

  lemma Mix15Linear(x: Word, y: Word)
    ensures Mix15(Xor(x, y)) == Xor(Mix15(x), Mix15(y))
  {
    hide Xor, Left15;
    Left15Linear(x, y);
    Exchange(x, y, Left15(x), Left15(y));
  }

  lemma Right18Linear(x: Word, y: Word)
    ensures Right18(Xor(x, y)) == Xor(Right18(x), Right18(y))
  {
  }

  lemma Mix18Linear(x: Word, y: Word)
    ensures Mix18(Xor(x, y)) == Xor(Mix18(x), Mix18(y))
  {
    hide Xor, Right18;
    Right18Linear(x, y);
    Exchange(x, y, Right18(x), Right18(y));
  }

  lemma TemperLinear(x: Word, y: Word)
    ensures Temper(Xor(x, y)) == Xor(Temper(x), Temper(y))
  {
    hide Mix11, Mix7, Mix15, Mix18, Xor;
    Mix11Linear(x, y);
    Mix7Linear(Mix11(x), Mix11(y));
    Mix15Linear(Mix7(Mix11(x)), Mix7(Mix11(y)));
    Mix18Linear(Mix15(Mix7(Mix11(x))), Mix15(Mix7(Mix11(y))));
  }

  /** Tempering of the thirty-two one-bit words. */
  lemma TemperBits()
    ensures Temper(0x00000001) == 0x00400091 && Temper(0x00000002) == 0x00000002
    ensures Temper(0x00000004) == 0x01020244 && Temper(0x00000008) == 0x02040489
    ensures Temper(0x00000010) == 0x00000010 && Temper(0x00000020) == 0x08001220
    ensures Temper(0x00000040) == 0x00000040 && Temper(0x00000080) == 0x20404890
    ensures Temper(0x00000100) == 0x00800120 && Temper(0x00000200) == 0x01000240
    ensures Temper(0x00000400) == 0x02000480 && Temper(0x00000800) == 0x04440990
    ensures Temper(0x00001000) == 0x08081200 && Temper(0x00002000) == 0x01022244
    ensures Temper(0x00004000) == 0x22244C81 && Temper(0x00008000) == 0x40009010
    ensures Temper(0x00010000) == 0x88013220 && Temper(0x00020000) == 0x01020000
    ensures Temper(0x00040000) == 0x20444891 && Temper(0x00080000) == 0x04880022
    ensures Temper(0x00100000) == 0x09100044 && Temper(0x00200000) == 0x12200088
    ensures Temper(0x00400000) == 0x04440911 && Temper(0x00800000) == 0x08881222
    ensures Temper(0x01000000) == 0x81000040 && Temper(0x02000000) == 0x22204888
    ensures Temper(0x04000000) == 0x44009100 && Temper(0x08000000) == 0x88012200
    ensures Temper(0x10000000) == 0x11020440 && Temper(0x20000000) == 0x20040801
    ensures Temper(0x40000000) == 0x44081102 && Temper(0x80000000) == 0x88102204
  {
  }
}
