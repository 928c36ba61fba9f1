/**
  The digest of "abc" that FIPS 180-4 publishes, by evaluating the specification on it. The words of the schedule and
  the values of the registers are computed ahead in stages of five or ten steps.
  */
module Sha1Vectors {
  import opened Sha1Spec
  import Arith

  /** The next sixteen words of a message schedule. */
  datatype Ahead = Ahead(w0: Word, w1: Word, w2: Word, w3: Word, w4: Word, w5: Word, w6: Word, w7: Word,
                         w8: Word, w9: Word, w10: Word, w11: Word, w12: Word, w13: Word, w14: Word, w15: Word)

  datatype At = At(ahead: Ahead, regs: Regs)

  /** The values that register a takes, step by step. */
  datatype Trace = End | Line(a: Word, tail: Trace)

  function Next(v: Ahead): Ahead {
    Ahead(v.w1, v.w2, v.w3, v.w4, v.w5, v.w6, v.w7, v.w8, v.w9, v.w10, v.w11, v.w12, v.w13, v.w14, v.w15,
          Expand(v.w13, v.w8, v.w2, v.w0))
  }

  function Turned(r: Regs, a: Word): Regs { Regs(a, r.a, Rotl30(r.b), r.c, r.d) }

  /** From the place before step t the trace leads to the one before step n. */
  predicate Traced(t: nat, p: At, trace: Trace, n: nat, q: At)
    decreases trace
  {
    match trace
    case End => t == n && p == q
    case Line(a, tail) =>
      var r := p.regs;
      T(r.a, F(t, r.b, r.c, r.d), r.e, K(t), p.ahead.w0) == a && Traced(t + 1, At(Next(p.ahead), Turned(r, a)), tail, n, q)
  }

  predicate IsAhead(m: seq<Word>, t: nat, v: Ahead)
    requires |m| == 16
  {
    && v.w0 == W(m, t) && v.w1 == W(m, t + 1) && v.w2 == W(m, t + 2) && v.w3 == W(m, t + 3)
    && v.w4 == W(m, t + 4) && v.w5 == W(m, t + 5) && v.w6 == W(m, t + 6) && v.w7 == W(m, t + 7)
    && v.w8 == W(m, t + 8) && v.w9 == W(m, t + 9) && v.w10 == W(m, t + 10) && v.w11 == W(m, t + 11)
    && v.w12 == W(m, t + 12) && v.w13 == W(m, t + 13) && v.w14 == W(m, t + 14) && v.w15 == W(m, t + 15)
  }

  predicate Reached(h: Regs, m: seq<Word>, t: nat, p: At) {
    |m| == 16 && IsAhead(m, t, p.ahead) && Rounds(h, m, t) == p.regs
  }

  lemma WordsNext(m: seq<Word>, t: nat)
    requires |m| == 16
    ensures W(m, t + 16) == Expand(W(m, t + 13), W(m, t + 8), W(m, t + 2), W(m, t))
  {
  }

  lemma AheadNext(m: seq<Word>, t: nat, v: Ahead)
    requires |m| == 16 && IsAhead(m, t, v)
    ensures IsAhead(m, t + 1, Next(v))
  {
    WordsNext(m, t);
    hide W, Expand;
  }

  lemma RoundsNext(h: Regs, m: seq<Word>, t: nat)
    requires |m| == 16
    ensures Rounds(h, m, t + 1) == Step(Rounds(h, m, t), t, W(m, t))
  {
    hide W, Step;
  }

  lemma {:induction false} TracedIs(h: Regs, m: seq<Word>, t: nat, p: At, trace: Trace, n: nat, q: At)
    requires Reached(h, m, t, p) && Traced(t, p, trace, n, q)
    ensures Reached(h, m, n, q)
    decreases trace
  {
    if trace.Line? {
      hide W, Rounds, Expand, T, F, K, Rotl30, IsAhead, Next;
      AheadNext(m, t, p.ahead);
      RoundsNext(h, m, t);
      assert W(m, t) == p.ahead.w0 by { AheadFirst(m, t, p.ahead); }
      TracedIs(h, m, t + 1, At(Next(p.ahead), Turned(p.regs, trace.a)), trace.tail, n, q);
    }
  }

  lemma AheadFirst(m: seq<Word>, t: nat, v: Ahead)
    requires |m| == 16 && IsAhead(m, t, v)
    ensures W(m, t) == v.w0
  {
    hide W;
  }

  // ---- The block and the stages ----

  predicate IsAbc(msg: seq<Byte>) { msg == [0x61, 0x62, 0x63] }

  const Place0 := At(
    Ahead(0x61626380, 0x00000000, 0x00000000, 0x00000000, 0x00000000, 0x00000000, 0x00000000, 0x00000000,
          0x00000000, 0x00000000, 0x00000000, 0x00000000, 0x00000000, 0x00000000, 0x00000000, 0x00000018),
    Regs(0x67452301, 0xEFCDAB89, 0x98BADCFE, 0x10325476, 0xC3D2E1F0))
  const PlaceEarly := At(
    Ahead(0x00000000, 0x00000000, 0x00000000, 0x00000000, 0x00000000, 0x00000000, 0x00000000, 0x00000000,
          0x00000000, 0x00000000, 0x00000018, 0xC2C4C700, 0x00000000, 0x00000030, 0x85898E01, 0x00000000),
    Regs(0xCFD499DE, 0xCDD8E11B, 0x284E43C2, 0x626414DB, 0xC045BF0C))
  const Place1 := At(
    Ahead(0x00000000, 0x00000000, 0x00000000, 0x00000000, 0x00000000, 0x00000018, 0xC2C4C700, 0x00000000,
          0x00000030, 0x85898E01, 0x00000000, 0x00000060, 0x0B131C03, 0x00000030, 0x85898EC1, 0x16263806),
    Regs(0x8351F929, 0x4B6AE328, 0x27A301F5, 0x664F8C30, 0x0FF1F290))
  const Place2 := At(
    Ahead(0x00000000, 0x00000060, 0x0B131C03, 0x00000030, 0x85898EC1, 0x16263806, 0x00000000, 0x00000180,
          0x2C4C700C, 0x000000F0, 0x93AFB507, 0x5898E048, 0x8E9A9202, 0x00000600, 0xB131C0F0, 0x16263BC6),
    Regs(0xFD9E1D7D, 0xDC64901D, 0x20AA99CA, 0xD3A49608, 0xC82F758B))
  const Place3 := At(
    Ahead(0x93AFB507, 0x5898E048, 0x8E9A9202, 0x00000600, 0xB131C0F0, 0x16263BC6, 0x4EBED41E, 0x626380A1,
          0x16263806, 0x000018C0, 0xD2E138C4, 0x00000F00, 0x3AFB5079, 0x898E04E5, 0xE2BA3C2B, 0x000060C0),
    Regs(0xC5FBAF5D, 0x8370B52E, 0xD2AA1365, 0x6F8D7EF5, 0x12104EE9))
  const Place4 := At(
    Ahead(0xD2E138C4, 0x00000F00, 0x3AFB5079, 0x898E04E5, 0xE2BA3C2B, 0x000060C0, 0x053A37CD, 0x74458547,
          0xDA9415ED, 0x26380A16, 0x626383A1, 0x4EBF54DE, 0x3835B44B, 0x0000F600, 0x1E84C7A3, 0x98E04D98),
    Regs(0x32DE1CBA, 0x4C986405, 0xF718E5CF, 0x03D447F6, 0xF72EEC32))
  const Place5 := At(
    Ahead(0x626383A1, 0x4EBF54DE, 0x3835B44B, 0x0000F600, 0x1E84C7A3, 0x98E04D98, 0x651D16A0, 0x62658CA1,
          0x458544D6, 0x44584CB7, 0x7BA06619, 0x6380AEA2, 0x0AE55269, 0x627B49A1, 0x7CD45C9D, 0x000F0000),
    Regs(0x120731C5, 0xBAF39337, 0xAFAB40B2, 0x2806E11B, 0x8714787C))
  const Place6 := At(
    Ahead(0x7BA06619, 0x6380AEA2, 0x0AE55269, 0x627B49A1, 0x7CD45C9D, 0x000F0000, 0xFB50753A, 0xEC6765E8,
          0xBA3C2BE2, 0x0060C000, 0x3A37CD05, 0x458546F4, 0xB8599DD6, 0x380A1A26, 0x01E02203, 0xE7CC3456),
    Regs(0x3F52DE5A, 0x09D785FD, 0x3498BFD4, 0xF211824F, 0xD79915AB))
  const Place7 := At(
    Ahead(0x3A37CD05, 0x458546F4, 0xB8599DD6, 0x380A1A26, 0x01E02203, 0xE7CC3456, 0xE6E60B69, 0x00F60A00,
          0x5795EF4F, 0x822E0879, 0x7E577CE2, 0x07EF2103, 0x8544E945, 0xEB39DAB8, 0xC205991A, 0x80AECB63),
    Regs(0x3F2588C2, 0x497093C0, 0xDE37534A, 0x030F7CAD, 0x4405957E))
  const Place8 := At(
    Ahead(0x7E577CE2, 0x07EF2103, 0x8544E945, 0xEB39DAB8, 0xC205991A, 0x80AECB63, 0x7D84CA48, 0x7B499B62,
          0x8E8010A8, 0x4B5B8A77, 0x3216B69A, 0x0507E88D, 0x705BEE96, 0x60C0FF00, 0xA28362D0, 0x1DA6B91D),
    Regs(0x42541B35, 0x5738D5E1, 0x21834873, 0x681E6DF6, 0xD8FDF6AD))

  const TraceEarly := Line(0x0116FC33, Line(0x8990536D, Line(0xA1390F08, Line(0xCDD8E11B, Line(0xCFD499DE, End)))))
  const Trace0 := Line(0x3FC7CA40, Line(0x993E30C1, Line(0x9E8C07D4, Line(0x4B6AE328, Line(0x8351F929, End)))))
  const Trace1 :=
    Line(0xFBDA9E89, Line(0x63188FE4, Line(0x4607B664, Line(0x9128F695, Line(0x196BEE77,
    Line(0x20BDD62F, Line(0x4E925823, Line(0x82AA6728, Line(0xDC64901D, Line(0xFD9E1D7D, End))))))))))
  const Trace2 :=
    Line(0x1A37B0CA, Line(0x33A23BFC, Line(0x21283486, Line(0xD541F12D, Line(0xC7567DC6,
    Line(0x48413BA4, Line(0xBE35FBD5, Line(0x4AA84D97, Line(0x8370B52E, Line(0xC5FBAF5D, End))))))))))
  const Trace3 :=
    Line(0x1267B407, Line(0x3B845D33, Line(0x046FAA0A, Line(0x2C0EBC11, Line(0x21796AD4,
    Line(0xDCBBB0CB, Line(0x0F511FD8, Line(0xDC63973F, Line(0x4C986405, Line(0x32DE1CBA, End))))))))))
  const Trace4 :=
    Line(0xFC87DEDF, Line(0x970A0D5C, Line(0x7F193DC5, Line(0xEE1B1AAF, Line(0x40F28E09,
    Line(0x1C51E1F2, Line(0xA01B846C, Line(0xBEAD02CA, Line(0xBAF39337, Line(0x120731C5, End))))))))))
  const Trace5 :=
    Line(0x641DB2CE, Line(0x3847AD66, Line(0xE490436D, Line(0x27E9F1D8, Line(0x7B71F76D,
    Line(0x5E6456AF, Line(0xC846093F, Line(0xD262FF50, Line(0x09D785FD, Line(0x3F52DE5A, End))))))))))
  const Trace6 :=
    Line(0xD756C147, Line(0x548C9CB2, Line(0xB66C020B, Line(0x6B61C9E1, Line(0x19DFA7AC,
    Line(0x101655F9, Line(0x0C3DF2B4, Line(0x78DD4D2B, Line(0x497093C0, Line(0x3F2588C2, End))))))))))
  const Trace7 :=
    Line(0xC199F8C7, Line(0x39859DE7, Line(0xEDB42DE4, Line(0x11793F6F, Line(0x5EE76897,
    Line(0x63F7DAB7, Line(0xA079B7D9, Line(0x860D21CC, Line(0x5738D5E1, Line(0x42541B35, End))))))))))

  lemma StageEarly()
    ensures Traced(0, Place0, TraceEarly, 5, PlaceEarly)
  {
  }

  lemma Stage0()
    ensures Traced(5, PlaceEarly, Trace0, 10, Place1)
  {
  }

  lemma Stage1()
    ensures Traced(10, Place1, Trace1, 20, Place2)
  {
  }

  lemma Stage2()
    ensures Traced(20, Place2, Trace2, 30, Place3)
  {
  }

  lemma Stage3()
    ensures Traced(30, Place3, Trace3, 40, Place4)
  {
  }

  lemma Stage4()
    ensures Traced(40, Place4, Trace4, 50, Place5)
  {
  }

  lemma Stage5()
    ensures Traced(50, Place5, Trace5, 60, Place6)
  {
  }

  lemma Stage6()
    ensures Traced(60, Place6, Trace6, 70, Place7)
  {
  }

  lemma Stage7()
    ensures Traced(70, Place7, Trace7, 80, Place8)
  {
  }

  lemma AllStages(h: Regs, m: seq<Word>)
    requires Reached(h, m, 0, Place0)
    ensures Rounds(h, m, 80) == Place8.regs
  {
    StageEarly();
    Stage0();
    Stage1();
    Stage2();
    Stage3();
    Stage4();
    Stage5();
    Stage6();
    Stage7();
    hide *;
    TracedIs(h, m, 0, Place0, TraceEarly, 5, PlaceEarly);
    TracedIs(h, m, 5, PlaceEarly, Trace0, 10, Place1);
    TracedIs(h, m, 10, Place1, Trace1, 20, Place2);
    TracedIs(h, m, 20, Place2, Trace2, 30, Place3);
    TracedIs(h, m, 30, Place3, Trace3, 40, Place4);
    TracedIs(h, m, 40, Place4, Trace4, 50, Place5);
    TracedIs(h, m, 50, Place5, Trace5, 60, Place6);
    TracedIs(h, m, 60, Place6, Trace6, 70, Place7);
    TracedIs(h, m, 70, Place7, Trace7, 80, Place8);
    ReachedRegs(h, m, 80, Place8);
  }

  lemma ReachedRegs(h: Regs, m: seq<Word>, t: nat, p: At)
    requires Reached(h, m, t, p)
    ensures |m| == 16 && Rounds(h, m, t) == p.regs
  {
    hide Rounds, IsAhead;
  }

  lemma PaddedAbc(msg: seq<Byte>, p: seq<Byte>)
    requires IsAbc(msg) && p == Pad(msg)
    ensures |p| == 64 && p[0] == 0x61 && p[1] == 0x62 && p[2] == 0x63 && p[3] == 0x80 && p[63] == 24
    ensures forall i :: 4 <= i < 63 ==> p[i] == 0
  {
    LengthOfAbc();
    hide LengthBytes;
    assert p == msg + [0x80] + Zeros(52) + LengthBytes(24);
  }

  lemma LengthOfAbc()
    ensures LengthBytes(24) == [0, 0, 0, 0, 0, 0, 0, 24]
  {
    NoneAbove(24, 0x100);
    NoneAbove(24, 0x1_0000);
    NoneAbove(24, 0x100_0000);
    NoneAbove(24, 0x1_0000_0000);
    NoneAbove(24, 0x100_0000_0000);
    NoneAbove(24, 0x1_0000_0000_0000);
    NoneAbove(24, 0x100_0000_0000_0000);
    assert LengthByte(24, 1) == 24;
    hide LengthByte;
  }

  lemma NoneAbove(bits: nat, power: nat)
    requires bits < power
    ensures LengthByte(bits, power) == 0
  {
    assert bits / power == 0;
  }

  lemma WordsOfAbc(msg: seq<Byte>, p: seq<Byte>)
    requires IsAbc(msg) && p == Pad(msg)
    ensures |p| == 64
    ensures var m := BlockWords(p); m[0] == 0x61626380 && m[15] == 24 && forall j :: 1 <= j < 15 ==> m[j] == 0
  {
    PaddedAbc(msg, p);
    SomeWords();
    hide Pad, BigEndian;
    forall j | 1 <= j < 15 ensures BlockWords(p)[j] == 0 {
      assert p[4 * j] == p[4 * j + 1] == p[4 * j + 2] == p[4 * j + 3] == 0;
    }
  }

  lemma SomeWords()
    ensures BigEndian(0x61, 0x62, 0x63, 0x80) == 0x61626380 && BigEndian(0, 0, 0, 24) == 24 && BigEndian(0, 0, 0, 0) == 0
  {
  }

  lemma Starts(m: seq<Word>)
    requires |m| == 16 && m[0] == 0x61626380 && m[15] == 24 && forall j :: 1 <= j < 15 ==> m[j] == 0
    ensures Reached(IV, m, 0, Place0)
  {
    FirstRegs(m);
    forall j | 0 <= j < 16 ensures W(m, j) == m[j] {}
    hide W, Rounds;
    assert IsAhead(m, 0, Place0.ahead);
  }

  lemma FirstRegs(m: seq<Word>)
    requires |m| == 16
    ensures Rounds(IV, m, 0) == Place0.regs
  {
  }

  lemma OneBlock(msg: seq<Byte>)
    requires |Pad(msg)| == 64
    ensures Digest(msg) == RegBytes(Add(IV, Rounds(IV, BlockWords(Pad(msg)), 80)))
  {
    var p := Pad(msg);
    hide Pad, Rounds, BlockWords, RegBytes, Add;
    assert p[64 * 0..64 * 1] == p;
    assert Absorb(IV, p, 1) == Compress(Absorb(IV, p, 0), p);
  }

  lemma LastBytes()
    ensures RegBytes(Add(IV, Place8.regs)) ==
            [0xA9, 0x99, 0x3E, 0x36, 0x47, 0x06, 0x81, 0x6A, 0xBA, 0x3E,
             0x25, 0x71, 0x78, 0x50, 0xC2, 0x6C, 0x9C, 0xD0, 0xD8, 0x9D]
  {
    assert Add(IV, Place8.regs) == Regs(0xA9993E36, 0x4706816A, 0xBA3E2571, 0x7850C26C, 0x9CD0D89D);
  }

  /** The published digest. */
  lemma DigestOfAbc(msg: seq<Byte>)
    requires msg == [0x61, 0x62, 0x63]
    ensures Digest(msg) ==
            [0xA9, 0x99, 0x3E, 0x36, 0x47, 0x06, 0x81, 0x6A, 0xBA, 0x3E,
             0x25, 0x71, 0x78, 0x50, 0xC2, 0x6C, 0x9C, 0xD0, 0xD8, 0x9D]
  {
    assert IsAbc(msg);
    hide *;
    WordsOfAbc(msg, Pad(msg));
    OneBlock(msg);
    Starts(BlockWords(Pad(msg)));
    AllStages(IV, BlockWords(Pad(msg)));
    LastBytes();
  }

  // ---- The length and the schedule ----

  /** The number that bytes stand for, most significant first. */
  function Value(b: seq<Byte>): nat {
    if b == [] then 0 else Value(b[..|b| - 1]) * 256 + b[|b| - 1] as nat
  }

  lemma Same(x: int, y: int, n: nat)
    requires n > 0 && x * n == y * n
    ensures x == y
  {
    Arith.Distribute(x, y, n);
    if x > y { Arith.MulMono(1, x - y, n); }
    if x < y { Arith.Distribute(y, x, n); Arith.MulMono(1, y - x, n); }
  }

  lemma QuotientIs(n: nat, q: nat, power: nat, r: nat)
    requires power > 0 && n == q * power + r && r < power
    ensures n / power == q
  {
    Arith.RemainderIs(n, q, power, r);
    Arith.DivMod(n, power);
    Same(n / power, q, power);
  }

  lemma ByteAgain(d: Byte)
    ensures (d as nat) as Byte == d
  {
  }

  lemma ByteAt(bits: nat, q: nat, d: Byte, power: nat, r: nat)
    requires power > 0 && bits == (q * 256 + d as nat) * power + r && r < power
    ensures LengthByte(bits, power) == d
  {
    var low := d as nat;
    QuotientIs(bits, q * 256 + low, power, r);
    Arith.RemainderIs(q * 256 + low, q, 256, low);
    ByteAgain(d);
  }

  function Bytes(bits: nat, power: nat, n: nat): seq<Byte>
    requires power > 0
    decreases n
  {
    if n == 0 then [] else Bytes(bits, power * 256, n - 1) + [LengthByte(bits, power)]
  }

  lemma {:induction false} BytesRead(b: seq<Byte>, bits: nat, power: nat, r: nat)
    requires power > 0 && bits == Value(b) * power + r && r < power
    ensures Bytes(bits, power, |b|) == b
    decreases |b|
  {
    if b != [] {
      var n := |b| - 1;
      BytesSplit(bits, power, |b|);
      hide *;
      var rest := LastByte(b, bits, power, r);
      BytesRead(b[..n], bits, power * 256, rest);
      assert b[..n] + [b[n]] == b;
    }
  }

  lemma LastByte(b: seq<Byte>, bits: nat, power: nat, r: nat) returns (rest: nat)
    requires b != [] && power > 0 && bits == Value(b) * power + r && r < power
    ensures LengthByte(bits, power) == b[|b| - 1]
    ensures bits == Value(b[..|b| - 1]) * (power * 256) + rest && rest < power * 256
  {
    var q, d := Value(b[..|b| - 1]), b[|b| - 1];
    var low := d as nat;
    ValueSplit(b);
    hide *;
    ByteAt(bits, q, d, power, r);
    Regrouped(q, low, power, r);
    rest := low * power + r;
  }

  lemma ValueSplit(b: seq<Byte>)
    requires b != []
    ensures Value(b) == Value(b[..|b| - 1]) * 256 + b[|b| - 1] as nat
  {
  }

  lemma BytesSplit(bits: nat, power: nat, n: nat)
    requires power > 0 && n > 0
    ensures Bytes(bits, power, n) == Bytes(bits, power * 256, n - 1) + [LengthByte(bits, power)]
  {
  }

  lemma Regrouped(q: nat, d: nat, power: nat, r: nat)
    requires d < 256 && r < power
    ensures (q * 256 + d) * power + r == q * (power * 256) + (d * power + r) && d * power + r < power * 256
  {
    Arith.Distribute(q * 256, d, power);
    Arith.MulMono(d, 255, power);
  }

  lemma EightBytes(bits: nat)
    ensures LengthBytes(bits) == Bytes(bits, 1, 8)
  {
    hide LengthByte;
    assert Bytes(bits, 0x100_0000_0000_0000, 1) == [LengthByte(bits, 0x100_0000_0000_0000)];
    assert Bytes(bits, 0x100_0000_0000, 3) == [LengthByte(bits, 0x100_0000_0000_0000), LengthByte(bits, 0x1_0000_0000_0000), LengthByte(bits, 0x100_0000_0000)];
    assert Bytes(bits, 0x100_0000, 5) == Bytes(bits, 0x100_0000_0000, 3) + [LengthByte(bits, 0x1_0000_0000), LengthByte(bits, 0x100_0000)];
    assert Bytes(bits, 0x100, 7) == Bytes(bits, 0x100_0000, 5) + [LengthByte(bits, 0x1_0000), LengthByte(bits, 0x100)];
  }

  /** Eight bytes are the length that they stand for, most significant byte first. */
  lemma LengthReadsBack(b: seq<Byte>)
    requires |b| == 8
    ensures LengthBytes(Value(b)) == b
  {
    hide *;
    BytesRead(b, Value(b), 1, 0);
    EightBytes(Value(b));
  }

  /** Section 6.1.2, step 1: the sum of four earlier words, rotated by one place. */
  lemma ExpandIs(a: Word, b: Word, c: Word, d: Word)
    ensures Expand(a, b, c, d) == ((a ^ b ^ c ^ d) << 1) | ((a ^ b ^ c ^ d) >> 31)
  {
  }
}
