/**
  The SHA-1 code: the block transform that overwrites its block with a sixteen-word circular schedule,
  and the streaming context, proved against the standard.
  Memory is little-endian, so a `union` of 64 bytes and 16 words reads word j from bytes 4j..4j+3, least first.
  */
module Sha1 {
  import opened Sha1Spec

  // ---------------------------------------------------------------- words in a byte block

  function LittleEndian(b0: Byte, b1: Byte, b2: Byte, b3: Byte): Word {
    ((b3 as Word) << 24) | ((b2 as Word) << 16) | ((b1 as Word) << 8) | (b0 as Word)
  }

  /** `block->l[j]` */
  function L(mem: seq<Byte>, off: nat, j: nat): Word
    requires off + 64 <= |mem| && j < 16
  {
    LittleEndian(mem[off + 4 * j], mem[off + 4 * j + 1], mem[off + 4 * j + 2], mem[off + 4 * j + 3])
  }

  function View(mem: seq<Byte>, off: nat): (v: seq<Word>)
    requires off + 64 <= |mem|
    ensures |v| == 16
  {
    seq(16, j requires 0 <= j < 16 => L(mem, off, j))
  }

  function Rol8(x: Word): Word { (x << 8) | (x >> 24) }
  function Rol24(x: Word): Word { (x << 24) | (x >> 8) }

  /** The byte swap of `blk0`. */
  function Swap(x: Word): Word { (Rol24(x) & 0xFF00FF00) | (Rol8(x) & 0x00FF00FF) }

  lemma SwapLoads(b0: Byte, b1: Byte, b2: Byte, b3: Byte)
    ensures Swap(LittleEndian(b0, b1, b2, b3)) == BigEndian(b0, b1, b2, b3)
  {
  }

  lemma StoreLoads(w: Word)
    ensures LittleEndian((w & 255) as Byte, ((w >> 8) & 255) as Byte, ((w >> 16) & 255) as Byte, (w >> 24) as Byte) == w
  {
  }

  lemma ViewUpdated(before: seq<Byte>, after: seq<Byte>, off: nat, j: nat, w: Word)
    requires |before| == |after| && off + 64 <= |after| && j < 16 && L(after, off, j) == w
    requires forall k :: 0 <= k < |after| && !(off + 4 * j <= k < off + 4 * j + 4) ==> after[k] == before[k]
    ensures View(after, off) == View(before, off)[j := w]
    ensures after[..off] == before[..off] && after[off + 64..] == before[off + 64..]
  {
    hide LittleEndian;
    assert forall i :: 0 <= i < 16 && i != j ==> L(after, off, i) == L(before, off, i);
  }

  method StoreL(mem: array<Byte>, off: nat, j: nat, w: Word)
    requires off + 64 <= mem.Length && j < 16
    modifies mem
    ensures View(mem[..], off) == View(old(mem[..]), off)[j := w]
    ensures mem[..off] == old(mem[..off]) && mem[off + 64..] == old(mem[off + 64..])
  {
    hide LittleEndian;
    ghost var before := mem[..];
    var o := off + 4 * j;
    mem[o] := (w & 255) as Byte;
    mem[o + 1] := ((w >> 8) & 255) as Byte;
    mem[o + 2] := ((w >> 16) & 255) as Byte;
    mem[o + 3] := (w >> 24) as Byte;
    StoreLoads(w);
    ViewUpdated(before, mem[..], off, j, w);
  }

  // ---------------------------------------------------------------- the in-place schedule

  /** What word j of the block holds before round t: the latest schedule word whose index is j modulo 16. */
  ghost predicate Scheduled(v: seq<Word>, m: seq<Word>, t: nat)
    requires |v| == 16 && |m| == 16
  {
    if t < 16 then forall j :: 0 <= j < 16 ==> (if j < t then v[j] else Swap(v[j])) == m[j]
    else forall j :: 0 <= j < 16 ==> v[j] == W(m, t - 16 + (j - t) % 16)
  }

  lemma Circular(t: nat, c: nat)
    requires c < 16
    ensures ((t + c) % 16 - t) % 16 == c
  {
    var q := (t + c) / 16;
    assert (t + c) % 16 - t == c - 16 * q;
  }

  lemma {:induction false} FirstWords(v: seq<Word>, m: seq<Word>, t: nat)
    requires |v| == 16 && |m| == 16 && t < 16 && Scheduled(v, m, t)
    ensures Scheduled(v[t := m[t]], m, t + 1)
  {
  }

  lemma {:induction false} NextWord(v: seq<Word>, m: seq<Word>, t: nat)
    requires |v| == 16 && |m| == 16 && t >= 16 && Scheduled(v, m, t)
    ensures Expand(v[(t + 13) % 16], v[(t + 8) % 16], v[(t + 2) % 16], v[t % 16]) == W(m, t)
    ensures Scheduled(v[t % 16 := W(m, t)], m, t + 1)
  {
    hide Expand;
    Circular(t, 13);
    Circular(t, 8);
    Circular(t, 2);
    Circular(t, 0);
    Overwritten(v, m, t);
  }

  lemma {:induction false} Overwritten(v: seq<Word>, m: seq<Word>, t: nat)
    requires |v| == 16 && |m| == 16 && t >= 16 && Scheduled(v, m, t)
    ensures Scheduled(v[t % 16 := W(m, t)], m, t + 1)
  {
    hide W;
    var v' := v[t % 16 := W(m, t)];
    forall j | 0 <= j < 16 ensures v'[j] == W(m, t + 1 - 16 + (j - (t + 1)) % 16) {
      if j == t % 16 {
        assert (j - (t + 1)) % 16 == 15;
      } else {
        assert (j - (t + 1)) % 16 == (j - t) % 16 - 1;
      }
    }
  }

  method Blk0(mem: array<Byte>, off: nat, t: nat, ghost m: seq<Word>) returns (w: Word)
    requires off + 64 <= mem.Length && t < 16 && |m| == 16 && Scheduled(View(mem[..], off), m, t)
    modifies mem
    ensures w == W(m, t) && Scheduled(View(mem[..], off), m, t + 1)
    ensures mem[..off] == old(mem[..off]) && mem[off + 64..] == old(mem[off + 64..])
  {
    hide Swap, L, LittleEndian;
    FirstWords(View(mem[..], off), m, t);
    w := Swap(LoadL(mem, off, t));
    StoreL(mem, off, t, w);
  }

  function LoadL(mem: array<Byte>, off: nat, j: nat): (w: Word)
    requires off + 64 <= mem.Length && j < 16
    reads mem
    ensures w == View(mem[..], off)[j]
  {
    LittleEndian(mem[off + 4 * j], mem[off + 4 * j + 1], mem[off + 4 * j + 2], mem[off + 4 * j + 3])
  }

  method Blk(mem: array<Byte>, off: nat, t: nat, ghost m: seq<Word>) returns (w: Word)
    requires off + 64 <= mem.Length && t >= 16 && |m| == 16 && Scheduled(View(mem[..], off), m, t)
    modifies mem
    ensures w == W(m, t) && Scheduled(View(mem[..], off), m, t + 1)
    ensures mem[..off] == old(mem[..off]) && mem[off + 64..] == old(mem[off + 64..])
  {
    hide Scheduled, W, Expand, L, LittleEndian, View;
    NextWord(View(mem[..], off), m, t);
    w := Expand(LoadL(mem, off, (t + 13) % 16), LoadL(mem, off, (t + 8) % 16),
                LoadL(mem, off, (t + 2) % 16), LoadL(mem, off, t % 16));
    StoreL(mem, off, t % 16, w);
  }

  // ---------------------------------------------------------------- rounds on renamed registers

  /** Before round t the registers hold the standard's state and the block its schedule. */
  ghost predicate At(h: Regs, m: seq<Word>, t: nat, mem: seq<Byte>, off: nat, r: Regs)
    requires |m| == 16 && off + 64 <= |mem|
  {
    r == Rounds(h, m, t) && Scheduled(View(mem, off), m, t)
  }

  /** The new value of z in the round macros. */
  function Mix(v: Word, z: Word, f: Word, b: Word, k: Word): Word { z + (f + b + k + Rotl5(v)) }

  function MixCh(w: Word, x: Word, y: Word): Word { (w & (x ^ y)) ^ y }
  function MixMaj(w: Word, x: Word, y: Word): Word { ((w | x) & y) | (w & x) }

  lemma ChBits(w: Word, x: Word, y: Word)
    ensures (w & (x ^ y)) ^ y == (w & x) ^ (!w & y)
  {
  }

  lemma MajBits(w: Word, x: Word, y: Word)
    ensures ((w | x) & y) | (w & x) == (w & x) ^ (w & y) ^ (x & y)
  {
  }

  /** The rewritten choice function agrees with the standard's. */
  lemma ChForm(w: Word, x: Word, y: Word)
    ensures MixCh(w, x, y) == Ch(w, x, y)
  {
    ChBits(w, x, y);
  }

  /** So does the rewritten majority function. */
  lemma MajForm(w: Word, x: Word, y: Word)
    ensures MixMaj(w, x, y) == Maj(w, x, y)
  {
    MajBits(w, x, y);
  }

  lemma MixForm(v: Word, z: Word, f: Word, b: Word, k: Word)
    ensures Mix(v, z, f, b, k) == T(v, f, z, k, b)
  {
    hide Rotl5;
  }

  lemma {:induction false} NextRegs(h: Regs, m: seq<Word>, i: nat, v: Word, w: Word, x: Word, y: Word, z: Word)
    requires |m| == 16 && Regs(v, w, x, y, z) == Rounds(h, m, i)
    ensures Rounds(h, m, i + 1) == Regs(T(v, F(i, w, x, y), z, K(i), W(m, i)), v, Rotl30(w), x, y)
  {
    hide F, K, W, T, Rotl30;
  }

  method R0(mem: array<Byte>, off: nat, v: Word, w: Word, x: Word, y: Word, z: Word, i: nat, ghost h: Regs, ghost m: seq<Word>)
    returns (z': Word, w': Word)
    requires off + 64 <= mem.Length && |m| == 16 && i < 16 && At(h, m, i, mem[..], off, Regs(v, w, x, y, z))
    modifies mem
    ensures At(h, m, i + 1, mem[..], off, Regs(z', v, w', x, y))
    ensures mem[..off] == old(mem[..off]) && mem[off + 64..] == old(mem[off + 64..])
  {
    hide Scheduled, W, View, T, Rotl30, Ch, Maj, Parity, MixCh, MixMaj, Mix, Rounds;
    NextRegs(h, m, i, v, w, x, y, z);
    var b := Blk0(mem, off, i, m);
    ChForm(w, x, y);
    MixForm(v, z, MixCh(w, x, y), b, 0x5A827999);
    z' := Mix(v, z, MixCh(w, x, y), b, 0x5A827999);
    w' := Rotl30(w);
  }

  method R1(mem: array<Byte>, off: nat, v: Word, w: Word, x: Word, y: Word, z: Word, i: nat, ghost h: Regs, ghost m: seq<Word>)
    returns (z': Word, w': Word)
    requires off + 64 <= mem.Length && |m| == 16 && 16 <= i < 20 && At(h, m, i, mem[..], off, Regs(v, w, x, y, z))
    modifies mem
    ensures At(h, m, i + 1, mem[..], off, Regs(z', v, w', x, y))
    ensures mem[..off] == old(mem[..off]) && mem[off + 64..] == old(mem[off + 64..])
  {
    hide Scheduled, W, View, T, Rotl30, Ch, Maj, Parity, MixCh, MixMaj, Mix, Rounds;
    NextRegs(h, m, i, v, w, x, y, z);
    var b := Blk(mem, off, i, m);
    ChForm(w, x, y);
    MixForm(v, z, MixCh(w, x, y), b, 0x5A827999);
    z' := Mix(v, z, MixCh(w, x, y), b, 0x5A827999);
    w' := Rotl30(w);
  }

  method R2(mem: array<Byte>, off: nat, v: Word, w: Word, x: Word, y: Word, z: Word, i: nat, ghost h: Regs, ghost m: seq<Word>)
    returns (z': Word, w': Word)
    requires off + 64 <= mem.Length && |m| == 16 && 20 <= i < 40 && At(h, m, i, mem[..], off, Regs(v, w, x, y, z))
    modifies mem
    ensures At(h, m, i + 1, mem[..], off, Regs(z', v, w', x, y))
    ensures mem[..off] == old(mem[..off]) && mem[off + 64..] == old(mem[off + 64..])
  {
    hide Scheduled, W, View, T, Rotl30, Ch, Maj, Parity, MixCh, MixMaj, Mix, Rounds;
    NextRegs(h, m, i, v, w, x, y, z);
    var b := Blk(mem, off, i, m);
    MixForm(v, z, Parity(w, x, y), b, 0x6ED9EBA1);
    z' := Mix(v, z, Parity(w, x, y), b, 0x6ED9EBA1);
    w' := Rotl30(w);
  }

  method R3(mem: array<Byte>, off: nat, v: Word, w: Word, x: Word, y: Word, z: Word, i: nat, ghost h: Regs, ghost m: seq<Word>)
    returns (z': Word, w': Word)
    requires off + 64 <= mem.Length && |m| == 16 && 40 <= i < 60 && At(h, m, i, mem[..], off, Regs(v, w, x, y, z))
    modifies mem
    ensures At(h, m, i + 1, mem[..], off, Regs(z', v, w', x, y))
    ensures mem[..off] == old(mem[..off]) && mem[off + 64..] == old(mem[off + 64..])
  {
    hide Scheduled, W, View, T, Rotl30, Ch, Maj, Parity, MixCh, MixMaj, Mix, Rounds;
    NextRegs(h, m, i, v, w, x, y, z);
    var b := Blk(mem, off, i, m);
    MajForm(w, x, y);
    MixForm(v, z, MixMaj(w, x, y), b, 0x8F1BBCDC);
    z' := Mix(v, z, MixMaj(w, x, y), b, 0x8F1BBCDC);
    w' := Rotl30(w);
  }

  method R4(mem: array<Byte>, off: nat, v: Word, w: Word, x: Word, y: Word, z: Word, i: nat, ghost h: Regs, ghost m: seq<Word>)
    returns (z': Word, w': Word)
    requires off + 64 <= mem.Length && |m| == 16 && 60 <= i < 80 && At(h, m, i, mem[..], off, Regs(v, w, x, y, z))
    modifies mem
    ensures At(h, m, i + 1, mem[..], off, Regs(z', v, w', x, y))
    ensures mem[..off] == old(mem[..off]) && mem[off + 64..] == old(mem[off + 64..])
  {
    hide Scheduled, W, View, T, Rotl30, Ch, Maj, Parity, MixCh, MixMaj, Mix, Rounds;
    NextRegs(h, m, i, v, w, x, y, z);
    var b := Blk(mem, off, i, m);
    MixForm(v, z, Parity(w, x, y), b, 0xCA62C1D6);
    z' := Mix(v, z, Parity(w, x, y), b, 0xCA62C1D6);
    w' := Rotl30(w);
  }

  // ---------------------------------------------------------------- the block transform

  method Rounds0(mem: array<Byte>, off: nat, r: Regs, ghost h: Regs, ghost m: seq<Word>) returns (r': Regs)
    requires off + 64 <= mem.Length && |m| == 16 && At(h, m, 0, mem[..], off, r)
    modifies mem
    ensures At(h, m, 20, mem[..], off, r')
    ensures mem[..off] == old(mem[..off]) && mem[off + 64..] == old(mem[off + 64..])
  {
    hide At;
    var Regs(a, b, c, d, e) := r;
    e, b := R0(mem, off, a, b, c, d, e, 0, h, m);
    d, a := R0(mem, off, e, a, b, c, d, 1, h, m);
    c, e := R0(mem, off, d, e, a, b, c, 2, h, m);
    b, d := R0(mem, off, c, d, e, a, b, 3, h, m);
    a, c := R0(mem, off, b, c, d, e, a, 4, h, m);
    e, b := R0(mem, off, a, b, c, d, e, 5, h, m);
    d, a := R0(mem, off, e, a, b, c, d, 6, h, m);
    c, e := R0(mem, off, d, e, a, b, c, 7, h, m);
    b, d := R0(mem, off, c, d, e, a, b, 8, h, m);
    a, c := R0(mem, off, b, c, d, e, a, 9, h, m);
    e, b := R0(mem, off, a, b, c, d, e, 10, h, m);
    d, a := R0(mem, off, e, a, b, c, d, 11, h, m);
    c, e := R0(mem, off, d, e, a, b, c, 12, h, m);
    b, d := R0(mem, off, c, d, e, a, b, 13, h, m);
    a, c := R0(mem, off, b, c, d, e, a, 14, h, m);
    e, b := R0(mem, off, a, b, c, d, e, 15, h, m);
    d, a := R1(mem, off, e, a, b, c, d, 16, h, m);
    c, e := R1(mem, off, d, e, a, b, c, 17, h, m);
    b, d := R1(mem, off, c, d, e, a, b, 18, h, m);
    a, c := R1(mem, off, b, c, d, e, a, 19, h, m);
    r' := Regs(a, b, c, d, e);
  }

  method Rounds20(mem: array<Byte>, off: nat, r: Regs, ghost h: Regs, ghost m: seq<Word>) returns (r': Regs)
    requires off + 64 <= mem.Length && |m| == 16 && At(h, m, 20, mem[..], off, r)
    modifies mem
    ensures At(h, m, 40, mem[..], off, r')
    ensures mem[..off] == old(mem[..off]) && mem[off + 64..] == old(mem[off + 64..])
  {
    hide At;
    var Regs(a, b, c, d, e) := r;
    e, b := R2(mem, off, a, b, c, d, e, 20, h, m);
    d, a := R2(mem, off, e, a, b, c, d, 21, h, m);
    c, e := R2(mem, off, d, e, a, b, c, 22, h, m);
    b, d := R2(mem, off, c, d, e, a, b, 23, h, m);
    a, c := R2(mem, off, b, c, d, e, a, 24, h, m);
    e, b := R2(mem, off, a, b, c, d, e, 25, h, m);
    d, a := R2(mem, off, e, a, b, c, d, 26, h, m);
    c, e := R2(mem, off, d, e, a, b, c, 27, h, m);
    b, d := R2(mem, off, c, d, e, a, b, 28, h, m);
    a, c := R2(mem, off, b, c, d, e, a, 29, h, m);
    e, b := R2(mem, off, a, b, c, d, e, 30, h, m);
    d, a := R2(mem, off, e, a, b, c, d, 31, h, m);
    c, e := R2(mem, off, d, e, a, b, c, 32, h, m);
    b, d := R2(mem, off, c, d, e, a, b, 33, h, m);
    a, c := R2(mem, off, b, c, d, e, a, 34, h, m);
    e, b := R2(mem, off, a, b, c, d, e, 35, h, m);
    d, a := R2(mem, off, e, a, b, c, d, 36, h, m);
    c, e := R2(mem, off, d, e, a, b, c, 37, h, m);
    b, d := R2(mem, off, c, d, e, a, b, 38, h, m);
    a, c := R2(mem, off, b, c, d, e, a, 39, h, m);
    r' := Regs(a, b, c, d, e);
  }

  method Rounds40(mem: array<Byte>, off: nat, r: Regs, ghost h: Regs, ghost m: seq<Word>) returns (r': Regs)
    requires off + 64 <= mem.Length && |m| == 16 && At(h, m, 40, mem[..], off, r)
    modifies mem
    ensures At(h, m, 60, mem[..], off, r')
    ensures mem[..off] == old(mem[..off]) && mem[off + 64..] == old(mem[off + 64..])
  {
    hide At;
    var Regs(a, b, c, d, e) := r;
    e, b := R3(mem, off, a, b, c, d, e, 40, h, m);
    d, a := R3(mem, off, e, a, b, c, d, 41, h, m);
    c, e := R3(mem, off, d, e, a, b, c, 42, h, m);
    b, d := R3(mem, off, c, d, e, a, b, 43, h, m);
    a, c := R3(mem, off, b, c, d, e, a, 44, h, m);
    e, b := R3(mem, off, a, b, c, d, e, 45, h, m);
    d, a := R3(mem, off, e, a, b, c, d, 46, h, m);
    c, e := R3(mem, off, d, e, a, b, c, 47, h, m);
    b, d := R3(mem, off, c, d, e, a, b, 48, h, m);
    a, c := R3(mem, off, b, c, d, e, a, 49, h, m);
    e, b := R3(mem, off, a, b, c, d, e, 50, h, m);
    d, a := R3(mem, off, e, a, b, c, d, 51, h, m);
    c, e := R3(mem, off, d, e, a, b, c, 52, h, m);
    b, d := R3(mem, off, c, d, e, a, b, 53, h, m);
    a, c := R3(mem, off, b, c, d, e, a, 54, h, m);
    e, b := R3(mem, off, a, b, c, d, e, 55, h, m);
    d, a := R3(mem, off, e, a, b, c, d, 56, h, m);
    c, e := R3(mem, off, d, e, a, b, c, 57, h, m);
    b, d := R3(mem, off, c, d, e, a, b, 58, h, m);
    a, c := R3(mem, off, b, c, d, e, a, 59, h, m);
    r' := Regs(a, b, c, d, e);
  }

  method Rounds60(mem: array<Byte>, off: nat, r: Regs, ghost h: Regs, ghost m: seq<Word>) returns (r': Regs)
    requires off + 64 <= mem.Length && |m| == 16 && At(h, m, 60, mem[..], off, r)
    modifies mem
    ensures At(h, m, 80, mem[..], off, r')
    ensures mem[..off] == old(mem[..off]) && mem[off + 64..] == old(mem[off + 64..])
  {
    hide At;
    var Regs(a, b, c, d, e) := r;
    e, b := R4(mem, off, a, b, c, d, e, 60, h, m);
    d, a := R4(mem, off, e, a, b, c, d, 61, h, m);
    c, e := R4(mem, off, d, e, a, b, c, 62, h, m);
    b, d := R4(mem, off, c, d, e, a, b, 63, h, m);
    a, c := R4(mem, off, b, c, d, e, a, 64, h, m);
    e, b := R4(mem, off, a, b, c, d, e, 65, h, m);
    d, a := R4(mem, off, e, a, b, c, d, 66, h, m);
    c, e := R4(mem, off, d, e, a, b, c, 67, h, m);
    b, d := R4(mem, off, c, d, e, a, b, 68, h, m);
    a, c := R4(mem, off, b, c, d, e, a, 69, h, m);
    e, b := R4(mem, off, a, b, c, d, e, 70, h, m);
    d, a := R4(mem, off, e, a, b, c, d, 71, h, m);
    c, e := R4(mem, off, d, e, a, b, c, 72, h, m);
    b, d := R4(mem, off, c, d, e, a, b, 73, h, m);
    a, c := R4(mem, off, b, c, d, e, a, 74, h, m);
    e, b := R4(mem, off, a, b, c, d, e, 75, h, m);
    d, a := R4(mem, off, e, a, b, c, d, 76, h, m);
    c, e := R4(mem, off, d, e, a, b, c, 77, h, m);
    b, d := R4(mem, off, c, d, e, a, b, 78, h, m);
    a, c := R4(mem, off, b, c, d, e, a, 79, h, m);
    r' := Regs(a, b, c, d, e);
  }

  lemma {:induction false} ScheduleStart(mem: seq<Byte>, off: nat)
    requires off + 64 <= |mem|
    ensures Scheduled(View(mem, off), BlockWords(mem[off..off + 64]), 0)
  {
    hide Swap, LittleEndian, BigEndian;
    forall j | 0 <= j < 16 ensures Swap(View(mem, off)[j]) == BlockWords(mem[off..off + 64])[j] {
      SwapLoads(mem[off + 4 * j], mem[off + 4 * j + 1], mem[off + 4 * j + 2], mem[off + 4 * j + 3]);
    }
  }

  function RegsOf(state: seq<Word>): Regs
    requires |state| == 5
  {
    Regs(state[0], state[1], state[2], state[3], state[4])
  }

  method EightyRounds(mem: array<Byte>, off: nat, r: Regs, ghost m: seq<Word>) returns (r': Regs)
    requires off + 64 <= mem.Length && |m| == 16 && Scheduled(View(mem[..], off), m, 0)
    modifies mem
    ensures r' == Rounds(r, m, 80)
    ensures mem[..off] == old(mem[..off]) && mem[off + 64..] == old(mem[off + 64..])
  {
    hide Scheduled, View;
    NoRounds(r, m);
    hide Rounds;
    r' := Rounds0(mem, off, r, r, m);
    r' := Rounds20(mem, off, r', r, m);
    r' := Rounds40(mem, off, r', r, m);
    r' := Rounds60(mem, off, r', r, m);
  }

  lemma NoRounds(h: Regs, m: seq<Word>)
    requires |m| == 16
    ensures Rounds(h, m, 0) == h
  {
  }

  method AddInto(state: array<Word>, r: Regs)
    requires state.Length == 5
    modifies state
    ensures RegsOf(state[..]) == Add(RegsOf(old(state[..])), r)
  {
    hide Plus;
    state[0] := Plus(state[0], r.a);
    state[1] := Plus(state[1], r.b);
    state[2] := Plus(state[2], r.c);
    state[3] := Plus(state[3], r.d);
    state[4] := Plus(state[4], r.e);
  }

  /** `SHA1_Transform`: the standard's compression of the block as it was; the block itself is overwritten. */
  method Transform(state: array<Word>, mem: array<Byte>, off: nat)
    requires state.Length == 5 && off + 64 <= mem.Length
    modifies state, mem
    ensures RegsOf(state[..]) == Compress(RegsOf(old(state[..])), old(mem[off..off + 64]))
    ensures mem[..off] == old(mem[..off]) && mem[off + 64..] == old(mem[off + 64..])
  {
    hide Scheduled, Rounds, Add;
    ScheduleStart(mem[..], off);
    assert mem[..][off..off + 64] == mem[off..off + 64];
    var r := EightyRounds(mem, off, Regs(state[0], state[1], state[2], state[3], state[4]), BlockWords(mem[off..off + 64]));
    AddInto(state, r);
  }
}
