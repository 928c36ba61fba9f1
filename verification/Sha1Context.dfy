/**
  The streaming SHA-1 context: for any chunking, the digest of the whole message.
  */
module Sha1Context {
  import opened Sha1Spec
  import Sha1

  // ---------------------------------------------------------------- the bit counter

  /** The two 32-bit counter words after `SHA1_Update` has added len bytes. */
  function CountLow(low: nat, len: nat): nat { (low + len * 8 % TWO32) % TWO32 }

  function CountHigh(low: nat, high: nat, len: nat): nat {
    var carry := if CountLow(low, len) < len * 8 % TWO32 then 1 else 0;
    ((high + carry) % TWO32 + len / 0x2000_0000) % TWO32
  }

  lemma CarryDetected(low: nat, shifted: nat)
    requires low < TWO32 && shifted < TWO32
    ensures var sum := (low + shifted) % TWO32;
            low + shifted == sum + if sum < shifted then TWO32 else 0
  {
  }

  lemma ModAdd(a: nat, b: nat)
    ensures (a % TWO32 + b) % TWO32 == (a + b) % TWO32
  {
    var q := a / TWO32;
    assert a + b == q * TWO32 + (a % TWO32 + b);
  }

  /** Carry detection by comparison makes the pair a 64-bit bit counter. */
  lemma {:induction false} CounterAdds(low: nat, high: nat, len: nat)
    requires low < TWO32 && high < TWO32 && len < TWO32
    ensures CountHigh(low, high, len) * TWO32 + CountLow(low, len) == (high * TWO32 + low + 8 * len) % TWO64
  {
    var shifted, top, sum := len * 8 % TWO32, len / 0x2000_0000, CountLow(low, len);
    assert 8 * len == top * TWO32 + shifted;
    CarryDetected(low, shifted);
    var carry := if sum < shifted then 1 else 0;
    ModAdd(high + carry, top);
    SplitCounter(high + carry + top, sum);
    assert high * TWO32 + low + 8 * len == (high + carry + top) * TWO32 + sum;
  }

  lemma SplitCounter(high: nat, low: nat)
    requires low < TWO32
    ensures (high * TWO32 + low) % TWO64 == high % TWO32 * TWO32 + low
  {
    var q := high / TWO32;
    assert high * TWO32 + low == q * TWO64 + (high % TWO32 * TWO32 + low);
  }

  /** The low counter word still tells how many bytes are pending. */
  lemma PendingFromCount(low: nat, high: nat, n: nat)
    requires low < TWO32 && high * TWO32 + low == 8 * n % TWO64
    ensures low / 8 % 64 == n % 64
  {
    var q := 8 * n / TWO64;
    assert 8 * n == q * TWO64 + high * TWO32 + low;
    assert low == 8 * (n - q * 0x2000_0000_0000_0000 - high * 0x2000_0000);
    assert low / 8 == n - q * 0x2000_0000_0000_0000 - high * 0x2000_0000;
    assert n == low / 8 + 64 * (q * 0x80_0000_0000_0000 + high * 0x80_0000);
  }

  // ---------------------------------------------------------------- chunks

  /** `memcpy` of n bytes. */
  method Copy(src: array<Byte>, from: nat, dst: array<Byte>, to: nat, n: nat)
    requires src != dst && from + n <= src.Length && to + n <= dst.Length
    modifies dst
    ensures dst[..to] == old(dst[..to]) && dst[to + n..] == old(dst[to + n..])
    ensures dst[to..to + n] == src[from..from + n]
  {
    for k := 0 to n
      invariant dst[..to] == old(dst[..to]) && dst[to + n..] == old(dst[to + n..])
      invariant dst[to..to + k] == src[from..from + k]
    {
      dst[to + k] := src[from + k];
    }
  }

  lemma AbsorbNext(msg: seq<Byte>, n: nat)
    requires n % 64 == 0 && n + 64 <= |msg|
    ensures Absorb(IV, msg, (n + 64) / 64) == Compress(Absorb(IV, msg, n / 64), msg[n..n + 64])
  {
    assert 64 * (n / 64) == n && (n + 64) / 64 == n / 64 + 1;
  }

  class ShaCtx {
    const state: array<Word>
    const buffer: array<Byte>
    var low: nat
    var high: nat
    ghost var msg: seq<Byte>

    /** The counter counts bits, the state has absorbed every full block, the buffer starts with the rest. */
    ghost predicate Valid()
      reads this, state, buffer
    {
      && Shape()
      && low < TWO32 && high < TWO32 && high * TWO32 + low == 8 * |msg| % TWO64
      && Sha1.RegsOf(state[..]) == Absorb(IV, msg, |msg| / 64)
      && buffer[..|msg| % 64] == msg[|msg| / 64 * 64..]
    }

    predicate Shape() {
      state.Length == 5 && buffer.Length == 64 && state as object != buffer
    }

    constructor ()
      ensures Shape() && fresh(state) && fresh(buffer)
    {
      state := new Word[5];
      buffer := new Byte[64];
      low, high, msg := 0, 0, [];
    }

    method Init()
      requires Shape()
      modifies this, state
      ensures Valid() && msg == []
    {
      state[0] := 0x67452301;
      state[1] := 0xEFCDAB89;
      state[2] := 0x98BADCFE;
      state[3] := 0x10325476;
      state[4] := 0xC3D2E1F0;
      low, high := 0, 0;
      msg := [];
    }

    /** The loop of `SHA1_Update` over blocks that lie wholly in the caller's data; `all` is the message with
        that data, which starts at n. */
    method Blocks(data: array<Byte>, start: nat, len: nat, ghost all: seq<Byte>, ghost n: nat) returns (i: nat)
      requires Shape() && data as object != state && start <= len <= data.Length
      requires |all| == n + len && (n + start) % 64 == 0 && n % 64 + len < TWO32
      requires Supplies(data[..], start, all, n)
      requires Sha1.RegsOf(state[..]) == Absorb(IV, all, (n + start) / 64)
      modifies state, data
      ensures start <= i <= len < i + 64 && (n + i) % 64 == 0
      ensures Sha1.RegsOf(state[..]) == Absorb(IV, all, (n + i) / 64)
      ensures Supplies(data[..], i, all, n)
      ensures len < start + 64 ==> data[..] == old(data[..])
    {
      hide Absorb, Compress, Sha1.RegsOf;
      i := start;
      SumFits(n, i, len);
      while i + 63 < len
        invariant start <= i <= len && (n + i) % 64 == 0 && i + 63 < TWO32
        invariant Sha1.RegsOf(state[..]) == Absorb(IV, all, (n + i) / 64)
        invariant Supplies(data[..], i, all, n)
        invariant i == start ==> data[..] == old(data[..])
      {
        AbsorbNext(all, n + i);
        ghost var before := data[..];
        OneBlock(before, i, all, n);
        assert data[i..i + 64] == before[i..i + 64];
        Sha1.Transform(state, data, i);
        KeepsSupply(before, data[..], i, all, n);
        i := i + 64;
        SumFits(n, i, len);
      }
    }

    /** The part of `SHA1_Update` that completes the pending block and transforms what it can. */
    method Absorbing(data: array<Byte>, len: nat, j: nat) returns (i: nat)
      requires Shape() && data != buffer && data as object != state && len <= data.Length
      requires Sha1.RegsOf(state[..]) == Absorb(IV, msg, |msg| / 64)
      requires j == |msg| % 64 && 63 < j + len < TWO32 && buffer[..j] == msg[|msg| / 64 * 64..]
      modifies state, buffer, data
      ensures var all := msg + old(data[..len]);
              && i <= len < i + 64 && (|msg| + i) % 64 == 0
              && Sha1.RegsOf(state[..]) == Absorb(IV, all, (|msg| + i) / 64)
              && Supplies(data[..], i, all, |msg|)
      ensures j + len < 128 ==> data[..] == old(data[..])
    {
      hide Absorb, Compress, Sha1.RegsOf;
      ghost var all := msg + data[..len];
      i := 64 - j;
      Copy(data, 0, buffer, j, i);
      assert buffer[..][j..] == buffer[j..j + i] == data[0..i] == data[..len][..i];
      assert buffer[..][..j] == buffer[..j];
      FirstBlock(msg, data[..len], buffer[..]);
      assert Supplies(data[..], i, all, |msg|);
      Sha1.Transform(state, buffer, 0);
      i := Blocks(data, i, len, all, |msg|);
    }

    method Count(len: nat)
      requires len < TWO32 && low < TWO32 && high < TWO32 && high * TWO32 + low == 8 * |msg| % TWO64
      modifies `low, `high
      ensures low < TWO32 && high < TWO32 && high * TWO32 + low == 8 * (|msg| + len) % TWO64
    {
      CounterAdds(low, high, len);
      SumMod(|msg|, len);
      low, high := CountLow(low, len), CountHigh(low, high, len);
    }

    /** `SHA1_Update`. The data blocks that the transform works on are overwritten, so the message grows by
        the data as it was. */
    method Update(data: array<Byte>, len: nat)
      requires Valid() && data != buffer && data as object != state && len <= data.Length && |msg| % 64 + len < TWO32
      modifies this, state, buffer, data
      ensures Valid() && msg == old(msg) + old(data[..len])
      ensures old(|msg|) % 64 + len < 128 ==> data[..] == old(data[..])
    {
      hide Absorb, Sha1.RegsOf, Supplies;
      ghost var before, all := msg, msg + data[..len];
      PendingFromCount(low, high, |msg|);
      var j := low / 8 % 64;
      Count(len);
      var i := 0;
      if j + len > 63 {
        i := Absorbing(data, len, j);
        j := 0;
        Remainder(data[..], i, len, all, |msg|);
      } else {
        AbsorbMore(before, data[..len]);
      }
      Copy(data, i, buffer, j, len - i);
      msg := all;
      if i == 0 { PendingGrows(before, data[..len], buffer[..], j); }
    }

    /** The eight counter bytes, most significant first. */
    method CountBytes(finalcount: array<Byte>)
      requires Valid() && finalcount.Length == 8 && finalcount != buffer && finalcount as object != state
      modifies finalcount
      ensures Valid() && finalcount[..] == LengthBytes(8 * |msg| % TWO64)
    {
      hide Absorb, Sha1.RegsOf;
      for i := 0 to 8
        invariant Valid() && finalcount[..i] == CounterBytes(high, low)[..i]
      {
        finalcount[i] := CounterByte(if i >= 4 then low else high, 3 - i % 4);
      }
      assert finalcount[..] == finalcount[..8];
      CounterIsLength(high, low);
    }

    /** `SHA1_Update` of a one-byte string literal. */
    method UpdateByte(b: Byte)
      requires Valid()
      modifies this, state, buffer
      ensures Valid() && msg == old(msg) + [b] && low / 8 % 64 == |msg| % 64
    {
      hide Absorb, Sha1.RegsOf;
      var literal := new Byte[1];
      literal[0] := b;
      assert literal[..1] == [b];
      Update(literal, 1);
      PendingFromCount(low, high, |msg|);
    }

    /** The padding of section 5.1.1, fed one byte at a time until eight bytes are missing, then the length. */
    method PadAndAbsorb(finalcount: array<Byte>)
      requires Valid() && finalcount.Length == 8 && finalcount != buffer && finalcount as object != state
      requires finalcount[..] == LengthBytes(8 * |msg| % TWO64)
      modifies this, state, buffer, finalcount
      ensures Valid() && msg == Pad(old(msg))
    {
      hide Absorb, Sha1.RegsOf, LengthBytes, Valid, Zeros;
      ghost var m, z, k := msg, (55 - |msg|) % 64, 0;
      UpdateByte(0x80);
      MoreZeros(m + [0x80], 0);
      while low / 8 % 64 * 8 != 448
        invariant Valid() && k <= z && msg == m + [0x80] + Zeros(k) && low / 8 % 64 == |msg| % 64
        invariant finalcount[..] == LengthBytes(8 * |m| % TWO64)
        decreases z - k
      {
        PaddingGoesOn(|m|, k);
        MoreZeros(m + [0x80], k);
        UpdateByte(0);
        k := k + 1;
      }
      PaddingGoesOn(|m|, k);
      assert finalcount[..8] == finalcount[..];
      Update(finalcount, 8);
    }

    method PutDigest(digest: array<Byte>)
      requires Shape() && digest.Length >= 20 && digest != buffer && digest as object != state
      modifies digest
      ensures digest[..20] == RegBytes(Sha1.RegsOf(state[..])) && digest[20..] == old(digest[20..])
    {
      hide WordByte;
      for i := 0 to 20
        invariant forall k :: 0 <= k < i ==> digest[k] == WordByte(state[k / 4], k % 4)
        invariant digest[20..] == old(digest[20..])
      {
        digest[i] := WordByte(state[i / 4], i % 4);
      }
      DigestLayout(state[..], digest[..20]);
    }

    method Wipe()
      requires Shape()
      modifies this, state, buffer
      ensures buffer[..] == Zeros(64) && state[..] == [0, 0, 0, 0, 0] && low == 0 && high == 0
    {
      for i := 0 to 64
        invariant forall k :: 0 <= k < i ==> buffer[k] == 0
      {
        buffer[i] := 0;
      }
      state[0] := 0;
      state[1] := 0;
      state[2] := 0;
      state[3] := 0;
      state[4] := 0;
      low, high := 0, 0;
    }

    /** `SHA1_Final`: the standard's digest of everything fed since `Init`; the context is wiped. */
    method Final(digest: array<Byte>)
      requires Valid() && digest.Length >= 20 && digest != buffer && digest as object != state
      modifies this, state, buffer, digest
      ensures digest[..20] == Digest(old(msg)) && digest[20..] == old(digest[20..])
    {
      hide Absorb, Sha1.RegsOf, LengthBytes, RegBytes, Pad;
      var finalcount := new Byte[8];
      CountBytes(finalcount);
      PadAndAbsorb(finalcount);
      PutDigest(digest);
      Wipe();
    }

    /** `SHA1`. */
    static method Hash(digest: array<Byte>, data: array<Byte>, len: nat)
      requires digest != data && digest.Length >= 20 && len <= data.Length && len < TWO32
      modifies digest, data
      ensures digest[..20] == Digest(old(data[..len]))
    {
      var ctx := new ShaCtx();
      ctx.Init();
      ctx.Update(data, len);
      assert ctx.msg == old(data[..len]);
      ctx.Final(digest);
    }
  }

  /** While the 32-bit sum of pending and new bytes fits, so does the sum in the loop test. */
  lemma SumFits(n: nat, i: nat, len: nat)
    requires (n + i) % 64 == 0 && i <= len && n % 64 + len < TWO32
    ensures i + 63 < TWO32
  {
    assert (n % 64 + i) % 64 == 0;
  }

  lemma MoreZeros(m: seq<Byte>, k: nat)
    ensures m + Zeros(k) + [0] == m + Zeros(k + 1) && m == m + Zeros(0)
  {
  }

  lemma PaddingGoesOn(n: nat, k: nat)
    requires k <= (55 - n) % 64
    ensures (n + 1 + k) % 64 == 56 <==> k == (55 - n) % 64
  {
  }

  lemma DigestLayout(state: seq<Word>, digest: seq<Byte>)
    requires |state| == 5 && |digest| == 20
    requires forall k :: 0 <= k < 20 ==> digest[k] == WordByte(state[k / 4], k % 4)
    ensures digest == RegBytes(Sha1.RegsOf(state))
  {
    hide WordByte;
    forall j | 0 <= j < 5 ensures digest[4 * j..4 * j + 4] == WordBytes(state[j]) {
      assert digest[4 * j] == WordByte(state[j], 0) && digest[4 * j + 1] == WordByte(state[j], 1);
      assert digest[4 * j + 2] == WordByte(state[j], 2) && digest[4 * j + 3] == WordByte(state[j], 3);
    }
    assert digest == digest[0..4] + digest[4..8] + digest[8..12] + digest[12..16] + digest[16..20];
  }

  /** `(count >> (k * 8)) & 255` */
  function CounterByte(count: nat, k: nat): Byte
    requires k < 4
  {
    LengthByte(count, if k == 0 then 1 else if k == 1 then 0x100 else if k == 2 then 0x1_0000 else 0x100_0000)
  }

  function CounterBytes(high: nat, low: nat): (b: seq<Byte>)
    ensures |b| == 8
  {
    seq(8, i requires 0 <= i < 8 => CounterByte(if i >= 4 then low else high, 3 - i % 4))
  }

  lemma HighBytes(high: nat, low: nat)
    requires low < TWO32
    ensures var c := high * TWO32 + low;
            && LengthByte(c, 0x1_0000_0000) == LengthByte(high, 1)
            && LengthByte(c, 0x100_0000_0000) == LengthByte(high, 0x100)
            && LengthByte(c, 0x1_0000_0000_0000) == LengthByte(high, 0x1_0000)
            && LengthByte(c, 0x100_0000_0000_0000) == LengthByte(high, 0x100_0000)
  {
    var c := high * TWO32 + low;
    assert c / 0x1_0000_0000 == high;
    assert c / 0x100_0000_0000 == high / 0x100;
    assert c / 0x1_0000_0000_0000 == high / 0x1_0000;
    assert c / 0x100_0000_0000_0000 == high / 0x100_0000;
  }

  lemma Mod256(z: nat, y: nat)
    ensures (256 * z + y) % 256 == y % 256
  {
  }

  lemma LowQuotients(high: nat, low: nat)
    ensures var c := high * TWO32 + low;
            && c == 256 * (high * 0x100_0000) + low
            && c / 0x100 == 256 * (high * 0x1_0000) + low / 0x100
            && c / 0x1_0000 == 256 * (high * 0x100) + low / 0x1_0000
            && c / 0x100_0000 == 256 * high + low / 0x100_0000
  {
  }

  lemma LowBytes(high: nat, low: nat)
    ensures var c := high * TWO32 + low;
            && LengthByte(c, 1) == LengthByte(low, 1)
            && LengthByte(c, 0x100) == LengthByte(low, 0x100)
            && LengthByte(c, 0x1_0000) == LengthByte(low, 0x1_0000)
            && LengthByte(c, 0x100_0000) == LengthByte(low, 0x100_0000)
  {
    LowQuotients(high, low);
    Mod256(high * 0x100_0000, low);
    Mod256(high * 0x1_0000, low / 0x100);
    Mod256(high * 0x100, low / 0x1_0000);
    Mod256(high, low / 0x100_0000);
  }

  lemma CounterIsLength(high: nat, low: nat)
    requires low < TWO32
    ensures CounterBytes(high, low) == LengthBytes(high * TWO32 + low)
  {
    hide LengthByte;
    HighBytes(high, low);
    LowBytes(high, low);
    var a := CounterBytes(high, low);
    assert a[0] == CounterByte(high, 3) && a[1] == CounterByte(high, 2) && a[2] == CounterByte(high, 1);
    assert a[3] == CounterByte(high, 0) && a[4] == CounterByte(low, 3) && a[5] == CounterByte(low, 2);
    assert a[6] == CounterByte(low, 1) && a[7] == CounterByte(low, 0);
  }

  /** From offset i on, the data is still the message. */
  ghost predicate Supplies(data: seq<Byte>, i: nat, all: seq<Byte>, n: nat) {
    n <= |all| <= n + |data| && forall k :: i <= k < |all| - n ==> data[k] == all[n + k]
  }

  lemma OneBlock(data: seq<Byte>, i: nat, all: seq<Byte>, n: nat)
    requires Supplies(data, i, all, n) && n + i + 64 <= |all|
    ensures data[i..i + 64] == all[n + i..n + i + 64]
  {
    var x, y := data[i..i + 64], all[n + i..n + i + 64];
    assert forall k :: 0 <= k < 64 ==> x[k] == y[k];
  }

  lemma KeepsSupply(before: seq<Byte>, after: seq<Byte>, i: nat, all: seq<Byte>, n: nat)
    requires |before| == |after| && i + 64 <= |before| && after[i + 64..] == before[i + 64..]
    requires Supplies(before, i, all, n)
    ensures Supplies(after, i + 64, all, n)
  {
    forall k | i + 64 <= k < |all| - n ensures after[k] == all[n + k] {
      assert after[k] == after[i + 64..][k - i - 64] == before[i + 64..][k - i - 64] == before[k];
    }
  }

  lemma Remainder(data: seq<Byte>, i: nat, len: nat, all: seq<Byte>, n: nat)
    requires |all| == n + len && i <= len < i + 64 && (n + i) % 64 == 0 && Supplies(data, i, all, n)
    ensures |all| / 64 == (n + i) / 64 && |all| % 64 == len - i
    ensures all[|all| / 64 * 64..] == data[i..len]
  {
  }

  lemma PendingGrows(msg: seq<Byte>, data: seq<Byte>, buffer: seq<Byte>, j: nat)
    requires j == |msg| % 64 && j + |data| < 64 && |buffer| == 64
    requires buffer[..j] == msg[|msg| / 64 * 64..] && buffer[j..j + |data|] == data
    ensures |msg + data| % 64 == j + |data|
    ensures buffer[..j + |data|] == (msg + data)[|msg + data| / 64 * 64..]
  {
    assert buffer[..j + |data|] == buffer[..j] + buffer[j..j + |data|];
    assert |msg + data| / 64 == |msg| / 64;
  }

  lemma SumMod(n: nat, len: nat)
    ensures (8 * n % TWO64 + 8 * len) % TWO64 == 8 * (n + len) % TWO64
  {
    var q := 8 * n / TWO64;
    assert 8 * (n + len) == q * TWO64 + (8 * n % TWO64 + 8 * len);
  }

  /** The pending bytes and the first new ones make the next block. */
  lemma {:induction false} FirstBlock(msg: seq<Byte>, data: seq<Byte>, buffer: seq<Byte>)
    requires var j := |msg| % 64;
             && |buffer| == 64 && |data| + j > 63
             && buffer[..j] == msg[|msg| / 64 * 64..] && buffer[j..] == data[..64 - j]
    ensures var n := |msg| + 64 - |msg| % 64;
            Absorb(IV, msg + data, n / 64) == Compress(Absorb(IV, msg, |msg| / 64), buffer[0..64])
  {
    hide Compress;
    var all, base, j := msg + data, |msg| / 64 * 64, |msg| % 64;
    AbsorbNext(all, base);
    AbsorbPrefix(IV, msg, all, |msg| / 64);
    assert all[base..base + 64] == msg[base..] + data[..64 - j];
    assert buffer[0..64] == buffer[..j] + buffer[j..];
  }

  /** With no full block, nothing is absorbed. */
  lemma {:induction false} AbsorbMore(msg: seq<Byte>, data: seq<Byte>)
    requires |msg| % 64 + |data| < 64
    ensures |msg + data| / 64 == |msg| / 64
    ensures Absorb(IV, msg + data, |msg| / 64) == Absorb(IV, msg, |msg| / 64)
  {
    AbsorbPrefix(IV, msg, msg + data, |msg| / 64);
  }
}
