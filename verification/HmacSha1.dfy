/**
  HMAC-SHA1 as in RFC 2104, section 2, computed by the streaming context for any chunking of key and message.
  */
module HmacSha1 {
  import opened Sha1Spec
  import opened Sha1Context

  /** The key as one block: hashed when longer than a block, then filled up with zeros. */
  function BlockKey(key: seq<Byte>): (k: seq<Byte>)
    ensures |k| == 64
  {
    if |key| > 64 then Digest(key) + Zeros(44) else key + Zeros(64 - |key|)
  }

  function Xor(a: Byte, b: Byte): Byte { a ^ b }

  function XorWith(block: seq<Byte>, pad: Byte): (b: seq<Byte>)
    ensures |b| == |block|
  {
    seq(|block|, i requires 0 <= i < |block| => Xor(block[i], pad))
  }

  const IPAD: Byte := 0x36
  const OPAD: Byte := 0x5C

  function Hmac(key: seq<Byte>, text: seq<Byte>): seq<Byte> {
    Digest(XorWith(BlockKey(key), OPAD) + Digest(XorWith(BlockKey(key), IPAD) + text))
  }

  lemma Padded(key: seq<Byte>, pad: Byte)
    requires |key| <= 64
    ensures XorWith(BlockKey(key), pad) == seq(64, i requires 0 <= i < 64 => if i < |key| then Xor(key[i], pad) else pad)
  {
    var block := BlockKey(key);
    assert block == key + Zeros(64 - |key|);
    forall i | 0 <= i < 64 ensures Xor(block[i], pad) == if i < |key| then Xor(key[i], pad) else pad {
      if i >= |key| { XorZero(block[i], pad); }
    }
    hide Xor;
  }

  lemma XorZero(a: Byte, b: Byte)
    ensures a == 0 ==> Xor(a, b) == b
  {
  }

  /** The code as RFC 2104 writes it out for a key of at most one block, with the bytes of both pads. */
  lemma HmacOfShortKey(key: seq<Byte>, text: seq<Byte>)
    requires |key| <= 64
    ensures Hmac(key, text) ==
            Digest(seq(64, i requires 0 <= i < 64 => if i < |key| then key[i] ^ 0x5C else 0x5C)
                   + Digest(seq(64, i requires 0 <= i < 64 => if i < |key| then key[i] ^ 0x36 else 0x36) + text))
  {
    Padded(key, IPAD);
    Padded(key, OPAD);
    var inner := seq(64, i requires 0 <= i < 64 => if i < |key| then key[i] ^ 0x36 else 0x36);
    var outer := seq(64, i requires 0 <= i < 64 => if i < |key| then key[i] ^ 0x5C else 0x5C);
    hide Digest, BlockKey, XorWith;
    assert inner == XorWith(BlockKey(key), IPAD) && outer == XorWith(BlockKey(key), OPAD);
  }

  /** A longer key is hashed first. */
  lemma HmacOfLongKey(key: seq<Byte>, text: seq<Byte>)
    requires |key| > 64
    ensures Hmac(key, text) == Hmac(Digest(key), text)
  {
    hide Digest, XorWith;
  }

  method Fill(a: array<Byte>, from: nat, b: Byte)
    requires from <= a.Length
    modifies a
    ensures a[..from] == old(a[..from])
    ensures forall i :: from <= i < a.Length ==> a[i] == b
  {
    for k := from to a.Length
      invariant a[..from] == old(a[..from])
      invariant forall i :: from <= i < k ==> a[i] == b
    {
      a[k] := b;
    }
  }

  lemma XorFacts(a: Byte, b: Byte)
    ensures Xor(a, b) == Xor(b, a) && Xor(0, b) == b
  {
  }

  class HmacCtx {
    const ipad: array<Byte>
    const opad: array<Byte>
    const key: array<Byte>
    const shactx: ShaCtx
    var keylen: nat
    var hashkey: nat
    ghost var keyData: seq<Byte>
    ghost var text: seq<Byte>

    ghost predicate Shape() {
      && ipad.Length == 64 && opad.Length == 64 && key.Length == 64 && shactx.Shape()
      && ipad != opad && ipad != key && opad != key
      && ipad != shactx.buffer && opad != shactx.buffer && key != shactx.buffer
      && ipad as object != shactx.state && opad as object != shactx.state && key as object != shactx.state
    }

    /** Some of the key has been given, `EndKey` not yet called. */
    ghost predicate Keying()
      reads this, ipad, opad, key, shactx, shactx.state, shactx.buffer
    {
      && Shape()
      && (forall i :: 0 <= i < 64 ==> ipad[i] == IPAD && opad[i] == OPAD)
      && (if hashkey == 0 then keylen == |keyData| <= 64 && key[..keylen] == keyData
          else keylen == 20 && |keyData| > 64 && shactx.Valid() && shactx.msg == keyData)
    }

    ghost predicate Keyed()
      reads this, ipad, opad
    {
      Shape() && ipad[..] == XorWith(BlockKey(keyData), IPAD) && opad[..] == XorWith(BlockKey(keyData), OPAD)
    }

    /** A message has been started. */
    ghost predicate Hashing()
      reads this, ipad, opad, shactx, shactx.state, shactx.buffer
    {
      Keyed() && shactx.Valid() && shactx.msg == ipad[..] + text
    }

    constructor ()
      ensures Shape() && fresh(ipad) && fresh(opad) && fresh(key) && fresh(shactx)
      ensures fresh(shactx.state) && fresh(shactx.buffer)
    {
      ipad := new Byte[64];
      opad := new Byte[64];
      key := new Byte[64];
      shactx := new ShaCtx();
    }

    method Init()
      requires Shape()
      modifies this, key, ipad, opad
      ensures Keying() && keyData == []
    {
      Fill(key, 0, 0);
      Fill(ipad, 0, IPAD);
      Fill(opad, 0, OPAD);
      keylen, hashkey, keyData := 0, 0, [];
    }

    /** The key so far becomes the start of a hash. */
    method StartHashing()
      requires Shape() && hashkey == 0 && keylen == |keyData| <= 64 && key[..keylen] == keyData
      modifies this, key, shactx, shactx.state, shactx.buffer
      ensures hashkey == 1 && keylen == 20 && keyData == old(keyData)
      ensures shactx.Valid() && shactx.msg == keyData
    {
      hide ShaCtx.Valid;
      hashkey := 1;
      shactx.Init();
      if keylen > 0 {
        shactx.Update(key, keylen);
      }
      keylen := 20;
    }

    /** `HMAC_SHA1_UpdateKey`, which starts hashing the key once more than a block of it has come. */
    method UpdateKey(data: array<Byte>, len: nat)
      requires Keying() && len <= data.Length && (if hashkey == 0 then keylen else |keyData| % 64) + len < TWO32
      requires data !in {ipad, opad, key, shactx.buffer} && data as object != shactx.state
      modifies this, key, data, shactx, shactx.state, shactx.buffer
      ensures Keying() && keyData == old(keyData) + old(data[..len])
    {
      hide ShaCtx.Valid;
      ghost var all := keyData + data[..len];
      if len < 1 { return; }
      if hashkey != 0 || len + keylen > 64 {
        if hashkey == 0 {
          StartHashing();
        }
        shactx.Update(data, len);
      } else {
        Copy(data, 0, key, keylen, len);
        assert key[..keylen + len] == key[..keylen] + key[keylen..keylen + len];
        keylen := keylen + len;
      }
      keyData := all;
    }

    /** `HMAC_SHA1_EndKey` */
    method EndKey()
      requires Keying()
      modifies this, key, ipad, opad, shactx, shactx.state, shactx.buffer
      ensures Keyed() && keyData == old(keyData)
    {
      FinishKey();
      XorPads();
      PadsAreXored(key[..], BlockKey(keyData), ipad[..], IPAD);
      PadsAreXored(key[..], BlockKey(keyData), opad[..], OPAD);
    }

    /** The loop over the key bytes; beyond them the pads already are what a zero byte would make them. */
    method XorPads()
      requires Shape() && keylen <= 64
      requires forall k :: keylen <= k < 64 ==> key[k] == 0
      requires forall i :: 0 <= i < 64 ==> ipad[i] == IPAD && opad[i] == OPAD
      modifies ipad, opad
      ensures forall k :: 0 <= k < 64 ==> ipad[k] == Xor(key[k], IPAD) && opad[k] == Xor(key[k], OPAD)
    {
      hide Xor;
      var i := 0;
      while i < keylen
        invariant i <= keylen
        invariant forall k :: 0 <= k < i ==> ipad[k] == Xor(key[k], IPAD) && opad[k] == Xor(key[k], OPAD)
        invariant forall k :: i <= k < 64 ==> ipad[k] == IPAD && opad[k] == OPAD
      {
        XorFacts(IPAD, key[i]);
        XorFacts(OPAD, key[i]);
        ipad[i] := Xor(ipad[i], key[i]);
        opad[i] := Xor(opad[i], key[i]);
        i := i + 1;
      }
      XorFacts(0, IPAD);
      XorFacts(0, OPAD);
    }

    /** The first half of `HMAC_SHA1_EndKey`: the key as a zero-filled block. */
    method FinishKey()
      requires Keying()
      modifies this, key, shactx, shactx.state, shactx.buffer
      ensures Shape() && keylen <= 64 && key[..] == BlockKey(keyData) && keyData == old(keyData)
      ensures forall k :: keylen <= k < 64 ==> key[k] == 0
      ensures forall i :: 0 <= i < 64 ==> ipad[i] == IPAD && opad[i] == OPAD
    {
      hide Digest;
      if hashkey != 0 {
        Fill(key, 0, 0);
        shactx.Final(key);
      }
      if 64 - keylen > 0 {
        Fill(key, keylen, 0);
      }
      assert key[..] == key[..keylen] + key[keylen..];
      assert key[keylen..] == Zeros(64 - keylen);
    }

    method StartMessage()
      requires Keyed()
      modifies this, ipad, shactx, shactx.state, shactx.buffer
      ensures Hashing() && text == [] && keyData == old(keyData)
    {
      hide BlockKey, XorWith, Absorb, Sha1.RegsOf;
      shactx.Init();
      assert ipad[..64] == ipad[..];
      shactx.Update(ipad, 64);
      text := [];
      assert ipad[..] + [] == ipad[..];
    }

    method UpdateMessage(data: array<Byte>, len: nat)
      requires Hashing() && len <= data.Length && |text| % 64 + len < TWO32
      requires data !in {ipad, opad, shactx.buffer} && data as object != shactx.state
      modifies this, data, shactx, shactx.state, shactx.buffer
      ensures Hashing() && text == old(text) + old(data[..len]) && keyData == old(keyData)
    {
      hide BlockKey, XorWith, Absorb, Sha1.RegsOf;
      ghost var more := data[..len];
      shactx.Update(data, len);
      assert ipad[..] + text + more == ipad[..] + (text + more);
      text := text + more;
    }

    /** `HMAC_SHA1_EndMessage`; the context stays keyed, so another message can be started. */
    method EndMessage(out: array<Byte>)
      requires Hashing() && out.Length >= 20
      requires out !in {ipad, opad, shactx.buffer} && out as object != shactx.state
      modifies out, opad, shactx, shactx.state, shactx.buffer
      ensures Keyed() && out[..20] == Hmac(keyData, text)
    {
      hide BlockKey, XorWith, Absorb, Sha1.RegsOf, Digest;
      var buf := new Byte[20];
      shactx.Final(buf);
      shactx.Init();
      assert opad[..64] == opad[..] && buf[..20] == buf[..];
      shactx.Update(opad, 64);
      assert [] + opad[..] == opad[..];
      shactx.Update(buf, 20);
      shactx.Final(out);
    }
  }

  lemma PadsAreXored(key: seq<Byte>, block: seq<Byte>, pads: seq<Byte>, pad: Byte)
    requires key == block && |pads| == |block| && forall k :: 0 <= k < |block| ==> pads[k] == Xor(key[k], pad)
    ensures pads == XorWith(block, pad)
  {
    hide Xor;
  }

  /** `HMAC_SHA1`. */
  method HmacOnce(out: array<Byte>, key: array<Byte>, keylen: nat, data: array<Byte>, datalen: nat)
    requires out.Length >= 20 && key != data && out != data
    requires keylen <= key.Length && keylen < TWO32 && datalen <= data.Length && datalen < TWO32
    modifies out, key, data
    ensures out[..20] == Hmac(old(key[..keylen]), old(data[..datalen]))
  {
    hide Hmac, HmacCtx.Keying, HmacCtx.Keyed, HmacCtx.Hashing;
    var ctx := new HmacCtx();
    ctx.Init();
    ctx.UpdateKey(key, keylen);
    ctx.EndKey();
    ctx.StartMessage();
    ctx.UpdateMessage(data, datalen);
    assert [] + old(key[..keylen]) == old(key[..keylen]) && [] + old(data[..datalen]) == old(data[..datalen]);
    ctx.EndMessage(out);
  }
}
