/**
  The growable byte buffer with read and write cursors: a first-in first-out queue of bytes across growth,
  conversion of an external buffer to an internal one, compaction and copying.
  Allocation is taken to succeed, and sizes not to overflow `size_t`.
  */
module ReadWriteBuffer {
  import opened Arith

  type Byte = bv8

  /** Up to the nearest multiple of the block. */
  function RoundUp(value: nat, block: nat): nat
    requires block > 0
  {
    if value % block != 0 then value / block * block + block else value
  }

  lemma RoundUpEnough(value: nat, block: nat)
    requires block > 0
    ensures value <= RoundUp(value, block) < value + block && RoundUp(value, block) % block == 0
  {
    DivMod(value, block);
    var q := value / block;
    RemainderIs(q * block, q, block, 0);
    Distribute(q, 1, block);
    RemainderIs((q + 1) * block, q + 1, block, 0);
  }

  class ReadWriteBuffer {
    var bufSiz: nat
    var bufLen: nat
    var bufIdx: nat
    var growBy: nat
    var isExt: bool
    var buf: array?<Byte>

    ghost predicate Valid()
      reads this
    {
      && bufIdx <= bufLen <= bufSiz
      && (if buf == null then bufSiz == 0 && !isExt else bufSiz <= buf.Length)
      && (!isExt ==> growBy >= 1)
    }

    /** Committed by writers, not yet by readers. */
    ghost function Unread(): seq<Byte>
      requires Valid()
      reads this, buf
    {
      if buf == null then [] else buf[bufIdx..bufLen]
    }

    constructor ()
      ensures Valid() && Unread() == [] && !isExt
    {
      bufSiz, bufLen, bufIdx, growBy, isExt, buf := 0, 0, 0, 1024, false, null;
    }

    method Deallocate()
      modifies this
      ensures Valid() && Unread() == [] && buf == null && growBy == 1024
    {
      bufSiz, bufIdx, bufLen, growBy, isExt, buf := 0, 0, 0, 1024, false, null;
    }

    method SetEmpty()
      requires Valid()
      modifies this
      ensures Valid() && Unread() == [] && buf == old(buf) && bufSiz == old(bufSiz) && isExt == old(isExt)
    {
      bufIdx, bufLen := 0, 0;
    }

    /** False stands for `std::invalid_argument`. */
    method SetExternalBuffer(a: array?<Byte>, size: nat, len: nat, growBy: nat) returns (ok: bool)
      requires Valid() && (a != null ==> size <= a.Length)
      modifies this
      ensures Valid() && (ok <==> a != null && 1 <= size && len <= size)
      ensures ok ==> isExt && buf == a && bufSiz == size && this.growBy == growBy && Unread() == a[..len]
      ensures !ok ==> unchanged(this)
    {
      if a == null || size < 1 || len > size { return false; }
      Deallocate();
      bufSiz, bufIdx, bufLen, this.growBy, isExt, buf := size, 0, len, growBy, true, a;
      ok := true;
    }

    method SetInternalBuffer(initial: nat, growBy: nat) returns (ok: bool)
      requires Valid()
      modifies this
      ensures Valid() && (ok <==> 1 <= initial && 1 <= growBy)
      ensures ok ==> !isExt && buf != null && fresh(buf) && bufSiz >= initial && Unread() == [] && bufLen == 0
      ensures ok ==> this.growBy == growBy && bufSiz < initial + growBy
      ensures !ok ==> unchanged(this)
    {
      if initial < 1 || growBy < 1 { return false; }
      Deallocate();
      RoundUpEnough(initial, growBy);
      bufSiz := RoundUp(initial, growBy);
      buf := new Byte[bufSiz];
      this.growBy := growBy;
      ok := true;
    }

    /** Room for at least `min` bytes after the committed ones; false stands for `std::overflow_error`, which only
        a full external buffer without growth gives. Growing keeps every committed byte. */
    method GetWriteBuffer(min: nat) returns (ok: bool)
      requires Valid()
      modifies this
      ensures Valid() && Unread() == old(Unread()) && bufLen == old(bufLen) && bufIdx == old(bufIdx)
      ensures ok <==> !(old(isExt) && old(growBy) == 0 && old(bufLen) + min > old(bufSiz))
      ensures ok ==> bufLen + min <= bufSiz
      ensures if old(bufLen) + min <= old(bufSiz) || !ok then buf == old(buf) && isExt == old(isExt) && bufSiz == old(bufSiz)
              else !isExt && buf != null && fresh(buf)
    {
      if bufLen + min > bufSiz {
        if isExt && growBy == 0 { return false; }
        RoundUpEnough(min, growBy);
        var size := bufSiz + RoundUp(min, growBy);
        var grown := new Byte[size];
        for i := 0 to bufLen
          invariant Valid() && unchanged(this) && bufLen <= size == grown.Length
          invariant buf != null || bufLen == 0
          invariant buf != null ==> grown[..i] == buf[..i]
        {
          grown[i] := buf[i];
        }
        if buf != null { assert grown[bufIdx..bufLen] == grown[..bufLen][bufIdx..] == buf[bufIdx..bufLen]; }
        buf, bufSiz, isExt := grown, size, false;
      }
      ok := true;
    }

    /** The bytes written after the committed ones become readable. */
    method CommitWriteBytes(n: nat) returns (ok: bool)
      requires Valid()
      modifies `bufLen
      ensures Valid() && (ok <==> old(bufLen) + n <= bufSiz)
      ensures bufLen == old(bufLen) + if ok then n else 0
      ensures Unread() == old(Unread()) + if ok && n > 0 then buf[old(bufLen)..old(bufLen) + n] else []
    {
      if bufLen + n > bufSiz { return false; }
      bufLen := bufLen + n;
      ok := true;
    }

    /** False stands for the exception of `GetWriteBuffer`. */
    method WriteBytes(data: array<Byte>, n: nat) returns (ok: bool)
      requires Valid() && n <= data.Length && data != buf
      modifies this, buf
      ensures Valid()
      ensures ok <==> !(old(isExt) && old(growBy) == 0 && old(bufLen) + n > old(bufSiz))
      ensures Unread() == old(Unread()) + if ok then data[..n] else []
    {
      ok := GetWriteBuffer(n);
      if !ok { return; }
      ghost var before, at := Unread(), bufLen;
      for i := 0 to n
        invariant bufLen == at && Valid() && bufLen + n <= bufSiz && (buf == old(buf) || (buf != null && fresh(buf)))
        invariant i > 0 ==> buf != null
        invariant n > 0 ==> buf != null && buf[at..at + i] == data[..i]
        invariant Unread() == before && data[..] == old(data[..])
      {
        buf[bufLen + i] := data[i];
      }
      ok := CommitWriteBytes(n);
      assert n == 0 ==> data[..n] == [];
    }

    method CommitReadBytes(n: nat) returns (ok: bool)
      requires Valid()
      modifies `bufIdx
      ensures Valid() && (ok <==> n <= |old(Unread())|)
      ensures Unread() == if ok then old(Unread())[n..] else old(Unread())
    {
      if bufIdx + n > bufLen { return false; }
      bufIdx := bufIdx + n;
      ok := true;
    }

    /** The oldest n unread bytes; false stands for `std::invalid_argument`. */
    method ReadBytes(out: array<Byte>, n: nat) returns (ok: bool)
      requires Valid() && n <= out.Length && out != buf
      modifies `bufIdx, out
      ensures Valid() && (ok <==> n <= |old(Unread())|)
      ensures ok ==> out[..n] == old(Unread())[..n] && Unread() == old(Unread())[n..]
      ensures !ok ==> Unread() == old(Unread()) && out[..] == old(out[..])
    {
      if bufLen - bufIdx < n { return false; }
      ghost var before := Unread();
      for i := 0 to n
        invariant Valid() && unchanged(this) && n <= |before| && (buf != null ==> buf[bufIdx..bufLen] == before)
        invariant out[..i] == before[..i]
      {
        assert buf[bufIdx..bufLen][i] == before[i];
        out[i] := buf[bufIdx + i];
      }
      ok := CommitReadBytes(n);
    }

    /** `memmove` of n bytes to the front; the two places may overlap. */
    static method MoveToFront(a: array<Byte>, from: nat, n: nat)
      requires from + n <= a.Length
      modifies a
      ensures a[0..n] == old(a[from..from + n])
    {
      ghost var before := a[..];
      var i := 0;
      while i < n
        invariant i <= n
        invariant forall k :: 0 <= k < i ==> a[k] == before[from + k]
        invariant forall k :: from + i <= k < from + n ==> a[k] == before[k]
      {
        a[i] := a[from + i];
        i := i + 1;
      }
    }

    /** The unread bytes go to the front. */
    method Compact()
      requires Valid()
      modifies this, buf
      ensures Valid() && Unread() == old(Unread()) && bufIdx == 0
      ensures bufSiz - bufLen == old(bufSiz) - |old(Unread())|
    {
      if bufLen - bufIdx > 0 {
        MoveToFront(buf, bufIdx, bufLen - bufIdx);
      }
      bufLen := bufLen - bufIdx;
      bufIdx := 0;
    }

    /** `operator=`: an internal copy with the same cursors. Assigning a buffer to itself empties it, because the old
        contents are released first. */
    method Assign(rhs: ReadWriteBuffer)
      requires Valid() && rhs.Valid()
      modifies this
      ensures Valid() && !isExt
      ensures Unread() == if rhs == this then [] else old(rhs.Unread())
    {
      Deallocate();
      if rhs.bufSiz > 0 {
        var ok := SetInternalBuffer(rhs.bufSiz, if rhs.growBy != 0 then rhs.growBy else 1024);
        ok := GetWriteBuffer(rhs.bufLen);
        for i := 0 to rhs.bufLen
          invariant Valid() && !isExt && buf != null && fresh(buf) && rhs.bufLen <= bufSiz && bufLen == 0
          invariant buf[..i] == rhs.buf[..i]
        {
          buf[i] := rhs.buf[i];
        }
        bufIdx, bufLen := 0, rhs.bufLen;
        bufIdx := rhs.bufIdx;
        assert buf[..bufLen][bufIdx..] == rhs.buf[..bufLen][bufIdx..];
      }
    }

    lemma UnreadAt()
      requires Valid()
      ensures |Unread()| == bufLen - bufIdx
      ensures forall i :: 0 <= i < |Unread()| ==> Unread()[i] == buf[bufIdx + i]
    {
    }

    /** `operator==` compares what is unread. */
    method Equals(rhs: ReadWriteBuffer) returns (equal: bool)
      requires Valid() && rhs.Valid()
      ensures equal <==> Unread() == rhs.Unread()
    {
      ghost var mine, theirs := Unread(), rhs.Unread();
      UnreadAt();
      rhs.UnreadAt();
      if bufLen - bufIdx != rhs.bufLen - rhs.bufIdx { return false; }
      var n := bufLen - bufIdx;
      for i := 0 to n
        invariant forall k :: 0 <= k < i ==> mine[k] == theirs[k]
      {
        hide Unread;
        if buf[bufIdx + i] != rhs.buf[rhs.bufIdx + i] {
          assert mine[i] != theirs[i];
          return false;
        }
        assert mine[i] == theirs[i];
      }
      equal := true;
    }
  }
}
