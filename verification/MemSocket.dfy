/**
  Buffered reads from a server connection. The operating system's `recv` is an arbitrary list of events:
  it delivers any non-empty piece of the next data event, or fails.
  */
module MemSocket {

  datatype Event = Data(bytes: string) | Failure

  /** What can still be received before the connection fails; receiving no bytes counts as failure. */
  function Available(net: seq<Event>): string {
    if net == [] || net[0].Failure? || net[0].bytes == "" then ""
    else net[0].bytes + Available(net[1..])
  }

  function IsSpace(c: char): bool { 9 <= c as int <= 13 || c == ' ' }

  function TrimEnd(s: string): string {
    if s != "" && IsSpace(s[|s| - 1]) then TrimEnd(s[..|s| - 1]) else s
  }

  /** Length of the first line with its newline; -1 when there is none. */
  function LineLength(s: string): (n: int)
    ensures -1 <= n <= |s| && n != 0
  {
    if s == "" then -1
    else if s[0] == '\n' then 1
    else var n := LineLength(s[1..]); if n < 0 then -1 else n + 1
  }

  lemma {:induction false} LineLengthIsFirst(s: string)
    ensures var n := LineLength(s);
            if n < 0 then '\n' !in s else s[n - 1] == '\n' && '\n' !in s[..n - 1]
  {
    if s != "" && s[0] != '\n' {
      LineLengthIsFirst(s[1..]);
      var n := LineLength(s);
      if n >= 0 { assert s[..n - 1] == [s[0]] + s[1..][..n - 2]; }
    }
  }

  const MAXBUF: nat := 1024

  class Socket {
    const mBuf: array<char>
    var mIdx: nat
    var mBufLen: nat
    var connected: bool
    var net: seq<Event>

    ghost predicate Valid()
      reads this
    {
      mBuf.Length == MAXBUF && mIdx <= mBufLen <= MAXBUF
    }

    /** The bytes of the connection not yet handed out: the buffered ones, then those to be received. */
    ghost function Stream(): string
      requires Valid()
      reads this, mBuf
    {
      mBuf[mIdx..mBufLen] + Available(net)
    }

    constructor (net: seq<Event>)
      ensures Valid() && connected && Stream() == Available(net) && fresh(mBuf)
    {
      mBuf := new char[MAXBUF];
      mIdx, mBufLen, connected := 0, 0, true;
      this.net := net;
    }

    method Disconnect()
      requires Valid()
      modifies this
      ensures Valid() && !connected && Stream() == ""
    {
      connected, net, mIdx, mBufLen := false, [], 0, 0;
    }

    /** `ReceiveBytes`; -1 stands for the exception, which also drops the connection. */
    method ReceiveBytes(buf: array<char>, off: nat, size: nat) returns (rc: int)
      requires Valid() && 1 <= size && off + size <= buf.Length
      modifies this, buf
      ensures Valid() && (rc < 0 <==> old(Available(net)) == "")
      ensures rc < 0 ==> rc == -1 && Stream() == "" && buf[..] == old(buf[..])
      ensures rc >= 0 ==>
                && 1 <= rc <= size && mIdx == old(mIdx) && mBufLen == old(mBufLen)
                && rc <= |old(Available(net))| && Available(net) == old(Available(net))[rc..]
                && buf[off..off + rc] == old(Available(net))[..rc]
                && buf[..off] == old(buf[..off]) && buf[off + rc..] == old(buf[off + rc..])
    {
      if net == [] || net[0].Failure? || net[0].bytes == "" {
        Disconnect();
        return -1;
      }
      var bytes := net[0].bytes;
      rc := if |bytes| <= size then |bytes| else size;
      for i := 0 to rc
        invariant buf[off..off + i] == bytes[..i]
        invariant buf[..off] == old(buf[..off]) && buf[off + rc..] == old(buf[off + rc..])
        invariant Valid() && unchanged(this)
      {
        buf[off + i] := bytes[i];
      }
      Consumed(net, rc);
      net := if rc == |bytes| then net[1..] else [Data(bytes[rc..])] + net[1..];
    }

    /** Reload the empty buffer. */
    method Refill() returns (ok: bool)
      requires Valid() && mIdx == mBufLen
      modifies this, mBuf
      ensures Valid() && (ok <==> old(Stream()) != "")
      ensures if ok then mIdx < mBufLen && Stream() == old(Stream()) else Stream() == ""
    {
      assert Stream() == Available(net);
      mIdx, mBufLen := 0, 0;
      var rc := ReceiveBytes(mBuf, 0, MAXBUF);
      if rc < 0 { return false; }
      mBufLen := rc;
      assert mBuf[mIdx..mBufLen] == mBuf[0..0 + rc];
      ok := true;
    }

    /** Step over buffered bytes. */
    method Advance(n: nat)
      requires Valid() && mIdx + n <= mBufLen
      modifies `mIdx
      ensures Valid() && mIdx == old(mIdx) + n
      ensures n <= |old(Stream())| && Stream() == old(Stream())[n..]
      ensures mBuf[old(mIdx)..old(mIdx) + n] == old(Stream())[..n]
    {
      hide Available;
      ghost var before, rest := mBuf[mIdx..mBufLen], Available(net);
      mIdx := mIdx + n;
      assert before[n..] == mBuf[mIdx..mBufLen];
      assert (before + rest)[n..] == before[n..] + rest;
      assert (before + rest)[..n] == before[..n];
    }

    method GetByte() returns (ok: bool, c: char)
      requires Valid()
      modifies this, mBuf
      ensures Valid() && (ok <==> old(Stream()) != "")
      ensures ok ==> [c] + Stream() == old(Stream())
      ensures !ok ==> Stream() == ""
    {
      ok, c := true, '\0';
      if mIdx >= mBufLen {
        ok := Refill();
        if !ok { return; }
      }
      c := mBuf[mIdx];
      assert mBuf[mIdx..mIdx + 1][0] == c;
      Advance(1);
    }

    method CopyBuffered(buf: array<char>, off: nat, n: nat)
      requires Valid() && buf != mBuf && off + n <= buf.Length && mIdx + n <= mBufLen
      modifies buf
      ensures buf[off..off + n] == mBuf[mIdx..mIdx + n] && buf[..off] == old(buf[..off])
    {
      var i := 0;
      while i < n
        invariant i <= n && buf[off..off + i] == mBuf[mIdx..mIdx + i] && buf[..off] == old(buf[..off])
      {
        buf[off + i] := mBuf[mIdx + i];
        i := i + 1;
      }
    }

    /** `GetBytes`; the size is a C `int`, and -1 stands for the exception. */
    method GetBytes(buf: array<char>, off: nat, size: nat) returns (n: int)
      requires Valid() && buf != mBuf && 1 <= size < 0x8000_0000 && off + size <= buf.Length
      modifies this, buf
      ensures Valid() && (n < 0 <==> old(Stream()) == "")
      ensures n < 0 ==> n == -1 && Stream() == ""
      ensures n >= 0 ==>
                && 1 <= n <= size && n <= |old(Stream())|
                && Stream() == old(Stream())[n..] && buf[off..off + n] == old(Stream())[..n]
      ensures buf[..off] == old(buf[..off])
    {
      if mIdx < mBufLen {
        n := if mBufLen - mIdx > size then size else mBufLen - mIdx;
        CopyBuffered(buf, off, n);
        Advance(n);
        if mIdx == mBufLen { mIdx, mBufLen := 0, 0; }
      } else {
        assert Stream() == Available(net);
        n := ReceiveBytes(buf, off, size);
        if n >= 0 { assert Stream() == Available(net); }
      }
    }

    method DiscardBytes(count: int) returns (ok: bool)
      requires Valid()
      modifies this, mBuf
      ensures Valid() && (ok <==> count <= |old(Stream())|)
      ensures ok ==> Stream() == if count >= 0 then old(Stream())[count..] else old(Stream())
      ensures !ok ==> Stream() == ""
    {
      hide Available;
      ghost var whole, used := Stream(), 0;
      var left := count;
      while left > 0
        invariant Valid() && left == count - used && (left >= 0 || used == 0)
        invariant 0 <= used <= |whole| && Stream() == whole[used..]
        decreases left
      {
        if mIdx == mBufLen {
          ok := Refill();
          if !ok { return; }
        }
        var n := mBufLen - mIdx;
        if n > left {
          Advance(left);
          DropTwice(whole, used, left);
          return true;
        }
        Advance(n);
        DropTwice(whole, used, n);
        used := used + n;
        left := left - n;
      }
      ok := true;
    }

    method ReceiveLine(trim: bool) returns (ok: bool, line: string)
      requires Valid()
      modifies this, mBuf
      ensures Valid() && (ok <==> LineLength(old(Stream())) > 0)
      ensures ok ==>
                var n := LineLength(old(Stream()));
                Stream() == old(Stream())[n..] &&
                line == if trim then TrimEnd(old(Stream())[..n]) else old(Stream())[..n]
      ensures !ok ==> Stream() == ""
    {
      ghost var whole := Stream();
      var c;
      ok, c := GetByte();
      if !ok { return false, ""; }
      line := [c];
      while c != '\n'
        invariant Valid() && line != "" && c == line[|line| - 1] && line + Stream() == whole
        invariant if c == '\n' then LineLength(whole) == |line|
                  else LineLength(whole) == if LineLength(Stream()) < 0 then -1 else |line| + LineLength(Stream())
        decreases |Stream()|
      {
        ghost var rest, before := Stream(), line;
        ok, c := GetByte();
        if !ok { return false, ""; }
        assert rest[1..] == Stream();
        line := line + [c];
        assert before + rest == line + Stream();
      }
      assert whole[..|line|] == line && whole[|line|..] == Stream();
      while trim && line != "" && IsSpace(line[|line| - 1])
        invariant TrimEnd(line) == TrimEnd(whole[..LineLength(whole)]) && (!trim ==> line == whole[..LineLength(whole)])
        decreases |line|
      {
        line := line[..|line| - 1];
      }
    }
  }

  /** The client's end of one server: the connection, the bytes sent over it, and the results that `send` will have. */
  class Server {
    const socket: Socket
    const pointer: nat
    var sends: seq<bool>
    var sent: seq<string>

    constructor (socket: Socket, pointer: nat, sends: seq<bool>)
      ensures this.socket == socket && this.pointer == pointer && this.sends == sends && sent == []
    {
      this.socket, this.pointer, this.sends, sent := socket, pointer, sends, [];
    }

    /** `SendBytes`; false stands for the exception, which also drops the connection. */
    method SendBytes(bytes: string) returns (ok: bool)
      requires socket.Valid()
      modifies this, socket
      ensures socket.Valid()
      ensures sent == if bytes == "" then old(sent) else old(sent) + [bytes]
      ensures ok <==> bytes == "" || (old(sends) != [] && old(sends)[0])
      ensures if ok then socket.Stream() == old(socket.Stream()) else socket.Stream() == ""
    {
      if bytes == "" { return true; }
      sent := sent + [bytes];
      ok := sends != [] && sends[0];
      if sends != [] { sends := sends[1..]; }
      if !ok { socket.Disconnect(); }
    }
  }

  lemma DropTwice(s: string, a: nat, b: nat)
    requires a + b <= |s|
    ensures s[a..][b..] == s[a + b..]
  {
  }

  lemma Consumed(net: seq<Event>, rc: nat)
    requires net != [] && net[0].Data? && net[0].bytes != "" && 1 <= rc <= |net[0].bytes|
    ensures var b := net[0].bytes;
            var after := if rc == |b| then net[1..] else [Data(b[rc..])] + net[1..];
            && rc <= |Available(net)| && b[..rc] == Available(net)[..rc] && Available(after) == Available(net)[rc..]
  {
    var b := net[0].bytes;
    assert Available(net) == b + Available(net[1..]);
    if rc < |b| {
      var after := [Data(b[rc..])] + net[1..];
      assert after[1..] == net[1..];
    }
  }
}
