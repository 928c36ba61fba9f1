/**
  The game server's message framing: `OnRead` cuts the received bytes into length-prefixed messages. The header size
  is a parameter of at least two bytes, and so is the message handler, which may look at all messages so far.
  */
module Framing {
  import opened Seqs

  type Byte = bv8

  const MAX: nat := 500

  /** The message length at the front, a little-endian unsigned short. */
  function FrameLength(buffer: seq<Byte>): nat
    requires |buffer| >= 2
  {
    buffer[0] as int + 256 * (buffer[1] as int)
  }

  predicate Legal(header: nat, length: nat) {
    header < length <= MAX
  }

  /** The low byte of the length comes first. */
  lemma LowByteFirst(buffer: seq<Byte>, n: nat)
    requires |buffer| >= 2 && n < 0x10000 && buffer[0] as int == n % 256 && buffer[1] as int == n / 256
    ensures FrameLength(buffer) == n
  {
  }

  /** A message is longer than its header, and has at most 500 bytes. */
  lemma LegalIs(header: nat, length: nat)
    ensures Legal(header, length) <==> header < length && length <= 500
  {
  }

  /** Delivered messages, bytes kept for later, and whether the connection is still up. */
  datatype State = State(delivered: seq<seq<Byte>>, buffer: seq<Byte>, connected: bool)

  type Handler = (seq<seq<Byte>>, seq<Byte>) -> bool

  /** One pass of the reading loop over everything received. */
  function Drain(s: State, header: nat, accepts: Handler): (r: State)
    requires header >= 2
    ensures |r.buffer| <= |s.buffer|
    decreases |s.buffer|
  {
    if |s.buffer| < header then s
    else
      var n := FrameLength(s.buffer);
      if !Legal(header, n) then State(s.delivered, [], false)
      else if |s.buffer| < n then s
      else
        var frame := s.buffer[..n];
        if accepts(s.delivered, frame) then Drain(State(s.delivered + [frame], s.buffer[n..], s.connected), header, accepts)
        else State(s.delivered + [frame], [], false)
  }

  /** Bytes arrive, then `OnRead` runs; a closed connection receives nothing more. */
  function Receive(s: State, chunk: seq<Byte>, header: nat, accepts: Handler): State
    requires header >= 2
  {
    if s.connected then Drain(s.(buffer := s.buffer + chunk), header, accepts) else s
  }

  function ReceiveAll(s: State, chunks: seq<seq<Byte>>, header: nat, accepts: Handler): State
    requires header >= 2
    decreases |chunks|
  {
    if chunks == [] then s else ReceiveAll(Receive(s, chunks[0], header, accepts), chunks[1..], header, accepts)
  }

  function Concat(chunks: seq<seq<Byte>>): seq<Byte> {
    if chunks == [] then [] else chunks[0] + Concat(chunks[1..])
  }

  /** Reading what has come so far first, and the rest later, makes no difference. */
  lemma {:induction false} DrainEarly(s: State, more: seq<Byte>, header: nat, accepts: Handler)
    requires header >= 2 && s.connected
    ensures var first := Drain(s, header, accepts);
            Drain(s.(buffer := s.buffer + more), header, accepts)
            == if first.connected then Drain(first.(buffer := first.buffer + more), header, accepts) else first
    decreases |s.buffer|
  {
    if |s.buffer| >= header {
      var all := s.buffer + more;
      var n := FrameLength(s.buffer);
      assert FrameLength(all) == n;
      if Legal(header, n) && |s.buffer| >= n {
        assert all[..n] == s.buffer[..n] && all[n..] == s.buffer[n..] + more;
        if accepts(s.delivered, s.buffer[..n]) {
          DrainEarly(State(s.delivered + [s.buffer[..n]], s.buffer[n..], true), more, header, accepts);
        }
      }
    }
  }

  /** Framing does not depend on how the network cuts the stream, for legal and illegal streams alike. */
  lemma {:induction false} ChunkingIrrelevant(s: State, chunks: seq<seq<Byte>>, header: nat, accepts: Handler)
    requires header >= 2 && s.connected && Drain(s, header, accepts) == s
    ensures ReceiveAll(s, chunks, header, accepts) == Drain(s.(buffer := s.buffer + Concat(chunks)), header, accepts)
    decreases |chunks|
  {
    if chunks == [] {
      Nothing(s.buffer);
    } else {
      hide Drain;
      var t := s.(buffer := s.buffer + chunks[0]);
      var first := Drain(t, header, accepts);
      DrainEarly(t, Concat(chunks[1..]), header, accepts);
      Assoc(s.buffer, chunks[0], Concat(chunks[1..]));
      DrainKeepsConnection(t, header, accepts);
      if first.connected {
        ChunkingIrrelevant(first, chunks[1..], header, accepts);
      } else {
        ClosedStaysClosed(first, chunks[1..], header, accepts);
      }
    }
  }

  lemma {:induction false} DrainKeepsConnection(s: State, header: nat, accepts: Handler)
    requires header >= 2
    ensures var r := Drain(s, header, accepts); r.connected ==> Drain(r, header, accepts) == r && s.connected
    decreases |s.buffer|
  {
    if |s.buffer| >= header {
      var n := FrameLength(s.buffer);
      if Legal(header, n) && |s.buffer| >= n && accepts(s.delivered, s.buffer[..n]) {
        DrainKeepsConnection(State(s.delivered + [s.buffer[..n]], s.buffer[n..], s.connected), header, accepts);
      }
    }
  }

  lemma {:induction false} ClosedStaysClosed(s: State, chunks: seq<seq<Byte>>, header: nat, accepts: Handler)
    requires header >= 2 && !s.connected
    ensures ReceiveAll(s, chunks, header, accepts) == s
    decreases |chunks|
  {
    if chunks != [] { ClosedStaysClosed(s, chunks[1..], header, accepts); }
  }

  // ---------------------------------------------------------------- legal streams

  /** A message that carries its own legal length. */
  predicate FrameOk(frame: seq<Byte>, header: nat)
    requires header >= 2
  {
    |frame| >= 2 && FrameLength(frame) == |frame| && Legal(header, |frame|)
  }

  predicate AllAccepted(before: seq<seq<Byte>>, frames: seq<seq<Byte>>, accepts: Handler)
    decreases |frames|
  {
    frames == [] || (accepts(before, frames[0]) && AllAccepted(before + [frames[0]], frames[1..], accepts))
  }

  /** Too short to be read: not even a header, or a legal length with bytes still missing. */
  predicate Incomplete(rest: seq<Byte>, header: nat)
    requires header >= 2
  {
    |rest| < header || (Legal(header, FrameLength(rest)) && |rest| < FrameLength(rest))
  }

  lemma {:induction false} DrainOne(before: seq<seq<Byte>>, f: seq<Byte>, more: seq<Byte>, header: nat, accepts: Handler)
    requires header >= 2 && FrameOk(f, header) && accepts(before, f)
    ensures Drain(State(before, f + more, true), header, accepts) == Drain(State(before + [f], more, true), header, accepts)
  {
    assert FrameLength(f + more) == FrameLength(f) == |f|;
    Split(f, more);
  }

  lemma {:induction false} DrainFrames(before: seq<seq<Byte>>, frames: seq<seq<Byte>>, rest: seq<Byte>, header: nat, accepts: Handler)
    requires header >= 2 && Incomplete(rest, header) && AllAccepted(before, frames, accepts)
    requires forall i :: 0 <= i < |frames| ==> FrameOk(frames[i], header)
    ensures Drain(State(before, Concat(frames) + rest, true), header, accepts) == State(before + frames, rest, true)
    decreases |frames|
  {
    if frames == [] {
      Nothing(rest);
      Nothing(before);
    } else {
      hide Drain, FrameOk, Incomplete;
      var f, more := frames[0], Concat(frames[1..]) + rest;
      Assoc(f, Concat(frames[1..]), rest);
      DrainOne(before, f, more, header, accepts);
      DrainFrames(before + [f], frames[1..], rest, header, accepts);
      HeadTail(before, frames);
    }
  }

  /** Accepted legal messages, however cut, are delivered once each, in order and unaltered; what is left over is
      the start of the next one. */
  lemma {:induction false} EveryFrameDelivered(chunks: seq<seq<Byte>>, frames: seq<seq<Byte>>, rest: seq<Byte>, header: nat, accepts: Handler)
    requires header >= 2 && Incomplete(rest, header) && AllAccepted([], frames, accepts)
    requires forall i :: 0 <= i < |frames| ==> FrameOk(frames[i], header)
    requires Concat(chunks) == Concat(frames) + rest
    ensures ReceiveAll(State([], [], true), chunks, header, accepts) == State(frames, rest, true)
  {
    var start := State([], [], true);
    ChunkingIrrelevant(start, chunks, header, accepts);
    assert [] + Concat(chunks) == Concat(chunks) && [] + frames == frames;
    DrainFrames([], frames, rest, header, accepts);
  }

  /** A length that is not legal, behind accepted messages, ends the connection and delivers nothing more. */
  lemma {:induction false} IllegalLength(before: seq<seq<Byte>>, frames: seq<seq<Byte>>, bad: seq<Byte>, header: nat, accepts: Handler)
    requires header >= 2 && AllAccepted(before, frames, accepts)
    requires forall i :: 0 <= i < |frames| ==> FrameOk(frames[i], header)
    requires |bad| >= header && (FrameLength(bad) <= header || FrameLength(bad) > 500)
    ensures Drain(State(before, Concat(frames) + bad, true), header, accepts) == State(before + frames, [], false)
    decreases |frames|
  {
    if frames == [] {
      Nothing(bad);
      Nothing(before);
    } else {
      hide Drain, FrameOk, FrameLength;
      var f, more := frames[0], Concat(frames[1..]) + bad;
      Assoc(f, Concat(frames[1..]), bad);
      DrainOne(before, f, more, header, accepts);
      IllegalLength(before + [f], frames[1..], bad, header, accepts);
      HeadTail(before, frames);
    }
  }

  /** So does a message that the handler refuses, after it has been handed over. */
  lemma {:induction false} RefusedMessage(before: seq<seq<Byte>>, frames: seq<seq<Byte>>, f: seq<Byte>, rest: seq<Byte>, header: nat, accepts: Handler)
    requires header >= 2 && AllAccepted(before, frames, accepts)
    requires forall i :: 0 <= i < |frames| ==> FrameOk(frames[i], header)
    requires FrameOk(f, header) && !accepts(before + frames, f)
    ensures Drain(State(before, Concat(frames) + (f + rest), true), header, accepts) == State(before + frames + [f], [], false)
    decreases |frames|
  {
    if frames == [] {
      Nothing(f + rest);
      Nothing(before);
      Split(f, rest);
      assert FrameLength(f + rest) == FrameLength(f);
    } else {
      hide Drain, FrameOk;
      var g, more := frames[0], Concat(frames[1..]) + (f + rest);
      Assoc(g, Concat(frames[1..]), f + rest);
      DrainOne(before, g, more, header, accepts);
      HeadTail(before, frames);
      RefusedMessage(before + [g], frames[1..], f, rest, header, accepts);
    }
  }

  // ---------------------------------------------------------------- the socket

  class BaseSocket {
    const header: nat
    const accepts: Handler
    var delivered: seq<seq<Byte>>
    var readBuffer: seq<Byte>
    var connected: bool

    constructor (header: nat, accepts: Handler)
      ensures this.header == header && this.accepts == accepts && Value() == State([], [], true)
    {
      this.header, this.accepts := header, accepts;
      delivered, readBuffer, connected := [], [], true;
    }

    function Value(): State
      reads this
    {
      State(delivered, readBuffer, connected)
    }

    /** `handleMessage`; its verdict is the handler's. */
    method HandleMessage(msg: seq<Byte>) returns (right: bool)
      modifies `delivered
      ensures delivered == old(delivered) + [msg] && right == accepts(old(delivered), msg)
    {
      right := accepts(delivered, msg);
      delivered := delivered + [msg];
    }

    method OnRead()
      requires header >= 2
      modifies this
      ensures Value() == Drain(old(Value()), header, accepts)
    {
      var size := |readBuffer|;
      while size >= header
        invariant size == |readBuffer|
        invariant Drain(old(Value()), header, accepts) == Drain(Value(), header, accepts)
        decreases size
      {
        var buffSize := FrameLength(readBuffer);
        if buffSize <= header || buffSize > MAX {
          readBuffer, connected := [], false;
          return;
        }
        if size >= buffSize {
          var msg := readBuffer[..buffSize];
          readBuffer := readBuffer[buffSize..];
          var right := HandleMessage(msg);
          if !right {
            readBuffer, connected := [], false;
            return;
          }
        } else {
          break;
        }
        size := |readBuffer|;
      }
    }
  }
}
