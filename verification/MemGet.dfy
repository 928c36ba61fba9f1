/**
  `HandleGetResponse`: the response loop over a buffered connection and the caller's request objects, proved
  against `Process` for every stream and every way the network cuts it.
  The data buffer of a request is represented by its unread bytes.
  */
module MemGet {
  import opened MemSocket
  import opened MemResponse
  import Seqs

  class MemRequest {
    const key: string
    var flags: nat
    var cas: nat
    var result: Result
    var data: string
    var server: Server?

    function Value(): Req
      reads `flags, `cas, `result, `data
    {
      Req(key, flags, cas, result, data)
    }

    constructor (key: string)
      ensures Value() == Req(key, 0, 0, OK, "") && server == null
    {
      this.key, flags, cas, result, data, server := key, 0, 0, OK, "", null;
    }
  }

  function Snapshot(items: seq<MemRequest>): (r: seq<Req>)
    reads items`flags, items`cas, items`result, items`data
    ensures |r| == |items| && forall i :: 0 <= i < |r| ==> r[i] == items[i].Value()
  {
    if items == [] then [] else [items[0].Value()] + Snapshot(items[1..])
  }

  ghost predicate Distinct(items: seq<MemRequest>) {
    forall i, j :: 0 <= i < j < |items| ==> items[i] != items[j]
  }

  /** The place of the first request with this key, -1 when there is none. */
  method Find(items: seq<MemRequest>, key: string) returns (i: int)
    ensures i == FindKey(Snapshot(items), key)
  {
    ghost var reqs := Snapshot(items);
    i := 0;
    while i < |items|
      invariant 0 <= i <= |items| && reqs == Snapshot(items)
      invariant FindKey(reqs, key) == if FindKey(reqs[i..], key) < 0 then -1 else i + FindKey(reqs[i..], key)
    {
      assert reqs[i..][0] == items[i].Value() && reqs[i..][1..] == reqs[i + 1..];
      if items[i].key == key { return; }
      i := i + 1;
    }
    i := -1;
  }

  /** The loop that receives a value's bytes in whatever pieces they come. */
  method ReceiveData(server: Socket, item: MemRequest, bytes: nat) returns (ok: bool)
    requires server.Valid() && bytes < INT_LIMIT
    modifies server, server.mBuf, item`data
    ensures server.Valid() && (ok <==> bytes <= |old(server.Stream())|)
    ensures ok ==> server.Stream() == old(server.Stream())[bytes..]
    ensures item.data == old(item.data) + if ok then old(server.Stream())[..bytes] else old(server.Stream())
  {
    hide Socket.Stream;
    ghost var whole, used, before := server.Stream(), 0, item.data;
    assert whole[0..] == whole && before + whole[..0] == before;
    var left := bytes;
    while left > 0
      invariant server.Valid() && left == bytes - used >= 0 && 0 <= used <= |whole|
      invariant server.Stream() == whole[used..] && item.data == before + whole[..used]
      decreases left
    {
      var buf := new char[left];
      var n := server.GetBytes(buf, 0, left);
      if n < 0 {
        NothingLeft(whole, used);
        return false;
      }
      DropTwice(whole, used, n);
      NextPiece(before, whole, used, n);
      item.data := item.data + buf[0..0 + n];
      used := used + n;
      left := left - n;
    }
    ok := true;
  }

  lemma NextPiece(before: string, whole: string, used: nat, n: nat)
    requires used + n <= |whole|
    ensures before + whole[..used] + whole[used..][..n] == before + whole[..used + n]
  {
    assert whole[..used] + whole[used..][..n] == whole[..used + n];
    Seqs.Assoc(before, whole[..used], whole[used..][..n]);
  }

  lemma NothingLeft(whole: string, used: nat)
    requires used <= |whole| && whole[used..] == ""
    ensures used == |whole| && whole[..used] == whole
  {
  }

  method ExpectCrLf(server: Socket) returns (ok: bool)
    requires server.Valid()
    modifies server, server.mBuf
    ensures server.Valid() && (ok <==> CrLf <= old(server.Stream()))
    ensures ok ==> server.Stream() == old(server.Stream())[2..]
  {
    hide Available;
    ghost var whole := server.Stream();
    var c;
    ok, c := server.GetByte();
    if !ok { return; }
    assert whole[0] == c && whole[1..] == server.Stream();
    if c != '\r' { return false; }
    ok, c := server.GetByte();
    if !ok { return; }
    assert whole[1..] == [c] + server.Stream();
    assert whole[1] == c && whole[2..] == server.Stream();
    ok := c == '\n';
    assert ok ==> whole[..2] == CrLf;
  }

  datatype Step = Threw | Overran | Skipped | Found

  /** What one round says about the outcome: the loop ends with it, or its rest decides. */
  ghost predicate Stepped(step: Step, key: string, o: Outcome, stream: string, reqs: seq<Req>) {
    match step
    case Threw => o == Thrown(reqs)
    case Overran => o == Overrun(reqs)
    case Skipped => o == Process(stream, reqs)
    case Found => o == Then([key], Process(stream, reqs))
  }

  lemma SnapshotUpdate(items: seq<MemRequest>, before: seq<Req>, i: nat)
    requires Distinct(items) && i < |items| == |before|
    requires forall k :: 0 <= k < |items| && k != i ==> items[k].Value() == before[k]
    ensures Snapshot(items) == before[i := items[i].Value()]
  {
  }

  /** Flags and, when the line goes on, CAS; false for a CAS that is not ended properly. */
  method StoreHeader(items: seq<MemRequest>, i: nat, flags: nat, cas: Cas) returns (ok: bool)
    requires Distinct(items) && i < |items|
    modifies items`flags, items`cas
    ensures Snapshot(items) == FiledHeader(old(Snapshot(items)), i, flags, cas)
    ensures ok <==> !(cas.GotCas? && !cas.ended)
  {
    ghost var before := Snapshot(items);
    items[i].flags := flags;
    if cas.GotCas? {
      items[i].cas := cas.cas;
    }
    SnapshotUpdate(items, before, i);
    ok := !(cas.GotCas? && !cas.ended);
  }

  /** The bytes of the value, and the result. */
  method FileData(server: Socket, items: seq<MemRequest>, i: nat, bytes: nat) returns (ok: bool)
    requires server.Valid() && Distinct(items) && i < |items| && bytes < INT_LIMIT
    modifies server, server.mBuf, items`result, items`data
    ensures server.Valid() && (ok <==> bytes <= |old(server.Stream())|)
    ensures ok ==> server.Stream() == old(server.Stream())[bytes..]
    ensures var stream, reqs := old(server.Stream()), old(Snapshot(items));
            Snapshot(items) == if ok then reqs[i := reqs[i].(data := reqs[i].data + stream[..bytes], result := OK)]
                               else reqs[i := reqs[i].(data := reqs[i].data + stream)]
  {
    hide Socket.Stream, Socket.Valid, Snapshot;
    ghost var before := Snapshot(items);
    ok := ReceiveData(server, items[i], bytes);
    if ok { items[i].result := OK; }
    SnapshotUpdate(items, before, i);
  }

  /** The bytes of the value and the line end after them. */
  method StoreData(server: Socket, items: seq<MemRequest>, i: nat, bytes: nat) returns (ok: bool)
    requires server.Valid() && Distinct(items) && i < |items| && bytes < INT_LIMIT
    modifies server, server.mBuf, items`flags, items`cas, items`result, items`data
    ensures server.Valid()
    ensures var stream, reqs := old(server.Stream()), old(Snapshot(items));
            if |stream| < bytes then !ok && Snapshot(items) == reqs[i := reqs[i].(data := reqs[i].data + stream)]
            else
              && Snapshot(items) == reqs[i := reqs[i].(data := reqs[i].data + stream[..bytes], result := OK)]
              && (ok <==> CrLf <= stream[bytes..])
              && (ok ==> server.Stream() == stream[bytes + 2..])
  {
    hide *;
    ghost var whole := server.Stream();
    ok := FileData(server, items, i, bytes);
    if ok {
      ok := ExpectCrLf(server);
      if ok {
        CrLfFits(whole, bytes);
        DropTwice(whole, bytes, 2);
      }
    }
  }

  lemma CrLfFits(stream: string, bytes: nat)
    requires bytes <= |stream| && CrLf <= stream[bytes..]
    ensures bytes + 2 <= |stream|
  {
  }

  /** A value whose key is requested. */
  method Receive(server: Socket, items: seq<MemRequest>, i: nat, h: Header) returns (step: Step)
    requires server.Valid() && Distinct(items) && h.Value? && i == FindKey(Snapshot(items), h.key)
    modifies server, server.mBuf, items`flags, items`cas, items`result, items`data
    ensures server.Valid()
    ensures step.Skipped? || step.Found? ==> |server.Stream()| <= |old(server.Stream())|
    ensures Stepped(step, h.key, ProcessBody(h, old(server.Stream()), old(Snapshot(items))), server.Stream(), Snapshot(items))
  {
    hide Process, Socket.Stream, FindKey, Snapshot, FiledHeader, ParseCas;
    var ok := StoreHeader(items, i, h.flags, ParseCas(h.tail));
    if !ok { return Threw; }
    if h.bytes >= INT_LIMIT { return Overran; }
    ok := StoreData(server, items, i, h.bytes);
    step := if ok then Found else Threw;
  }

  /** One round: a header line, then the value or its removal; nothing at the end line. */
  method Round(server: Socket, items: seq<MemRequest>, line: string) returns (step: Step)
    requires server.Valid() && Distinct(items) && line != END
    modifies server, server.mBuf, items`flags, items`cas, items`result, items`data
    ensures server.Valid()
    ensures step.Skipped? || step.Found? ==> |server.Stream()| <= |old(server.Stream())|
    ensures var h := ParseHeader(line);
            if h.Value?
            then Stepped(step, h.key, ProcessBody(h, old(server.Stream()), old(Snapshot(items))), server.Stream(), Snapshot(items))
            else step == Threw && Snapshot(items) == old(Snapshot(items))
  {
    hide *;
    var h := ParseHeader(line);
    if !h.Value? { return Threw; }
    var i := Find(items, h.key);
    if i >= 0 {
      step := Receive(server, items, i, h);
    } else {
      SkippedBody(h, server.Stream(), Snapshot(items));
      var ok := server.DiscardBytes(AsInt(h.bytes + 2));
      step := if ok then Skipped else Threw;
      SteppedOver(step, h.key, ProcessBody(h, old(server.Stream()), Snapshot(items)), server.Stream(), Snapshot(items));
    }
  }

  /** A value that nobody requested. */
  lemma SkippedBody(h: Header, rest: string, reqs: seq<Req>)
    requires h.Value? && FindKey(reqs, h.key) < 0
    ensures var skip := AsInt(h.bytes + 2);
      && (skip > |rest| ==> ProcessBody(h, rest, reqs) == Thrown(reqs))
      && (0 <= skip <= |rest| ==> ProcessBody(h, rest, reqs) == Process(rest[skip..], reqs))
      && (skip < 0 ==> ProcessBody(h, rest, reqs) == Process(rest, reqs))
  {
    hide Process, FindKey, ParseCas, FiledHeader, AsInt;
  }

  lemma SteppedOver(step: Step, key: string, o: Outcome, stream: string, reqs: seq<Req>)
    requires step == Threw || step == Skipped
    requires o == if step == Threw then Thrown(reqs) else Process(stream, reqs)
    ensures Stepped(step, key, o, stream, reqs)
  {
    hide Process;
  }

  lemma ThenThen(filed: seq<string>, key: string, o: Outcome)
    ensures Then(filed, Then([key], o)) == Then(filed + [key], o) && Then([], o) == o
  {
    if o.Done? {
      Seqs.Assoc(filed, [key], o.filed);
      Seqs.Nothing(o.filed);
    }
  }

  lemma EndFirst(stream: string, reqs: seq<Req>)
    ensures "END\r\n" <= stream ==> Process(stream, reqs) == Done([], reqs, stream[5..])
  {
    if "END\r\n" <= stream {
      assert stream == "END\r\n" + stream[5..];
      ConformingResponse([], stream[5..], reqs);
    }
  }

  /** `HandleGetResponse`; -1 stands for an exception, -2 for a size that is no `int`. */
  method HandleGetResponse(server: Socket, items: seq<MemRequest>) returns (found: int)
    requires server.Valid() && Distinct(items)
    modifies server, server.mBuf, items`flags, items`cas, items`result, items`data
    ensures server.Valid()
    ensures match Process(old(server.Stream()), old(Snapshot(items)))
            case Done(filed, reqs, rest) => found == |filed| && Snapshot(items) == reqs && server.Stream() == rest
            case Thrown(reqs) => found == -1 && Snapshot(items) == reqs
            case Overrun(reqs) => found == -2 && Snapshot(items) == reqs
    ensures "END\r\n" <= old(server.Stream()) ==>
              found == 0 && Snapshot(items) == old(Snapshot(items)) && server.Stream() == old(server.Stream())[5..]
  {
    EndFirst(server.Stream(), Snapshot(items));
    hide *;
    found := FileResponse(server, items);
  }

  /** The loop over the values. */
  method FileResponse(server: Socket, items: seq<MemRequest>) returns (found: int)
    requires server.Valid() && Distinct(items)
    modifies server, server.mBuf, items`flags, items`cas, items`result, items`data
    ensures server.Valid()
    ensures match Process(old(server.Stream()), old(Snapshot(items)))
            case Done(filed, reqs, rest) => found == |filed| && Snapshot(items) == reqs && server.Stream() == rest
            case Thrown(reqs) => found == -1 && Snapshot(items) == reqs
            case Overrun(reqs) => found == -2 && Snapshot(items) == reqs
  {
    hide *;
    ghost var whole := Process(server.Stream(), Snapshot(items));
    ghost var filed: seq<string> := [];
    found := 0;
    ThenThen([], "", whole);
    while true
      invariant server.Valid() && whole == Then(filed, Process(server.Stream(), Snapshot(items))) && found == |filed|
      decreases |server.Stream()|
    {
      ghost var stream, before := server.Stream(), Snapshot(items);
      var ok, line := server.ReceiveLine(false);
      ThenEnds(filed, stream, Snapshot(items));
      if !ok { return -1; }
      if line == END { return; }
      var step := Round(server, items, line);
      ThenStops(filed, Snapshot(items));
      ghost var h, o := ParseHeader(line), Process(stream, before);
      if h.Value? { SteppedIs(step, h.key, o, server.Stream(), Snapshot(items)); }
      if step == Threw { return -1; }
      if step == Overran { return -2; }
      if step == Found {
        ghost var key := ParseHeader(line).key;
        ThenThen(filed, key, Process(server.Stream(), Snapshot(items)));
        filed := filed + [key];
        found := found + 1;
      }
    }
  }

  lemma SteppedIs(step: Step, key: string, o: Outcome, stream: string, reqs: seq<Req>)
    requires Stepped(step, key, o, stream, reqs)
    ensures match step
      case Threw => o == Thrown(reqs)
      case Overran => o == Overrun(reqs)
      case Skipped => o == Process(stream, reqs)
      case Found => o == Then([key], Process(stream, reqs))
  {
  }

  /** What is left to do decides the end. */
  lemma ThenEnds(filed: seq<string>, stream: string, reqs: seq<Req>)
    ensures var n, o := LineLength(stream), Then(filed, Process(stream, reqs));
      && (n < 0 ==> o == Thrown(reqs))
      && (n >= 0 && stream[..n] == END ==> o == Done(filed, reqs, stream[n..]))
      && (n >= 0 && ParseHeader(stream[..n]).Bad? ==> o == Thrown(reqs))
      && (n >= 0 && ParseHeader(stream[..n]).Value? ==> Process(stream, reqs) == ProcessBody(ParseHeader(stream[..n]), stream[n..], reqs))
      && (n >= 0 && ParseHeader(stream[..n]).End? ==> stream[..n] == END)
  {
    hide ProcessBody;
    Seqs.Nothing(filed);
  }

  lemma ThenStops(filed: seq<string>, reqs: seq<Req>)
    ensures Then(filed, Thrown(reqs)) == Thrown(reqs) && Then(filed, Overrun(reqs)) == Overrun(reqs)
  {
  }
}
