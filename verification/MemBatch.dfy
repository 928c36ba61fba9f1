/**
  A batch of get requests as values: the line sent to one server, and what becomes of the requests sent with it
  when the bytes that can be received from that server are known.
  */
module MemBatch {
  import opened MemSocket
  import opened MemResponse
  import Seqs

  function KeyList(keys: seq<string>): string {
    if keys == [] then "" else KeyList(keys[..|keys| - 1]) + " " + keys[|keys| - 1]
  }

  /** The command, then every key after a space. */
  function RequestLine(command: string, keys: seq<string>): string {
    command + KeyList(keys) + CrLf
  }

  /** The requests of one server after a failure to send or to receive. */
  function Lost(reqs: seq<Req>): (r: seq<Req>)
    ensures |r| == |reqs| && forall i :: 0 <= i < |r| ==> r[i] == reqs[i].(result := NOSERVER)
  {
    if reqs == [] then [] else [reqs[0].(result := NOSERVER)] + Lost(reqs[1..])
  }

  /** Sending and receiving come to a defined end: no size that is no `int` is announced for a request. */
  predicate Defined(sent: bool, stream: string, reqs: seq<Req>) {
    sent ==> !Process(stream, reqs).Overrun?
  }

  /** What becomes of the requests of one server. */
  function After(sent: bool, stream: string, reqs: seq<Req>): seq<Req> {
    if !sent then Lost(reqs)
    else
      var o := Process(stream, reqs);
      if o.Thrown? then Lost(o.reqs) else o.reqs
  }

  /** What they add to the number of responses. */
  function Responses(sent: bool, stream: string, reqs: seq<Req>): nat {
    var o := Process(stream, reqs);
    if sent && o.Done? then |o.filed| else 0
  }

  // ---------------------------------------------------------------- any bytes whatever

  predicate Open(reqs: seq<Req>) {
    forall i :: 0 <= i < |reqs| ==> reqs[i].result == OK || reqs[i].result == NOTFOUND
  }

  predicate Settled(reqs: seq<Req>) {
    forall i :: 0 <= i < |reqs| ==> reqs[i].result == OK || reqs[i].result == NOTFOUND || reqs[i].result == NOSERVER
  }

  predicate SameKeys(a: seq<Req>, b: seq<Req>) {
    |a| == |b| && forall i :: 0 <= i < |a| ==> a[i].key == b[i].key
  }

  predicate NoRepeats(keys: seq<string>) {
    forall i, j :: 0 <= i < j < |keys| ==> keys[i] != keys[j]
  }

  predicate KeyIsOk(reqs: seq<Req>, key: string) {
    var i := FindKey(reqs, key); i >= 0 && reqs[i].result == OK
  }

  /** No key repeats, and none is that of a request which is OK already. */
  predicate AllNew(keys: seq<string>, reqs: seq<Req>) {
    NoRepeats(keys) && forall i :: 0 <= i < |keys| ==> !KeyIsOk(reqs, keys[i])
  }

  /** From a to b no key changes, and results stay OK or NOTFOUND. */
  predicate Kept(a: seq<Req>, b: seq<Req>) {
    SameKeys(a, b) && Open(b)
  }

  /** Each key filed makes at most one request OK, and all of them do just when all are new. */
  predicate Grows(a: seq<Req>, b: seq<Req>, keys: seq<string>) {
    CountOk(b) <= CountOk(a) + |keys| && (CountOk(b) == CountOk(a) + |keys| <==> AllNew(keys, a))
  }

  lemma {:induction false} CountOkAt(reqs: seq<Req>, i: nat, q: Req)
    requires i < |reqs|
    ensures CountOk(reqs[i := q]) + (if reqs[i].result == OK then 1 else 0) == CountOk(reqs) + if q.result == OK then 1 else 0
  {
    if i == 0 {
      assert reqs[i := q][1..] == reqs[1..];
    } else {
      assert reqs[i := q][1..] == reqs[1..][i - 1 := q];
      CountOkAt(reqs[1..], i - 1, q);
    }
  }

  lemma KeptAt(reqs: seq<Req>, i: nat, q: Req)
    requires Open(reqs) && i < |reqs| && q.key == reqs[i].key && (q.result == OK || q.result == NOTFOUND)
    ensures Kept(reqs, reqs[i := q])
  {
  }

  lemma NoRepeatsFirst(key: string, keys: seq<string>)
    ensures NoRepeats([key] + keys) <==> key !in keys && NoRepeats(keys)
  {
    var all := [key] + keys;
    assert forall i :: 0 <= i < |keys| ==> all[i + 1] == keys[i];
    if NoRepeats(all) {
      forall i, j | 0 <= i < j < |keys| ensures keys[i] != keys[j] { assert all[i + 1] != all[j + 1]; }
      forall j | 0 <= j < |keys| ensures keys[j] != key { assert all[0] != all[j + 1]; }
    }
  }

  /** Filing under one key leaves the other keys as new as they were. */
  lemma AllNewFirst(key: string, keys: seq<string>, reqs: seq<Req>, filed: seq<Req>)
    requires SameKeys(reqs, filed) && KeyIsOk(filed, key)
    requires forall k :: 0 <= k < |reqs| && k != FindKey(reqs, key) ==> filed[k].result == reqs[k].result
    ensures !KeyIsOk(reqs, key) ==> (AllNew([key] + keys, reqs) <==> AllNew(keys, filed))
    ensures KeyIsOk(reqs, key) ==> !AllNew([key] + keys, reqs)
  {
    hide FindKey, NoRepeats;
    FindKeySame(reqs, filed, key);
    NoRepeatsFirst(key, keys);
    var all := [key] + keys;
    assert all[0] == key && forall i :: 0 <= i < |keys| ==> all[i + 1] == keys[i];
    if !KeyIsOk(reqs, key) {
      forall i | 0 <= i < |keys| ensures keys[i] != key ==> (KeyIsOk(reqs, keys[i]) <==> KeyIsOk(filed, keys[i])) {
        FindKeySame(reqs, filed, keys[i]);
      }
      if AllNew(keys, filed) {
        assert forall i :: 0 <= i < |keys| ==> keys[i] != key;
        forall i | 0 <= i < |all| ensures !KeyIsOk(reqs, all[i]) {
          if i > 0 { assert all[i] == keys[i - 1]; }
        }
      }
      if AllNew(all, reqs) {
        forall i | 0 <= i < |keys| ensures !KeyIsOk(filed, keys[i]) {
          assert all[i + 1] == keys[i];
        }
      }
    }
  }

  predicate OutcomeGrows(reqs: seq<Req>, o: Outcome) {
    Kept(reqs, o.reqs) && (o.Done? ==> Grows(reqs, o.reqs, o.filed))
  }

  lemma KeptTogether(a: seq<Req>, b: seq<Req>, c: seq<Req>)
    requires SameKeys(a, b) && Kept(b, c)
    ensures Kept(a, c)
  {
  }

  /** A value has been filed, and the rest of the loop follows. */
  lemma FiledGrows(reqs: seq<Req>, header: seq<Req>, key: string, filed: seq<Req>, o: Outcome)
    requires var i := FindKey(reqs, key);
      && 0 <= i && Kept(reqs, header) && CountOk(header) == CountOk(reqs) && header == reqs[i := header[i]]
      && header[i].result == reqs[i].result
      && |filed| == |header| && filed == header[i := filed[i]] && filed[i].key == key && filed[i].result == OK
    requires OutcomeGrows(filed, o)
    ensures OutcomeGrows(reqs, Then([key], o))
  {
    var i := FindKey(reqs, key);
    CountOkAt(header, i, filed[i]);
    assert SameKeys(reqs, filed);
    KeptTogether(reqs, filed, o.reqs);
    FindKeySame(reqs, filed, key);
    hide FindKey, CountOk, AllNew;
    if o.Done? { AllNewFirst(key, o.filed, reqs, filed); }
  }

  lemma HeaderKept(reqs: seq<Req>, i: nat, flags: nat, cas: Cas)
    requires Open(reqs) && i < |reqs|
    ensures var header := FiledHeader(reqs, i, flags, cas);
      && Kept(reqs, header) && CountOk(header) == CountOk(reqs) && header == reqs[i := header[i]]
      && header[i].result == reqs[i].result && header[i].key == reqs[i].key
  {
    var q := FiledHeader(reqs, i, flags, cas)[i];
    KeptAt(reqs, i, q);
    CountOkAt(reqs, i, q);
  }

  /** On any bytes, each response counted makes at most one request OK, and exactly one if no key repeats. */
  lemma {:induction false} ProcessGrows(stream: string, reqs: seq<Req>)
    requires Open(reqs)
    ensures OutcomeGrows(reqs, Process(stream, reqs))
    decreases |stream|, 0
  {
    hide CountOk;
    var n := LineLength(stream);
    if n >= 0 {
      var h := ParseHeader(stream[..n]);
      if h.Value? { BodyGrows(h, stream[n..], reqs); }
    }
  }

  lemma {:induction false} BodyGrows(h: Header, rest: string, reqs: seq<Req>)
    requires h.Value? && Open(reqs)
    ensures OutcomeGrows(reqs, ProcessBody(h, rest, reqs))
    decreases |rest|, 1
  {
    hide Process, ParseCas, Grows, Kept, CountOk, FiledHeader, Then;
    var i := FindKey(reqs, h.key);
    if i < 0 {
      var skip := AsInt(h.bytes + 2);
      if skip > |rest| {
        StaysKept(reqs);
      } else {
        ProcessGrows(if skip >= 0 then rest[skip..] else rest, reqs);
      }
    } else {
      var cas := ParseCas(h.tail);
      var header := FiledHeader(reqs, i, h.flags, cas);
      HeaderKept(reqs, i, h.flags, cas);
      if !(cas.GotCas? && !cas.ended) && h.bytes < INT_LIMIT {
        if |rest| < h.bytes {
          ChangedKept(reqs, header, i, header[i].(data := header[i].data + rest));
        } else {
          var filed := header[i := header[i].(data := header[i].data + rest[..h.bytes], result := OK)];
          ChangedKept(reqs, header, i, filed[i]);
          if CrLf <= rest[h.bytes..] {
            KeptOpen(reqs, filed);
            ProcessGrows(rest[h.bytes + 2..], filed);
            FiledGrows(reqs, header, h.key, filed, Process(rest[h.bytes + 2..], filed));
          }
        }
      }
    }
  }

  lemma StaysKept(reqs: seq<Req>)
    requires Open(reqs)
    ensures Kept(reqs, reqs)
  {
  }

  lemma KeptOpen(a: seq<Req>, b: seq<Req>)
    requires Kept(a, b)
    ensures Open(b)
  {
  }

  lemma ChangedKept(reqs: seq<Req>, header: seq<Req>, i: nat, q: Req)
    requires Kept(reqs, header) && i < |header| && q.key == header[i].key && (q.result == OK || q.result == header[i].result)
    ensures Kept(reqs, header[i := q])
  {
  }

  predicate AllNotFound(reqs: seq<Req>) {
    forall i :: 0 <= i < |reqs| ==> reqs[i].result == NOTFOUND
  }

  lemma {:induction false} NoneOk(reqs: seq<Req>)
    requires forall i :: 0 <= i < |reqs| ==> reqs[i].result != OK
    ensures CountOk(reqs) == 0
  {
    if reqs != [] { NoneOk(reqs[1..]); }
  }

  /** No request is answered twice: the keys filed from a response that is read to its end do not repeat. */
  predicate AnsweredOnce(sent: bool, stream: string, reqs: seq<Req>) {
    var o := Process(stream, reqs);
    sent && o.Done? ==> NoRepeats(o.filed)
  }

  /** However sending and receiving go, every request is settled; the count returned is no less than the number
      that are OK, and it is that number just when no key is answered twice. */
  lemma {:induction false} AlwaysSettled(sent: bool, stream: string, reqs: seq<Req>)
    requires AllNotFound(reqs)
    ensures Settled(After(sent, stream, reqs)) && SameKeys(reqs, After(sent, stream, reqs))
    ensures Defined(sent, stream, reqs) ==>
              var ok, n := CountOk(After(sent, stream, reqs)), Responses(sent, stream, reqs);
              ok <= n && (ok == n <==> AnsweredOnce(sent, stream, reqs))
  {
    hide Process;
    NoneOk(reqs);
    ProcessGrows(stream, reqs);
    if !sent || Process(stream, reqs).Thrown? { NoneOk(After(sent, stream, reqs)); }
  }

  // ---------------------------------------------------------------- conforming servers

  /** s is a proper prefix of t. */
  predicate CutShort(s: string, t: string) {
    |s| < |t| && s == t[..|s|]
  }

  /** The bytes are a conforming response, with anything after it, or one broken off by a failure. */
  ghost predicate Conforms(stream: string, vs: seq<Item>) {
    && (forall i :: 0 <= i < |vs| ==> ItemOk(vs[i]))
    && (Response(vs) <= stream || CutShort(stream, Response(vs)))
  }

  lemma {:induction false} NoLine(s: string)
    requires '\n' !in s
    ensures LineLength(s) == -1
  {
    if s != "" { NoLine(s[1..]); }
  }

  lemma CutHeader(v: Item, s: string)
    requires ItemOk(v) && CutShort(s, HeaderLine(v))
    ensures LineLength(s) == -1
  {
    var line := HeaderLine(v);
    HeaderIsALine(v, "");
    assert line + "" == line;
    LineLengthIsFirst(line);
    hide HeaderLine, LineLength;
    assert forall i :: 0 <= i < |s| ==> s[i] == line[..|line| - 1][i];
    NoLine(s);
  }

  lemma CutBeyond(s: string, a: string, b: string)
    requires CutShort(s, a + b)
    ensures CutShort(s, a) || (|a| <= |s| && s == a + s[|a|..] && CutShort(s[|a|..], b))
  {
    if |s| >= |a| {
      assert (a + b)[..|a|] == a;
      assert s[..|a|] == (a + b)[..|s|][..|a|] == a;
      assert s[|a|..] == b[..|s| - |a|];
    } else {
      assert (a + b)[..|s|] == a[..|s|];
    }
  }

  /** A response broken off anywhere throws. */
  lemma {:induction false} CutResponseThrows(vs: seq<Item>, s: string, reqs: seq<Req>)
    requires (forall i :: 0 <= i < |vs| ==> ItemOk(vs[i])) && CutShort(s, Response(vs))
    ensures Process(s, reqs).Thrown?
    decreases |vs|, 1
  {
    if vs == [] {
      NoLine(s);
    } else {
      var v := vs[0];
      var tail := v.data + (CrLf + Response(vs[1..]));
      CutBeyond(s, HeaderLine(v), tail);
      if CutShort(s, HeaderLine(v)) {
        CutHeader(v, s);
      } else {
        var t := s[|HeaderLine(v)|..];
        hide Process, ProcessBody, HeaderLine, Response;
        HeaderIsALine(v, t);
        HeaderReadsBack(v);
        ProcessHeader(HeaderLine(v), t, reqs);
        CutBodyThrows(vs, t, reqs);
      }
    }
  }

  lemma {:induction false} CutBodyThrows(vs: seq<Item>, t: string, reqs: seq<Req>)
    requires vs != [] && forall i :: 0 <= i < |vs| ==> ItemOk(vs[i])
    requires CutShort(t, vs[0].data + (CrLf + Response(vs[1..])))
    ensures var v := vs[0]; ProcessBody(Value(v.key, v.flags, |v.data|, CasText(v)), t, reqs).Thrown?
    decreases |vs|, 0
  {
    hide Process, CasText, Response, CutShort, ItemOk, FiledHeader;
    var v, more := vs[0], Response(vs[1..]);
    CasReadsBack(v);
    CutValue(v, more, t);
    SizeIsInt(v);
    var h := Value(v.key, v.flags, |v.data|, CasText(v));
    if |v.data| + 2 <= |t| {
      var rest := t[|v.data| + 2..];
      var i := FindKey(reqs, v.key);
      if i < 0 {
        CutResponseThrows(vs[1..], rest, reqs);
      } else {
        var header := FiledHeader(reqs, i, h.flags, ParseCas(h.tail));
        var filed := header[i := header[i].(data := header[i].data + t[..h.bytes], result := OK)];
        CutResponseThrows(vs[1..], rest, filed);
      }
    } else {
      ShortThrows(h, t, reqs);
    }
  }

  lemma SizeIsInt(v: Item)
    requires ItemOk(v)
    ensures AsInt(|v.data| + 2) == |v.data| + 2
  {
  }

  lemma CutValue(v: Item, more: string, t: string)
    requires CutShort(t, v.data + (CrLf + more))
    ensures |v.data| + 2 <= |t| ==> CutShort(t[|v.data| + 2..], more)
  {
    Seqs.Assoc(v.data, CrLf, more);
    CutBeyond(t, v.data + CrLf, more);
  }

  lemma ShortThrows(h: Header, t: string, reqs: seq<Req>)
    requires h.Value? && |t| < h.bytes + 2 && AsInt(h.bytes + 2) == h.bytes + 2
    ensures ProcessBody(h, t, reqs).Thrown?
  {
    hide Process, FindKey, ParseCas;
  }

  /** No requested key has two values. */
  predicate ValuesOnce(vs: seq<Item>, reqs: seq<Req>) {
    forall i, j :: 0 <= i < j < |vs| && vs[i].key == vs[j].key ==> FindKey(reqs, vs[i].key) < 0
  }

  lemma {:induction false} InMatched(vs: seq<Item>, reqs: seq<Req>, key: string)
    ensures key in Matched(vs, reqs) <==> FindKey(reqs, key) >= 0 && exists i :: 0 <= i < |vs| && vs[i].key == key
  {
    if vs != [] {
      InMatched(vs[1..], reqs, key);
      if i :| 0 <= i < |vs| && vs[i].key == key {
        if i > 0 { assert vs[1..][i - 1].key == key; }
      }
    }
  }

  lemma {:induction false} MatchedOnce(vs: seq<Item>, reqs: seq<Req>)
    ensures NoRepeats(Matched(vs, reqs)) <==> ValuesOnce(vs, reqs)
  {
    if vs != [] {
      var key, more := vs[0].key, Matched(vs[1..], reqs);
      MatchedOnce(vs[1..], reqs);
      InMatched(vs[1..], reqs, key);
      NoRepeatsFirst(key, more);
      Seqs.Nothing(more);
      hide FindKey, Matched, NoRepeats;
      ValuesOnceFirst(vs, reqs);
    }
  }

  lemma ValuesOnceFirst(vs: seq<Item>, reqs: seq<Req>)
    requires vs != []
    ensures ValuesOnce(vs, reqs) <==>
              && ValuesOnce(vs[1..], reqs)
              && (FindKey(reqs, vs[0].key) < 0 || forall i :: 0 <= i < |vs| - 1 ==> vs[1..][i].key != vs[0].key)
  {
    hide FindKey;
    var more := vs[1..];
    assert forall i :: 1 <= i < |vs| ==> vs[i] == more[i - 1];
    if ValuesOnce(vs, reqs) {
      forall i, j | 0 <= i < j < |more| && more[i].key == more[j].key ensures FindKey(reqs, more[i].key) < 0 {
        assert vs[i + 1].key == vs[j + 1].key;
      }
      forall i | 0 <= i < |more| && more[i].key == vs[0].key ensures FindKey(reqs, vs[0].key) < 0 {
        assert vs[i + 1].key == vs[0].key;
      }
    }
  }

  /** A conforming server leads to a defined end, and it answers a key twice just when it sends two values for a
      requested key and the response is not broken off. */
  lemma {:induction false} ConformingOnce(sent: bool, stream: string, vs: seq<Item>, reqs: seq<Req>)
    requires Conforms(stream, vs)
    ensures Defined(sent, stream, reqs)
    ensures AnsweredOnce(sent, stream, reqs) <==> (sent && Response(vs) <= stream ==> ValuesOnce(vs, reqs))
  {
    hide Process, Response;
    if Response(vs) <= stream {
      assert stream == Response(vs) + stream[|Response(vs)|..];
      ConformingResponse(vs, stream[|Response(vs)|..], reqs);
      MatchedOnce(vs, reqs);
    } else {
      CutResponseThrows(vs, stream, reqs);
    }
  }

  /** "get k k", answered as asked: the response counts for two, and one request becomes OK. */
  lemma AnsweredTwice(v: Item, q: Req, rest: string)
    requires ItemOk(v) && q.key == v.key && q.result == NOTFOUND
    ensures var stream, reqs := Response([v, v]) + rest, [q, q];
      && After(true, stream, reqs) == [Filed(Filed(q, v), v), q]
      && Responses(true, stream, reqs) == 2 && CountOk(After(true, stream, reqs)) == 1
  {
    var vs, reqs := [v, v], [q, q];
    ConformingResponse(vs, rest, reqs);
    hide Process, Response;
    assert vs[1..] == [v] && [v][1..] == [];
    var once := File(v, reqs);
    var twice := File(v, once);
    assert FileAll(vs, reqs) == FileAll([v], once) == FileAll([], twice) == twice;
    assert Matched(vs, reqs) == [v.key] + Matched([v], reqs) && Matched([v], reqs) == [v.key] + Matched([], reqs);
    assert twice[1] == q && twice[0].result == OK && twice[1..] == [q] && [q][1..] == [];
    assert CountOk(twice) == 1 + CountOk([q]) && CountOk([q]) == 0 + CountOk([]);
  }
}
