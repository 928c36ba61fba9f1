/**
  `Combine` for get and gets: the requests of a batch are given their servers, sorted into server order, sent as
  one request to each server, and filed from the responses.
  */
module MemCombine {
  import opened MemSocket
  import opened MemResponse
  import opened MemGet
  import opened MemBatch
  import Seqs

  const MAX_REQUESTS := 50

  // ---- Giving the items their servers ----

  /** The items for which a server was found, in order. */
  ghost function Placed(items: seq<MemRequest>, found: seq<Server?>): seq<MemRequest>
    requires |items| == |found|
  {
    if items == [] then [] else
      var n := |items| - 1;
      Placed(items[..n], found[..n]) + if found[n] == null then [] else [items[n]]
  }

  /** The first loop; `found` is what `FindServer` gives for each item. */
  method Assign(items: seq<MemRequest>, found: seq<Server?>) returns (ptrs: seq<MemRequest>)
    requires Distinct(items) && |found| == |items|
    modifies items`server, items`data, items`result
    ensures ptrs == Placed(items, found)
    ensures forall i :: 0 <= i < |items| ==> items[i].server == found[i]
    ensures forall i :: 0 <= i < |items| && found[i] == null ==> items[i].result == NOSERVER
  {
    ptrs := [];
    for n := 0 to |items|
      invariant ptrs == Placed(items[..n], found[..n])
      invariant forall i :: 0 <= i < n ==> items[i].server == found[i]
      invariant forall i :: 0 <= i < n && found[i] == null ==> items[i].result == NOSERVER
    {
      assert items[..n + 1][..n] == items[..n] && found[..n + 1][..n] == found[..n];
      items[n].server := found[n];
      items[n].data := "";
      if items[n].server != null {
        ptrs := ptrs + [items[n]];
      } else {
        items[n].result := NOSERVER;
      }
    }
    assert items[..|items|] == items && found[..|items|] == found;
  }

  ghost predicate HasServer(items: seq<MemRequest>, found: seq<Server?>, r: MemRequest)
    requires |items| == |found|
  {
    exists i :: 0 <= i < |items| && items[i] == r && found[i] != null
  }

  lemma HasServerAt(items: seq<MemRequest>, found: seq<Server?>, n: nat)
    requires |items| == |found| == n + 1
    ensures forall r :: HasServer(items, found, r) <==> HasServer(items[..n], found[..n], r) || (r == items[n] && found[n] != null)
  {
    forall r | HasServer(items[..n], found[..n], r) ensures HasServer(items, found, r) {
      var i :| 0 <= i < n && items[..n][i] == r && found[..n][i] != null;
      assert items[i] == r;
    }
    forall r | HasServer(items, found, r) ensures HasServer(items[..n], found[..n], r) || (r == items[n] && found[n] != null) {
      var i :| 0 <= i < |items| && items[i] == r && found[i] != null;
      if i < n { assert items[..n][i] == r; }
    }
    assert found[n] != null ==> HasServer(items, found, items[n]);
  }

  lemma {:induction false} PlacedFrom(items: seq<MemRequest>, found: seq<Server?>, r: MemRequest)
    requires |items| == |found|
    ensures r in Placed(items, found) <==> HasServer(items, found, r)
  {
    if items != [] {
      var n := |items| - 1;
      HasServerAt(items, found, n);
      hide HasServer;
      PlacedFrom(items[..n], found[..n], r);
    }
  }

  lemma {:induction false} PlacedDistinct(items: seq<MemRequest>, found: seq<Server?>)
    requires |items| == |found| && Distinct(items)
    ensures Distinct(Placed(items, found))
  {
    if items != [] {
      var n := |items| - 1;
      PlacedDistinct(items[..n], found[..n]);
      PlacedFrom(items[..n], found[..n], items[n]);
    }
  }

  // ---- Server order ----

  ghost predicate Located(ptrs: seq<MemRequest>)
    reads ptrs`server
  {
    forall i :: 0 <= i < |ptrs| ==> ptrs[i].server != null
  }

  ghost predicate InOrder(ptrs: seq<MemRequest>)
    requires Located(ptrs)
    reads ptrs`server
  {
    forall i, j :: 0 <= i < j < |ptrs| ==> ptrs[i].server.pointer <= ptrs[j].server.pointer
  }

  /** `std::sort` by server pointer, by insertion. */
  method SortOnServer(ptrs: seq<MemRequest>) returns (sorted: seq<MemRequest>)
    requires Located(ptrs)
    ensures multiset(sorted) == multiset(ptrs) && Located(sorted) && InOrder(sorted)
  {
    sorted := [];
    for n := 0 to |ptrs|
      invariant multiset(sorted) == multiset(ptrs[..n]) && Located(sorted) && InOrder(sorted)
    {
      assert ptrs[..n + 1] == ptrs[..n] + [ptrs[n]];
      sorted := Insert(sorted, ptrs[n]);
    }
    assert ptrs[..|ptrs|] == ptrs;
  }

  method Insert(sorted: seq<MemRequest>, r: MemRequest) returns (longer: seq<MemRequest>)
    requires Located(sorted) && InOrder(sorted) && r.server != null
    ensures multiset(longer) == multiset(sorted) + multiset{r} && Located(longer) && InOrder(longer)
  {
    hide InOrder;
    var i := |sorted|;
    while i > 0 && r.server.pointer < sorted[i - 1].server.pointer
      invariant 0 <= i <= |sorted|
      invariant forall k :: i <= k < |sorted| ==> r.server.pointer < sorted[k].server.pointer
    {
      i := i - 1;
    }
    InsertedInOrder(sorted, i, r);
    longer := sorted[..i] + [r] + sorted[i..];
    Seqs.Inserted(sorted, i, r);
  }

  lemma InsertedInOrder(sorted: seq<MemRequest>, i: nat, r: MemRequest)
    requires Located(sorted) && InOrder(sorted) && r.server != null && i <= |sorted|
    requires i > 0 ==> sorted[i - 1].server.pointer <= r.server.pointer
    requires forall k :: i <= k < |sorted| ==> r.server.pointer < sorted[k].server.pointer
    ensures var longer := sorted[..i] + [r] + sorted[i..]; Located(longer) && InOrder(longer)
  {
    forall k | 0 <= k < i ensures sorted[k].server.pointer <= r.server.pointer {
      if k < i - 1 { assert sorted[k].server.pointer <= sorted[i - 1].server.pointer; }
    }
  }

  lemma SameMembers(a: seq<MemRequest>, b: seq<MemRequest>)
    requires multiset(a) == multiset(b)
    ensures |a| == |b| && forall r :: r in a <==> r in b
    ensures Distinct(a) ==> Distinct(b)
  {
    assert |multiset(a)| == |multiset(b)|;
    forall r ensures r in a <==> r in b { assert r in multiset(a) <==> r in multiset(b); }
    if Distinct(a) {
      forall i, j | 0 <= i < j < |b| ensures b[i] != b[j] {
        if b[i] == b[j] {
          TwiceIn(b, i, j);
          var k :| 0 <= k < |a| && a[k] == b[i];
          SingleIn(a, k);
        }
      }
    }
  }

  lemma TwiceIn(s: seq<MemRequest>, i: nat, j: nat)
    requires i < j < |s| && s[i] == s[j]
    ensures multiset(s)[s[i]] >= 2
  {
    assert s == s[..i] + [s[i]] + s[i + 1..j] + [s[j]] + s[j + 1..];
  }

  lemma SingleIn(s: seq<MemRequest>, k: nat)
    requires Distinct(s) && k < |s|
    ensures multiset(s)[s[k]] == 1
  {
    assert s == s[..k] + [s[k]] + s[k + 1..];
    assert s[k] !in s[..k] && s[k] !in s[k + 1..];
  }

  // ---- Sending ----

  function KeysOf(items: seq<MemRequest>): seq<string> {
    seq(|items|, i requires 0 <= i < |items| => items[i].key)
  }

  /** The items from i up to n are exactly those with the server of item i, as far as they are adjacent. */
  ghost predicate Run(ptrs: seq<MemRequest>, i: nat, n: nat)
    reads ptrs`server
  {
    && i < n <= |ptrs|
    && (forall j :: i <= j < n ==> ptrs[j].server == ptrs[i].server)
    && (n < |ptrs| ==> ptrs[n].server != ptrs[i].server)
  }

  /** Nothing has been received yet for a request that was sent, or is about to be. */
  ghost predicate Waiting(r: MemRequest)
    reads r`result, r`data
  {
    r.result == NOTFOUND && r.data == ""
  }

  /** The inner loop: one request line for all the keys on the server of item nItem. */
  method BuildRequest(command: string, ptrs: seq<MemRequest>, nItem: nat) returns (nNext: nat, request: string)
    requires Distinct(ptrs) && nItem < |ptrs|
    modifies ptrs[nItem..]`data, ptrs[nItem..]`result
    ensures Run(ptrs, nItem, nNext) && request == RequestLine(command, KeysOf(ptrs[nItem..nNext]))
    ensures forall r :: r in ptrs[nItem..nNext] ==> Waiting(r)
    ensures forall j :: nNext <= j < |ptrs| ==> unchanged(ptrs[j])
  {
    nNext, request := nItem, "";
    while nNext < |ptrs|
      invariant nItem <= nNext <= |ptrs|
      invariant forall j :: nItem <= j < nNext ==> ptrs[j].server == ptrs[nItem].server && Waiting(ptrs[j])
      invariant nNext > nItem ==> request == RequestLine(command, KeysOf(ptrs[nItem..nNext]))
      invariant forall j :: nNext <= j < |ptrs| ==> unchanged(ptrs[j])
    {
      if ptrs[nItem].server != ptrs[nNext].server { break; }
      ptrs[nNext].data := "";
      if nNext == nItem {
        request := command;
      } else {
        request := request[..|request| - 2];
      }
      request := request + " ";
      request := request + ptrs[nNext].key;
      request := request + CrLf;
      ptrs[nNext].result := NOTFOUND;
      MoreKeys(command, ptrs, nItem, nNext);
      nNext := nNext + 1;
    }
  }

  lemma MoreKeys(command: string, ptrs: seq<MemRequest>, i: nat, n: nat)
    requires i <= n < |ptrs|
    ensures var line := RequestLine(command, KeysOf(ptrs[i..n]));
      var start := if n == i then command else line[..|line| - 2];
      RequestLine(command, KeysOf(ptrs[i..n + 1])) == start + " " + ptrs[n].key + CrLf
  {
    var keys := KeysOf(ptrs[i..n]);
    var more := KeysOf(ptrs[i..n + 1]);
    assert more[..|more| - 1] == keys && more[|more| - 1] == ptrs[n].key;
    assert RequestLine(command, keys)[..|RequestLine(command, keys)| - 2] == command + KeyList(keys);
    Seqs.Assoc(command, KeyList(keys) + " ", ptrs[n].key);
    Seqs.Assoc(command, KeyList(keys), " ");
  }

  /**
    One server's share of the batch: its requests, as they are when sent, whether sending succeeds, and the
    server's bytes to come and bytes sent before.
    */
  datatype Group = Group(server: Server, items: seq<MemRequest>, sent: bool, stream: string, log: seq<string>, before: seq<Req>)

  /** The requests as they are when sent: not found so far, and empty. */
  ghost predicate AsAsked(items: seq<MemRequest>, before: seq<Req>) {
    && items != [] && |before| == |items| && AllNotFound(before)
    && forall i :: 0 <= i < |items| ==> before[i].key == items[i].key && before[i].data == ""
  }

  ghost predicate Prepared(g: Group) {
    AsAsked(g.items, g.before)
  }

  /** The server got the command with exactly the keys of the group, in one piece. */
  ghost predicate Asked(command: string, g: Group)
    reads g.server, g.server.socket
  {
    g.server.socket.Valid() && g.server.sent == g.log + [RequestLine(command, KeysOf(g.items))]
  }

  /** The group has been sent, or its requests have been given up. */
  ghost predicate SentOk(command: string, g: Group)
    reads g.items, g.server, g.server.socket, g.server.socket.mBuf
  {
    && Prepared(g) && Asked(command, g)
    && (forall r :: r in g.items ==> r.server == if g.sent then g.server else null)
    && Snapshot(g.items) == (if g.sent then g.before else Lost(g.before))
    && (g.sent ==> g.server.socket.Stream() == g.stream)
  }

  /** The requests of a failed server are given up; `items` is its run in the list. */
  method MarkLost(items: seq<MemRequest>)
    requires Distinct(items)
    modifies items`server, items`result
    ensures forall r :: r in items ==> r.server == null
    ensures Snapshot(items) == Lost(old(Snapshot(items)))
  {
    ghost var before := Snapshot(items);
    hide *;
    for n := 0 to |items|
      invariant forall j :: 0 <= j < n ==> items[j].server == null && items[j].Value() == before[j].(result := NOSERVER)
      invariant forall j :: n <= j < |items| ==> items[j].Value() == before[j]
    {
      GiveUp(items, n);
    }
    LostAll(items, before);
  }

  /** One request of a failed server is given up. */
  method GiveUp(items: seq<MemRequest>, n: nat)
    requires Distinct(items) && n < |items|
    modifies items`server, items`result
    ensures items[n].server == null && items[n].Value() == old(items[n].Value()).(result := NOSERVER)
    ensures forall j :: 0 <= j < |items| && j != n ==> items[j].Value() == old(items[j].Value()) && items[j].server == old(items[j].server)
  {
    items[n].server := null;
    items[n].result := NOSERVER;
  }

  lemma LostAll(items: seq<MemRequest>, before: seq<Req>)
    requires |before| == |items|
    requires forall j :: 0 <= j < |items| ==> items[j].Value() == before[j].(result := NOSERVER)
    ensures Snapshot(items) == Lost(before)
  {
    var after := Snapshot(items);
    hide Snapshot, Lost;
    assert forall k :: 0 <= k < |items| ==> after[k] == items[k].Value();
  }

  lemma RequestIsSomething(command: string, keys: seq<string>)
    ensures RequestLine(command, keys) != ""
  {
  }

  lemma WaitingAsked(items: seq<MemRequest>)
    requires items != [] && forall r :: r in items ==> Waiting(r)
    ensures AsAsked(items, Snapshot(items))
  {
    var before := Snapshot(items);
    forall i | 0 <= i < |items| ensures before[i].result == NOTFOUND && before[i].key == items[i].key && before[i].data == "" {
      assert items[i] in items;
    }
  }

  lemma IsSentOk(command: string, g: Group)
    requires Prepared(g) && g.server.socket.Valid() && g.server.sent == g.log + [RequestLine(command, KeysOf(g.items))]
    requires forall r :: r in g.items ==> r.server == if g.sent then g.server else null
    requires Snapshot(g.items) == if g.sent then g.before else Lost(g.before)
    requires g.sent ==> g.server.socket.Stream() == g.stream
    ensures SentOk(command, g)
  {
  }

  lemma RunSlice(ptrs: seq<MemRequest>, i: nat, n: nat)
    requires Run(ptrs, i, n)
    ensures i < n <= |ptrs| && ptrs[i..n] != []
    ensures forall r :: r in ptrs[i..n] ==> r in ptrs[i..] && r.server == ptrs[i].server
  {
  }

  /** One round of the sending loop. */
  method SendGroup(command: string, ptrs: seq<MemRequest>, nItem: nat) returns (nNext: nat, ghost g: Group)
    requires command != "" && Distinct(ptrs) && nItem < |ptrs| && ptrs[nItem].server != null
    requires ptrs[nItem].server.socket.Valid()
    modifies ptrs[nItem..], ptrs[nItem].server, ptrs[nItem].server.socket
    ensures nItem < nNext <= |ptrs| && g.items == ptrs[nItem..nNext] && g.server == old(ptrs[nItem].server)
    ensures old(Run(ptrs, nItem, nNext)) && SentOk(command, g)
    ensures g.log == old(ptrs[nItem].server.sent) && g.stream == old(ptrs[nItem].server.socket.Stream())
    ensures g.sent <==> old(ptrs[nItem].server.sends) != [] && old(ptrs[nItem].server.sends)[0]
    ensures forall j :: nNext <= j < |ptrs| ==> unchanged(ptrs[j])
  {
    hide *;
    var server := ptrs[nItem].server;
    ghost var stream, log := server.socket.Stream(), server.sent;
    var request;
    ghost var before;
    nNext, request, before := AskGroup(command, ptrs, nItem);
    SliceApart(ptrs, nItem, nNext);
    ghost var items := ptrs[nItem..nNext];
    SliceDistinct(ptrs, nItem, nNext);
    var ok := Transmit(server, request, ptrs[nItem..nNext]);
    g := Group(server, items, ok, stream, log, before);
    PreparedFrom(g);
    IsSentOk(command, g);
  }

  /** The request for the run at nItem, and its requests as they then are. */
  method AskGroup(command: string, ptrs: seq<MemRequest>, nItem: nat) returns (nNext: nat, request: string, ghost before: seq<Req>)
    requires command != "" && Distinct(ptrs) && nItem < |ptrs|
    modifies ptrs[nItem..]`data, ptrs[nItem..]`result
    ensures nItem < nNext <= |ptrs| && Run(ptrs, nItem, nNext)
    ensures forall r :: r in ptrs[nItem..nNext] ==> r in ptrs[nItem..] && r.server == ptrs[nItem].server
    ensures request == RequestLine(command, KeysOf(ptrs[nItem..nNext])) && request != ""
    ensures before == Snapshot(ptrs[nItem..nNext]) && AsAsked(ptrs[nItem..nNext], before)
    ensures forall j :: nNext <= j < |ptrs| ==> unchanged(ptrs[j])
  {
    hide *;
    nNext, request := BuildRequest(command, ptrs, nItem);
    RunSlice(ptrs, nItem, nNext);
    before := Snapshot(ptrs[nItem..nNext]);
    RequestIsSomething(command, KeysOf(ptrs[nItem..nNext]));
    WaitingAsked(ptrs[nItem..nNext]);
  }

  lemma PreparedFrom(g: Group)
    requires AsAsked(g.items, g.before)
    ensures Prepared(g)
  {
  }

  lemma SliceApart(ptrs: seq<MemRequest>, i: nat, n: nat)
    requires Distinct(ptrs) && i <= n <= |ptrs|
    ensures forall j :: n <= j < |ptrs| ==> ptrs[j] !in ptrs[i..n]
  {
  }

  /** Sends a request; when that fails, all requests using the server are given up. */
  method Transmit(server: Server, request: string, items: seq<MemRequest>) returns (ok: bool)
    requires server.socket.Valid() && request != "" && Distinct(items) && forall r :: r in items ==> r.server == server
    modifies server, server.socket, items`server, items`result
    ensures server.socket.Valid() && server.sent == old(server.sent) + [request]
    ensures ok <==> old(server.sends) != [] && old(server.sends)[0]
    ensures ok ==> server.socket.Stream() == old(server.socket.Stream())
    ensures forall r :: r in items ==> r.server == if ok then server else null
    ensures Snapshot(items) == if ok then old(Snapshot(items)) else Lost(old(Snapshot(items)))
  {
    hide *;
    ok := server.SendBytes(request);
    if !ok {
      MarkLost(items);
    }
  }

  /** Different servers have different pointers, connections and buffers. */
  ghost predicate Apart(servers: set<Server>) {
    forall s, t :: s in servers && t in servers && s != t ==>
      s.pointer != t.pointer && s.socket != t.socket && s.socket.mBuf != t.socket.mBuf
  }

  ghost function Sockets(servers: set<Server>): set<Socket> {
    set s | s in servers :: s.socket
  }

  /** What the network has in store for one server, and what was sent to it before. */
  datatype Start = Start(stream: string, log: seq<string>, accepts: bool)

  ghost function StartOf(s: Server): Start
    requires s.socket.Valid()
    reads s, s.socket, s.socket.mBuf
  {
    Start(s.socket.Stream(), s.sent, s.sends != [] && s.sends[0])
  }

  ghost predicate Untouched(s: Server, start: Start)
    reads s, s.socket, s.socket.mBuf
  {
    s.socket.Valid() && StartOf(s) == start
  }

  ghost predicate Begins(g: Group, start: map<Server, Start>) {
    g.server in start && Start(g.stream, g.log, g.sent) == start[g.server]
  }

  ghost function Flat(groups: seq<Group>): seq<MemRequest> {
    if groups == [] then [] else Flat(groups[..|groups| - 1]) + groups[|groups| - 1].items
  }

  lemma {:induction false} FlatHas(groups: seq<Group>, k: nat)
    requires k < |groups|
    ensures forall r :: r in groups[k].items ==> r in Flat(groups)
  {
    var n := |groups| - 1;
    if k < n {
      FlatHas(groups[..n], k);
      assert groups[..n][k] == groups[k];
    }
  }

  ghost predicate Ascending(groups: seq<Group>) {
    forall a, b :: 0 <= a < b < |groups| ==> groups[a].server.pointer < groups[b].server.pointer
  }

  ghost predicate Later(groups: seq<Group>, s: Server) {
    groups != [] ==> groups[|groups| - 1].server.pointer < s.pointer
  }

  type Owners = map<MemRequest, Server>

  /** Every request has an owner, and the requests are in the order of their owners. */
  ghost predicate Ordered(ptrs: seq<MemRequest>, owner: Owners) {
    && (forall r :: r in ptrs ==> r in owner)
    && (forall i, j :: 0 <= i < j < |ptrs| ==> owner[ptrs[i]].pointer <= owner[ptrs[j]].pointer)
  }

  /** The groups are of different servers, begin as the start of the batch says, and make up the first n requests. */
  ghost predicate Made(groups: seq<Group>, ptrs: seq<MemRequest>, n: nat, owner: Owners, start: map<Server, Start>) {
    && n <= |ptrs| && Flat(groups) == ptrs[..n] && Ascending(groups)
    && forall k :: 0 <= k < |groups| ==> Begins(groups[k], start) && OwnedBy(groups[k], owner)
  }

  ghost predicate OwnedBy(g: Group, owner: Owners) {
    forall r :: r in g.items ==> r in owner && owner[r] == g.server
  }

  lemma MadeMore(groups: seq<Group>, g: Group, ptrs: seq<MemRequest>, i: nat, n: nat, owner: Owners, start: map<Server, Start>)
    requires Made(groups, ptrs, i, owner, start) && i <= n <= |ptrs| && g.items == ptrs[i..n]
    requires Later(groups, g.server) && Begins(g, start) && OwnedBy(g, owner)
    ensures Made(groups + [g], ptrs, n, owner, start)
  {
    assert (groups + [g])[..|groups|] == groups;
    assert ptrs[..n] == ptrs[..i] + ptrs[i..n];
  }

  /** Groups already made share nothing with the rest of the requests, nor with a later server. */
  lemma MadeApart(groups: seq<Group>, ptrs: seq<MemRequest>, i: nat, owner: Owners, start: map<Server, Start>, s: Server, k: nat)
    requires Made(groups, ptrs, i, owner, start) && Distinct(ptrs) && Apart(start.Keys) && s in start && Later(groups, s)
    requires k < |groups|
    ensures groups[k].server != s && groups[k].server.socket != s.socket && groups[k].server.socket.mBuf != s.socket.mBuf
    ensures forall r :: r in groups[k].items ==> r !in ptrs[i..]
  {
    FlatHas(groups, k);
    if k < |groups| - 1 { assert groups[k].server.pointer < groups[|groups| - 1].server.pointer; }
    forall r | r in groups[k].items ensures r !in ptrs[i..] { assert r in ptrs[..i]; }
  }

  /** The requests from i on still have their servers, which come after those of the groups. */
  ghost predicate Rest(ptrs: seq<MemRequest>, i: nat, owner: Owners, groups: seq<Group>)
    requires i <= |ptrs|
    reads ptrs[i..]`server
  {
    forall r :: r in ptrs[i..] ==> r in owner && r.server == owner[r] && Later(groups, owner[r])
  }

  /** The server of the next run comes later. */
  lemma NextRun(ptrs: seq<MemRequest>, i: nat, n: nat, owner: Owners, groups: seq<Group>, start: map<Server, Start>, j: nat)
    requires Ordered(ptrs, owner) && i <= |ptrs| && Rest(ptrs, i, owner, groups) && Run(ptrs, i, n) && n <= j < |ptrs|
    requires Apart(start.Keys) && forall r :: r in ptrs ==> r in owner && owner[r] in start
    ensures ptrs[i] in owner && ptrs[j] in owner && owner[ptrs[i]].pointer < owner[ptrs[j]].pointer
  {
    assert ptrs[i] in ptrs[i..] && ptrs[n] in ptrs[i..] && ptrs[j] in ptrs[i..];
    assert owner[ptrs[n]] != owner[ptrs[i]];
    assert n < j ==> owner[ptrs[n]].pointer <= owner[ptrs[j]].pointer;
  }

  ghost function Buffers(servers: set<Server>): set<array<char>> {
    set s | s in servers :: s.socket.mBuf
  }

  ghost predicate Unused(start: map<Server, Start>, groups: seq<Group>)
    reads start.Keys, Sockets(start.Keys), Buffers(start.Keys)
  {
    forall s :: s in start && Later(groups, s) ==> Untouched(s, start[s])
  }

  /** One round of the sending loop, with all that it leaves alone. */
  method SendNext(command: string, ptrs: seq<MemRequest>, nItem: nat, ghost groups: seq<Group>,
                  ghost owner: Owners, ghost start: map<Server, Start>)
    returns (nNext: nat, ghost g: Group)
    requires command != "" && Distinct(ptrs) && nItem < |ptrs| && Ordered(ptrs, owner) && Apart(start.Keys)
    requires forall r :: r in ptrs ==> r in owner && owner[r] in start
    requires Made(groups, ptrs, nItem, owner, start) && Rest(ptrs, nItem, owner, groups) && Unused(start, groups)
    requires forall k :: 0 <= k < |groups| ==> SentOk(command, groups[k])
    modifies ptrs, start.Keys, Sockets(start.Keys)
    ensures nItem < nNext <= |ptrs| && Made(groups + [g], ptrs, nNext, owner, start)
    ensures Rest(ptrs, nNext, owner, groups + [g]) && Unused(start, groups + [g])
    ensures forall k :: 0 <= k < |groups| ==> SentOk(command, groups[k])
    ensures SentOk(command, g)
  {
    hide *;
    RestAt(ptrs, nItem, owner, groups, start);
    ghost var s := owner[ptrs[nItem]];
    forall k | 0 <= k < |groups|
      ensures groups[k].server != s && groups[k].server.socket != s.socket && groups[k].server.socket.mBuf != s.socket.mBuf
      ensures forall r :: r in groups[k].items ==> r !in ptrs[nItem..]
    {
      MadeApart(groups, ptrs, nItem, owner, start, s, k);
    }
    SocketIn(start.Keys, s);
    forall n | Run(ptrs, nItem, n) ensures Splits(ptrs, nItem, n, owner) {
      RunSplits(ptrs, nItem, n, owner, groups, start);
    }
    StartIs(s, start);
    forall t | t in start && Later(groups, t) ensures Untouched(t, start[t]) { UnusedAt(start, groups, t); }
    RestAll(ptrs, nItem, owner, groups);
    label before:
    nNext, g := SendGroup(command, ptrs, nItem);
    forall k | 0 <= k < |groups| ensures SentOk(command, groups[k]) {
      forall i | 0 <= i < |groups[k].items| ensures unchanged@before(groups[k].items[i]) {
        var r := groups[k].items[i];
        assert r in groups[k].items;
        assert r !in ptrs[nItem..];
      }
      assert old(SentOk(command, groups[k]));
    }
    forall j | nNext <= j < |ptrs| ensures ptrs[j] in owner && ptrs[j].server == owner[ptrs[j]] {
      assert unchanged@before(ptrs[j]);
    }
    RestFrom(ptrs, nItem, nNext, owner, groups, g);
    forall t | t in start && Later(groups + [g], t) ensures Untouched(t, start[t]) {
      LaterApart(groups, g, t, start);
      assert old(Untouched(t, start[t]));
    }
    UnusedFrom(start, groups + [g]);
    SplitOwned(ptrs, nItem, nNext, owner, g);
    BeginsFrom(g, start);
    MadeMore(groups, g, ptrs, nItem, nNext, owner, start);
  }

  lemma RestAll(ptrs: seq<MemRequest>, i: nat, owner: Owners, groups: seq<Group>)
    requires i <= |ptrs| && Rest(ptrs, i, owner, groups)
    ensures forall j :: i <= j < |ptrs| ==> ptrs[j] in owner && ptrs[j].server == owner[ptrs[j]]
  {
    forall j | i <= j < |ptrs| ensures ptrs[j] in owner && ptrs[j].server == owner[ptrs[j]] { assert ptrs[j] in ptrs[i..]; }
  }

  lemma RestFrom(ptrs: seq<MemRequest>, i: nat, n: nat, owner: Owners, groups: seq<Group>, g: Group)
    requires Splits(ptrs, i, n, owner) && g.server == owner[ptrs[i]]
    requires forall j :: n <= j < |ptrs| ==> ptrs[j] in owner && ptrs[j].server == owner[ptrs[j]]
    ensures Rest(ptrs, n, owner, groups + [g])
  {
  }

  lemma UnusedAt(start: map<Server, Start>, groups: seq<Group>, t: Server)
    requires Unused(start, groups) && t in start && Later(groups, t)
    ensures Untouched(t, start[t])
  {
  }

  lemma UnusedFrom(start: map<Server, Start>, groups: seq<Group>)
    requires forall t :: t in start && Later(groups, t) ==> Untouched(t, start[t])
    ensures Unused(start, groups)
  {
  }

  lemma LaterApart(groups: seq<Group>, g: Group, t: Server, start: map<Server, Start>)
    requires Apart(start.Keys) && t in start && g.server in start && Later(groups, g.server) && Later(groups + [g], t)
    ensures t != g.server && t.socket != g.server.socket && t.socket.mBuf != g.server.socket.mBuf && Later(groups, t)
  {
  }

  lemma SocketIn(servers: set<Server>, s: Server)
    requires s in servers
    ensures s.socket in Sockets(servers)
  {
  }

  lemma StartIs(s: Server, start: map<Server, Start>)
    requires s in start && Untouched(s, start[s])
    ensures start[s].stream == s.socket.Stream() && start[s].log == s.sent && (start[s].accepts <==> s.sends != [] && s.sends[0])
  {
  }

  lemma BeginsFrom(g: Group, start: map<Server, Start>)
    requires g.server in start && start[g.server].stream == g.stream && start[g.server].log == g.log
    requires start[g.server].accepts == g.sent
    ensures Begins(g, start)
  {
  }

  /** The run from i ends at n, where later servers begin. */
  ghost predicate Splits(ptrs: seq<MemRequest>, i: nat, n: nat, owner: Owners) {
    && i < n <= |ptrs| && ptrs[i] in owner
    && (forall r :: r in ptrs[i..n] ==> r in owner && owner[r] == owner[ptrs[i]])
    && (forall r :: r in ptrs[n..] ==> r in owner && owner[ptrs[i]].pointer < owner[r].pointer)
  }

  lemma RunSplits(ptrs: seq<MemRequest>, i: nat, n: nat, owner: Owners, groups: seq<Group>, start: map<Server, Start>)
    requires Ordered(ptrs, owner) && i <= |ptrs| && Rest(ptrs, i, owner, groups) && Run(ptrs, i, n)
    requires Apart(start.Keys) && forall r :: r in ptrs ==> r in owner && owner[r] in start
    ensures Splits(ptrs, i, n, owner)
  {
    forall r | r in ptrs[n..] ensures r in owner && owner[ptrs[i]].pointer < owner[r].pointer {
      var j :| n <= j < |ptrs| && ptrs[j] == r;
      NextRun(ptrs, i, n, owner, groups, start, j);
    }
    RunSlice(ptrs, i, n);
    assert ptrs[i] in ptrs[i..];
  }

  lemma SplitOwned(ptrs: seq<MemRequest>, i: nat, n: nat, owner: Owners, g: Group)
    requires Splits(ptrs, i, n, owner) && g.items == ptrs[i..n] && g.server == owner[ptrs[i]]
    ensures OwnedBy(g, owner)
  {
  }

  lemma RestAt(ptrs: seq<MemRequest>, i: nat, owner: Owners, groups: seq<Group>, start: map<Server, Start>)
    requires i < |ptrs| && Rest(ptrs, i, owner, groups) && Unused(start, groups)
    requires forall r :: r in ptrs ==> r in owner && owner[r] in start
    ensures var r := ptrs[i];
      && r in owner && r.server == owner[r] && Later(groups, owner[r]) && owner[r] in start
      && Untouched(owner[r], start[owner[r]]) && owner[r].socket.Valid()
  {
    assert ptrs[i] in ptrs[i..];
  }

  /** The sending loop. */
  method SendAll(command: string, ptrs: seq<MemRequest>, ghost owner: Owners, ghost start: map<Server, Start>)
    returns (ghost groups: seq<Group>)
    requires command != "" && Distinct(ptrs) && Ordered(ptrs, owner) && Apart(start.Keys)
    requires forall r :: r in ptrs ==> r in owner && owner[r] in start
    requires Rest(ptrs, 0, owner, []) && Unused(start, [])
    modifies ptrs, start.Keys, Sockets(start.Keys)
    ensures Made(groups, ptrs, |ptrs|, owner, start)
    ensures forall k :: 0 <= k < |groups| ==> SentOk(command, groups[k])
  {
    groups := [];
    var nItem := 0;
    assert Made(groups, ptrs, nItem, owner, start);
    hide *;
    while nItem < |ptrs|
      invariant nItem <= |ptrs| && Made(groups, ptrs, nItem, owner, start)
      invariant Rest(ptrs, nItem, owner, groups) && Unused(start, groups)
      invariant forall k :: 0 <= k < |groups| ==> SentOk(command, groups[k])
    {
      var nNext;
      ghost var g;
      nNext, g := SendNext(command, ptrs, nItem, groups, owner, start);
      groups := groups + [g];
      nItem := nNext;
    }
  }

  // ---- Receiving ----

  /** What has become of a group. */
  ghost predicate DoneOk(command: string, g: Group)
    reads g.items, g.server, g.server.socket
  {
    Prepared(g) && Asked(command, g) && Snapshot(g.items) == After(g.sent, g.stream, g.before)
  }

  predicate DefinedIn(g: Group) {
    Defined(g.sent, g.stream, g.before)
  }

  predicate AllDefined(groups: seq<Group>) {
    forall k :: 0 <= k < |groups| ==> DefinedIn(groups[k])
  }

  ghost function Total(groups: seq<Group>): nat {
    if groups == [] then 0 else
      var g := groups[|groups| - 1];
      Total(groups[..|groups| - 1]) + Responses(g.sent, g.stream, g.before)
  }

  /** The handling of one server's response; -2 for a size that is no `int`. */
  method ReceiveGroup(server: Server, items: seq<MemRequest>) returns (responses: int)
    requires server.socket.Valid() && Distinct(items) && items != [] && forall r :: r in items ==> r.server == server
    modifies server.socket, server.socket.mBuf, items
    ensures server.socket.Valid()
    ensures var stream, before := old(server.socket.Stream()), old(Snapshot(items));
      && Snapshot(items) == After(true, stream, before)
      && responses == if Defined(true, stream, before) then Responses(true, stream, before) else -2
  {
    hide *;
    ghost var o := Process(server.socket.Stream(), Snapshot(items));
    AfterIs(server.socket.Stream(), Snapshot(items));
    responses := HandleGetResponse(server.socket, items);
    if responses == -1 {
      server.socket.Disconnect();
      assert Snapshot(items) == o.reqs;
      LoseBackwards(items);
      responses := 0;
    }
  }

  lemma SliceDistinct(ptrs: seq<MemRequest>, i: nat, n: nat)
    requires Distinct(ptrs) && i <= n <= |ptrs|
    ensures Distinct(ptrs[i..n])
  {
  }

  lemma AfterIs(stream: string, reqs: seq<Req>)
    ensures var o := Process(stream, reqs);
      && After(true, stream, reqs) == (if o.Thrown? then Lost(o.reqs) else o.reqs)
      && Responses(true, stream, reqs) == (if o.Done? then |o.filed| else 0)
      && (Defined(true, stream, reqs) <==> !o.Overrun?)
  {
  }

  /** The requests of one server are given up, the first one last. */
  method LoseBackwards(items: seq<MemRequest>)
    requires Distinct(items) && items != [] && forall r :: r in items ==> r.server == items[0].server
    modifies items`server, items`result
    ensures Snapshot(items) == Lost(old(Snapshot(items)))
  {
    ghost var before := Snapshot(items);
    hide *;
    var n := |items| - 1;
    while n >= 0
      invariant -1 <= n < |items|
      invariant forall j :: 0 <= j <= n ==> items[j].Value() == before[j] && items[j].server == items[0].server
      invariant forall j :: n < j < |items| ==> items[j].Value() == before[j].(result := NOSERVER)
    {
      GiveUpSame(items, n);
      n := n - 1;
    }
    LostAll(items, before);
  }

  /** The body of that loop, for a request of the same server, which all of them are. */
  method GiveUpSame(items: seq<MemRequest>, n: nat)
    requires Distinct(items) && n < |items| && items[n].server == items[0].server
    modifies items`server, items`result
    ensures items[n].Value() == old(items[n].Value()).(result := NOSERVER)
    ensures forall j :: 0 <= j < |items| && j != n ==> items[j].Value() == old(items[j].Value()) && items[j].server == old(items[j].server)
  {
    hide *;
    if items[0].server == items[n].server {
      GiveUp(items, n);
    }
  }

  lemma {:induction false} FlatPrefix(groups: seq<Group>, k: nat)
    requires k <= |groups|
    ensures Flat(groups[..k]) <= Flat(groups)
  {
    if k < |groups| {
      FlatPrefix(groups[..|groups| - 1], k);
      assert groups[..|groups| - 1][..k] == groups[..k];
    } else {
      assert groups[..k] == groups;
    }
  }

  /** Where group k lies among the requests. */
  lemma GroupSlice(groups: seq<Group>, ptrs: seq<MemRequest>, k: nat)
    requires k < |groups| && Flat(groups) == ptrs
    ensures var i, n := |Flat(groups[..k])|, |Flat(groups[..k + 1])|;
      n == i + |groups[k].items| <= |ptrs| && ptrs[i..n] == groups[k].items
  {
    FlatPrefix(groups, k + 1);
    assert groups[..k + 1][..k] == groups[..k];
    Seqs.Split(Flat(groups[..k]), groups[k].items);
    assert ptrs[..|Flat(groups[..k + 1])|] == Flat(groups[..k + 1]);
  }

  ghost function Offset(groups: seq<Group>, k: nat): nat
    requires k <= |groups|
  {
    |Flat(groups[..k])|
  }

  lemma OffsetNext(groups: seq<Group>, ptrs: seq<MemRequest>, k: nat)
    requires k < |groups| && Flat(groups) == ptrs
    ensures var i, n := Offset(groups, k), Offset(groups, k + 1);
      n == i + |groups[k].items| <= |ptrs| && ptrs[i..n] == groups[k].items
  {
    GroupSlice(groups, ptrs, k);
  }

  lemma OffsetEnds(groups: seq<Group>, ptrs: seq<MemRequest>)
    requires Flat(groups) == ptrs
    ensures Offset(groups, 0) == 0 && Offset(groups, |groups|) == |ptrs|
  {
    assert groups[..|groups|] == groups;
  }

  lemma {:induction false} OffsetMonotone(groups: seq<Group>, a: nat, b: nat)
    requires a <= b <= |groups|
    ensures Offset(groups, a) <= Offset(groups, b)
    decreases b
  {
    if a < b {
      OffsetMonotone(groups, a, b - 1);
      assert groups[..b][..b - 1] == groups[..b - 1];
    }
  }

  lemma MadeFlat(groups: seq<Group>, ptrs: seq<MemRequest>, owner: Owners, start: map<Server, Start>)
    requires Made(groups, ptrs, |ptrs|, owner, start)
    ensures Flat(groups) == ptrs
  {
    assert ptrs[..|ptrs|] == ptrs;
  }

  /** Two groups share neither requests nor servers. */
  lemma GroupsApart(groups: seq<Group>, ptrs: seq<MemRequest>, owner: Owners, start: map<Server, Start>, a: nat, b: nat)
    requires Made(groups, ptrs, |ptrs|, owner, start) && Distinct(ptrs) && Apart(start.Keys)
    requires a < |groups| && b < |groups| && a != b
    ensures groups[a].server != groups[b].server && groups[a].server.socket != groups[b].server.socket
    ensures groups[a].server.socket.mBuf != groups[b].server.socket.mBuf
    ensures forall r :: r in groups[a].items ==> r !in groups[b].items
  {
    MadeFlat(groups, ptrs, owner, start);
    hide Flat, Offset;
    OffsetNext(groups, ptrs, a);
    OffsetNext(groups, ptrs, b);
    if a < b { OffsetMonotone(groups, a + 1, b); } else { OffsetMonotone(groups, b + 1, a); }
  }

  lemma GroupServer(command: string, groups: seq<Group>, ptrs: seq<MemRequest>, k: nat)
    requires Flat(groups) == ptrs && k < |groups| && SentOk(command, groups[k])
    ensures Offset(groups, k) < Offset(groups, k + 1) <= |ptrs|
    ensures forall j :: Offset(groups, k) <= j < Offset(groups, k + 1) ==>
              ptrs[j].server == if groups[k].sent then groups[k].server else null
  {
    hide *;
    var i, m := Offset(groups, k), Offset(groups, k + 1);
    OffsetNext(groups, ptrs, k);
    SentServers(command, groups[k]);
    forall j | i <= j < m ensures ptrs[j] in groups[k].items {
      assert ptrs[j] == groups[k].items[j - i];
    }
  }

  lemma SentServers(command: string, g: Group)
    requires SentOk(command, g)
    ensures g.items != [] && forall r :: r in g.items ==> r.server == if g.sent then g.server else null
  {
  }

  lemma GroupServers(groups: seq<Group>, ptrs: seq<MemRequest>, owner: Owners, start: map<Server, Start>, k: nat)
    requires Made(groups, ptrs, |ptrs|, owner, start) && k + 1 < |groups|
    ensures groups[k].server != groups[k + 1].server
  {
    assert groups[k].server.pointer < groups[k + 1].server.pointer;
  }

  /** While a sent group waits, the run of its server in the list is just the group. */
  lemma RunIsGroup(command: string, groups: seq<Group>, ptrs: seq<MemRequest>, owner: Owners, start: map<Server, Start>, k: nat, n: nat)
    requires Made(groups, ptrs, |ptrs|, owner, start) && k < |groups| && groups[k].sent && SentOk(command, groups[k])
    requires k + 1 < |groups| ==> SentOk(command, groups[k + 1])
    requires Run(ptrs, Offset(groups, k), n)
    ensures n == Offset(groups, k + 1)
  {
    hide SentOk, Made, Offset, Flat;
    MadeFlat(groups, ptrs, owner, start);
    GroupServer(command, groups, ptrs, k);
    OffsetEnds(groups, ptrs);
    if k + 1 < |groups| {
      GroupServer(command, groups, ptrs, k + 1);
      GroupServers(groups, ptrs, owner, start, k);
      assert ptrs[Offset(groups, k + 1)].server != groups[k].server;
    }
  }

  /** The response of a sent group is received; the other groups stay as they are. */
  method ReceiveNext(command: string, ptrs: seq<MemRequest>, nItem: nat, nNext: nat, ghost groups: seq<Group>,
                     ghost k: nat, ghost owner: Owners, ghost start: map<Server, Start>)
    returns (responses: int)
    requires Distinct(ptrs) && Apart(start.Keys) && Made(groups, ptrs, |ptrs|, owner, start)
    requires k < |groups| && groups[k].sent && nItem < nNext <= |ptrs| && ptrs[nItem..nNext] == groups[k].items
    requires ptrs[nItem].server == groups[k].server
    requires forall a :: 0 <= a < k ==> DoneOk(command, groups[a])
    requires forall a :: k <= a < |groups| ==> SentOk(command, groups[a])
    modifies ptrs, Sockets(start.Keys), Buffers(start.Keys)
    ensures responses == if DefinedIn(groups[k]) then Responses(true, groups[k].stream, groups[k].before) else -2
    ensures forall a :: 0 <= a <= k ==> DoneOk(command, groups[a])
    ensures forall a :: k < a < |groups| ==> SentOk(command, groups[a])
  {
    hide *;
    ghost var g := groups[k];
    forall a | 0 <= a < |groups| && a != k
      ensures groups[a].server != g.server && groups[a].server.socket != g.server.socket
      ensures groups[a].server.socket.mBuf != g.server.socket.mBuf && forall r :: r in groups[a].items ==> r !in g.items
    {
      GroupsApart(groups, ptrs, owner, start, a, k);
    }
    BeginsIn(groups, ptrs, owner, start, k);
    SentParts(command, g);
    DefinedSent(g);
    SliceDistinct(ptrs, nItem, nNext);
    label before:
    responses := ReceiveGroup(ptrs[nItem].server, ptrs[nItem..nNext]);
    forall a | 0 <= a < |groups| && a != k
      ensures a < k ==> DoneOk(command, groups[a])
      ensures a > k ==> SentOk(command, groups[a])
    {
      forall i | 0 <= i < |groups[a].items| ensures unchanged@before(groups[a].items[i]) {
        assert groups[a].items[i] in groups[a].items;
      }
      assert a < k ==> old(DoneOk(command, groups[a]));
      assert a > k ==> old(SentOk(command, groups[a]));
    }
    IsDoneOk(command, g);
  }

  lemma BeginsIn(groups: seq<Group>, ptrs: seq<MemRequest>, owner: Owners, start: map<Server, Start>, k: nat)
    requires Made(groups, ptrs, |ptrs|, owner, start) && k < |groups|
    ensures var s := groups[k].server; s.socket in Sockets(start.Keys) && s.socket.mBuf in Buffers(start.Keys)
    ensures forall r :: r in groups[k].items ==> r in ptrs
  {
    assert Begins(groups[k], start);
    FlatHas(groups, k);
    MadeFlat(groups, ptrs, owner, start);
  }

  lemma SentParts(command: string, g: Group)
    requires SentOk(command, g) && g.sent
    ensures Prepared(g) && g.server.socket.Valid() && g.server.sent == g.log + [RequestLine(command, KeysOf(g.items))]
    ensures Snapshot(g.items) == g.before && g.server.socket.Stream() == g.stream
    ensures forall r :: r in g.items ==> r.server == g.server
  {
  }

  lemma DefinedSent(g: Group)
    requires g.sent
    ensures DefinedIn(g) <==> Defined(true, g.stream, g.before)
  {
  }

  lemma IsDoneOk(command: string, g: Group)
    requires Prepared(g) && g.server.socket.Valid() && g.server.sent == g.log + [RequestLine(command, KeysOf(g.items))]
    requires Snapshot(g.items) == After(g.sent, g.stream, g.before)
    ensures DoneOk(command, g)
  {
  }

  /** Item n is in group k, and at its front if the group waits for a response. */
  ghost predicate Within(groups: seq<Group>, ptrs: seq<MemRequest>, k: nat, n: nat) {
    && k <= |groups|
    && if k == |groups| then n == |ptrs|
       else Offset(groups, k) <= n < Offset(groups, k + 1) && (groups[k].sent ==> n == Offset(groups, k))
  }

  lemma WithinAt(command: string, groups: seq<Group>, ptrs: seq<MemRequest>, k: nat, n: nat)
    requires Within(groups, ptrs, k, n) && n < |ptrs| && Flat(groups) == ptrs
    requires k < |groups| ==> SentOk(command, groups[k])
    ensures k < |groups| && Offset(groups, k) <= n < Offset(groups, k + 1) <= |ptrs|
    ensures groups[k].sent ==> n == Offset(groups, k)
    ensures ptrs[n].server == if groups[k].sent then groups[k].server else null
  {
    hide Offset, Flat, SentOk;
    if k < |groups| { GroupServer(command, groups, ptrs, k); }
  }

  lemma WithinNext(command: string, groups: seq<Group>, ptrs: seq<MemRequest>, k: nat)
    requires Flat(groups) == ptrs && k < |groups| && (k + 1 < |groups| ==> SentOk(command, groups[k + 1]))
    ensures Within(groups, ptrs, k + 1, Offset(groups, k + 1))
  {
    hide Offset, Flat, SentOk;
    OffsetEnds(groups, ptrs);
    if k + 1 < |groups| { GroupServer(command, groups, ptrs, k + 1); }
  }

  lemma WithinSame(groups: seq<Group>, ptrs: seq<MemRequest>, k: nat, n: nat)
    requires Within(groups, ptrs, k, n) && k < |groups| && !groups[k].sent && n + 1 < Offset(groups, k + 1)
    ensures Within(groups, ptrs, k, n + 1)
  {
  }

  lemma WithinStart(command: string, groups: seq<Group>, ptrs: seq<MemRequest>)
    requires Flat(groups) == ptrs && (groups != [] ==> SentOk(command, groups[0]))
    ensures Within(groups, ptrs, 0, 0) && Total(groups[..0]) == 0
  {
    hide Flat, SentOk, Offset;
    OffsetEnds(groups, ptrs);
    if groups != [] { GroupServer(command, groups, ptrs, 0); }
  }

  lemma TotalNext(groups: seq<Group>, k: nat)
    requires k < |groups|
    ensures Total(groups[..k + 1]) == Total(groups[..k]) + Responses(groups[k].sent, groups[k].stream, groups[k].before)
  {
    assert groups[..k + 1][..k] == groups[..k];
  }

  /** A group that could not be sent counts for nothing and needs nothing more. */
  lemma UnsentDone(command: string, g: Group)
    requires SentOk(command, g) && !g.sent
    ensures DoneOk(command, g) && DefinedIn(g) && Responses(g.sent, g.stream, g.before) == 0
  {
  }

  /** The receiving loop; -2 for a size that is no `int`, where the source's behaviour is undefined. */
  method ReceiveAll(command: string, ptrs: seq<MemRequest>, ghost groups: seq<Group>, ghost owner: Owners, ghost start: map<Server, Start>)
    returns (nResponses: int)
    requires Distinct(ptrs) && Apart(start.Keys) && Made(groups, ptrs, |ptrs|, owner, start)
    requires forall k :: 0 <= k < |groups| ==> SentOk(command, groups[k])
    modifies ptrs, Sockets(start.Keys), Buffers(start.Keys)
    ensures nResponses == if AllDefined(groups) then Total(groups) else -2
    ensures forall k :: 0 <= k < |groups| ==> Prepared(groups[k]) && Asked(command, groups[k])
    ensures AllDefined(groups) ==> forall k :: 0 <= k < |groups| ==> DoneOk(command, groups[k])
  {
    hide *;
    MadeFlat(groups, ptrs, owner, start);
    WithinStart(command, groups, ptrs);
    nResponses := 0;
    var nItem := 0;
    ghost var k := 0;
    while nItem < |ptrs|
      invariant nItem <= |ptrs| && k <= |groups| && Within(groups, ptrs, k, nItem) && nResponses == Total(groups[..k])
      invariant forall a :: 0 <= a < k ==> DoneOk(command, groups[a]) && DefinedIn(groups[a])
      invariant forall a :: k <= a < |groups| ==> SentOk(command, groups[a])
    {
      WithinAt(command, groups, ptrs, k, nItem);
      WithinNext(command, groups, ptrs, k);
      TotalNext(groups, k);
      var nNext := nItem + 1;
      if ptrs[nItem].server == null {
        if nNext < Offset(groups, k + 1) {
          WithinSame(groups, ptrs, k, nItem);
        } else {
          UnsentDone(command, groups[k]);
          k := k + 1;
        }
      } else {
        while nNext < |ptrs|
          invariant nItem < nNext <= |ptrs|
          invariant forall j :: nItem <= j < nNext ==> ptrs[j].server == ptrs[nItem].server
        {
          if ptrs[nItem].server != ptrs[nNext].server { break; }
          nNext := nNext + 1;
        }
        IsRun(ptrs, nItem, nNext);
        RunIsGroup(command, groups, ptrs, owner, start, k, nNext);
        OffsetNext(groups, ptrs, k);
        var responses := ReceiveNext(command, ptrs, nItem, nNext, groups, k, owner, start);
        AllAsked(command, groups, k + 1);
        if responses == -2 {
          NotDefined(groups, k);
          return -2;
        }
        nResponses := nResponses + responses;
        k := k + 1;
      }
      nItem := nNext;
    }
    WithinEnd(command, groups, ptrs, k);
    assert groups[..|groups|] == groups;
    AllAsked(command, groups, k);
    ThatIsAll(groups);
  }

  lemma AllAsked(command: string, groups: seq<Group>, k: nat)
    requires forall a :: 0 <= a < k <= |groups| ==> DoneOk(command, groups[a])
    requires forall a :: k <= a < |groups| ==> SentOk(command, groups[a])
    requires k <= |groups|
    ensures forall a :: 0 <= a < |groups| ==> Prepared(groups[a]) && Asked(command, groups[a])
  {
    hide Prepared, Asked;
  }

  lemma NotDefined(groups: seq<Group>, k: nat)
    requires k < |groups| && !DefinedIn(groups[k])
    ensures !AllDefined(groups)
  {
  }

  lemma ThatIsAll(groups: seq<Group>)
    requires forall a :: 0 <= a < |groups| ==> DefinedIn(groups[a])
    ensures AllDefined(groups)
  {
  }

  lemma WithinEnd(command: string, groups: seq<Group>, ptrs: seq<MemRequest>, k: nat)
    requires Within(groups, ptrs, k, |ptrs|) && Flat(groups) == ptrs && (k < |groups| ==> SentOk(command, groups[k]))
    ensures k == |groups|
  {
    hide Offset, Flat, SentOk;
    if k < |groups| { GroupServer(command, groups, ptrs, k); }
  }

  lemma IsRun(ptrs: seq<MemRequest>, i: nat, n: nat)
    requires i < n <= |ptrs| && forall j :: i <= j < n ==> ptrs[j].server == ptrs[i].server
    requires n < |ptrs| ==> ptrs[i].server != ptrs[n].server
    ensures Run(ptrs, i, n)
  {
  }

  // ---- Counting what is OK ----

  function OkIn(items: seq<MemRequest>): nat
    reads items`flags, items`cas, items`result, items`data
  {
    CountOk(Snapshot(items))
  }

  lemma {:induction false} CountOkJoin(a: seq<Req>, b: seq<Req>)
    ensures CountOk(a + b) == CountOk(a) + CountOk(b)
  {
    if a == [] {
      assert a + b == b;
    } else {
      assert (a + b)[1..] == a[1..] + b;
      CountOkJoin(a[1..], b);
    }
  }

  lemma SnapshotJoin(a: seq<MemRequest>, b: seq<MemRequest>)
    ensures Snapshot(a + b) == Snapshot(a) + Snapshot(b)
  {
    var joined, apart := Snapshot(a + b), Snapshot(a) + Snapshot(b);
    hide Snapshot;
    forall i | 0 <= i < |joined| ensures joined[i] == apart[i] {
      assert joined[i] == (a + b)[i].Value();
    }
  }

  lemma OkInJoin(a: seq<MemRequest>, b: seq<MemRequest>)
    ensures OkIn(a + b) == OkIn(a) + OkIn(b)
  {
    hide Snapshot, CountOk;
    SnapshotJoin(a, b);
    CountOkJoin(Snapshot(a), Snapshot(b));
  }

  lemma {:induction false} OkInOrder(a: seq<MemRequest>, b: seq<MemRequest>)
    requires multiset(a) == multiset(b)
    ensures OkIn(a) == OkIn(b)
    decreases |a|
  {
    hide OkIn;
    if a == [] {
      assert |multiset(b)| == 0;
      assert b == [];
    } else {
      assert a[0] in multiset(b);
      var i :| 0 <= i < |b| && b[i] == a[0];
      var c, d := b[..i], b[i + 1..];
      assert a == [a[0]] + a[1..] && b == c + [b[i]] + d;
      OneLess(a[0], a[1..], c, d);
      OkInOrder(a[1..], c + d);
      OkInJoin([a[0]], a[1..]);
      OkInJoin(c, d);
      OkInJoin(c, [b[i]]);
      OkInJoin(c + [b[i]], d);
    }
  }

  lemma OneLess<T>(x: T, a: seq<T>, c: seq<T>, d: seq<T>)
    requires multiset([x] + a) == multiset(c + [x] + d)
    ensures multiset(a) == multiset(c + d)
  {
    assert multiset([x] + a) == multiset{x} + multiset(a);
    assert multiset(c + [x] + d) == multiset{x} + multiset(c + d);
    assert multiset(a) == multiset([x] + a) - multiset{x};
  }

  /** Items without a server are not OK, so nothing is missed by counting the others. */
  lemma {:induction false} OkInPlaced(items: seq<MemRequest>, found: seq<Server?>)
    requires |items| == |found| && forall i :: 0 <= i < |items| && found[i] == null ==> items[i].result != OK
    ensures OkIn(Placed(items, found)) == OkIn(items)
  {
    if items != [] {
      var n := |items| - 1;
      OkInPlaced(items[..n], found[..n]);
      assert items == items[..n] + [items[n]];
      OkInJoin(items[..n], [items[n]]);
      if found[n] == null {
        OkInOne(items[n]);
        Seqs.Nothing(Placed(items[..n], found[..n]));
      } else {
        OkInJoin(Placed(items[..n], found[..n]), [items[n]]);
      }
    }
  }

  lemma OkInOne(r: MemRequest)
    ensures OkIn([r]) == if r.result == OK then 1 else 0
  {
    assert Snapshot([r]) == [r.Value()];
    assert CountOk([r.Value()]) == (if r.result == OK then 1 else 0) + CountOk([]);
  }

  predicate OnceIn(g: Group) {
    AnsweredOnce(g.sent, g.stream, g.before)
  }

  /** No server's response to its request answers a key twice. */
  predicate AllOnce(groups: seq<Group>) {
    forall k :: 0 <= k < |groups| ==> OnceIn(groups[k])
  }

  /** The number returned bounds the number of requests that are OK, and it is that number just when no server
      answers a key twice. */
  lemma {:induction false} TotalIsOk(command: string, groups: seq<Group>)
    requires AllDefined(groups) && forall k :: 0 <= k < |groups| ==> DoneOk(command, groups[k])
    ensures OkIn(Flat(groups)) <= Total(groups)
    ensures OkIn(Flat(groups)) == Total(groups) <==> AllOnce(groups)
  {
    hide DoneOk, DefinedIn, OnceIn;
    if groups != [] {
      var n := |groups| - 1;
      var g := groups[n];
      assert DefinedIn(g);
      forall k | 0 <= k < n ensures DoneOk(command, groups[..n][k]) && DefinedIn(groups[..n][k]) {
        assert groups[..n][k] == groups[k];
      }
      TotalIsOk(command, groups[..n]);
      OkInJoin(Flat(groups[..n]), g.items);
      GroupIsOk(command, g);
      OnceMore(groups);
    }
  }

  lemma OnceMore(groups: seq<Group>)
    requires groups != []
    ensures var n := |groups| - 1; AllOnce(groups) <==> AllOnce(groups[..n]) && OnceIn(groups[n])
  {
    hide OnceIn;
    var n := |groups| - 1;
    assert forall k :: 0 <= k < n ==> groups[..n][k] == groups[k];
  }

  lemma GroupIsOk(command: string, g: Group)
    requires DoneOk(command, g) && DefinedIn(g)
    ensures OkIn(g.items) <= Responses(g.sent, g.stream, g.before)
    ensures OkIn(g.items) == Responses(g.sent, g.stream, g.before) <==> OnceIn(g)
  {
    hide Snapshot, After, Responses, CountOk, AnsweredOnce;
    AlwaysSettled(g.sent, g.stream, g.before);
  }

  lemma GroupSettled(command: string, g: Group, r: MemRequest)
    requires DoneOk(command, g) && r in g.items
    ensures r.result == OK || r.result == NOTFOUND || r.result == NOSERVER
  {
    hide After, Responses;
    AlwaysSettled(g.sent, g.stream, g.before);
    var i :| 0 <= i < |g.items| && g.items[i] == r;
    assert Snapshot(g.items)[i] == r.Value();
  }

  // ---- The batch ----

  ghost function Servers(found: seq<Server?>): set<Server> {
    set s: Server | s in found
  }

  ghost predicate AllValid(servers: set<Server>)
    reads Sockets(servers)
  {
    forall s :: s in servers ==> s.socket.Valid()
  }

  ghost function StartAll(servers: set<Server>): (start: map<Server, Start>)
    requires AllValid(servers)
    reads servers, Sockets(servers), Buffers(servers)
    ensures start.Keys == servers && forall s :: s in servers ==> start[s] == StartOf(s)
  {
    map s | s in servers :: StartOf(s)
  }

  ghost function OwnersOf(items: seq<MemRequest>, found: seq<Server?>): (owner: Owners)
    requires |found| == |items| && Distinct(items)
    ensures forall i :: 0 <= i < |items| ==> (items[i] in owner <==> found[i] != null)
    ensures forall i :: 0 <= i < |items| && found[i] != null ==> owner[items[i]] == found[i]
    ensures forall r :: r in owner ==> r in items
  {
    map i | 0 <= i < |items| && found[i] != null :: items[i] := found[i]
  }

  /** Each group has exactly the items for which its server was found, and every server found has its group. */
  ghost predicate Shares(groups: seq<Group>, items: seq<MemRequest>, found: seq<Server?>)
    requires |found| == |items|
  {
    && (forall k, i :: 0 <= k < |groups| && 0 <= i < |items| ==> (items[i] in groups[k].items <==> found[i] == groups[k].server))
    && (forall i :: 0 <= i < |items| && found[i] != null ==> exists k :: 0 <= k < |groups| && groups[k].server == found[i])
  }

  lemma {:induction false} FlatIn(groups: seq<Group>, r: MemRequest) returns (k: nat)
    requires r in Flat(groups)
    ensures k < |groups| && r in groups[k].items
  {
    var n := |groups| - 1;
    if r in groups[n].items {
      k := n;
    } else {
      k := FlatIn(groups[..n], r);
    }
  }

  lemma SharesFrom(groups: seq<Group>, ptrs: seq<MemRequest>, start: map<Server, Start>, items: seq<MemRequest>, found: seq<Server?>)
    requires |found| == |items| && Distinct(items) && Made(groups, ptrs, |ptrs|, OwnersOf(items, found), start)
    requires forall i :: 0 <= i < |items| ==> (items[i] in ptrs <==> found[i] != null)
    ensures Shares(groups, items, found)
  {
    var owner := OwnersOf(items, found);
    MadeFlat(groups, ptrs, owner, start);
    hide Flat, Distinct;
    forall i | 0 <= i < |items| && found[i] != null
      ensures exists k :: 0 <= k < |groups| && groups[k].server == found[i] && items[i] in groups[k].items
    {
      var k := FlatIn(groups, items[i]);
      assert OwnedBy(groups[k], owner);
    }
    forall k, i | 0 <= k < |groups| && 0 <= i < |items| ensures items[i] in groups[k].items <==> found[i] == groups[k].server {
      assert OwnedBy(groups[k], owner);
    }
  }

  /** Every server that will take the request answers it as it should, with one value for a key, or breaks off. */
  ghost predicate ServersConform(start: map<Server, Start>) {
    forall s :: s in start && start[s].accepts ==> exists vs :: Conforms(start[s].stream, vs) && DistinctItems(vs)
  }

  lemma ConformingGroups(groups: seq<Group>, ptrs: seq<MemRequest>, owner: Owners, start: map<Server, Start>)
    requires Made(groups, ptrs, |ptrs|, owner, start) && ServersConform(start)
    ensures AllDefined(groups) && AllOnce(groups)
  {
    hide Conforms, Defined, AnsweredOnce;
    forall k | 0 <= k < |groups| ensures DefinedIn(groups[k]) && OnceIn(groups[k]) {
      var g := groups[k];
      assert Begins(g, start);
      if g.sent {
        var vs :| Conforms(start[g.server].stream, vs) && DistinctItems(vs);
        ConformingOnce(true, g.stream, vs, g.before);
      } else {
        NothingSent(g);
      }
    }
  }

  lemma NothingSent(g: Group)
    requires !g.sent
    ensures DefinedIn(g) && OnceIn(g)
  {
  }

  /** The requests of a batch in server order, ready to be sent. */
  ghost predicate Ready(sorted: seq<MemRequest>, items: seq<MemRequest>, found: seq<Server?>, owner: Owners)
    requires |found| == |items|
  {
    && Distinct(sorted) && Ordered(sorted, owner) && multiset(sorted) == multiset(Placed(items, found))
    && (forall r :: r in sorted ==> r in items && r in owner && owner[r] in Servers(found))
    && (forall i :: 0 <= i < |items| ==> (items[i] in sorted <==> found[i] != null))
  }

  /** Giving the items their servers, and sorting them. */
  method Prepare(items: seq<MemRequest>, found: seq<Server?>) returns (sorted: seq<MemRequest>)
    requires |found| == |items| && Distinct(items)
    modifies items`server, items`data, items`result
    ensures Ready(sorted, items, found, OwnersOf(items, found)) && Rest(sorted, 0, OwnersOf(items, found), [])
    ensures forall i :: 0 <= i < |items| && found[i] == null ==> items[i].result == NOSERVER
  {
    hide *;
    var ptrs := Assign(items, found);
    PlacedLocated(items, found);
    sorted := SortOnServer(ptrs);
    ReadyFrom(sorted, items, found);
  }

  lemma PlacedLocated(items: seq<MemRequest>, found: seq<Server?>)
    requires |items| == |found| && forall i :: 0 <= i < |items| ==> items[i].server == found[i]
    ensures Located(Placed(items, found))
  {
    hide Placed;
    var ptrs := Placed(items, found);
    forall i | 0 <= i < |ptrs| ensures ptrs[i].server != null { PlacedFrom(items, found, ptrs[i]); }
  }

  lemma OwnerOf(items: seq<MemRequest>, found: seq<Server?>, r: MemRequest)
    requires |items| == |found| && Distinct(items) && r in Placed(items, found)
    requires forall i :: 0 <= i < |items| ==> items[i].server == found[i]
    ensures var owner := OwnersOf(items, found);
      r in items && r in owner && r.server == owner[r] && owner[r] in Servers(found)
  {
    hide OwnersOf, Placed;
    PlacedFrom(items, found, r);
    var i :| 0 <= i < |items| && items[i] == r && found[i] != null;
    assert found[i] in found;
  }

  lemma ReadyFrom(sorted: seq<MemRequest>, items: seq<MemRequest>, found: seq<Server?>)
    requires |items| == |found| && Distinct(items) && multiset(sorted) == multiset(Placed(items, found))
    requires Located(sorted) && InOrder(sorted) && forall i :: 0 <= i < |items| ==> items[i].server == found[i]
    ensures Ready(sorted, items, found, OwnersOf(items, found)) && Rest(sorted, 0, OwnersOf(items, found), [])
  {
    hide OwnersOf, Placed, Servers;
    var owner := OwnersOf(items, found);
    SameMembers(Placed(items, found), sorted);
    PlacedDistinct(items, found);
    forall r | r in sorted ensures r in items && r in owner && r.server == owner[r] && owner[r] in Servers(found) {
      OwnerOf(items, found, r);
    }
    forall i | 0 <= i < |items| ensures items[i] in sorted <==> found[i] != null {
      PlacedFrom(items, found, items[i]);
    }
    assert sorted[0..] == sorted;
  }

  /** Sending to all servers, then receiving from all. */
  method Exchange(command: string, sorted: seq<MemRequest>, ghost owner: Owners, ghost start: map<Server, Start>)
    returns (n: int, ghost groups: seq<Group>)
    requires command != "" && Distinct(sorted) && Ordered(sorted, owner) && Apart(start.Keys)
    requires forall r :: r in sorted ==> r in owner && owner[r] in start
    requires Rest(sorted, 0, owner, []) && Unused(start, [])
    modifies sorted, start.Keys, Sockets(start.Keys), Buffers(start.Keys)
    ensures Made(groups, sorted, |sorted|, owner, start) && n == if AllDefined(groups) then Total(groups) else -2
    ensures forall k :: 0 <= k < |groups| ==> Prepared(groups[k]) && Asked(command, groups[k])
    ensures AllDefined(groups) ==> forall k :: 0 <= k < |groups| ==> DoneOk(command, groups[k])
  {
    hide *;
    groups := SendAll(command, sorted, owner, start);
    n := ReceiveAll(command, sorted, groups, owner, start);
  }

  /** What the finished groups say about all the items. */
  lemma Served(command: string, sorted: seq<MemRequest>, items: seq<MemRequest>, found: seq<Server?>, groups: seq<Group>, start: map<Server, Start>)
    requires |found| == |items| && Distinct(items) && Ready(sorted, items, found, OwnersOf(items, found))
    requires Made(groups, sorted, |sorted|, OwnersOf(items, found), start) && Apart(start.Keys)
    requires AllDefined(groups) && forall k :: 0 <= k < |groups| ==> DoneOk(command, groups[k])
    requires forall i :: 0 <= i < |items| && found[i] == null ==> items[i].result == NOSERVER
    ensures OkIn(items) <= Total(groups) && (OkIn(items) == Total(groups) <==> AllOnce(groups))
    ensures forall i :: 0 <= i < |items| ==> SettledItem(items[i], found[i])
  {
    ReadyParts(sorted, items, found);
    hide *;
    var owner := OwnersOf(items, found);
    MadeFlat(groups, sorted, owner, start);
    OkInPlaced(items, found);
    OkInOrder(sorted, Placed(items, found));
    TotalIsOk(command, groups);
    forall i | 0 <= i < |items| ensures SettledItem(items[i], found[i]) {
      if found[i] != null {
        var k := FlatIn(groups, items[i]);
        GroupSettled(command, groups[k], items[i]);
      }
      IsSettled(items[i], found[i]);
    }
  }

  /** An item whose server was asked has a result, and one without a server ends NOSERVER. */
  ghost predicate SettledItem(r: MemRequest, found: Server?)
    reads r`result
  {
    (r.result == OK || r.result == NOTFOUND || r.result == NOSERVER) && (found == null ==> r.result == NOSERVER)
  }

  lemma IsSettled(r: MemRequest, found: Server?)
    requires found == null ==> r.result == NOSERVER
    requires r.result == OK || r.result == NOTFOUND || r.result == NOSERVER
    ensures SettledItem(r, found)
  {
  }

  lemma ReadyParts(sorted: seq<MemRequest>, items: seq<MemRequest>, found: seq<Server?>)
    requires |found| == |items| && Distinct(items) && Ready(sorted, items, found, OwnersOf(items, found))
    ensures Distinct(sorted) && Ordered(sorted, OwnersOf(items, found)) && multiset(sorted) == multiset(Placed(items, found))
    ensures forall r :: r in sorted ==> r in items && r in OwnersOf(items, found) && OwnersOf(items, found)[r] in Servers(found)
    ensures forall i :: 0 <= i < |items| ==> (items[i] in sorted <==> found[i] != null)
  {
    hide OwnersOf, Placed, Servers;
  }

  lemma AllUnused(servers: set<Server>)
    requires AllValid(servers)
    ensures Unused(StartAll(servers), [])
  {
  }

  lemma LaterNone(t: Server)
    ensures Later([], t)
  {
  }

  lemma MadeParts(groups: seq<Group>, ptrs: seq<MemRequest>, owner: Owners, start: map<Server, Start>)
    requires Made(groups, ptrs, |ptrs|, owner, start)
    ensures Ascending(groups) && forall k :: 0 <= k < |groups| ==> Begins(groups[k], start)
  {
  }

  /**
    `Combine` for get and gets; `found` is what `FindServer` gives for each item. The result is -1 for too many
    items, and -2 when a server announces, for a key it was asked, more bytes than a C `int` can hold, where the
    source's behaviour is undefined. `groups` tells the shares of the servers and `start` what the network had in
    store for them.
    */
  method Combine(command: string, items: seq<MemRequest>, found: seq<Server?>)
    returns (n: int, ghost groups: seq<Group>, ghost start: map<Server, Start>)
    requires command != "" && |found| == |items| && Distinct(items)
    requires Apart(Servers(found)) && AllValid(Servers(found))
    modifies items, Servers(found), Sockets(Servers(found)), Buffers(Servers(found))
    ensures start == old(StartAll(Servers(found)))
    ensures |items| > 50 ==> n == -1 && forall i :: 0 <= i < |items| ==> unchanged(items[i])
    ensures |items| <= 50 ==> Shares(groups, items, found) && Ascending(groups)
    ensures |items| <= 50 ==>
              forall k :: 0 <= k < |groups| ==> Begins(groups[k], start) && Prepared(groups[k]) && Asked(command, groups[k])
    ensures |items| <= 50 ==> n == if AllDefined(groups) then Total(groups) else -2
    ensures n >= 0 ==> forall k :: 0 <= k < |groups| ==> DoneOk(command, groups[k])
    ensures n >= 0 ==> forall i :: 0 <= i < |items| ==> SettledItem(items[i], found[i])
    ensures n >= 0 ==> OkIn(items) <= n && (OkIn(items) == n <==> AllOnce(groups))
    ensures |items| <= 50 && ServersConform(start) ==> n == OkIn(items)
  {
    start := StartAll(Servers(found));
    if |items| < 1 {
      return 0, [], start;
    }
    if |items| > MAX_REQUESTS {
      return -1, [], start;
    }
    hide *;
    n, groups := CombineSome(command, items, found, start);
  }

  /** `Combine` once the number of items has been checked. */
  method CombineSome(command: string, items: seq<MemRequest>, found: seq<Server?>, ghost start: map<Server, Start>)
    returns (n: int, ghost groups: seq<Group>)
    requires command != "" && |found| == |items| && Distinct(items)
    requires Apart(Servers(found)) && AllValid(Servers(found)) && start == StartAll(Servers(found))
    modifies items, Servers(found), Sockets(Servers(found)), Buffers(Servers(found))
    ensures Shares(groups, items, found) && Ascending(groups) && n == if AllDefined(groups) then Total(groups) else -2
    ensures forall k :: 0 <= k < |groups| ==> Begins(groups[k], start) && Prepared(groups[k]) && Asked(command, groups[k])
    ensures n >= 0 ==> forall k :: 0 <= k < |groups| ==> DoneOk(command, groups[k])
    ensures n >= 0 ==> forall i :: 0 <= i < |items| ==> SettledItem(items[i], found[i])
    ensures n >= 0 ==> OkIn(items) <= n && (OkIn(items) == n <==> AllOnce(groups))
    ensures ServersConform(start) ==> n == OkIn(items)
  {
    hide *;
    ghost var owner := OwnersOf(items, found);
    AllUnused(Servers(found));
    assert start.Keys == Servers(found);
    forall t | t in start ensures Untouched(t, start[t]) { LaterNone(t); UnusedAt(start, [], t); }
    label before:
    var sorted := Prepare(items, found);
    forall t | t in start ensures Untouched(t, start[t]) {
      assert unchanged@before(t) && unchanged@before(t.socket) && unchanged@before(t.socket.mBuf);
      assert old(Untouched(t, start[t]));
    }
    UnusedFrom(start, []);
    ReadyParts(sorted, items, found);
    forall j | 0 <= j < |sorted| ensures exists i :: 0 <= i < |items| && items[i] == sorted[j] { assert sorted[j] in sorted; }
    n, groups := Exchange(command, sorted, owner, start);
    SharesFrom(groups, sorted, start, items, found);
    MadeParts(groups, sorted, owner, start);
    if n >= 0 { Served(command, sorted, items, found, groups, start); }
    if ServersConform(start) { ConformingGroups(groups, sorted, owner, start); }
  }
}
