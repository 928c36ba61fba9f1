/**
  The memcached client's consistent-hash ring: adding servers, and finding the server of a key.
  A server is named by its canonical address, which is unique because duplicate servers are refused.
  Key hashes come from an arbitrary function into 32-bit numbers.
  */
module HashRing {
  import opened Options

  const TWO32: nat := 0x1_0000_0000

  type Hash = h: nat | h < TWO32

  datatype Entry = Entry(hash: Hash, server: string, services: bv32, entry: nat) {
    predicate Offers(service: bv32) {
      services & service == service
    }
  }

  /** `strcmp(a, b) < 0` */
  predicate StrLess(a: string, b: string)
    decreases |a|
  {
    if b == "" then false
    else if a == "" then true
    else if a[0] != b[0] then a[0] < b[0]
    else StrLess(a[1..], b[1..])
  }

  lemma {:induction false} StrTotal(a: string, b: string)
    ensures StrLess(a, b) || StrLess(b, a) || a == b
    ensures !(StrLess(a, b) && StrLess(b, a)) && !StrLess(a, a)
    decreases |a|
  {
    if a != "" && b != "" && a[0] == b[0] {
      StrTotal(a[1..], b[1..]);
      StrTotal(a[1..], a[1..]);
      if a[1..] == b[1..] { assert a == [a[0]] + a[1..] == b; }
    } else if a != "" {
      StrTotal(a[1..], a[1..]);
    }
  }

  lemma {:induction false} StrTransitive(a: string, b: string, c: string)
    requires !StrLess(b, a) && !StrLess(c, b)
    ensures !StrLess(c, a)
    decreases |a|
  {
    if a != "" && b != "" && c != "" && a[0] == b[0] == c[0] {
      StrTransitive(a[1..], b[1..], c[1..]);
    }
  }

  /** `operator<` on entries. */
  predicate Less(x: Entry, y: Entry) {
    if x.hash != y.hash then x.hash < y.hash
    else if x.server != y.server then StrLess(x.server, y.server)
    else x.entry == y.entry
  }

  /** The order proper: by hash, then by server; entries of one server at one hash are not ordered. */
  predicate Before(x: Entry, y: Entry) {
    x.hash < y.hash || (x.hash == y.hash && StrLess(x.server, y.server))
  }

  ghost predicate Sorted(ring: seq<Entry>) {
    forall i, j :: 0 <= i < j < |ring| ==> !Before(ring[j], ring[i])
  }

  lemma LessIsBefore(x: Entry, y: Entry)
    ensures Before(x, y) ==> Less(x, y)
    ensures Less(x, y) ==> !Before(y, x)
  {
    StrTotal(x.server, y.server);
  }

  lemma NotBeforeTransitive(x: Entry, y: Entry, z: Entry)
    requires !Before(y, x) && !Before(z, y)
    ensures !Before(z, x)
  {
    if x.hash == y.hash == z.hash { StrTransitive(x.server, y.server, z.server); }
  }

  // ---------------------------------------------------------------- owners

  /** How far clockwise an entry lies from a key hash. */
  function Distance(h: Hash, e: Entry): nat {
    (e.hash - h) % TWO32
  }

  predicate Closer(h: Hash, x: Entry, y: Entry) {
    Distance(h, x) < Distance(h, y) || (Distance(h, x) == Distance(h, y) && StrLess(x.server, y.server))
  }

  /** The first entry clockwise from the key that offers the service. */
  ghost predicate IsOwner(ring: seq<Entry>, h: Hash, service: bv32, e: Entry) {
    e in ring && e.Offers(service) && forall f :: f in ring && f.Offers(service) ==> !Closer(h, f, e)
  }

  ghost predicate Owns(ring: seq<Entry>, h: Hash, service: bv32, server: string) {
    exists e :: IsOwner(ring, h, service, e) && e.server == server
  }

  /** Some server owns the key for the service. */
  ghost predicate Served(ring: seq<Entry>, h: Hash, service: bv32) {
    exists server :: Owns(ring, h, service, server)
  }

  lemma OwnerIsUnique(ring: seq<Entry>, h: Hash, service: bv32, e: Entry, f: Entry)
    requires IsOwner(ring, h, service, e) && IsOwner(ring, h, service, f)
    ensures e.server == f.server
  {
    StrTotal(e.server, f.server);
  }

  /** Adding entries of one new server moves keys to that server only, never between two old ones. */
  lemma {:induction false} OnlyMovesToNewServer(before: seq<Entry>, after: seq<Entry>, added: seq<Entry>, s: string,
                                                h: Hash, service: bv32, server: string)
    requires multiset(after) == multiset(before) + multiset(added)
    requires forall e :: e in added ==> e.server == s
    requires Owns(after, h, service, server) && server != s
    ensures Owns(before, h, service, server)
  {
    var e :| IsOwner(after, h, service, e) && e.server == server;
    assert e in multiset(after);
    assert e in before;
    forall f | f in before && f.Offers(service) ensures !Closer(h, f, e) {
      assert f in multiset(after);
    }
    assert IsOwner(before, h, service, e);
  }

  lemma NotCloserTransitive(h: Hash, x: Entry, y: Entry, z: Entry)
    requires !Closer(h, y, x) && !Closer(h, z, y)
    ensures !Closer(h, z, x)
  {
    hide Distance;
    if Distance(h, x) == Distance(h, y) == Distance(h, z) { StrTransitive(x.server, y.server, z.server); }
  }

  /** Where anybody offers the service, every key has an owner. */
  lemma {:induction false} OwnerExists(ring: seq<Entry>, h: Hash, service: bv32, offer: Entry) returns (e: Entry)
    requires offer in ring && offer.Offers(service)
    ensures IsOwner(ring, h, service, e)
  {
    hide StrLess, Entry.Offers;
    var n := |ring| - 1;
    var last := ring[n];
    StrTotal(last.server, last.server);
    assert ring == ring[..n] + [last];
    if f :| f in ring[..n] && f.Offers(service) {
      e := OwnerExists(ring[..n], h, service, f);
      StrTotal(last.server, e.server);
      if last.Offers(service) && Closer(h, last, e) {
        forall g | g in ring && g.Offers(service) ensures !Closer(h, g, last) {
          if g in ring[..n] { NotCloserTransitive(h, last, e, g); }
        }
        e := last;
      }
    } else {
      e := last;
    }
  }

  lemma NowServed(before: seq<Entry>, ring: seq<Entry>, added: seq<Entry>, h: Hash, service: bv32)
    requires multiset(ring) == multiset(before) + multiset(added)
    requires added != [] && added[0].Offers(service)
    ensures Served(ring, h, service)
  {
    assert added[0] in multiset(added);
    assert added[0] in multiset(ring);
    var e := OwnerExists(ring, h, service, added[0]);
    assert Owns(ring, h, service, e.server);
  }

  // ---------------------------------------------------------------- what the orders and tests mean

  /** A server that offers the services 1 and 4 offers these, both together and none, but no other. */
  lemma OffersEveryBit(e: Entry)
    requires e.services == 5
    ensures e.Offers(0) && e.Offers(1) && e.Offers(4) && e.Offers(5)
    ensures !e.Offers(2) && !e.Offers(3) && !e.Offers(6) && !e.Offers(7) && !e.Offers(8)
  {
  }

  /** The order of the first character that differs, a text before its extensions. */
  lemma {:induction false} StrLessIs(p: string, a: char, b: char, s: string, t: string)
    ensures StrLess(p + [a] + s, p + [b] + t) <==> a < b || (a == b && StrLess(s, t))
    ensures StrLess(p, p + [a] + s) && !StrLess(p + [a] + s, p)
  {
    if p == "" {
      assert p + [a] + s == [a] + s && p + [b] + t == [b] + t;
    } else {
      assert (p + [a] + s)[1..] == p[1..] + [a] + s && (p + [b] + t)[1..] == p[1..] + [b] + t;
      StrLessIs(p[1..], a, b, s, t);
    }
  }

  /** Entries of one server at one hash compare as less just when they are the same entry. */
  lemma LessWithinServer(x: Entry, y: Entry)
    requires x.hash == y.hash && x.server == y.server
    ensures Less(x, y) <==> x.entry == y.entry
  {
  }

  /** How far it is from a key hash to an entry, round the end of the ring. */
  lemma DistanceIs(h: Hash, e: Entry)
    ensures 0 <= Distance(h, e) < 0x1_0000_0000
    ensures h + Distance(h, e) == e.hash || h + Distance(h, e) == e.hash + 0x1_0000_0000
  {
  }

  // ---------------------------------------------------------------- cyclic search

  /** Index k places clockwise from start. */
  function Around(n: nat, start: nat, k: nat): nat
    requires start < n && k < n
  {
    if start + k < n then start + k else start + k - n
  }

  ghost predicate LowerBound(ring: seq<Entry>, h: Hash, i: nat) {
    && i <= |ring|
    && (forall k :: 0 <= k < i ==> ring[k].hash < h)
    && (forall k :: i <= k < |ring| ==> ring[k].hash >= h)
  }

  /** Going round from the lower bound, entries come in order of distance. */
  lemma {:induction false} ClockwiseOrder(ring: seq<Entry>, h: Hash, start: nat, bound: nat, j: nat, k: nat)
    requires Sorted(ring) && LowerBound(ring, h, bound) && ring != []
    requires start == if bound == |ring| then 0 else bound
    requires j < k < |ring|
    ensures !Closer(h, ring[Around(|ring|, start, k)], ring[Around(|ring|, start, j)])
  {
    var n := |ring|;
    var a, b := Around(n, start, j), Around(n, start, k);
    DistanceBy(h, ring[a]);
    DistanceBy(h, ring[b]);
    if a < b { assert !Before(ring[b], ring[a]); }
  }

  /** The first offering entry met on the way round is the owner. */
  lemma {:induction false} FirstOfferingOwns(ring: seq<Entry>, h: Hash, service: bv32, start: nat, bound: nat, k: nat)
    requires Sorted(ring) && LowerBound(ring, h, bound) && ring != []
    requires start == if bound == |ring| then 0 else bound
    requires k < |ring| && ring[Around(|ring|, start, k)].Offers(service)
    requires forall j :: 0 <= j < k ==> !ring[Around(|ring|, start, j)].Offers(service)
    ensures IsOwner(ring, h, service, ring[Around(|ring|, start, k)])
  {
    var e := ring[Around(|ring|, start, k)];
    forall f | f in ring && f.Offers(service) ensures !Closer(h, f, e) {
      var i :| 0 <= i < |ring| && ring[i] == f;
      var j := EveryIndexIsAround(|ring|, start, i);
      if j > k { ClockwiseOrder(ring, h, start, bound, k, j); } else { StrTotal(e.server, e.server); }
    }
  }

  lemma {:induction false} NobodyOffers(ring: seq<Entry>, service: bv32, start: nat)
    requires start < |ring|
    requires forall j :: 0 <= j < |ring| ==> !ring[Around(|ring|, start, j)].Offers(service)
    ensures forall e :: e in ring ==> !e.Offers(service)
  {
    forall e | e in ring ensures !e.Offers(service) {
      var i :| 0 <= i < |ring| && ring[i] == e;
      var j := EveryIndexIsAround(|ring|, start, i);
    }
  }

  lemma DistanceBy(h: Hash, e: Entry)
    ensures Distance(h, e) == if e.hash >= h then e.hash - h else e.hash - h + TWO32
  {
  }

  lemma {:induction false} EveryIndexIsAround(n: nat, start: nat, i: nat) returns (k: nat)
    requires start < n && i < n
    ensures k < n && Around(n, start, k) == i
  {
    k := if i >= start then i - start else i - start + n;
  }

  // ---------------------------------------------------------------- the client

  const SALTS: seq<string> := [
    "{DEA60AAB-CFF9-4a20-A799-4E5E93369656}",
    "{C05167CC-57DA-40f2-9EB8-18F65E56FD21}",
    "{57939537-0966-49e7-B675-ACE63246BFA5}",
    "{F0C8BE5C-A0F1-478f-BC45-28D42AF0CA1E}"
  ]

  /** `std::sort`, by insertion. */
  method Sort(entries: seq<Entry>) returns (ring: seq<Entry>)
    ensures multiset(ring) == multiset(entries) && Sorted(ring)
  {
    ring := [];
    for i := 0 to |entries|
      invariant multiset(ring) == multiset(entries[..i]) && Sorted(ring)
    {
      assert entries[..i + 1] == entries[..i] + [entries[i]];
      ring := Insert(ring, entries[i]);
    }
    assert entries[..|entries|] == entries;
  }

  method Insert(ring: seq<Entry>, e: Entry) returns (r: seq<Entry>)
    requires Sorted(ring)
    ensures multiset(r) == multiset(ring) + multiset{e} && Sorted(r)
  {
    var i := |ring|;
    while i > 0 && Less(e, ring[i - 1])
      invariant 0 <= i <= |ring|
      invariant forall k :: i <= k < |ring| ==> !Before(ring[k], e)
    {
      LessIsBefore(e, ring[i - 1]);
      i := i - 1;
    }
    if i > 0 { LessIsBefore(e, ring[i - 1]); }
    InsertedSorted(ring, i, e);
    r := ring[..i] + [e] + ring[i..];
    assert ring == ring[..i] + ring[i..];
  }

  lemma InsertedSorted(ring: seq<Entry>, i: nat, e: Entry)
    requires Sorted(ring) && i <= |ring| && (i > 0 ==> !Before(e, ring[i - 1]))
    requires forall k :: i <= k < |ring| ==> !Before(ring[k], e)
    ensures Sorted(ring[..i] + [e] + ring[i..])
  {
    forall k | 0 <= k < i ensures !Before(e, ring[k]) {
      if k < i - 1 { NotBeforeTransitive(ring[k], ring[i - 1], e); }
    }
  }

  method FindLowerBound(ring: seq<Entry>, h: Hash) returns (i: nat)
    requires Sorted(ring)
    ensures LowerBound(ring, h, i)
  {
    var hi := |ring|;
    i := 0;
    while i < hi
      invariant i <= hi <= |ring|
      invariant forall k :: 0 <= k < i ==> ring[k].hash < h
      invariant forall k :: hi <= k < |ring| ==> ring[k].hash >= h
    {
      var mid := (i + hi) / 2;
      if ring[mid].hash < h {
        assert forall k :: 0 <= k < mid ==> !Before(ring[mid], ring[k]);
        i := mid + 1;
      } else {
        assert forall k :: mid < k < |ring| ==> !Before(ring[k], ring[mid]);
        hi := mid;
      }
    }
  }

  class MemCacheClient {
    var servers: seq<string>
    var ring: seq<Entry>
    const keyHash: string -> Hash

    ghost predicate Valid()
      reads this
    {
      Sorted(ring) && forall e :: e in ring ==> e.server in servers
    }

    constructor (keyHash: string -> Hash)
      ensures Valid() && servers == [] && ring == [] && this.keyHash == keyHash
    {
      servers, ring, this.keyHash := [], [], keyHash;
    }

    function NewEntries(address: string, services: bv32, n: nat): seq<Entry>
      requires n <= |SALTS|
      reads this
    {
      seq(n, i requires 0 <= i < n => Entry(keyHash(address + SALTS[i]), address, services, i + 1))
    }

    lemma FourEntries(s: string, services: bv32)
      ensures |NewEntries(s, services, |SALTS|)| == 4
      ensures forall e :: e in NewEntries(s, services, |SALTS|) ==> e.server == s && e.services == services
      ensures multiset(NewEntries(s, services, |SALTS|)) == multiset{
        Entry(keyHash(s + "{DEA60AAB-CFF9-4a20-A799-4E5E93369656}"), s, services, 1),
        Entry(keyHash(s + "{C05167CC-57DA-40f2-9EB8-18F65E56FD21}"), s, services, 2),
        Entry(keyHash(s + "{57939537-0966-49e7-B675-ACE63246BFA5}"), s, services, 3),
        Entry(keyHash(s + "{F0C8BE5C-A0F1-478f-BC45-28D42AF0CA1E}"), s, services, 4)}
    {
      var e := NewEntries(s, services, |SALTS|);
      assert |SALTS| == 4 && e == [e[0], e[1], e[2], e[3]];
    }

    method AddEntries(s: string, services: bv32)
      modifies `ring
      ensures ring == old(ring) + NewEntries(s, services, |SALTS|)
    {
      for n := 0 to |SALTS|
        invariant ring == old(ring) + NewEntries(s, services, n)
      {
        ring := ring + [Entry(keyHash(s + SALTS[n]), s, services, n + 1)];
      }
    }

    /** `AddServer`; None stands for an address that does not parse or connect. */
    method AddServer(address: Option<string>, services: bv32) returns (ok: bool)
      requires Valid()
      modifies this
      ensures Valid() && ok == address.Some?
      ensures address.None? || address.value in old(servers) ==> servers == old(servers) && ring == old(ring)
      ensures address.Some? && address.value !in old(servers) ==>
                && servers == old(servers) + [address.value]
                && multiset(ring) == multiset(old(ring)) + multiset{
                     Entry(keyHash(address.value + "{DEA60AAB-CFF9-4a20-A799-4E5E93369656}"), address.value, services, 1),
                     Entry(keyHash(address.value + "{C05167CC-57DA-40f2-9EB8-18F65E56FD21}"), address.value, services, 2),
                     Entry(keyHash(address.value + "{57939537-0966-49e7-B675-ACE63246BFA5}"), address.value, services, 3),
                     Entry(keyHash(address.value + "{F0C8BE5C-A0F1-478f-BC45-28D42AF0CA1E}"), address.value, services, 4)}
      ensures address.Some? && address.value !in old(servers) ==>
                forall h, service :: service & services == service ==> Served(ring, h, service)
      ensures forall h, service, server :: Owns(ring, h, service, server) ==>
                Owns(old(ring), h, service, server) || address == Some(server)
    {
      if address.None? { return false; }
      var s := address.value;
      for n := 0 to |servers|
        invariant s !in servers[..n]
      {
        if s == servers[n] { return true; }
      }
      hide Served, Owns, NewEntries;
      servers := servers + [s];
      ghost var before := ring;
      AddEntries(s, services);
      ghost var added := NewEntries(s, services, |SALTS|);
      FourEntries(s, services);
      ring := Sort(ring);
      assert multiset(ring) == multiset(before) + multiset(added);
      forall e | e in ring ensures e.server in servers { assert e in multiset(ring); }
      forall h, service, server | Owns(ring, h, service, server) && server != s
        ensures Owns(before, h, service, server)
      {
        OnlyMovesToNewServer(before, ring, added, s, h, service, server);
      }
      forall h, service | service & services == service ensures Served(ring, h, service) {
        NowServed(before, ring, added, h, service);
      }
      ok := true;
    }

    /** The search of `FindServer`: the place of the owner, -1 when no entry offers the service. */
    method FindOwner(h: Hash, service: bv32) returns (curr: int)
      requires Valid()
      ensures -1 <= curr < |ring|
      ensures if curr >= 0 then IsOwner(ring, h, service, ring[curr]) else forall e :: e in ring ==> !e.Offers(service)
    {
      if ring == [] { return -1; }
      var bound := FindLowerBound(ring, h);
      var n := |ring|;
      ghost var k := 0;
      var start := if bound == |ring| then 0 else bound;
      curr := start;
      while service != 0 && !ring[curr].Offers(service)
        invariant 0 <= k < n && 0 <= curr < n && curr == Around(n, start, k)
        invariant forall j :: 0 <= j < k ==> !ring[Around(n, start, j)].Offers(service)
        decreases n - k
      {
        curr := curr + 1;
        k := k + 1;
        if curr == n { curr := 0; }
        if curr == start {
          NobodyOffers(ring, service, start);
          return -1;
        }
      }
      NoService(ring[curr]);
      FirstOfferingOwns(ring, h, service, start, bound, k);
    }

    /** `FindServer`: the owner's address if the connection to it succeeds. */
    method FindServer(key: string, service: bv32, connects: string -> bool) returns (server: Option<string>)
      requires Valid()
      ensures server.Some? ==> Owns(ring, keyHash(key), service, server.value) && connects(server.value)
      ensures server.None? ==>
                (forall e :: e in ring ==> !e.Offers(service))
                || exists s :: Owns(ring, keyHash(key), service, s) && !connects(s)
    {
      var curr := FindOwner(keyHash(key), service);
      if curr < 0 { return None; }
      var s := ring[curr].server;
      assert Owns(ring, keyHash(key), service, s);
      server := if connects(s) then Some(s) else None;
    }
  }

  lemma NoService(e: Entry)
    ensures e.Offers(0)
  {
  }
}
