/**
  The document tree in memory: nodes linked to their parent, first and last child, and previous and next sibling.

  A `Forest` abstracts the heap: it gives every live node its children as a sequence. The operations act on that
  view as sequence operations on one entry, and keep `Ok`: the ends, the parents and both directions of every
  sibling link are right, and no node is its own descendant.
  */
module XmlDom {
  import opened XmlCopy
  import Seqs

  /** The pointer fields of one node. */
  datatype Links = Links(parent: TiXmlNode?, first: TiXmlNode?, last: TiXmlNode?, prev: TiXmlNode?, next: TiXmlNode?)

  type Heap = map<TiXmlNode, Links>

  /** `rank` falls from parent to child, so that there are no cycles. */
  datatype Forest = Forest(lists: map<TiXmlNode, seq<TiXmlNode>>, rank: map<TiXmlNode, nat>)

  /** What a subtree is apart from where it lies in memory. */
  datatype Tree = Tree(data: Data, kids: seq<Tree>)

  // ---- The invariant ----

  function Before(ks: seq<TiXmlNode>, i: nat): TiXmlNode?
    requires i <= |ks|
  {
    if i == 0 then null else ks[i - 1]
  }

  function At(ks: seq<TiXmlNode>, i: nat): TiXmlNode?
    requires i <= |ks|
  {
    if i == |ks| then null else ks[i]
  }

  ghost predicate KidOk(h: Heap, p: TiXmlNode, ks: seq<TiXmlNode>, i: nat)
    requires i < |ks| && ks[i] in h
  {
    h[ks[i]].parent == p && h[ks[i]].prev == Before(ks, i) && h[ks[i]].next == At(ks, i + 1)
  }

  ghost predicate Distinct(ks: seq<TiXmlNode>) {
    forall i, j :: 0 <= i < j < |ks| ==> ks[i] != ks[j]
  }

  /** The child list of p is ks: ends, parents, and both directions of the sibling links. */
  ghost predicate ListOk(h: Heap, p: TiXmlNode, ks: seq<TiXmlNode>)
    requires p in h
  {
    && h[p].first == At(ks, 0)
    && h[p].last == Before(ks, |ks|)
    && (forall i :: 0 <= i < |ks| ==> ks[i] in h && KidOk(h, p, ks, i))
    && Distinct(ks)
  }

  ghost predicate ListBelow(f: Forest, p: TiXmlNode)
    requires f.lists.Keys == f.rank.Keys && p in f.lists
  {
    forall c :: c in f.lists[p] ==> c in f.lists && f.rank[c] < f.rank[p]
  }

  ghost predicate Closed(f: Forest) {
    f.lists.Keys == f.rank.Keys && forall p :: p in f.lists ==> ListBelow(f, p)
  }

  ghost predicate Listed(h: Heap, f: Forest, c: TiXmlNode)
    requires c in h
  {
    h[c].parent != null ==> h[c].parent in f.lists && c in f.lists[h[c].parent]
  }

  ghost predicate AllListsOk(h: Heap, f: Forest)
    requires h.Keys == f.lists.Keys
  {
    forall p :: p in f.lists ==> ListOk(h, p, f.lists[p])
  }

  ghost predicate AllListed(h: Heap, f: Forest)
    requires h.Keys == f.lists.Keys
  {
    forall c :: c in f.lists ==> Listed(h, f, c)
  }

  /** Every node has a good child list within the forest, and is in the list of its parent if it has one. */
  ghost predicate Good(h: Heap, f: Forest) {
    Closed(f) && h.Keys == f.lists.Keys && AllListsOk(h, f) && AllListed(h, f)
  }

  ghost function Snapshot(all: set<TiXmlNode>): Heap
    reads all
  {
    map x | x in all :: Links(x.parent, x.firstChild, x.lastChild, x.prev, x.next)
  }

  ghost predicate Ok(f: Forest)
    reads f.lists.Keys
  {
    Good(Snapshot(f.lists.Keys), f)
  }

  ghost function WithParent(h: Heap, n: TiXmlNode, p: TiXmlNode?): Heap
    requires n in h
  {
    h[n := h[n].(parent := p)]
  }

  /** The forest is good, and node is a root of it, but for what its parent pointer may already say. */
  ghost predicate Unlinked(f: Forest, node: TiXmlNode)
    requires node in f.lists
    reads f.lists.Keys
  {
    Good(WithParent(Snapshot(f.lists.Keys), node, null), f)
  }

  lemma RootUnlinked(f: Forest, node: TiXmlNode)
    requires Ok(f) && node in f.lists && node.parent == null
    ensures Unlinked(f, node)
  {
    hide Good;
    var h := Snapshot(f.lists.Keys);
    assert WithParent(h, node, null) == h;
  }

  lemma UnlinkedIs(f: Forest, node: TiXmlNode)
    requires node in f.lists && Unlinked(f, node)
    ensures node in Snapshot(f.lists.Keys) && Good(WithParent(Snapshot(f.lists.Keys), node, null), f)
  {
    hide Good;
  }

  lemma ParentIs(h: Heap, f: Forest, p: TiXmlNode, c: TiXmlNode)
    requires Good(h, f) && p in f.lists && c in f.lists[p]
    ensures c in h && h[c].parent == p
  {
    hide Closed, ListOk;
    Below(f, p, c);
    assert ListOk(h, p, f.lists[p]);
    MemberParent(h, p, f.lists[p], c);
  }

  lemma SameKeys(f: Forest)
    requires Closed(f)
    ensures f.lists.Keys == f.rank.Keys
  {
  }

  lemma Below(f: Forest, p: TiXmlNode, c: TiXmlNode)
    requires Closed(f) && p in f.lists && c in f.lists[p]
    ensures c in f.lists && p in f.rank && c in f.rank && f.rank[c] < f.rank[p]
  {
    assert ListBelow(f, p);
  }

  // ---- Subtrees ----

  ghost function TreeOf(f: Forest, n: TiXmlNode): Tree
    requires Closed(f) && n in f.lists
    decreases f.rank[n]
  {
    Tree(n.data, seq(|f.lists[n]|, i requires 0 <= i < |f.lists[n]| => TreeOf(f, f.lists[n][i])))
  }

  /** n and everything below it. */
  ghost function Family(f: Forest, n: TiXmlNode): (d: set<TiXmlNode>)
    requires Closed(f) && n in f.lists
    ensures n in d && d <= f.lists.Keys
    decreases f.rank[n]
  {
    {n} + (set c, x | c in f.lists[n] && x in Family(f, c) :: x)
  }

  lemma FamilyDown(f: Forest, n: TiXmlNode, x: TiXmlNode) returns (c: TiXmlNode)
    requires Closed(f) && n in f.lists && x in Family(f, n) && x != n
    ensures c in f.lists[n] && c in f.lists && n in f.rank && c in f.rank && f.rank[c] < f.rank[n] && x in Family(f, c)
  {
    hide Closed;
    forall c | c in f.lists[n] ensures c in f.lists { Below(f, n, c); }
    c :| c in f.lists[n] && x in Family(f, c);
    Below(f, n, c);
  }

  lemma FamilyUp(f: Forest, n: TiXmlNode, c: TiXmlNode, x: TiXmlNode)
    requires Closed(f) && n in f.lists && c in f.lists && c in f.lists[n] && x in Family(f, c)
    ensures x in Family(f, n)
  {
  }

  lemma {:induction false} FamilyRank(f: Forest, n: TiXmlNode, x: TiXmlNode)
    requires Closed(f) && n in f.lists && x in Family(f, n)
    ensures x in f.lists && n in f.rank && x in f.rank && (x == n || f.rank[x] < f.rank[n])
    decreases f.rank[n]
  {
    SameKeys(f);
    hide Closed, Family;
    if x != n {
      var c := FamilyDown(f, n, x);
      FamilyRank(f, c, x);
    }
  }

  lemma {:induction false} FamilyIsClosed(f: Forest, n: TiXmlNode, x: TiXmlNode, y: TiXmlNode)
    requires Closed(f) && n in f.lists && x in Family(f, n) && x in f.lists && y in f.lists[x]
    ensures y in Family(f, n)
    decreases f.rank[n]
  {
    hide Closed, Family;
    if x == n {
      Below(f, n, y);
      FamilyUp(f, n, y, y);
    } else {
      var c := FamilyDown(f, n, x);
      FamilyIsClosed(f, c, x, y);
      FamilyUp(f, n, c, y);
    }
  }

  /** Everything in a family but its head is listed by a member. */
  lemma {:induction false} FamilyParent(f: Forest, n: TiXmlNode, x: TiXmlNode) returns (q: TiXmlNode)
    requires Closed(f) && n in f.lists && x in Family(f, n) && x != n
    ensures q in Family(f, n) && q in f.lists && x in f.lists[q]
    decreases f.rank[n]
  {
    hide Closed, Family;
    var c := FamilyDown(f, n, x);
    if x == c {
      q := n;
    } else {
      q := FamilyParent(f, c, x);
      FamilyUp(f, n, c, q);
    }
  }

  /** From outside, a family is reachable through its head only. */
  lemma OnlyThroughHead(h: Heap, f: Forest, n: TiXmlNode, q: TiXmlNode, c: TiXmlNode)
    requires Good(h, f) && n in f.lists && q in f.lists && c in f.lists[q] && c in Family(f, n) && q !in Family(f, n)
    ensures c == n
  {
    hide Family;
    if c != n {
      var q' := FamilyParent(f, n, c);
      ParentIs(h, f, q, c);
      ParentIs(h, f, q', c);
    }
  }

  // ---- Changing one list ----

  /** f without the members of d. */
  ghost function Minus(f: Forest, d: set<TiXmlNode>): Forest {
    Forest(f.lists - d, f.rank - d)
  }

  /** f with ks as the list of p, where node is the new member; every rank outside its family is lifted if need be. */
  ghost function Attach(f: Forest, p: TiXmlNode, ks: seq<TiXmlNode>, node: TiXmlNode): Forest
    requires Closed(f) && p in f.lists && node in f.lists
  {
    Forest(f.lists[p := ks],
           if f.rank[node] < f.rank[p] then f.rank
           else map x | x in f.rank :: if x in Family(f, node) then f.rank[x] else f.rank[x] + f.rank[node] + 1)
  }

  ghost predicate CanAttach(h: Heap, f: Forest, p: TiXmlNode, ks: seq<TiXmlNode>, node: TiXmlNode) {
    && Good(h, f) && p in f.lists && node in f.lists && p !in Family(f, node) && h[node].parent == null
    && forall c :: c in ks ==> c == node || c in f.lists[p]
  }

  lemma AttachEdge(h: Heap, f: Forest, p: TiXmlNode, ks: seq<TiXmlNode>, node: TiXmlNode, q: TiXmlNode, c: TiXmlNode)
    requires CanAttach(h, f, p, ks, node) && q in f.lists && (c in f.lists[q] || (q == p && c == node))
    ensures var rank := Attach(f, p, ks, node).rank; c in f.lists && c in rank && q in rank && rank[c] < rank[q]
  {
    hide ListOk, Family, Closed;
    SameKeys(f);
    if c in f.lists[q] {
      Below(f, q, c);
      ParentIs(h, f, q, c);
      if q in Family(f, node) {
        FamilyIsClosed(f, node, q, c);
      } else if c in Family(f, node) {
        OnlyThroughHead(h, f, node, q, c);
      }
    }
  }

  lemma AttachBelow(h: Heap, f: Forest, p: TiXmlNode, ks: seq<TiXmlNode>, node: TiXmlNode, q: TiXmlNode)
    requires CanAttach(h, f, p, ks, node) && q in f.lists
    ensures var g := Attach(f, p, ks, node); g.lists.Keys == g.rank.Keys && q in g.lists && ListBelow(g, q)
  {
    hide Family, ListOk;
    SameKeys(f);
    hide Closed;
    var g := Attach(f, p, ks, node);
    forall c | c in g.lists[q] ensures c in g.lists && g.rank[c] < g.rank[q] {
      AttachEdge(h, f, p, ks, node, q, c);
    }
  }

  lemma AttachClosed(h: Heap, f: Forest, p: TiXmlNode, ks: seq<TiXmlNode>, node: TiXmlNode)
    requires CanAttach(h, f, p, ks, node)
    ensures Closed(Attach(f, p, ks, node))
  {
    hide ListOk, Family, ListBelow;
    SameKeys(f);
    var g := Attach(f, p, ks, node);
    forall q | q in g.lists ensures ListBelow(g, q) { AttachBelow(h, f, p, ks, node, q); }
  }

  ghost predicate ListWithin(f: Forest, q: TiXmlNode, d: set<TiXmlNode>)
    requires q in f.lists
  {
    forall c :: c in f.lists[q] ==> c in d
  }

  /** d is a subtree to be dropped: it is closed, and has the members that p loses. */
  ghost predicate Droppable(f: Forest, p: TiXmlNode, ks: seq<TiXmlNode>, d: set<TiXmlNode>)
    requires p in f.lists
  {
    && p !in d
    && (forall c :: c in f.lists[p] && c !in ks ==> c in d)
    && (forall q :: q in f.lists && q in d ==> ListWithin(f, q, d))
  }

  ghost predicate SameLinks(h: Heap, h': Heap, c: TiXmlNode)
    requires c in h && c in h'
  {
    h'[c].parent == h[c].parent && h'[c].prev == h[c].prev && h'[c].next == h[c].next
  }

  /** From h to h', p gets the list ks, which takes in only old members of its list and roots; nothing else changes. */
  ghost predicate OnlyRelists(h: Heap, f: Forest, p: TiXmlNode, ks: seq<TiXmlNode>, h': Heap)
    requires h.Keys == f.lists.Keys && p in f.lists && h'.Keys <= h.Keys
  {
    && p in h' && ListOk(h', p, ks)
    && (forall c :: c in ks ==> c in h && (c in f.lists[p] || h[c].parent == null))
    && (forall q :: q in h' && q != p ==> h'[q].first == h[q].first && h'[q].last == h[q].last)
    && (forall c :: c in h' && c !in f.lists[p] && c !in ks ==> SameLinks(h, h', c))
  }

  lemma OtherList(h: Heap, f: Forest, p: TiXmlNode, ks: seq<TiXmlNode>, h': Heap, q: TiXmlNode)
    requires Good(h, f) && p in f.lists && h'.Keys <= h.Keys && OnlyRelists(h, f, p, ks, h')
    requires q in h' && q != p && forall c :: c in f.lists[q] ==> c in h'
    ensures ListOk(h', q, f.lists[q])
  {
    var qs := f.lists[q];
    assert ListOk(h, q, qs);
    hide Closed, AllListed, Distinct;
    hide ListOk;
    forall c | c in qs ensures c in h && SameLinks(h, h', c) {
      ParentIs(h, f, q, c);
      if c in f.lists[p] { ParentIs(h, f, p, c); }
    }
    ListFramed(h, q, qs, h');
  }

  lemma OtherListed(h: Heap, f: Forest, p: TiXmlNode, ks: seq<TiXmlNode>, d: set<TiXmlNode>, h': Heap, f': Forest, c: TiXmlNode)
    requires Good(h, f) && p in f.lists && h'.Keys <= h.Keys && OnlyRelists(h, f, p, ks, h') && Droppable(f, p, ks, d)
    requires f'.lists == (f.lists - d)[p := ks] && c in h' && c in f'.lists
    ensures Listed(h', f', c)
  {
    hide Closed, Distinct, ListOk, AllListsOk, ListWithin;
    if c in ks {
      MemberParent(h', p, ks, c);
    } else {
      assert SameLinks(h, h', c);
      assert Listed(h, f, c);
      if h[c].parent != null && h[c].parent in d { Within(f, h[c].parent, d, c); }
    }
  }

  lemma Within(f: Forest, q: TiXmlNode, d: set<TiXmlNode>, c: TiXmlNode)
    requires q in f.lists && ListWithin(f, q, d) && c in f.lists[q]
    ensures c in d
  {
  }

  lemma MemberParent(h: Heap, p: TiXmlNode, ks: seq<TiXmlNode>, c: TiXmlNode)
    requires p in h && ListOk(h, p, ks) && c in ks && c in h
    ensures h[c].parent == p
  {
    var i :| 0 <= i < |ks| && ks[i] == c;
    assert KidOk(h, p, ks, i);
  }

  /** If, besides, the members that p loses go with d, what is left is a good forest again. */
  lemma Relisted(h: Heap, f: Forest, p: TiXmlNode, ks: seq<TiXmlNode>, d: set<TiXmlNode>, h': Heap, f': Forest)
    requires Good(h, f) && p in f.lists && Droppable(f, p, ks, d)
    requires f'.lists == (f.lists - d)[p := ks] && Closed(f') && h'.Keys == f'.lists.Keys && h'.Keys <= h.Keys
    requires OnlyRelists(h, f, p, ks, h')
    ensures Good(h', f')
  {
    hide ListOk, Listed, OnlyRelists;
    forall q | q in f'.lists ensures ListOk(h', q, f'.lists[q]) {
      if q == p {
        RelistedAt(h, f, p, ks, h');
      } else {
        forall c | c in f.lists[q] ensures c in h' { Below(f', q, c); }
        OtherList(h, f, p, ks, h', q);
      }
    }
    forall c | c in f'.lists ensures Listed(h', f', c) { OtherListed(h, f, p, ks, d, h', f', c); }
  }

  lemma RelistedAt(h: Heap, f: Forest, p: TiXmlNode, ks: seq<TiXmlNode>, h': Heap)
    requires h.Keys == f.lists.Keys && p in f.lists && h'.Keys <= h.Keys && OnlyRelists(h, f, p, ks, h')
    ensures p in h' && ListOk(h', p, ks)
  {
  }

  // ---- Splicing the links of one list ----

  /** ks with mid in place of its members from i up to j. */
  function Splice(ks: seq<TiXmlNode>, i: nat, j: nat, mid: seq<TiXmlNode>): seq<TiXmlNode>
    requires i <= j <= |ks|
  {
    ks[..i] + mid + ks[j..]
  }

  /** A sibling stays where it is, but its link to the neighbour at the place is turned. */
  ghost predicate Turned(h: Heap, c: TiXmlNode, b: TiXmlNode?, a: TiXmlNode?, ahead: TiXmlNode?, behind: TiXmlNode?, h': Heap) {
    && c in h && c in h' && h'[c].parent == h[c].parent
    && h'[c].next == (if c == b then ahead else h[c].next)
    && h'[c].prev == (if c == a then behind else h[c].prev)
  }

  /**
    What the operations do to the pointers, where b and a are the neighbours of the place and mid holds at most
    one node, the new one.
    */
  ghost predicate Spliced(h: Heap, p: TiXmlNode, ks: seq<TiXmlNode>, i: nat, j: nat, mid: seq<TiXmlNode>, h': Heap)
    requires i <= j <= |ks| && |mid| <= 1 && p in h
  {
    var b, a := Before(ks, i), At(ks, j);
    var ahead, behind := if mid == [] then a else mid[0], if mid == [] then b else mid[0];
    && p in h'
    && h'[p].first == (if b == null then ahead else h[p].first)
    && h'[p].last == (if a == null then behind else h[p].last)
    && (mid != [] ==> mid[0] in h' && h'[mid[0]].parent == p && h'[mid[0]].prev == b && h'[mid[0]].next == a)
    && (forall k :: 0 <= k < |ks| && !(i <= k < j) ==> Turned(h, ks[k], b, a, ahead, behind, h'))
  }

  lemma SpliceAt(ks: seq<TiXmlNode>, i: nat, j: nat, mid: seq<TiXmlNode>, k: nat)
    requires i <= j <= |ks|
    ensures var ks' := Splice(ks, i, j, mid);
      && |ks'| == |ks| - j + i + |mid|
      && (k < i ==> ks'[k] == ks[k])
      && (i <= k < i + |mid| ==> ks'[k] == mid[k - i])
      && (i + |mid| <= k < |ks'| ==> 0 <= k - |mid| - i + j < |ks| && ks'[k] == ks[k - |mid| - i + j])
  {
  }

  lemma Apart(ks: seq<TiXmlNode>, i: nat, j: nat)
    requires Distinct(ks) && i < |ks| && j < |ks| && i != j
    ensures ks[i] != ks[j]
  {
  }

  lemma KidIs(h: Heap, p: TiXmlNode, ks: seq<TiXmlNode>, k: nat)
    requires p in h && ListOk(h, p, ks) && k < |ks|
    ensures ks[k] in h && KidOk(h, p, ks, k)
  {
  }

  lemma TurnedAt(h: Heap, p: TiXmlNode, ks: seq<TiXmlNode>, i: nat, j: nat, mid: seq<TiXmlNode>, h': Heap, k: nat)
    requires i <= j <= |ks| && |mid| <= 1 && p in h && Spliced(h, p, ks, i, j, mid, h') && k < |ks| && !(i <= k < j)
    ensures var b, a := Before(ks, i), At(ks, j);
      Turned(h, ks[k], b, a, if mid == [] then a else mid[0], if mid == [] then b else mid[0], h')
  {
  }

  lemma SplicedFront(h: Heap, p: TiXmlNode, ks: seq<TiXmlNode>, i: nat, j: nat, mid: seq<TiXmlNode>, h': Heap, k: nat)
    requires i <= j <= |ks| && |mid| <= 1 && p in h && ListOk(h, p, ks) && Distinct(ks) && Spliced(h, p, ks, i, j, mid, h')
    requires k < i
    ensures var ks' := Splice(ks, i, j, mid); k < |ks'| && ks'[k] in h' && KidOk(h', p, ks', k)
  {
    hide Splice, Distinct, ListOk, Spliced;
    KidIs(h, p, ks, k);
    TurnedAt(h, p, ks, i, j, mid, h', k);
    SpliceAt(ks, i, j, mid, k);
    SpliceAt(ks, i, j, mid, k + 1);
    if 0 < k { SpliceAt(ks, i, j, mid, k - 1); }
    if k < i - 1 { Apart(ks, k, i - 1); }
    if j < |ks| { Apart(ks, k, j); }
  }

  lemma SplicedBack(h: Heap, p: TiXmlNode, ks: seq<TiXmlNode>, i: nat, j: nat, mid: seq<TiXmlNode>, h': Heap, k: nat)
    requires i <= j <= |ks| && |mid| <= 1 && p in h && ListOk(h, p, ks) && Distinct(ks) && Spliced(h, p, ks, i, j, mid, h')
    requires j <= k < |ks|
    ensures var ks' := Splice(ks, i, j, mid);
      var k' := k - j + i + |mid|;
      k' < |ks'| && ks'[k'] in h' && KidOk(h', p, ks', k')
  {
    hide Splice, Distinct, ListOk, Spliced;
    var k' := k - j + i + |mid|;
    KidIs(h, p, ks, k);
    TurnedAt(h, p, ks, i, j, mid, h', k);
    SpliceAt(ks, i, j, mid, k');
    SpliceAt(ks, i, j, mid, k' + 1);
    if 0 < k' { SpliceAt(ks, i, j, mid, k' - 1); }
    if j < k { Apart(ks, k, j); }
    if 0 < i { Apart(ks, k, i - 1); }
  }

  lemma SplicedMid(h: Heap, p: TiXmlNode, ks: seq<TiXmlNode>, i: nat, j: nat, mid: seq<TiXmlNode>, h': Heap)
    requires i <= j <= |ks| && |mid| == 1 && p in h && Spliced(h, p, ks, i, j, mid, h')
    ensures var ks' := Splice(ks, i, j, mid); i < |ks'| && ks'[i] in h' && KidOk(h', p, ks', i)
  {
    hide Splice, Turned;
    SpliceAt(ks, i, j, mid, i);
    SpliceAt(ks, i, j, mid, i + 1);
    if 0 < i { SpliceAt(ks, i, j, mid, i - 1); }
  }

  lemma SplicedDistinct(ks: seq<TiXmlNode>, i: nat, j: nat, mid: seq<TiXmlNode>)
    requires i <= j <= |ks| && |mid| <= 1 && Distinct(ks) && (mid != [] ==> mid[0] !in ks)
    ensures Distinct(Splice(ks, i, j, mid))
  {
    var ks' := Splice(ks, i, j, mid);
    hide Splice;
    forall k, l | 0 <= k < l < |ks'| ensures ks'[k] != ks'[l] {
      SpliceAt(ks, i, j, mid, k);
      SpliceAt(ks, i, j, mid, l);
      assert k < i || i + |mid| <= k || ks'[k] == mid[0];
      assert l < i || i + |mid| <= l || ks'[l] == mid[0];
    }
  }

  lemma SplicedOk(h: Heap, p: TiXmlNode, ks: seq<TiXmlNode>, i: nat, j: nat, mid: seq<TiXmlNode>, h': Heap)
    requires i <= j <= |ks| && |mid| <= 1 && p in h && ListOk(h, p, ks) && Spliced(h, p, ks, i, j, mid, h')
    requires mid != [] ==> mid[0] !in ks
    ensures p in h' && ListOk(h', p, Splice(ks, i, j, mid))
  {
    SplicedDistinct(ks, i, j, mid) by { assert ListOk(h, p, ks); }
    SplicedEnds(h, p, ks, i, j, mid, h');
    hide *;
    var ks' := Splice(ks, i, j, mid);
    forall k | 0 <= k < |ks'| ensures ks'[k] in h' && KidOk(h', p, ks', k) {
      SplicedAny(h, p, ks, i, j, mid, h', k);
    }
    IsListOk(h', p, ks');
  }

  lemma SplicedAny(h: Heap, p: TiXmlNode, ks: seq<TiXmlNode>, i: nat, j: nat, mid: seq<TiXmlNode>, h': Heap, k: nat)
    requires i <= j <= |ks| && |mid| <= 1 && p in h && ListOk(h, p, ks) && Spliced(h, p, ks, i, j, mid, h')
    requires k < |Splice(ks, i, j, mid)|
    ensures var ks' := Splice(ks, i, j, mid); ks'[k] in h' && KidOk(h', p, ks', k)
  {
    hide *;
    SpliceAt(ks, i, j, mid, 0);
    DistinctOf(h, p, ks);
    if k < i {
      SplicedFront(h, p, ks, i, j, mid, h', k);
    } else if i + |mid| <= k {
      SplicedBack(h, p, ks, i, j, mid, h', k - |mid| - i + j);
    } else {
      SplicedMid(h, p, ks, i, j, mid, h');
    }
  }

  lemma IsListOk(h: Heap, p: TiXmlNode, ks: seq<TiXmlNode>)
    requires p in h && h[p].first == At(ks, 0) && h[p].last == Before(ks, |ks|) && Distinct(ks)
    requires forall k :: 0 <= k < |ks| ==> ks[k] in h && KidOk(h, p, ks, k)
    ensures ListOk(h, p, ks)
  {
  }

  lemma SplicedEnds(h: Heap, p: TiXmlNode, ks: seq<TiXmlNode>, i: nat, j: nat, mid: seq<TiXmlNode>, h': Heap)
    requires i <= j <= |ks| && |mid| <= 1 && p in h && ListOk(h, p, ks) && Spliced(h, p, ks, i, j, mid, h')
    ensures var ks' := Splice(ks, i, j, mid); p in h' && h'[p].first == At(ks', 0) && h'[p].last == Before(ks', |ks'|)
  {
    hide Splice, Turned, KidOk, Distinct;
    SpliceAt(ks, i, j, mid, 0);
    var n := |Splice(ks, i, j, mid)|;
    if 0 < n { SpliceAt(ks, i, j, mid, n - 1); }
  }

  /** Apart from the splice in the list of p, the pointers of the nodes left are as they were. */
  ghost predicate RestSame(h: Heap, p: TiXmlNode, ks: seq<TiXmlNode>, mid: seq<TiXmlNode>, h': Heap)
    requires h'.Keys <= h.Keys
  {
    && (forall q :: q in h' && q != p ==> h'[q].first == h[q].first && h'[q].last == h[q].last)
    && (forall c :: c in h' && c !in ks && c !in mid ==> SameLinks(h, h', c))
  }

  /**
    The one argument behind every operation: splicing the list of p, where the new node is a root and the members
    taken out go with d, turns a good forest into a good forest.
    */
  lemma Edited(h: Heap, f: Forest, p: TiXmlNode, i: nat, j: nat, mid: seq<TiXmlNode>, d: set<TiXmlNode>, h': Heap, f': Forest)
    requires Good(h, f) && p in f.lists && i <= j <= |f.lists[p]| && |mid| <= 1
    requires mid != [] ==> mid[0] in h && h[mid[0]].parent == null
    requires Droppable(f, p, Splice(f.lists[p], i, j, mid), d)
    requires f'.lists == (f.lists - d)[p := Splice(f.lists[p], i, j, mid)] && Closed(f') && h'.Keys == f'.lists.Keys
    requires h'.Keys <= h.Keys && Spliced(h, p, f.lists[p], i, j, mid, h') && RestSame(h, p, f.lists[p], mid, h')
    ensures Good(h', f')
  {
    EditedList(h, f, p, i, j, mid, h');
    hide *;
    Relisted(h, f, p, Splice(f.lists[p], i, j, mid), d, h', f');
  }

  lemma EditedList(h: Heap, f: Forest, p: TiXmlNode, i: nat, j: nat, mid: seq<TiXmlNode>, h': Heap)
    requires Good(h, f) && h.Keys == f.lists.Keys && p in f.lists && i <= j <= |f.lists[p]| && |mid| <= 1
    requires mid != [] ==> mid[0] in h && h[mid[0]].parent == null
    requires h'.Keys <= h.Keys && Spliced(h, p, f.lists[p], i, j, mid, h') && RestSame(h, p, f.lists[p], mid, h')
    ensures OnlyRelists(h, f, p, Splice(f.lists[p], i, j, mid), h')
  {
    hide *;
    var ks := f.lists[p];
    var ks' := Splice(ks, i, j, mid);
    KidsKnown(h, f, p);
    NewIsNoKid(h, f, p, mid);
    SplicedOk(h, p, ks, i, j, mid, h');
    forall c | c in ks' ensures c in h && (c in ks || h[c].parent == null) { SpliceMember(ks, i, j, mid, c); }
    forall c | c in h' && c !in ks && c !in ks' ensures SameLinks(h, h', c) {
      SpliceMid(ks, i, j, mid);
      RestSameAt(h, p, ks, mid, h', c);
    }
    forall q | q in h' && q != p ensures h'[q].first == h[q].first && h'[q].last == h[q].last {
      RestSameAt(h, p, ks, mid, h', q);
    }
    OnlyRelistsFrom(h, f, p, ks', h');
  }

  lemma NewIsNoKid(h: Heap, f: Forest, p: TiXmlNode, mid: seq<TiXmlNode>)
    requires Good(h, f) && p in f.lists && |mid| <= 1 && (mid != [] ==> mid[0] in h && h[mid[0]].parent == null)
    ensures mid != [] ==> mid[0] !in f.lists[p]
  {
    hide Closed, AllListsOk, AllListed;
    if mid != [] && mid[0] in f.lists[p] { ParentIs(h, f, p, mid[0]); }
  }

  lemma RestSameAt(h: Heap, p: TiXmlNode, ks: seq<TiXmlNode>, mid: seq<TiXmlNode>, h': Heap, c: TiXmlNode)
    requires h'.Keys <= h.Keys && RestSame(h, p, ks, mid, h') && c in h'
    ensures c in h && (c != p ==> h'[c].first == h[c].first && h'[c].last == h[c].last)
    ensures c !in ks && c !in mid ==> SameLinks(h, h', c)
  {
  }

  lemma OnlyRelistsFrom(h: Heap, f: Forest, p: TiXmlNode, ks: seq<TiXmlNode>, h': Heap)
    requires h.Keys == f.lists.Keys && p in f.lists && h'.Keys <= h.Keys && p in h' && ListOk(h', p, ks)
    requires forall c :: c in ks ==> c in h && (c in f.lists[p] || h[c].parent == null)
    requires forall q :: q in h' && q != p ==> h'[q].first == h[q].first && h'[q].last == h[q].last
    requires forall c :: c in h' && c !in f.lists[p] && c !in ks ==> SameLinks(h, h', c)
    ensures OnlyRelists(h, f, p, ks, h')
  {
  }

  lemma KidsKnown(h: Heap, f: Forest, p: TiXmlNode)
    requires Good(h, f) && p in f.lists
    ensures p in h && ListOk(h, p, f.lists[p]) && forall c :: c in f.lists[p] ==> c in h
  {
    assert ListBelow(f, p);
  }

  lemma SpliceMid(ks: seq<TiXmlNode>, i: nat, j: nat, mid: seq<TiXmlNode>)
    requires i <= j <= |ks|
    ensures forall c :: c in mid ==> c in Splice(ks, i, j, mid)
  {
  }

  lemma SpliceMember(ks: seq<TiXmlNode>, i: nat, j: nat, mid: seq<TiXmlNode>, c: TiXmlNode)
    requires i <= j <= |ks| && c in Splice(ks, i, j, mid)
    ensures c in ks || c in mid
  {
  }

  /**
    What an operation does to the pointers of any node c: b and a, the neighbours of the place, are linked to each
    other or to the new node mid, and p's ends follow.
    */
  ghost predicate RewiredAt(h: Heap, p: TiXmlNode, b: TiXmlNode?, a: TiXmlNode?, mid: TiXmlNode?, h': Heap, c: TiXmlNode)
    requires c in h && c in h'
  {
    var ahead, behind := if mid == null then a else mid, if mid == null then b else mid;
    && h'[c].parent == (if c == mid then p else h[c].parent)
    && h'[c].next == (if c == mid then a else if c == b then ahead else h[c].next)
    && h'[c].prev == (if c == mid then b else if c == a then behind else h[c].prev)
    && h'[c].first == (if c == p && b == null then ahead else h[c].first)
    && h'[c].last == (if c == p && a == null then behind else h[c].last)
  }

  ghost predicate Rewired(h: Heap, p: TiXmlNode, b: TiXmlNode?, a: TiXmlNode?, mid: TiXmlNode?, h': Heap)
    requires h'.Keys <= h.Keys
  {
    forall c :: c in h' ==> RewiredAt(h, p, b, a, mid, h', c)
  }

  /** The new node's old parent pointer does not matter. */
  lemma RewiredAnyParent(h: Heap, p: TiXmlNode, b: TiXmlNode?, a: TiXmlNode?, mid: TiXmlNode, h': Heap)
    requires h'.Keys <= h.Keys && mid in h && Rewired(h, p, b, a, mid, h')
    ensures Rewired(WithParent(h, mid, null), p, b, a, mid, h')
  {
    forall c | c in h' ensures RewiredAt(WithParent(h, mid, null), p, b, a, mid, h', c) {
      assert RewiredAt(h, p, b, a, mid, h', c);
    }
  }

  function Optional(n: TiXmlNode?): seq<TiXmlNode> {
    if n == null then [] else [n]
  }

  lemma RewiredIsSpliced(h: Heap, f: Forest, p: TiXmlNode, i: nat, j: nat, mid: TiXmlNode?, h': Heap)
    requires Good(h, f) && p in f.lists && i <= j <= |f.lists[p]| && h'.Keys <= h.Keys && p in h'
    requires mid != null ==> mid in h && mid in h' && h[mid].parent == null
    requires forall k :: 0 <= k < |f.lists[p]| && !(i <= k < j) ==> f.lists[p][k] in h'
    requires Rewired(h, p, Before(f.lists[p], i), At(f.lists[p], j), mid, h')
    ensures Spliced(h, p, f.lists[p], i, j, Optional(mid), h') && RestSame(h, p, f.lists[p], Optional(mid), h')
  {
    hide *;
    var ks := f.lists[p];
    var b, a := Before(ks, i), At(ks, j);
    GoodKeys(h, f);
    NeighboursAre(ks, i, j);
    OptionalIs(mid);
    NewIsNoKid(h, f, p, Optional(mid));
    KidsKnown(h, f, p);
    forall c | c in h' ensures RewiredAt(h, p, b, a, mid, h', c) { RewiredUse(h, p, b, a, mid, h', c); }
    forall c | c in ks && c in h' ensures c in h && c != mid {}
    SplicedFrom(h, p, ks, i, j, mid, h');
    RestSameFrom(h, p, ks, i, j, mid, h');
  }

  lemma RewiredUse(h: Heap, p: TiXmlNode, b: TiXmlNode?, a: TiXmlNode?, mid: TiXmlNode?, h': Heap, c: TiXmlNode)
    requires h'.Keys <= h.Keys && Rewired(h, p, b, a, mid, h') && c in h'
    ensures RewiredAt(h, p, b, a, mid, h', c)
  {
  }

  lemma NeighboursAre(ks: seq<TiXmlNode>, i: nat, j: nat)
    requires i <= j <= |ks|
    ensures Before(ks, i) == null || Before(ks, i) in ks
    ensures At(ks, j) == null || At(ks, j) in ks
  {
  }

  lemma SplicedFrom(h: Heap, p: TiXmlNode, ks: seq<TiXmlNode>, i: nat, j: nat, mid: TiXmlNode?, h': Heap)
    requires i <= j <= |ks| && p in h' && h'.Keys <= h.Keys && (mid != null ==> mid in h')
    requires forall c :: c in h' ==> RewiredAt(h, p, Before(ks, i), At(ks, j), mid, h', c)
    requires forall k :: 0 <= k < |ks| && !(i <= k < j) ==> ks[k] in h' && ks[k] != mid
    ensures Spliced(h, p, ks, i, j, Optional(mid), h')
  {
  }

  lemma RestSameFrom(h: Heap, p: TiXmlNode, ks: seq<TiXmlNode>, i: nat, j: nat, mid: TiXmlNode?, h': Heap)
    requires i <= j <= |ks| && h'.Keys <= h.Keys
    requires forall c :: c in h' ==> RewiredAt(h, p, Before(ks, i), At(ks, j), mid, h', c)
    ensures RestSame(h, p, ks, Optional(mid), h')
  {
    NeighboursAre(ks, i, j);
    hide Before, At, RewiredAt, SameLinks;
    forall q | q in h' && q != p ensures h'[q].first == h[q].first && h'[q].last == h[q].last {
      EndsStay(h, p, Before(ks, i), At(ks, j), mid, h', q);
    }
    forall c | c in h' && c !in ks && c !in Optional(mid) ensures SameLinks(h, h', c) {
      LinksStay(h, p, Before(ks, i), At(ks, j), mid, h', c);
    }
  }

  lemma EndsStay(h: Heap, p: TiXmlNode, b: TiXmlNode?, a: TiXmlNode?, mid: TiXmlNode?, h': Heap, q: TiXmlNode)
    requires q in h && q in h' && RewiredAt(h, p, b, a, mid, h', q) && q != p
    ensures h'[q].first == h[q].first && h'[q].last == h[q].last
  {
  }

  lemma LinksStay(h: Heap, p: TiXmlNode, b: TiXmlNode?, a: TiXmlNode?, mid: TiXmlNode?, h': Heap, c: TiXmlNode)
    requires c in h && c in h' && RewiredAt(h, p, b, a, mid, h', c) && c != b && c != a && c != mid
    ensures SameLinks(h, h', c)
  {
  }

  // ---- What is attached and what is dropped ----

  lemma DropFamily(h: Heap, f: Forest, p: TiXmlNode, ks: seq<TiXmlNode>, n: TiXmlNode)
    requires Good(h, f) && p in f.lists && n in f.lists && p !in Family(f, n)
    requires forall c :: c in f.lists[p] && c !in ks ==> c == n
    ensures Droppable(f, p, ks, Family(f, n))
  {
    hide Family, AllListsOk, AllListed, ListBelow;
    var d := Family(f, n);
    forall q | q in f.lists && q in d ensures ListWithin(f, q, d) {
      forall c | c in f.lists[q] ensures c in d { FamilyIsClosed(f, n, q, c); }
    }
  }

  lemma DropNothing(f: Forest, p: TiXmlNode, ks: seq<TiXmlNode>)
    requires p in f.lists && forall c :: c in f.lists[p] ==> c in ks
    ensures Droppable(f, p, ks, {})
  {
  }

  lemma MinusClosed(f: Forest, d: set<TiXmlNode>)
    requires Closed(f) && forall q, c :: q in f.lists && q !in d && c in f.lists[q] ==> c !in d
    ensures Closed(Minus(f, d))
  {
    var g := Minus(f, d);
    hide ListBelow;
    forall q | q in g.lists ensures ListBelow(g, q) {
      forall c | c in g.lists[q] ensures c in g.lists && g.rank[c] < g.rank[q] { Below(f, q, c); }
      IsBelow(g, q);
    }
  }

  lemma IsBelow(f: Forest, q: TiXmlNode)
    requires f.lists.Keys == f.rank.Keys && q in f.lists && forall c :: c in f.lists[q] ==> c in f.lists && f.rank[c] < f.rank[q]
    ensures ListBelow(f, q)
  {
  }

  /** g has all of f, unchanged. */
  ghost predicate Extends(f: Forest, g: Forest) {
    && f.lists.Keys <= g.lists.Keys && f.rank.Keys <= g.rank.Keys
    && (forall q :: q in f.lists ==> g.lists[q] == f.lists[q])
    && (forall q :: q in f.rank ==> g.rank[q] == f.rank[q])
  }

  /** f with a new node that has no parent and no children. */
  ghost function WithRoot(f: Forest, c: TiXmlNode, rank: nat): Forest {
    Forest(f.lists[c := []], f.rank[c := rank])
  }

  lemma RootAdded(h: Heap, f: Forest, c: TiXmlNode, rank: nat)
    requires Good(h, f) && c !in f.lists
    ensures Good(h[c := Links(null, null, null, null, null)], WithRoot(f, c, rank))
  {
    var g := WithRoot(f, c, rank);
    var h' := h[c := Links(null, null, null, null, null)];
    hide ListBelow, ListOk, Listed;
    forall q | q in g.lists ensures ListBelow(g, q) && ListOk(h', q, g.lists[q]) && Listed(h', g, q) {
      RootAddedAt(h, f, c, rank, q);
    }
  }

  /** Without nodes there is nothing to be wrong. */
  lemma EmptyIsOk()
    ensures Ok(Forest(map[], map[]))
  {
  }

  lemma RootAddedAt(h: Heap, f: Forest, c: TiXmlNode, rank: nat, q: TiXmlNode)
    requires Good(h, f) && c !in f.lists && (q == c || q in f.lists)
    ensures var g, h' := WithRoot(f, c, rank), h[c := Links(null, null, null, null, null)];
      g.lists.Keys == g.rank.Keys && q in g.lists && q in h' && ListBelow(g, q) && ListOk(h', q, g.lists[q]) && Listed(h', g, q)
  {
    if q != c { OldKept(h, f, c, rank, q); } else { SameKeys(f); }
  }

  lemma OldKept(h: Heap, f: Forest, c: TiXmlNode, rank: nat, q: TiXmlNode)
    requires Good(h, f) && c !in f.lists && q in f.lists
    ensures var g, h' := WithRoot(f, c, rank), h[c := Links(null, null, null, null, null)];
      g.lists.Keys == g.rank.Keys && q in g.lists && q in h' && ListBelow(g, q) && ListOk(h', q, g.lists[q]) && Listed(h', g, q)
  {
    hide Closed, AllListed, AllListsOk, ListOk, ListBelow;
    var g, h' := WithRoot(f, c, rank), h[c := Links(null, null, null, null, null)];
    SameKeys(f);
    IsListed(h, f, q);
    KidsKnown(h, f, q);
    forall x | x in g.lists[q] ensures x in g.lists && g.rank[x] < g.rank[q] { Below(f, q, x); }
    IsBelow(g, q);
    ListFramed(h, q, f.lists[q], h');
  }

  lemma IsListed(h: Heap, f: Forest, q: TiXmlNode)
    requires Good(h, f) && q in f.lists
    ensures Listed(h, f, q)
  {
  }

  lemma ListFramed(h: Heap, p: TiXmlNode, ks: seq<TiXmlNode>, h': Heap)
    requires p in h && ListOk(h, p, ks) && p in h' && h'[p].first == h[p].first && h'[p].last == h[p].last
    requires forall c :: c in ks ==> c in h && c in h' && SameLinks(h, h', c)
    ensures ListOk(h', p, ks)
  {
    hide Distinct;
    forall i | 0 <= i < |ks| ensures ks[i] in h' && KidOk(h', p, ks, i) {
      assert KidOk(h, p, ks, i);
      assert SameLinks(h, h', ks[i]);
    }
  }

  /** A subtree depends only on the lists of its own nodes. */
  lemma {:induction false} SubtreeKept(f: Forest, g: Forest, n: TiXmlNode)
    requires Closed(f) && Closed(g) && n in f.lists
    requires forall q :: q in Family(f, n) ==> q in f.lists && q in g.lists && g.lists[q] == f.lists[q]
    ensures n in g.lists && Family(g, n) == Family(f, n) && TreeOf(g, n) == TreeOf(f, n)
    decreases f.rank[n]
  {
    hide Closed, Family;
    assert n in Family(f, n);
    forall c | c in f.lists[n]
      ensures c in f.lists && c in g.lists && Family(g, c) == Family(f, c) && TreeOf(g, c) == TreeOf(f, c)
    {
      Below(f, n, c);
      forall q | q in Family(f, c) ensures q in Family(f, n) { FamilyUp(f, n, c, q); }
      SubtreeKept(f, g, c);
    }
    forall x ensures x in Family(f, n) <==> x in Family(g, n) {
      if x in Family(f, n) && x != n {
        var c := FamilyDown(f, n, x);
        FamilyUp(g, n, c, x);
      }
      if x in Family(g, n) && x != n {
        var c := FamilyDown(g, n, x);
        Below(f, n, c);
        FamilyUp(f, n, c, x);
      }
    }
  }

  /** So changing the list of p changes nothing below a node that is not above p. */
  lemma BelowKept(f: Forest, p: TiXmlNode, g: Forest, n: TiXmlNode)
    requires Closed(f) && Closed(g) && n in f.lists && p !in Family(f, n)
    requires forall q :: q in f.lists && q != p ==> q in g.lists && g.lists[q] == f.lists[q]
    ensures n in g.lists && Family(g, n) == Family(f, n) && TreeOf(g, n) == TreeOf(f, n)
  {
    hide Closed, Family, TreeOf;
    SubtreeKept(f, g, n);
  }

  lemma GoodKeys(h: Heap, f: Forest)
    requires Good(h, f)
    ensures Closed(f) && h.Keys == f.lists.Keys == f.rank.Keys
  {
  }

  lemma AttachLists(f: Forest, p: TiXmlNode, ks: seq<TiXmlNode>, node: TiXmlNode)
    requires Closed(f) && p in f.lists && node in f.lists
    ensures Attach(f, p, ks, node).lists == f.lists[p := ks] == (f.lists - {})[p := ks]
  {
  }

  lemma AttachOk(h: Heap, f: Forest, p: TiXmlNode, ks: seq<TiXmlNode>, node: TiXmlNode)
    requires Good(h, f) && p in f.lists && node in f.lists && p !in Family(f, node) && node in h && h[node].parent == null
    requires forall c :: c in ks ==> c == node || c in f.lists[p]
    ensures CanAttach(h, f, p, ks, node)
  {
  }

  lemma OptionalIs(n: TiXmlNode?)
    ensures |Optional(n)| <= 1 && (Optional(n) == [] <==> n == null) && (n != null ==> Optional(n) == [n])
  {
  }

  lemma SpliceEnd(ks: seq<TiXmlNode>, mid: seq<TiXmlNode>)
    ensures Splice(ks, |ks|, |ks|, mid) == ks + mid
  {
  }

  lemma EndsOf(h: Heap, f: Forest, p: TiXmlNode)
    requires Good(h, f) && p in f.lists
    ensures p in h && h[p].first == At(f.lists[p], 0) && h[p].last == Before(f.lists[p], |f.lists[p]|)
  {
    hide Closed, AllListed, Distinct;
    assert ListOk(h, p, f.lists[p]);
  }

  lemma SpliceKeeps(ks: seq<TiXmlNode>, i: nat, j: nat, mid: seq<TiXmlNode>, k: nat)
    requires i <= j <= |ks| && k < |ks| && !(i <= k < j)
    ensures ks[k] in Splice(ks, i, j, mid)
  {
    SpliceAt(ks, i, j, mid, if k < i then k else k - j + i + |mid|);
  }

  /** What linking a root into the list of p comes to. */
  lemma Linked(h: Heap, f: Forest, p: TiXmlNode, i: nat, node: TiXmlNode, h': Heap)
    requires Good(h, f) && p in f.lists && node in f.lists && p !in Family(f, node) && node in h && h[node].parent == null
    requires i <= |f.lists[p]| && h'.Keys == h.Keys && Rewired(h, p, Before(f.lists[p], i), At(f.lists[p], i), node, h')
    ensures Good(h', Attach(f, p, Splice(f.lists[p], i, i, [node]), node))
  {
    hide *;
    GoodKeys(h, f);
    var ks := f.lists[p];
    var ks' := Splice(ks, i, i, [node]);
    var g := Attach(f, p, ks', node);
    KidsKnown(h, f, p);
    RewiredIsSpliced(h, f, p, i, i, node, h');
    OptionalIs(node);
    AttachLists(f, p, ks', node);
    forall c | c in ks' ensures c == node || c in ks { SpliceMember(ks, i, i, [node], c); }
    AttachOk(h, f, p, ks', node);
    AttachClosed(h, f, p, ks', node);
    forall k | 0 <= k < |ks| ensures ks[k] in ks' { SpliceKeeps(ks, i, i, [node], k); }
    DropNothing(f, p, ks');
    Edited(h, f, p, i, i, Optional(node), {}, h', g);
  }

  lemma SpliceDrops(ks: seq<TiXmlNode>, i: nat, mid: seq<TiXmlNode>, c: TiXmlNode)
    requires i < |ks| && Distinct(ks) && ks[i] !in mid && c in Splice(ks, i, i + 1, mid)
    ensures c != ks[i] && (c in ks || c in mid)
  {
  }

  /** The family of a child of p holds neither p nor any root. */
  lemma KidFamily(h: Heap, f: Forest, p: TiXmlNode, i: nat)
    requires Good(h, f) && p in f.lists && i < |f.lists[p]|
    ensures f.lists[p][i] in f.lists && h[f.lists[p][i]].parent == p
    ensures var d := Family(f, f.lists[p][i]); p !in d && forall n :: n in h && h[n].parent == null ==> n !in d
  {
    hide Closed, Family, AllListsOk, AllListed;
    var kid := f.lists[p][i];
    Below(f, p, kid);
    ParentIs(h, f, p, kid);
    if p in Family(f, kid) { FamilyRank(f, kid, p); }
    forall n | n in h && h[n].parent == null && n in Family(f, kid) ensures false {
      var q := FamilyParent(f, kid, n);
      ParentIs(h, f, q, n);
    }
  }

  /** What is left when child i of p goes, with all below it, has no link into what went. */
  lemma NoLinkBack(h: Heap, f: Forest, p: TiXmlNode, i: nat, mid: seq<TiXmlNode>, q: TiXmlNode, c: TiXmlNode)
    requires Good(h, f) && p in f.lists && i < |f.lists[p]| && f.lists[p][i] in f.lists
    requires |mid| <= 1 && (mid != [] ==> mid[0] in h && h[mid[0]].parent == null)
    requires q in f.lists && q !in Family(f, f.lists[p][i])
    requires c in if q == p then Splice(f.lists[p], i, i + 1, mid) else f.lists[q]
    ensures c !in Family(f, f.lists[p][i])
  {
    hide Closed, Family, AllListsOk, AllListed, Splice, ListOk;
    KidsKnown(h, f, p);
    KidFamily(h, f, p, i);
    var kid := f.lists[p][i];
    if q == p {
      NewIsNoKid(h, f, p, mid);
      DistinctOf(h, p, f.lists[p]);
      SpliceDrops(f.lists[p], i, mid, c);
    }
    if c in Family(f, kid) {
      OnlyThroughHead(h, f, kid, q, c);
      ParentIs(h, f, q, c);
    }
  }

  lemma DistinctOf(h: Heap, p: TiXmlNode, ks: seq<TiXmlNode>)
    requires p in h && ListOk(h, p, ks)
    ensures Distinct(ks)
  {
  }

  /** What taking child i out of the list of p comes to, with or without a root in its place. */
  lemma Exchanged(h: Heap, f: Forest, p: TiXmlNode, i: nat, mid: TiXmlNode?, base: Forest, h': Heap)
    requires Good(h, f) && p in f.lists && i < |f.lists[p]| && f.lists[p][i] in f.lists
    requires mid != null ==> mid in h && h[mid].parent == null
    requires Closed(base) && base.lists == f.lists[p := Splice(f.lists[p], i, i + 1, Optional(mid))]
    requires h'.Keys == h.Keys && Rewired(h, p, Before(f.lists[p], i), At(f.lists[p], i + 1), mid, h')
    ensures var d := Family(f, f.lists[p][i]); Good(h' - d, Minus(base, d))
  {
    hide *;
    GoodKeys(h, f);
    var ks := f.lists[p];
    var ks' := Splice(ks, i, i + 1, Optional(mid));
    var d := Family(f, ks[i]);
    OptionalIs(mid);
    KidFamily(h, f, p, i);
    KidsKnown(h, f, p);
    forall q, c | q in base.lists && q !in d && c in base.lists[q] ensures c !in d {
      NoLinkBack(h, f, p, i, Optional(mid), q, c);
    }
    MinusClosed(base, d);
    forall k | 0 <= k < |ks| && k != i ensures ks[k] in ks' { SpliceKeeps(ks, i, i + 1, Optional(mid), k); }
    DropFamily(h, f, p, ks', ks[i]);
    RewiredLess(h, p, Before(ks, i), At(ks, i + 1), mid, h', d);
    MinusLists(f, p, ks', base, d);
    forall k | 0 <= k < |ks| && k != i ensures ks[k] in h' - d { NoLinkBack(h, f, p, i, Optional(mid), p, ks[k]); }
    RewiredIsSpliced(h, f, p, i, i + 1, mid, h' - d);
    Edited(h, f, p, i, i + 1, Optional(mid), d, h' - d, Minus(base, d));
  }

  lemma RewiredLess(h: Heap, p: TiXmlNode, b: TiXmlNode?, a: TiXmlNode?, mid: TiXmlNode?, h': Heap, d: set<TiXmlNode>)
    requires h'.Keys == h.Keys && Rewired(h, p, b, a, mid, h')
    ensures (h' - d).Keys <= h.Keys && Rewired(h, p, b, a, mid, h' - d)
  {
    hide RewiredAt;
    forall c | c in h' - d ensures RewiredAt(h, p, b, a, mid, h' - d, c) { RewiredSame(h, p, b, a, mid, h', h' - d, c); }
  }

  lemma RewiredSame(h: Heap, p: TiXmlNode, b: TiXmlNode?, a: TiXmlNode?, mid: TiXmlNode?, h1: Heap, h2: Heap, c: TiXmlNode)
    requires c in h && c in h1 && c in h2 && h2[c] == h1[c] && RewiredAt(h, p, b, a, mid, h1, c)
    ensures RewiredAt(h, p, b, a, mid, h2, c)
  {
  }

  lemma MinusLists(f: Forest, p: TiXmlNode, ks: seq<TiXmlNode>, base: Forest, d: set<TiXmlNode>)
    requires p in f.lists && base.lists == f.lists[p := ks] && p !in d
    ensures Minus(base, d).lists == (f.lists - d)[p := ks]
    ensures Minus(base, d).lists.Keys == f.lists.Keys - d
  {
  }

  lemma NotInside(h: Heap, f: Forest, n: TiXmlNode, q: TiXmlNode, c: TiXmlNode)
    requires Good(h, f) && n in f.lists && n in h && h[n].parent == null
    requires q in f.lists && q !in Family(f, n) && c in f.lists[q]
    ensures c !in Family(f, n)
  {
    hide Family, Closed, AllListsOk, AllListed;
    if c in Family(f, n) {
      OnlyThroughHead(h, f, n, q, c);
      ParentIs(h, f, q, c);
    }
  }

  /** Deleting a root with all that is below it leaves a good forest. */
  lemma RootDropped(h: Heap, f: Forest, n: TiXmlNode)
    requires Good(h, f) && n in f.lists && n in h && h[n].parent == null
    ensures Good(h - Family(f, n), Minus(f, Family(f, n)))
  {
    hide Family, Closed, AllListsOk, AllListed, ListOk, Listed;
    var d := Family(f, n);
    var g := Minus(f, d);
    forall q, c | q in f.lists && q !in d && c in f.lists[q] ensures c !in d { NotInside(h, f, n, q, c); }
    MinusClosed(f, d);
    forall q | q in g.lists ensures ListOk(h - d, q, g.lists[q]) && Listed(h - d, g, q) { DroppedAt(h, f, n, q); }
    IsGood(h - d, g);
  }

  lemma IsGood(h: Heap, f: Forest)
    requires Closed(f) && h.Keys == f.lists.Keys
    requires forall q :: q in f.lists ==> ListOk(h, q, f.lists[q]) && Listed(h, f, q)
    ensures Good(h, f)
  {
  }

  lemma DroppedAt(h: Heap, f: Forest, n: TiXmlNode, q: TiXmlNode)
    requires Good(h, f) && n in f.lists && n in h && h[n].parent == null && q in f.lists && q !in Family(f, n)
    ensures var d := Family(f, n); q in h && ListOk(h - d, q, f.lists[q]) && Listed(h - d, Minus(f, d), q)
  {
    hide Family, Closed, AllListsOk, AllListed, ListOk;
    var d := Family(f, n);
    KidsKnown(h, f, q);
    forall c | c in f.lists[q] ensures c !in d { NotInside(h, f, n, q, c); }
    ListFramed(h, q, f.lists[q], h - d);
    IsListed(h, f, q);
    if h[q].parent != null && h[q].parent in d { FamilyIsClosed(f, n, h[q].parent, q); }
  }

  // ---- Deleting ----

  /** Nothing is wrong with the child lists from n down, whatever the links of n itself say. */
  ghost predicate FamilyOk(h: Heap, f: Forest, n: TiXmlNode) {
    Closed(f) && n in f.lists && forall x :: x in Family(f, n) ==> x in h && ListOk(h, x, f.lists[x])
  }

  lemma FamilyOkOf(h: Heap, f: Forest, n: TiXmlNode)
    requires Good(h, f) && n in f.lists
    ensures FamilyOk(h, f, n)
  {
    hide Family, ListOk, AllListed, ListBelow;
  }

  lemma FamilyOkAt(h: Heap, f: Forest, n: TiXmlNode, x: TiXmlNode)
    requires FamilyOk(h, f, n) && x in Family(f, n)
    ensures x in h && x in f.lists && ListOk(h, x, f.lists[x])
  {
    hide Closed, ListOk;
  }

  lemma FamilyOkKid(h: Heap, f: Forest, n: TiXmlNode, c: TiXmlNode)
    requires FamilyOk(h, f, n) && n in f.lists && c in f.lists[n]
    ensures FamilyOk(h, f, c)
  {
    Below(f, n, c);
    hide Closed, Family, ListOk;
    forall x | x in Family(f, c) ensures x in h && ListOk(h, x, f.lists[x]) { FamilyUp(f, n, c, x); }
  }

  /** The links of n itself may change. */
  lemma FamilyOkKept(h: Heap, f: Forest, n: TiXmlNode, h': Heap)
    requires FamilyOk(h, f, n) && n in f.lists
    requires forall x :: x in Family(f, n) ==> x in h && x in h' && h'[x].first == h[x].first && h'[x].last == h[x].last
    requires forall x :: x in Family(f, n) && x != n ==> x in h && x in h' && SameLinks(h, h', x)
    ensures FamilyOk(h', f, n)
  {
    hide Closed, Family, ListOk, SameLinks;
    forall x | x in Family(f, n) ensures x in h' && ListOk(h', x, f.lists[x]) {
      forall c | c in f.lists[x] ensures c in h && c in h' && SameLinks(h, h', c) {
        FamilyIsClosed(f, n, x, c);
        Below(f, x, c);
        FamilyRank(f, n, x);
      }
      ListFramed(h, x, f.lists[x], h');
    }
  }

  /** In a family a node has one parent. */
  lemma FamilyParentIs(h: Heap, f: Forest, n: TiXmlNode, q: TiXmlNode, c: TiXmlNode)
    requires FamilyOk(h, f, n) && q in Family(f, n) && q in f.lists && c in f.lists[q]
    ensures c in h && h[c].parent == q
  {
    FamilyOkAt(h, f, n, q);
    hide Closed, Family, FamilyOk;
    assert ListOk(h, q, f.lists[q]);
    MemberParent(h, q, f.lists[q], c) by { assert exists i :: 0 <= i < |f.lists[q]| && f.lists[q][i] == c; }
  }

  ghost predicate InFamily(f: Forest, n: TiXmlNode, x: TiXmlNode) {
    Closed(f) && n in f.lists && x in Family(f, n)
  }

  ghost predicate IsKid(f: Forest, n: TiXmlNode, c: TiXmlNode) {
    n in f.lists && c in f.lists[n]
  }

  ghost function RankOf(f: Forest, n: TiXmlNode): nat {
    if n in f.rank then f.rank[n] else 0
  }

  lemma IsIn(f: Forest, n: TiXmlNode, x: TiXmlNode)
    requires Closed(f) && n in f.lists
    ensures InFamily(f, n, x) <==> x in Family(f, n)
  {
    hide Closed, Family;
  }

  lemma InSelf(f: Forest, n: TiXmlNode)
    requires Closed(f) && n in f.lists
    ensures InFamily(f, n, n)
  {
    hide Closed;
  }

  /** A member of a family other than its head is the child of a member, which ranks higher. */
  lemma InParent(f: Forest, n: TiXmlNode, x: TiXmlNode) returns (q: TiXmlNode)
    requires InFamily(f, n, x) && x != n
    ensures InFamily(f, n, q) && IsKid(f, q, x) && RankOf(f, x) < RankOf(f, q) <= RankOf(f, n)
  {
    hide Closed, Family;
    q := FamilyParent(f, n, x);
    FamilyRank(f, n, q);
    Below(f, q, x);
  }

  lemma InUp(f: Forest, n: TiXmlNode, c: TiXmlNode, x: TiXmlNode)
    requires IsKid(f, n, c) && InFamily(f, c, x)
    ensures InFamily(f, n, x)
  {
    hide Closed, Family;
    FamilyUp(f, n, c, x);
  }

  lemma KidRank(f: Forest, n: TiXmlNode, c: TiXmlNode)
    requires Closed(f) && IsKid(f, n, c)
    ensures c in f.lists && RankOf(f, c) < RankOf(f, n)
  {
    Below(f, n, c);
  }

  lemma OneParent(h: Heap, f: Forest, n: TiXmlNode, q: TiXmlNode, q': TiXmlNode, c: TiXmlNode)
    requires FamilyOk(h, f, n) && InFamily(f, n, q) && InFamily(f, n, q') && IsKid(f, q, c) && IsKid(f, q', c)
    ensures q == q'
  {
    hide Closed, Family, FamilyOk;
    FamilyParentIs(h, f, n, q, c);
    FamilyParentIs(h, f, n, q', c);
  }

  lemma FamilyClosed(h: Heap, f: Forest, n: TiXmlNode)
    requires FamilyOk(h, f, n)
    ensures Closed(f) && n in f.lists
  {
    hide Closed;
  }

  /** Climbing from a node below two children of n would reach n from both. */
  lemma {:induction false} SiblingsApart(h: Heap, f: Forest, n: TiXmlNode, a: TiXmlNode, b: TiXmlNode, x: TiXmlNode)
    requires FamilyOk(h, f, n) && IsKid(f, n, a) && IsKid(f, n, b) && a != b && InFamily(f, a, x)
    ensures !InFamily(f, b, x)
    decreases RankOf(f, n) - RankOf(f, x)
  {
    hide *;
    FamilyClosed(h, f, n);
    KidRank(f, n, a);
    if InFamily(f, b, x) {
      if x == a {
        HeadApart(h, f, n, a, b);
      } else if x == b {
        HeadApart(h, f, n, b, a);
      } else {
        var q := InParent(f, a, x);
        var q' := InParent(f, b, x);
        InUp(f, n, a, q);
        InUp(f, n, b, q');
        OneParent(h, f, n, q, q', x);
        SiblingsApart(h, f, n, a, b, q);
      }
    }
  }

  lemma HeadApart(h: Heap, f: Forest, n: TiXmlNode, a: TiXmlNode, b: TiXmlNode)
    requires FamilyOk(h, f, n) && IsKid(f, n, a) && IsKid(f, n, b) && a != b
    ensures !InFamily(f, b, a)
  {
    hide *;
    if InFamily(f, b, a) {
      FamilyClosed(h, f, n);
      var q := InParent(f, b, a);
      InUp(f, n, b, q);
      InSelf(f, n);
      OneParent(h, f, n, q, n, a);
      KidRank(f, n, b);
    }
  }

  lemma SelfIn(f: Forest, n: TiXmlNode)
    requires Closed(f) && n in f.lists
    ensures n in Family(f, n)
  {
    hide Closed;
  }

  /** Everything from the nodes of ks down. */
  ghost function Families(f: Forest, ks: seq<TiXmlNode>): set<TiXmlNode>
    requires Closed(f) && forall k :: k in ks ==> k in f.lists
  {
    set k, x | k in ks && x in Family(f, k) :: x
  }

  lemma KidsListed(f: Forest, n: TiXmlNode)
    requires Closed(f) && n in f.lists
    ensures n in f.rank && forall k :: k in f.lists[n] ==> k in f.lists && k in f.rank && f.rank[k] < f.rank[n]
  {
    SameKeys(f);
    hide Closed;
    forall k | k in f.lists[n] ensures k in f.lists && k in f.rank && f.rank[k] < f.rank[n] { Below(f, n, k); }
  }

  /** A family is its head and the families of the children; the head is in none of these. */
  lemma FamilyIs(f: Forest, n: TiXmlNode)
    requires Closed(f) && n in f.lists && forall k :: k in f.lists[n] ==> k in f.lists
    ensures Family(f, n) == {n} + Families(f, f.lists[n]) && n !in Families(f, f.lists[n])
  {
    hide Closed, Family;
    forall x ensures x in Family(f, n) <==> x == n || x in Families(f, f.lists[n]) {
      SelfIn(f, n);
      if x in Family(f, n) && x != n { var c := FamilyDown(f, n, x); }
      if k :| k in f.lists[n] && x in Family(f, k) { FamilyUp(f, n, k, x); }
    }
    forall k | k in f.lists[n] ensures n !in Family(f, k) {
      Below(f, n, k);
      if n in Family(f, k) { FamilyRank(f, k, n); }
    }
  }

  /** The next child: what the walk has freed so far does not reach into its family. */
  lemma NextFamily(h: Heap, f: Forest, n: TiXmlNode, i: nat)
    requires Closed(f) && n in f.lists && i < |f.lists[n]| && forall k :: k in f.lists[n] ==> k in f.lists
    requires FamilyOk(h, f, n)
    ensures var ks := f.lists[n];
      && (forall k :: k in ks[..i + 1] ==> k in ks) && (forall k :: k in ks[..i] ==> k in ks)
      && Families(f, ks[..i + 1]) == Families(f, ks[..i]) + Family(f, ks[i])
      && Families(f, ks[..i]) !! Family(f, ks[i]) && Family(f, ks[i]) <= Family(f, n)
  {
    hide *;
    var ks := f.lists[n];
    assert ks[..i + 1] == ks[..i] + [ks[i]];
    FamiliesJoin(f, ks[..i], ks[i]);
    forall x | x in Family(f, ks[i]) ensures x in Family(f, n) { FamilyUp(f, n, ks[i], x); }
    forall x | x in Families(f, ks[..i]) ensures x !in Family(f, ks[i]) { FreedApart(h, f, n, i, x); }
  }

  lemma FreedApart(h: Heap, f: Forest, n: TiXmlNode, i: nat, x: TiXmlNode)
    requires Closed(f) && n in f.lists && i < |f.lists[n]| && forall k :: k in f.lists[n] ==> k in f.lists
    requires FamilyOk(h, f, n) && x in Families(f, f.lists[n][..i])
    ensures x !in Family(f, f.lists[n][i])
  {
    hide *;
    var ks := f.lists[n];
    DistinctKids(h, f, n);
    var k := FamilyAmong(f, ks[..i], x);
    var j :| 0 <= j < i && ks[..i][j] == k;
    Apart(ks, j, i);
    AreKids(f, n, k, ks[i]);
    IsIn(f, k, x);
    IsIn(f, ks[i], x);
    SiblingsApart(h, f, n, k, ks[i], x);
  }

  lemma AreKids(f: Forest, n: TiXmlNode, a: TiXmlNode, b: TiXmlNode)
    requires n in f.lists && a in f.lists[n] && b in f.lists[n]
    ensures IsKid(f, n, a) && IsKid(f, n, b)
  {
  }

  lemma DistinctKids(h: Heap, f: Forest, n: TiXmlNode)
    requires FamilyOk(h, f, n) && n in f.lists
    ensures Distinct(f.lists[n])
  {
    FamilyClosed(h, f, n);
    SelfIn(f, n);
    FamilyOkAt(h, f, n, n);
    hide Closed, Family, FamilyOk, KidOk;
  }

  lemma FamilyAmong(f: Forest, ks: seq<TiXmlNode>, x: TiXmlNode) returns (k: TiXmlNode)
    requires Closed(f) && (forall k :: k in ks ==> k in f.lists) && x in Families(f, ks)
    ensures k in ks && x in Family(f, k)
  {
    hide Closed, Family;
    k :| k in ks && x in Family(f, k);
  }

  lemma FamiliesJoin(f: Forest, ks: seq<TiXmlNode>, c: TiXmlNode)
    requires Closed(f) && (forall k :: k in ks ==> k in f.lists) && c in f.lists
    ensures (forall k :: k in ks + [c] ==> k in f.lists) && Families(f, ks + [c]) == Families(f, ks) + Family(f, c)
  {
    hide Closed, Family;
  }

  lemma NoFamilies(f: Forest)
    requires Closed(f)
    ensures Families(f, []) == {}
  {
  }

  /** What a walk from n reads: its first child, and the links from sibling to sibling. */
  lemma WalkReads(h: Heap, f: Forest, n: TiXmlNode)
    requires FamilyOk(h, f, n) && n in f.lists
    ensures n in h && h[n].first == At(f.lists[n], 0)
    ensures forall i :: 0 <= i < |f.lists[n]| ==> f.lists[n][i] in h && h[f.lists[n][i]].next == At(f.lists[n], i + 1)
  {
    assert Closed(f);
    SelfIn(f, n);
    FamilyOkAt(h, f, n, n);
    hide Closed, Family, FamilyOk, Distinct;
    var ks := f.lists[n];
    forall i | 0 <= i < |ks| ensures ks[i] in h && h[ks[i]].next == At(ks, i + 1) { assert KidOk(h, n, ks, i); }
  }

  /** A node whose parent pointer is beside the point can be deleted. */
  lemma RootDeletable(h: Heap, f: Forest, n: TiXmlNode, now: Heap)
    requires Good(h, f) && n in f.lists && n in now && h == WithParent(now, n, null)
    ensures FamilyOk(now, f, n)
  {
    GoodKeys(h, f);
    FamilyOkOf(h, f, n);
    hide Good, Closed, Family, FamilyOk;
    FamilyOkKept(h, f, n, now);
  }

  lemma RewiredAway(h: Heap, p: TiXmlNode, b: TiXmlNode?, a: TiXmlNode?, mid: TiXmlNode?, h': Heap, c: TiXmlNode)
    requires h'.Keys <= h.Keys && Rewired(h, p, b, a, mid, h') && c in h' && c != p && c != b && c != a && c != mid
    ensures h'[c] == h[c]
  {
    assert RewiredAt(h, p, b, a, mid, h', c);
  }

  lemma MinusKeys(f: Forest, d: set<TiXmlNode>)
    ensures Minus(f, d).lists.Keys == f.lists.Keys - d
  {
  }

  /** The end of a list to which a root, whatever its parent pointer says, is to be linked. */
  lemma EndsUnlinked(now: Heap, f: Forest, p: TiXmlNode, node: TiXmlNode)
    requires node in now && p in f.lists && p in now && node != p && Good(WithParent(now, node, null), f)
    ensures now[p].first == At(f.lists[p], 0) && now[p].last == Before(f.lists[p], |f.lists[p]|)
    ensures At(f.lists[p], |f.lists[p]|) == null
    ensures now[p].last == null || now[p].last in f.lists[p]
    ensures node !in f.lists[p] && forall c :: c in f.lists[p] ==> c in f.lists
  {
    var h := WithParent(now, node, null);
    var ks := f.lists[p];
    WithParentIs(now, node, null);
    assert h[node].parent == null;
    hide Good, WithParent;
    GoodKeys(h, f);
    KidsKnown(h, f, p);
    EndsOf(h, f, p);
    NeighboursAre(ks, |ks|, |ks|);
    NewIsNoKid(h, f, p, [node]);
  }

  /** A child, its neighbours and a root to take its place are different nodes. */
  lemma SwapIs(h: Heap, f: Forest, p: TiXmlNode, i: nat, node: TiXmlNode)
    requires Good(h, f) && p in f.lists && i < |f.lists[p]| && node in h && h[node].parent == null
    ensures var ks := f.lists[p]; var c := ks[i];
      && c in h && c in f.lists && node != c && node != Before(ks, i) && node != At(ks, i + 1)
      && h[c].prev == Before(ks, i) && h[c].next == At(ks, i + 1) && h[c].prev != c && h[c].next != c
      && (Before(ks, i) == null || Before(ks, i) in ks) && (At(ks, i + 1) == null || At(ks, i + 1) in ks)
  {
    GoodKeys(h, f);
    var ks := f.lists[p];
    var c := ks[i];
    KidsKnown(h, f, p);
    ParentIs(h, f, p, c);
    NeighboursAre(ks, i, i + 1);
    NewIsNoKid(h, f, p, [node]);
    KidIs(h, p, ks, i);
    DistinctOf(h, p, ks);
    hide Good, Closed, ListOk, Distinct;
    if 0 < i { Apart(ks, i - 1, i); }
    if i + 1 < |ks| { Apart(ks, i + 1, i); }
  }

  lemma WithParentIs(h: Heap, n: TiXmlNode, p: TiXmlNode?)
    requires n in h
    ensures WithParent(h, n, p).Keys == h.Keys && WithParent(h, n, p)[n].parent == p
    ensures forall c :: c in h && c != n ==> WithParent(h, n, p)[c] == h[c]
  {
  }

  lemma OldFamilyOf(f: Forest, src: TiXmlNode, f1: Forest, r: TiXmlNode, n: TiXmlNode)
    requires Cloned(f, src, f1, r) && n in f.lists
    ensures Closed(f1) && n in f1.lists && n in f1.rank && Closed(f) && Family(f1, n) == Family(f, n)
  {
    SameKeys(f1);
    hide Closed, Family, TreeOf;
    OldFamily(f, f1, n);
  }

  /** A child that has been unlinked from its siblings can be deleted: nothing below it was touched. */
  lemma KidDeletable(h: Heap, f: Forest, p: TiXmlNode, i: nat, mid: TiXmlNode?, h': Heap, now: Heap)
    requires Good(h, f) && p in f.lists && i < |f.lists[p]| && f.lists[p][i] in f.lists
    requires mid != null ==> mid in h && h[mid].parent == null
    requires h'.Keys == h.Keys && Rewired(h, p, Before(f.lists[p], i), At(f.lists[p], i + 1), mid, h')
    requires now.Keys == h.Keys && forall c :: c in now && c != mid ==> now[c] == h'[c]
    ensures FamilyOk(now, f, f.lists[p][i])
  {
    GoodKeys(h, f);
    KidFamily(h, f, p, i);
    FamilyOkOf(h, f, p);
    FamilyOkOf(h, f, f.lists[p][i]);
    KidsListed(f, p);
    KidsKnown(h, f, p);
    DistinctOf(h, p, f.lists[p]);
    hide *;
    var ks := f.lists[p];
    AtIs(ks, i + 1);
    if 0 < i {
      Apart(ks, i - 1, i);
      NoNeighbour(h, f, p, ks[i - 1], ks[i]);
    }
    if i + 1 < |ks| {
      Apart(ks, i + 1, i);
      NoNeighbour(h, f, p, ks[i + 1], ks[i]);
    }
    BeforeIs(ks, i);
    forall x | x in Family(f, ks[i]) ensures x in h && x in now && now[x] == h[x] {
      assert x != p && x != mid;
      RewiredAway(h, p, Before(ks, i), At(ks, i + 1), mid, h', x);
    }
    AllSame(h, now, Family(f, ks[i]));
    FamilyOkKept(h, f, ks[i], now);
  }

  lemma NoNeighbour(h: Heap, f: Forest, p: TiXmlNode, a: TiXmlNode, b: TiXmlNode)
    requires Closed(f) && p in f.lists && a in f.lists[p] && b in f.lists[p] && b in f.lists && a != b && FamilyOk(h, f, p)
    ensures a !in Family(f, b)
  {
    AreKids(f, p, a, b);
    IsIn(f, b, a);
    hide *;
    HeadApart(h, f, p, a, b);
  }

  lemma AllSame(h: Heap, h': Heap, d: set<TiXmlNode>)
    requires forall x :: x in d ==> x in h && x in h' && h'[x] == h[x]
    ensures forall x :: x in d ==> SameLinks(h, h', x)
  {
  }

  /** Emptying a list, with everything below. */
  lemma Emptied(h: Heap, f: Forest, p: TiXmlNode)
    requires Good(h, f) && Closed(f) && p in f.lists && p in h
    ensures var d := Family(f, p) - {p};
      Good(h[p := h[p].(first := null, last := null)] - d, Minus(Forest(f.lists[p := []], f.rank), d))
  {
    hide *;
    GoodKeys(h, f);
    var d := Family(f, p) - {p};
    var base := Forest(f.lists[p := []], f.rank);
    var h' := h[p := h[p].(first := null, last := null)];
    EmptiedBase(f, p);
    forall q, c | q in base.lists && q !in d && c in base.lists[q] ensures c !in d {
      if q != p && c in Family(f, p) {
        OnlyThroughHead(h, f, p, q, c);
      }
    }
    MinusClosed(base, d);
    EmptiedDrops(f, p, d);
    MinusLists(f, p, [], base, d);
    EmptiedRelists(h, f, p, h' - d, d);
    Relisted(h, f, p, [], d, h' - d, Minus(base, d));
  }

  lemma EmptiedBase(f: Forest, p: TiXmlNode)
    requires Closed(f) && p in f.lists
    ensures Closed(Forest(f.lists[p := []], f.rank))
  {
    var base := Forest(f.lists[p := []], f.rank);
    forall q | q in base.lists ensures ListBelow(base, q) { assert ListBelow(f, q); }
  }

  lemma EmptiedDrops(f: Forest, p: TiXmlNode, d: set<TiXmlNode>)
    requires Closed(f) && p in f.lists && d == Family(f, p) - {p}
    ensures Droppable(f, p, [], d)
  {
    hide *;
    forall c | c in f.lists[p] ensures c in d { EmptiedKid(f, p, d, c); }
    forall q | q in f.lists && q in d ensures ListWithin(f, q, d) { EmptiedWithin(f, p, d, q); }
    AllDropped(f, p, d);
  }

  lemma AllDropped(f: Forest, p: TiXmlNode, d: set<TiXmlNode>)
    requires p in f.lists && p !in d && (forall c :: c in f.lists[p] ==> c in d)
    requires forall q :: q in f.lists && q in d ==> ListWithin(f, q, d)
    ensures Droppable(f, p, [], d)
  {
    hide ListWithin;
  }

  lemma EmptiedKid(f: Forest, p: TiXmlNode, d: set<TiXmlNode>, c: TiXmlNode)
    requires Closed(f) && p in f.lists && d == Family(f, p) - {p} && c in f.lists[p]
    ensures c in d
  {
    hide Closed, Family;
    Below(f, p, c);
    SelfIn(f, c);
    FamilyUp(f, p, c, c);
  }

  lemma EmptiedWithin(f: Forest, p: TiXmlNode, d: set<TiXmlNode>, q: TiXmlNode)
    requires Closed(f) && p in f.lists && d == Family(f, p) - {p} && q in f.lists && q in d
    ensures ListWithin(f, q, d)
  {
    hide Closed, Family;
    forall c | c in f.lists[q] ensures c in d {
      FamilyIsClosed(f, p, q, c);
      FamilyRank(f, p, q);
      Below(f, q, c);
    }
  }

  lemma EmptiedRelists(h: Heap, f: Forest, p: TiXmlNode, h': Heap, d: set<TiXmlNode>)
    requires h.Keys == f.lists.Keys && p in f.lists && p in h && p !in d
    requires h' == h[p := h[p].(first := null, last := null)] - d
    ensures h'.Keys <= h.Keys && OnlyRelists(h, f, p, [], h')
  {
  }

  // ---- Copies ----

  /** The copy that `Clone` makes: the data go through C strings, a leaf loses its children, and a document among the
      children is not linked. */
  ghost function Copied(t: Tree): Tree {
    Tree(CopiedData(t.data), if t.data.Leaf? then [] else CopiedAll(t.kids))
  }

  ghost function CopiedAll(ts: seq<Tree>): seq<Tree> {
    if ts == [] then [] else
      var t := ts[|ts| - 1];
      CopiedAll(ts[..|ts| - 1]) + if t.data.Document? then [] else [Copied(t)]
  }

  /** No NUL in a value or an attribute, no attribute twice and none but the first empty, no leaf with children, and
      no document as a child. */
  ghost predicate Copyable(t: Tree) {
    && CopyableData(t.data)
    && (t.data.Leaf? ==> t.kids == [])
    && forall k :: k in t.kids ==> !k.data.Document? && Copyable(k)
  }

  ghost predicate SameCopy(k: Tree) {
    !k.data.Document? && Copied(k) == k
  }

  ghost predicate AllSameCopy(ts: seq<Tree>) {
    forall k :: k in ts ==> SameCopy(k)
  }

  lemma AllSameLast(ts: seq<Tree>)
    requires ts != []
    ensures AllSameCopy(ts) <==> AllSameCopy(ts[..|ts| - 1]) && SameCopy(ts[|ts| - 1])
  {
    hide SameCopy;
    assert ts == ts[..|ts| - 1] + [ts[|ts| - 1]];
  }

  lemma CopiedLast(ts: seq<Tree>)
    requires ts != []
    ensures var n := |ts| - 1; CopiedAll(ts) == CopiedAll(ts[..n]) + if ts[n].data.Document? then [] else [Copied(ts[n])]
  {
  }

  lemma {:induction false} CopiedAllIs(ts: seq<Tree>)
    ensures |CopiedAll(ts)| <= |ts|
    ensures CopiedAll(ts) == ts <==> AllSameCopy(ts)
  {
    if ts != [] {
      hide CopiedAll, Copied, AllSameCopy;
      var n := |ts| - 1;
      CopiedAllIs(ts[..n]);
      AllSameLast(ts);
      CopiedLast(ts);
      Seqs.LastIs(CopiedAll(ts[..n]), Copied(ts[n]), ts);
    }
  }

  /** A copy is the same tree exactly under that condition. */
  lemma {:induction false} CopyIsExact(t: Tree)
    ensures Copied(t) == t <==> Copyable(t)
  {
    DataCopyIff(t.data);
    CopiedAllIs(t.kids);
    hide CopiedAll, CopiedData, CopyableData;
    forall k | k in t.kids ensures Copied(k) == k <==> Copyable(k) { CopyIsExact(k); }
  }

  /** The text that `NulIsCut` reads is a tree which a copy changes. */
  lemma NulTreeIsCut()
    ensures Copied(Tree(Leaf("x\0y"), [])) == Tree(Leaf("x"), [])
  {
    NulIsCut("");
  }

  /** `ReplaceChild` puts in documents, which no copy of the changed tree has. */
  lemma GraftedDocument(f: Forest, p: TiXmlNode, d: set<TiXmlNode>, ks: seq<TiXmlNode>, src: TiXmlNode, g: Forest, r: TiXmlNode)
    requires Grafted(f, p, d, ks, src, g, r) && src.data.Document?
    ensures p in g.lists && Closed(g) && Copied(TreeOf(g, p)) != TreeOf(g, p)
  {
    var i :| 0 <= i < |ks| && ks[i] == r;
    KidTree(g, p, i);
    TreeIs(f, src);
    CopyIsExact(TreeOf(g, p));
    assert TreeOf(g, p).kids[i] == Copied(TreeOf(f, src)) && TreeOf(g, p).kids[i] in TreeOf(g, p).kids;
  }

  /** copy heads a new tree in g, equal to the copy of the one n heads in f; the rest of g is f. */
  ghost predicate Cloned(f: Forest, n: TiXmlNode, g: Forest, copy: TiXmlNode) {
    && Closed(f) && n in f.lists && Closed(g) && Extends(f, g) && copy in g.lists && g.rank[copy] == f.rank[n]
    && Family(g, copy) !! f.lists.Keys && g.lists.Keys == f.lists.Keys + Family(g, copy)
    && TreeOf(g, copy) == Copied(TreeOf(f, n))
  }

  ghost predicate TreesAre(g: Forest, ks: seq<TiXmlNode>, ts: seq<Tree>) {
    Closed(g) && |ks| == |ts| && forall j :: 0 <= j < |ks| ==> ks[j] in g.lists && TreeOf(g, ks[j]) == ts[j]
  }

  /** The first i children of n have been copied below target. */
  ghost predicate PartlyCloned(f: Forest, n: TiXmlNode, i: nat, target: TiXmlNode, g: Forest) {
    PartlyClonedForest(f, n, i, target, g) && TreesAre(g, g.lists[target], CopiedAll(TreeOf(f, n).kids[..i]))
  }

  ghost predicate PartlyClonedForest(f: Forest, n: TiXmlNode, i: nat, target: TiXmlNode, g: Forest) {
    && Closed(f) && n in f.lists && i <= |f.lists[n]| == |TreeOf(f, n).kids|
    && Closed(g) && Extends(f, g) && target in g.lists && g.rank[target] == f.rank[n]
    && Family(g, target) !! f.lists.Keys && g.lists.Keys == f.lists.Keys + Family(g, target)
  }

  lemma CloneStarts(f: Forest, n: TiXmlNode, target: TiXmlNode)
    requires Closed(f) && n in f.lists && target !in f.lists && Closed(WithRoot(f, target, f.rank[n]))
    ensures PartlyCloned(f, n, 0, target, WithRoot(f, target, f.rank[n]))
  {
  }

  lemma TreeIs(f: Forest, n: TiXmlNode)
    requires Closed(f) && n in f.lists
    ensures TreeOf(f, n).data == n.data && TreesAre(f, f.lists[n], TreeOf(f, n).kids)
  {
    forall c | c in f.lists[n] ensures c in f.lists { Below(f, n, c); }
  }

  lemma TreeFrom(f: Forest, n: TiXmlNode, ts: seq<Tree>)
    requires Closed(f) && n in f.lists && TreesAre(f, f.lists[n], ts)
    ensures TreeOf(f, n) == Tree(n.data, ts)
  {
    TreeIs(f, n);
    hide TreeOf, Closed;
    assert TreeOf(f, n).kids == ts;
  }

  lemma CopiedStep(ts: seq<Tree>, i: nat)
    requires i < |ts|
    ensures CopiedAll(ts[..i + 1]) == CopiedAll(ts[..i]) + if ts[i].data.Document? then [] else [Copied(ts[i])]
  {
    assert ts[..i + 1][..i] == ts[..i];
  }

  lemma CloneSkips(f: Forest, n: TiXmlNode, i: nat, target: TiXmlNode, g: Forest, g1: Forest, copy: TiXmlNode)
    requires PartlyCloned(f, n, i, target, g) && i < |f.lists[n]| && f.lists[n][i].data.Document?
    requires Cloned(g, f.lists[n][i], g1, copy)
    ensures Minus(g1, Family(g1, copy)) == g && PartlyCloned(f, n, i + 1, target, g)
  {
    hide CopiedAll, Copied, TreeOf, Family, Closed, Extends, TreesAre;
    KidTree(f, n, i);
    CopiedStep(TreeOf(f, n).kids, i);
    var ts := CopiedAll(TreeOf(f, n).kids[..i]);
    assert ts + [] == ts;
    CloneUndone(g, f.lists[n][i], g1, copy);
  }

  lemma KidTree(f: Forest, n: TiXmlNode, i: nat)
    requires Closed(f) && n in f.lists && i < |f.lists[n]|
    ensures i < |TreeOf(f, n).kids| == |f.lists[n]| && f.lists[n][i] in f.lists
    ensures TreeOf(f, n).kids[i] == TreeOf(f, f.lists[n][i]) && TreeOf(f, n).kids[i].data == f.lists[n][i].data
  {
    TreeIs(f, n);
  }

  /** Deleting the copy gives back the forest it was made in. */
  lemma CloneUndone(f: Forest, n: TiXmlNode, g: Forest, copy: TiXmlNode)
    requires Cloned(f, n, g, copy)
    ensures Minus(g, Family(g, copy)) == f
  {
    SameKeys(f);
    SameKeys(g);
    hide Closed, Family, TreeOf, Copied, CopiedAll;
    var h := Minus(g, Family(g, copy));
    assert h.lists == f.lists;
    assert h.rank == f.rank;
  }

  /** What linking the copy of the next child does to the families. */
  lemma LinkedFamily(target: TiXmlNode, g: Forest, g1: Forest, copy: TiXmlNode, g2: Forest, x: TiXmlNode)
    requires Closed(g) && Closed(g1) && Closed(g2) && Extends(g, g1) && target in g.lists && copy in g1.lists
    requires g2.lists == g1.lists[target := g1.lists[target] + [copy]] && target !in Family(g1, copy)
    ensures x in Family(g2, target) <==> x in Family(g, target) || x in Family(g1, copy)
    ensures TreeOf(g2, copy) == TreeOf(g1, copy)
  {
    hide Closed, Family, TreeOf;
    BelowKept(g1, target, g2, copy);
    if x in Family(g, target) && x != target {
      var c := FamilyDown(g, target, x);
      OtherKid(target, g, g1, copy, g2, c);
      FamilyUp(g2, target, c, x);
    }
    if x in Family(g1, copy) { FamilyUp(g2, target, copy, x); }
    if x in Family(g2, target) && x != target {
      var c := FamilyDown(g2, target, x);
      if c in g.lists[target] {
        OtherKid(target, g, g1, copy, g2, c);
        FamilyUp(g, target, c, x);
      }
    }
  }

  lemma OtherKid(target: TiXmlNode, g: Forest, g1: Forest, copy: TiXmlNode, g2: Forest, c: TiXmlNode)
    requires Closed(g) && Closed(g1) && Closed(g2) && Extends(g, g1) && target in g.lists && copy in g1.lists
    requires g2.lists == g1.lists[target := g1.lists[target] + [copy]] && c in g.lists[target]
    ensures c in g.lists && c in g2.lists && Family(g2, c) == Family(g, c) && TreeOf(g2, c) == TreeOf(g, c)
  {
    hide Closed, Family, TreeOf;
    Below(g, target, c);
    if target in Family(g, c) { FamilyRank(g, c, target); }
    BelowKept(g, target, g2, c);
  }

  lemma LinkedFamilies(target: TiXmlNode, g: Forest, g1: Forest, copy: TiXmlNode, g2: Forest)
    requires Closed(g) && Closed(g1) && Closed(g2) && Extends(g, g1) && target in g.lists && copy in g1.lists
    requires g2.lists == g1.lists[target := g1.lists[target] + [copy]] && target !in Family(g1, copy)
    ensures Family(g2, target) == Family(g, target) + Family(g1, copy)
  {
    hide *;
    forall x ensures x in Family(g2, target) <==> x in Family(g, target) || x in Family(g1, copy) {
      LinkedFamily(target, g, g1, copy, g2, x);
    }
  }

  lemma LinkedExtends(f: Forest, target: TiXmlNode, g: Forest, g1: Forest, ks: seq<TiXmlNode>)
    requires Extends(f, g) && Extends(g, g1) && target !in f.lists
    ensures Extends(f, Forest(g1.lists[target := ks], g1.rank))
  {
  }

  /** The setting of one step of the copying loop: g1 has a copy of the next child, and g2 links it. */
  ghost predicate Linking(f: Forest, n: TiXmlNode, i: nat, target: TiXmlNode, g: Forest, g1: Forest, copy: TiXmlNode, g2: Forest) {
    && PartlyCloned(f, n, i, target, g) && i < |f.lists[n]| && !f.lists[n][i].data.Document?
    && Cloned(g, f.lists[n][i], g1, copy) && Closed(g2)
    && target in g1.lists && g1.lists[target] == g.lists[target]
    && g2 == Forest(g1.lists[target := g.lists[target] + [copy]], g1.rank)
  }

  lemma LinkingFrom(f: Forest, n: TiXmlNode, i: nat, target: TiXmlNode, g: Forest, g1: Forest, copy: TiXmlNode)
    requires PartlyCloned(f, n, i, target, g) && i < |f.lists[n]| && !f.lists[n][i].data.Document?
    requires Cloned(g, f.lists[n][i], g1, copy)
    ensures target in g1.lists && target !in Family(g1, copy)
    ensures var g2 := Attach(g1, target, g1.lists[target] + [copy], copy);
      Closed(g2) ==> Linking(f, n, i, target, g, g1, copy, g2)
  {
    Below(f, n, f.lists[n][i]);
    SameKeys(f);
    SameKeys(g);
    SameKeys(g1);
    hide Closed, Family, TreeOf, CopiedAll, Copied, TreesAre;
  }

  lemma CloneLinksForest(f: Forest, n: TiXmlNode, i: nat, target: TiXmlNode, g: Forest, g1: Forest, copy: TiXmlNode, g2: Forest)
    requires Linking(f, n, i, target, g, g1, copy, g2)
    ensures PartlyClonedForest(f, n, i + 1, target, g2)
  {
    hide Closed, Family, TreeOf, CopiedAll, Copied, TreesAre, Extends;
    assert Extends(g, g1);
    ExtendsKeeps(g, g1, target);
    LinkedFamilies(target, g, g1, copy, g2);
    LinkedExtends(f, target, g, g1, g.lists[target] + [copy]);
  }

  lemma ExtendsKeeps(f: Forest, g: Forest, n: TiXmlNode)
    requires Closed(f) && Closed(g) && Extends(f, g) && n in f.lists
    ensures n in f.rank && n in g.lists && n in g.rank && g.lists[n] == f.lists[n] && g.rank[n] == f.rank[n]
  {
  }

  lemma CloneLinksTrees(f: Forest, n: TiXmlNode, i: nat, target: TiXmlNode, g: Forest, g1: Forest, copy: TiXmlNode, g2: Forest)
    requires Linking(f, n, i, target, g, g1, copy, g2)
    ensures TreesAre(g2, g2.lists[target], CopiedAll(TreeOf(f, n).kids[..i + 1]))
  {
    hide Closed, Family, TreeOf, CopiedAll, Copied, Extends, TreesAre;
    var kid := f.lists[n][i];
    KidTree(f, n, i);
    CopiedStep(TreeOf(f, n).kids, i);
    LinkedFamily(target, g, g1, copy, g2, target);
    KidTreeKept(f, n, kid, g, target);
    MoreTrees(target, g, g1, copy, g2, CopiedAll(TreeOf(f, n).kids[..i]));
  }

  lemma MoreTrees(target: TiXmlNode, g: Forest, g1: Forest, copy: TiXmlNode, g2: Forest, ts: seq<Tree>)
    requires Closed(g) && Closed(g1) && Closed(g2) && Extends(g, g1) && target in g.lists && copy in g1.lists
    requires g2.lists == g1.lists[target := g.lists[target] + [copy]] && g1.lists[target] == g.lists[target]
    requires TreesAre(g, g.lists[target], ts) && TreeOf(g2, copy) == TreeOf(g1, copy)
    ensures TreesAre(g2, g2.lists[target], ts + [TreeOf(g1, copy)])
  {
    hide Closed, Family, TreeOf, Extends;
    var ls := g.lists[target];
    forall j | 0 <= j < |ls| ensures ls[j] in g2.lists && TreeOf(g2, ls[j]) == TreeOf(g, ls[j]) {
      OtherKid(target, g, g1, copy, g2, ls[j]);
    }
  }

  lemma KidTreeKept(f: Forest, n: TiXmlNode, kid: TiXmlNode, g: Forest, target: TiXmlNode)
    requires Closed(f) && Closed(g) && Extends(f, g) && n in f.lists && kid in f.lists[n] && target !in f.lists
    ensures kid in f.lists && kid in g.lists && TreeOf(g, kid) == TreeOf(f, kid)
  {
    hide Closed, Family, TreeOf;
    Below(f, n, kid);
    if target in Family(f, kid) { FamilyRank(f, kid, target); }
    BelowKept(f, target, g, kid);
  }

  lemma CloneLinks(f: Forest, n: TiXmlNode, i: nat, target: TiXmlNode, g: Forest, g1: Forest, copy: TiXmlNode, g2: Forest)
    requires Linking(f, n, i, target, g, g1, copy, g2)
    ensures PartlyCloned(f, n, i + 1, target, g2)
  {
    CloneLinksForest(f, n, i, target, g, g1, copy, g2);
    CloneLinksTrees(f, n, i, target, g, g1, copy, g2);
  }

  lemma CopyStep(f: Forest, n: TiXmlNode, i: nat, target: TiXmlNode, g: Forest, g1: Forest, copy: TiXmlNode, g2: Forest)
    requires PartlyCloned(f, n, i, target, g) && n in f.lists && i < |f.lists[n]| && Cloned(g, f.lists[n][i], g1, copy)
    requires Closed(g1) && Closed(g2) && copy in g1.lists && target in g1.lists
    requires g2 == if f.lists[n][i].data.Document? then Minus(g1, Family(g1, copy))
                   else Attach(g1, target, g1.lists[target] + [copy], copy)
    ensures PartlyCloned(f, n, i + 1, target, g2) && g2.lists.Keys <= g1.lists.Keys
  {
    hide PartlyCloned, Cloned, Closed, Family, Attach;
    if f.lists[n][i].data.Document? {
      CloneSkips(f, n, i, target, g, g1, copy);
    } else {
      LinkingFrom(f, n, i, target, g, g1, copy);
      CloneLinks(f, n, i, target, g, g1, copy, g2);
      AttachLists(g1, target, g1.lists[target] + [copy], copy);
      assert g2.lists.Keys == g1.lists.Keys;
    }
  }

  lemma CloneEnds(f: Forest, n: TiXmlNode, i: nat, target: TiXmlNode, g: Forest)
    requires PartlyCloned(f, n, i, target, g) && target.data == CopiedData(n.data)
    requires if n.data.Leaf? then i == 0 else i == |f.lists[n]|
    ensures Cloned(f, n, g, target)
  {
    TreeIs(f, n);
    assert CopiedAll([]) == [];
    hide Closed, Family, TreeOf, CopiedAll, Extends;
    var kids := TreeOf(f, n).kids;
    assert kids[..0] == [] && kids[..|kids|] == kids;
    TreeFrom(g, target, CopiedAll(kids[..i]));
  }

  lemma SameKind(d: Data)
    ensures CopiedData(d).Document? <==> d.Document?
  {
  }

  lemma OkIs(f: Forest)
    ensures Ok(f) <==> Good(Snapshot(f.lists.Keys), f)
  {
  }

  lemma SnapshotAt(all: set<TiXmlNode>, x: TiXmlNode)
    requires x in all
    ensures var h := Snapshot(all);
      x in h && h[x] == Links(x.parent, x.firstChild, x.lastChild, x.prev, x.next)
  {
  }

  lemma SnapshotKeys(all: set<TiXmlNode>)
    ensures Snapshot(all).Keys == all
  {
  }

  lemma SnapshotMinus(all: set<TiXmlNode>, d: set<TiXmlNode>)
    ensures Snapshot(all - d) == Snapshot(all) - d
  {
  }

  lemma RootSnapshot(f: Forest, c: TiXmlNode)
    requires c.parent == null && c.firstChild == null && c.lastChild == null && c.prev == null && c.next == null
    ensures Snapshot(f.lists.Keys + {c}) == Snapshot(f.lists.Keys)[c := Links(null, null, null, null, null)]
  {
  }

  lemma WithRootKeys(f: Forest, c: TiXmlNode, rank: nat)
    ensures WithRoot(f, c, rank).lists.Keys == f.lists.Keys + {c}
  {
  }

  lemma PartsOf(f: Forest, n: TiXmlNode, i: nat, target: TiXmlNode, g: Forest)
    requires PartlyCloned(f, n, i, target, g)
    ensures Closed(f) && n in f.lists && i <= |f.lists[n]| && Closed(g) && Extends(f, g) && target in g.lists
    ensures Family(g, target) !! f.lists.Keys && f.lists.Keys <= g.lists.Keys
  {
  }

  lemma ClonedParts(f: Forest, n: TiXmlNode, g: Forest, copy: TiXmlNode)
    requires Cloned(f, n, g, copy)
    ensures Closed(f) && n in f.lists && Closed(g) && Extends(f, g) && copy in g.lists && f.lists.Keys <= g.lists.Keys
    ensures Family(g, copy) !! f.lists.Keys && g.lists.Keys == f.lists.Keys + Family(g, copy)
  {
  }

  lemma AtIs(ks: seq<TiXmlNode>, i: nat)
    requires i <= |ks|
    ensures At(ks, i) == null <==> i == |ks|
    ensures i < |ks| ==> At(ks, i) == ks[i]
  {
  }

  lemma BeforeIs(ks: seq<TiXmlNode>, i: nat)
    requires i <= |ks|
    ensures 0 < i ==> Before(ks, i) == ks[i - 1]
  {
  }

  lemma ShrinkClosed(f: Forest, p: TiXmlNode, i: nat)
    requires Closed(f) && p in f.lists && i < |f.lists[p]|
    ensures Closed(Forest(f.lists[p := Splice(f.lists[p], i, i + 1, [])], f.rank))
  {
    var g := Forest(f.lists[p := Splice(f.lists[p], i, i + 1, [])], f.rank);
    SameKeys(f);
    hide ListBelow, Splice, Closed;
    forall q | q in g.lists ensures ListBelow(g, q) {
      forall c | c in g.lists[q] ensures c in g.lists && g.rank[c] < g.rank[q] {
        if q == p { SpliceMember(f.lists[p], i, i + 1, [], c); }
        Below(f, q, c);
      }
      IsBelow(g, q);
    }
    IsClosed(g);
  }

  lemma IsClosed(f: Forest)
    requires f.lists.Keys == f.rank.Keys && forall q :: q in f.lists ==> ListBelow(f, q)
    ensures Closed(f)
  {
  }

  lemma MinusSnapshot(f: Forest, p: TiXmlNode, ks: seq<TiXmlNode>, base: Forest, c: TiXmlNode)
    requires Closed(f) && p in f.lists && c in f.lists && base.lists == f.lists[p := ks]
    ensures var d := Family(f, c);
      Minus(base, d).lists.Keys == f.lists.Keys - d && Snapshot(f.lists.Keys - d) == Snapshot(f.lists.Keys) - d
  {
    hide Family, Closed;
  }

  lemma NextIs(h: Heap, f: Forest, n: TiXmlNode, i: nat)
    requires Good(h, f) && n in f.lists && i < |f.lists[n]|
    ensures f.lists[n][i] in f.lists && f.lists[n][i] in h && h[f.lists[n][i]].next == At(f.lists[n], i + 1)
  {
    hide Closed, AllListed;
    KidsKnown(h, f, n);
    KidIs(h, n, f.lists[n], i);
  }

  lemma NewKids(f: Forest, g: Forest, target: TiXmlNode)
    requires Closed(f) && Closed(g) && target in g.lists && Family(g, target) !! f.lists.Keys
    ensures target !in f.lists && forall c :: c in g.lists[target] ==> c in g.lists && c !in f.lists
  {
    hide Closed, Family;
    forall c | c in g.lists[target] ensures c in g.lists && c !in f.lists {
      Below(g, target, c);
      FamilyUp(g, target, c, c);
    }
  }

  lemma NewRank(f: Forest, n: TiXmlNode, i: nat, g: Forest, kid: TiXmlNode)
    requires Closed(f) && Closed(g) && Extends(f, g) && n in f.lists && i < |f.lists[n]| && kid == f.lists[n][i]
    ensures kid in g.lists && kid in g.rank && n in f.rank && g.rank[kid] < f.rank[n]
  {
    Below(f, n, kid);
  }

  // ---- What the inserting operations come to ----

  /**
    From f to g the members of d have gone, p has the list ks, and r, a member of it, heads new nodes only, which
    are a copy of the tree that src heads in f. All other lists are as they were.
    */
  ghost predicate Grafted(f: Forest, p: TiXmlNode, d: set<TiXmlNode>, ks: seq<TiXmlNode>, src: TiXmlNode, g: Forest, r: TiXmlNode) {
    && Closed(f) && Closed(g) && p in f.lists && p !in d && src in f.lists && r in g.lists
    && Family(g, r) !! f.lists.Keys && g.lists.Keys == (f.lists.Keys - d) + Family(g, r)
    && p in g.lists && g.lists[p] == ks && r in ks
    && (forall q :: q in f.lists && q !in d && q != p ==> q in g.lists && g.lists[q] == f.lists[q])
    && TreeOf(g, r) == Copied(TreeOf(f, src))
  }

  lemma GraftIs(f: Forest, p: TiXmlNode, d: set<TiXmlNode>, ks: seq<TiXmlNode>, src: TiXmlNode, f1: Forest, r: TiXmlNode, g: Forest)
    requires Cloned(f, src, f1, r) && p in f.lists && p !in d && d <= f.lists.Keys && r in ks
    requires Closed(g) && g.lists == f1.lists[p := ks] - d
    ensures Grafted(f, p, d, ks, src, g, r)
  {
    hide Closed, Family, TreeOf, Copied;
    forall q | q in Family(f1, r) ensures q in f1.lists && q in g.lists && g.lists[q] == f1.lists[q] {}
    SubtreeKept(f1, g, r);
  }

  /** Where c stands among its siblings. */
  ghost function IndexOf(ks: seq<TiXmlNode>, c: TiXmlNode): (i: nat)
    requires c in ks
    ensures i < |ks| && ks[i] == c
  {
    var i :| 0 <= i < |ks| && ks[i] == c; i
  }

  ghost function PutBefore(ks: seq<TiXmlNode>, c: TiXmlNode, r: TiXmlNode): seq<TiXmlNode> {
    if c in ks then var i := IndexOf(ks, c); Splice(ks, i, i, [r]) else ks
  }

  ghost function PutAfter(ks: seq<TiXmlNode>, c: TiXmlNode, r: TiXmlNode): seq<TiXmlNode> {
    if c in ks then var i := IndexOf(ks, c) + 1; Splice(ks, i, i, [r]) else ks
  }

  ghost function PutLast(ks: seq<TiXmlNode>, r: TiXmlNode): seq<TiXmlNode> {
    ks + [r]
  }

  ghost function PutFor(ks: seq<TiXmlNode>, c: TiXmlNode, r: TiXmlNode): seq<TiXmlNode> {
    if c in ks then var i := IndexOf(ks, c); Splice(ks, i, i + 1, [r]) else ks
  }

  ghost function Without(ks: seq<TiXmlNode>, c: TiXmlNode): seq<TiXmlNode> {
    if c in ks then var i := IndexOf(ks, c); Splice(ks, i, i + 1, []) else ks
  }

  lemma PutBeforeIs(ks: seq<TiXmlNode>, c: TiXmlNode, r: TiXmlNode)
    requires c in ks
    ensures PutBefore(ks, c, r) == Splice(ks, IndexOf(ks, c), IndexOf(ks, c), [r])
  {
  }

  lemma PutAfterIs(ks: seq<TiXmlNode>, c: TiXmlNode, r: TiXmlNode)
    requires c in ks
    ensures PutAfter(ks, c, r) == Splice(ks, IndexOf(ks, c) + 1, IndexOf(ks, c) + 1, [r])
  {
  }

  lemma PutForIs(ks: seq<TiXmlNode>, c: TiXmlNode, r: TiXmlNode)
    requires c in ks
    ensures PutFor(ks, c, r) == Splice(ks, IndexOf(ks, c), IndexOf(ks, c) + 1, [r])
  {
  }

  lemma WithoutIs(ks: seq<TiXmlNode>, c: TiXmlNode)
    requires c in ks
    ensures Without(ks, c) == Splice(ks, IndexOf(ks, c), IndexOf(ks, c) + 1, [])
  {
  }

  /** Where the node ends up among its siblings. */
  lemma SiblingsAre(a: seq<TiXmlNode>, c: TiXmlNode, b: seq<TiXmlNode>, r: TiXmlNode)
    requires c !in a && c !in b
    ensures PutBefore(a + [c] + b, c, r) == a + [r] + [c] + b && PutAfter(a + [c] + b, c, r) == a + [c] + [r] + b
    ensures PutFor(a + [c] + b, c, r) == a + [r] + b && Without(a + [c] + b, c) == a + b
  {
    var ks := a + [c] + b;
    assert ks[|a|] == c;
    assert IndexOf(ks, c) == |a|;
    assert ks[..|a|] == a && ks[|a|..] == [c] + b && ks[..|a| + 1] == a + [c] && ks[|a| + 1..] == b;
  }

  /** Linking the root r of a fresh copy into the list of p makes a graft. */
  lemma Inserted(h: Heap, f: Forest, p: TiXmlNode, i: nat, src: TiXmlNode, f1: Forest, r: TiXmlNode, h': Heap)
    requires Cloned(f, src, f1, r) && p in f.lists && i <= |f.lists[p]|
    requires Good(h, f1) && h[r].parent == null && h'.Keys == h.Keys
    requires Rewired(h, p, Before(f.lists[p], i), At(f.lists[p], i), r, h')
    ensures var ks := Splice(f.lists[p], i, i, [r]); var g := Attach(f1, p, ks, r);
      Good(h', g) && g.lists.Keys == f1.lists.Keys && Grafted(f, p, {}, ks, src, g, r)
  {
    hide *;
    var ks := Splice(f.lists[p], i, i, [r]);
    ClonedRoot(f, src, f1, r, p);
    GoodKeys(h, f1);
    var g := Attach(f1, p, ks, r);
    Linked(h, f1, p, i, r, h');
    AttachLists(f1, p, ks, r);
    GoodKeys(h', g);
    SpliceMid(f.lists[p], i, i, [r]);
    assert r in [r];
    GraftIs(f, p, {}, ks, src, f1, r, g);
  }

  lemma EndGraft(f: Forest, p: TiXmlNode, src: TiXmlNode, f1: Forest, r: TiXmlNode, g: Forest)
    requires Cloned(f, src, f1, r) && p in f.lists && p in f1.lists && Closed(f1) && r in f1.lists
    requires Closed(g) && g == Attach(f1, p, f1.lists[p] + [r], r)
    ensures g.lists.Keys == f1.lists.Keys && Grafted(f, p, {}, PutLast(f.lists[p], r), src, g, r)
  {
    hide *;
    ClonedRoot(f, src, f1, r, p);
    AttachLists(f1, p, f1.lists[p] + [r], r);
    assert r in f1.lists[p] + [r];
    GraftIs(f, p, {}, f1.lists[p] + [r], src, f1, r, g);
    PutLastIs(f.lists[p], r);
  }

  lemma PutLastIs(ks: seq<TiXmlNode>, r: TiXmlNode)
    ensures PutLast(ks, r) == ks + [r]
  {
  }

  /** Putting the root r of a fresh copy in the place of child i makes a graft, without what was below the child. */
  lemma Replaced(h: Heap, f: Forest, p: TiXmlNode, i: nat, src: TiXmlNode, f1: Forest, r: TiXmlNode, h': Heap)
    requires Closed(f) && Cloned(f, src, f1, r) && p in f.lists && i < |f.lists[p]| && f.lists[p][i] in f.lists
    requires Good(h, f1) && r in h && h[r].parent == null && h'.Keys == h.Keys
    requires Rewired(h, p, Before(f.lists[p], i), At(f.lists[p], i + 1), r, h')
    ensures Closed(f1) && p in f1.lists && r in f1.lists
    ensures var ks := Splice(f.lists[p], i, i + 1, [r]);
      var d := Family(f, f.lists[p][i]);
      var g := Minus(Attach(f1, p, ks, r), d);
      Good(h' - d, g) && g.lists.Keys == f1.lists.Keys - d && Grafted(f, p, d, ks, src, g, r)
  {
    hide *;
    ClonedRoot(f, src, f1, r, p);
    ClonedParts(f, src, f1, r);
    GoodKeys(h, f1);
    var ks := Splice(f.lists[p], i, i + 1, [r]);
    var kid := f.lists[p][i];
    var base := Attach(f1, p, ks, r);
    OldFamily(f, f1, kid);
    KidFamily(h, f1, p, i);
    OptionalIs(r);
    AttachLists(f1, p, ks, r);
    forall c | c in ks ensures c == r || c in f1.lists[p] { SpliceMember(f.lists[p], i, i + 1, [r], c); }
    AttachOk(h, f1, p, ks, r);
    AttachClosed(h, f1, p, ks, r);
    Exchanged(h, f1, p, i, r, base, h');
    var d := Family(f, kid);
    var g := Minus(base, d);
    GoodKeys(h' - d, g);
    MinusLists(f1, p, ks, base, d);
    SpliceMid(f.lists[p], i, i + 1, [r]);
    assert r in [r];
    MinusAttach(f1, p, ks, r, d);
    GraftIs(f, p, d, ks, src, f1, r, g);
  }

  lemma MinusAttach(f: Forest, p: TiXmlNode, ks: seq<TiXmlNode>, r: TiXmlNode, d: set<TiXmlNode>)
    requires Closed(f) && p in f.lists && r in f.lists
    ensures Minus(Attach(f, p, ks, r), d).lists == f.lists[p := ks] - d
  {
  }

  lemma OldFamily(f: Forest, g: Forest, n: TiXmlNode)
    requires Closed(f) && Closed(g) && Extends(f, g) && n in f.lists
    ensures n in g.lists && Family(g, n) == Family(f, n)
  {
    hide Closed, Family, TreeOf;
    SubtreeKept(f, g, n);
  }

  lemma ChildIs(h: Heap, f: Forest, p: TiXmlNode, c: TiXmlNode)
    requires Good(h, f) && p in f.lists && c in f.lists && c in h && h[c].parent == p
    ensures c in f.lists[p]
    ensures var i := IndexOf(f.lists[p], c); h[c].prev == Before(f.lists[p], i) && h[c].next == At(f.lists[p], i + 1)
    ensures h[c].prev != c && h[c].next != c
  {
    hide Closed, AllListsOk, AllListed, ListOk, Distinct;
    IsListed(h, f, c);
    KidsKnown(h, f, p);
    var ks := f.lists[p];
    var i := IndexOf(ks, c);
    KidIs(h, p, ks, i);
    DistinctOf(h, p, ks);
    if 0 < i { Apart(ks, i - 1, i); }
    if i + 1 < |ks| { Apart(ks, i + 1, i); }
  }

  lemma ClonedRoot(f: Forest, src: TiXmlNode, f1: Forest, r: TiXmlNode, p: TiXmlNode)
    requires Cloned(f, src, f1, r) && p in f.lists
    ensures Closed(f) && Closed(f1) && p in f1.lists && f1.lists[p] == f.lists[p] && p !in Family(f1, r)
    ensures f.lists.Keys <= f1.lists.Keys && r in f1.lists && r !in f.lists
  {
  }

  class TiXmlNode {
    const data: Data
    var parent: TiXmlNode?
    var firstChild: TiXmlNode?
    var lastChild: TiXmlNode?
    var prev: TiXmlNode?
    var next: TiXmlNode?

    constructor (data: Data)
      ensures this.data == data && parent == null && firstChild == null && lastChild == null && prev == null && next == null
    {
      this.data := data;
      parent, firstChild, lastChild, prev, next := null, null, null, null, null;
    }

    /** Puts a root, which may point at this node already, at the end of the children; a document is deleted instead. */
    method LinkEndChild(node: TiXmlNode, ghost f: Forest) returns (r: TiXmlNode?, ghost g: Forest)
      requires this in f.lists && node in f.lists && Unlinked(f, node) && Closed(f)
      requires (node.parent == null || node.parent == this) && this !in Family(f, node)
      modifies `firstChild, `lastChild, node`parent, node`prev, node`next, f.lists[this]`next
      ensures Ok(g)
      ensures node.data.Document? ==> r == null && g == Minus(f, Family(f, node))
      ensures !node.data.Document? ==> r == node && g == Attach(f, this, f.lists[this] + [node], node)
    {
      hide *;
      if node.data.Document? {
        g := node.Discard(f);
        return null, g;
      }
      ghost var all := f.lists.Keys;
      ghost var now := Snapshot(all);
      UnlinkedIs(f, node);
      ghost var h := WithParent(now, node, null);
      ghost var ks := f.lists[this];
      GoodKeys(h, f);
      SelfIn(f, node);
      SnapshotAt(all, this);
      SnapshotKeys(all);
      WithParentIs(now, node, null);
      EndsUnlinked(now, f, this, node);
      AppendLinks(node, all);
      SnapshotKeys(all);
      SpliceEnd(ks, [node]);
      RewiredAnyParent(now, this, Before(ks, |ks|), null, node, Snapshot(all));
      Linked(h, f, this, |ks|, node, Snapshot(all));
      g := Attach(f, this, ks + [node], node);
      AttachLists(f, this, ks + [node], node);
      assert g.lists.Keys == all;
      OkIs(g);
      r := node;
    }

    /**
      The loop of the destructor and of `Clear` over the children. `freed` stands for the allocator, the nodes whose
      memory is gone: the walk reads none of them, frees exactly what is below this node, and frees nothing twice.
      */
    method DeleteChildren(ghost f: Forest, freed: set<TiXmlNode>) returns (gone: set<TiXmlNode>)
      requires FamilyOk(Snapshot(f.lists.Keys), f, this) && Closed(f) && this in f.lists && this in f.rank
      requires freed !! Family(f, this)
      ensures gone == freed + (Family(f, this) - {this})
      decreases f.rank[this], 0
    {
      hide *;
      ghost var h, ks := Snapshot(f.lists.Keys), f.lists[this];
      KidsListed(f, this);
      WalkReads(h, f, this);
      SnapshotAt(f.lists.Keys, this);
      NoFamilies(f);
      gone := freed;
      var node := firstChild;
      ghost var i := 0;
      while node != null
        invariant i <= |ks| && node == At(ks, i) && (forall k :: k in ks[..i] ==> k in f.lists)
        invariant gone == freed + Families(f, ks[..i])
        decreases |ks| - i
      {
        AtIs(ks, i);
        assert node in ks;
        NextFamily(h, f, this, i);
        SelfIn(f, node);
        assert node !in gone;
        SnapshotAt(f.lists.Keys, node);
        FamilyOkKid(h, f, this, node);
        var temp := node;
        node := node.next;
        gone := temp.Delete(f, gone);
        i := i + 1;
      }
      AtIs(ks, i);
      assert ks[..i] == ks;
      FamilyIs(f, this);
    }

    /** The destructor: everything below, then the node itself. */
    method Delete(ghost f: Forest, freed: set<TiXmlNode>) returns (gone: set<TiXmlNode>)
      requires FamilyOk(Snapshot(f.lists.Keys), f, this) && Closed(f) && this in f.lists && this in f.rank
      requires freed !! Family(f, this)
      ensures gone == freed + Family(f, this)
      decreases f.rank[this], 1
    {
      hide *;
      SelfIn(f, this);
      gone := DeleteChildren(f, freed);
      assert this !in gone;
      gone := gone + {this};
    }

    /** Deletes all children. */
    method Clear(ghost f: Forest) returns (ghost g: Forest)
      requires Ok(f) && this in f.lists
      modifies `firstChild, `lastChild
      ensures Ok(g) && Closed(f) && g == Minus(Forest(f.lists[this := []], f.rank), Family(f, this) - {this})
    {
      hide *;
      OkIs(f);
      ghost var h := Snapshot(f.lists.Keys);
      GoodKeys(h, f);
      FamilyOkOf(h, f, this);
      SnapshotAt(f.lists.Keys, this);
      var gone := DeleteChildren(f, {});
      assert gone == Family(f, this) - {this};
      ClearLinks(f.lists.Keys);
      Emptied(h, f, this);
      ghost var base := Forest(f.lists[this := []], f.rank);
      g := Minus(base, gone);
      MinusLists(f, this, [], base, gone);
      SnapshotMinus(f.lists.Keys, gone);
      OkIs(g);
    }

    method ClearLinks(ghost all: set<TiXmlNode>)
      requires this in all
      modifies `firstChild, `lastChild
      ensures this in old(Snapshot(all))
      ensures Snapshot(all) == old(Snapshot(all))[this := old(Snapshot(all))[this].(first := null, last := null)]
    {
      firstChild := null;
      lastChild := null;
    }

    /** Deletes this root, whose parent pointer does not matter, with all below it. */
    method Discard(ghost f: Forest) returns (ghost g: Forest)
      requires this in f.lists && Unlinked(f, this) && Closed(f)
      ensures Ok(g) && g == Minus(f, Family(f, this))
    {
      hide *;
      ghost var now := Snapshot(f.lists.Keys);
      UnlinkedIs(f, this);
      ghost var h := WithParent(now, this, null);
      GoodKeys(h, f);
      RootDeletable(h, f, this, now);
      var gone := Delete(f, {});
      assert gone == Family(f, this);
      SelfIn(f, this);
      WithParentIs(now, this, null);
      RootDropped(h, f, this);
      g := Minus(f, gone);
      MinusKeys(f, gone);
      SnapshotMinus(f.lists.Keys, gone);
      assert h - gone == now - gone;
      OkIs(g);
    }

    /** A new node stands alone; with the empty forest, which is good, this is how forests begin. */
    static method NewRoot(data: Data, ghost f: Forest, ghost rank: nat) returns (n: TiXmlNode, ghost g: Forest)
      requires Ok(f)
      ensures fresh(n) && n.data == data && n.parent == null && n !in f.lists
      ensures Ok(g) && g == WithRoot(f, n, rank)
    {
      hide *;
      OkIs(f);
      ghost var h := Snapshot(f.lists.Keys);
      n := new TiXmlNode(data);
      g := WithRoot(f, n, rank);
      RootAdded(h, f, n, rank);
      RootSnapshot(f, n);
      WithRootKeys(f, n, rank);
      OkIs(g);
    }

    /** Copies this node and, unless it is a leaf, the children: `Clone` with `CopyTo`. */
    method Clone(ghost f: Forest) returns (copy: TiXmlNode, ghost g: Forest)
      requires Ok(f) && this in f.lists && this in f.rank
      ensures Ok(g) && Cloned(f, this, g, copy) && fresh(g.lists.Keys - f.lists.Keys)
      ensures copy.parent == null && copy.data == CopiedData(data)
      decreases f.rank[this], 1
    {
      hide *;
      OkIs(f);
      ghost var h := Snapshot(f.lists.Keys);
      GoodKeys(h, f);
      var copied := CopyData(data);
      copy, g := NewRoot(copied, f, f.rank[this]);
      OkIs(f);
      OkIs(g);
      GoodKeys(Snapshot(g.lists.Keys), g);
      WithRootKeys(f, copy, f.rank[this]);
      CloneStarts(f, this, copy);
      ghost var i := 0;
      if !data.Leaf? {
        EndsOf(h, f, this);
        var node := firstChild;
        SnapshotAt(f.lists.Keys, this);
        while node != null
          invariant Ok(f) && i <= |f.lists[this]| && node == At(f.lists[this], i)
          invariant Ok(g) && PartlyCloned(f, this, i, copy, g) && fresh(g.lists.Keys - f.lists.Keys)
          invariant copy.parent == null
          decreases |f.lists[this]| - i
        {
          AtIs(f.lists[this], i);
          PartsOf(f, this, i, copy, g);
          g := copy.CopyChild(this, node, i, f, g);
          OkIs(f);
          NextIs(Snapshot(f.lists.Keys), f, this, i);
          SnapshotAt(f.lists.Keys, node);
          node := node.next;
          i := i + 1;
        }
        AtIs(f.lists[this], i);
      }
      CloneEnds(f, this, i, copy, g);
    }

    /** One step of `CopyTo`: the i-th child of n is copied and linked here. */
    method CopyChild(n: TiXmlNode, node: TiXmlNode, ghost i: nat, ghost f: Forest, ghost g: Forest) returns (ghost g2: Forest)
      requires Ok(f) && Ok(g) && n in f.lists && n in f.rank && i < |f.lists[n]| && node == f.lists[n][i]
      requires PartlyCloned(f, n, i, this, g) && this in g.lists && parent == null && this !in f.lists
      modifies g.lists.Keys - f.lists.Keys
      ensures Ok(g2) && PartlyCloned(f, n, i + 1, this, g2) && fresh(g2.lists.Keys - g.lists.Keys)
      ensures parent == null
      decreases f.rank[n], 0
    {
      hide *;
      OkIs(f);
      OkIs(g);
      GoodKeys(Snapshot(f.lists.Keys), f);
      GoodKeys(Snapshot(g.lists.Keys), g);
      PartsOf(f, n, i, this, g);
      NewRank(f, n, i, g, node);
      var kid, g1 := node.Clone(g);
      ClonedParts(g, node, g1, kid);
      ExtendsKeeps(g, g1, this);
      NewKids(f, g, this);
      RootUnlinked(g1, kid);
      SameKind(node.data);
      var linked;
      linked, g2 := LinkEndChild(kid, g1);
      OkIs(g2);
      GoodKeys(Snapshot(g2.lists.Keys), g2);
      CopyStep(f, n, i, this, g, g1, kid, g2);
    }

    /** Inserts a copy of addThis before a child. */
    method InsertBeforeChild(beforeThis: TiXmlNode?, addThis: TiXmlNode, ghost f: Forest) returns (r: TiXmlNode?, ghost g: Forest)
      requires Ok(f) && this in f.lists && addThis in f.lists && (beforeThis != null ==> beforeThis in f.lists)
      modifies `firstChild, f.lists[this]`prev, f.lists[this]`next
      ensures Ok(g)
      ensures r != null <==> beforeThis != null && old(beforeThis.parent) == this && !addThis.data.Document?
      ensures r == null ==> g == f
      ensures r != null ==> beforeThis in f.lists[this] && fresh(g.lists.Keys - f.lists.Keys)
      ensures r != null ==> Grafted(f, this, {}, PutBefore(f.lists[this], beforeThis, r), addThis, g, r)
    {
      hide *;
      if beforeThis == null || beforeThis.parent != this {
        return null, f;
      }
      if addThis.data.Document? {
        return null, f;
      }
      OkIs(f);
      GoodKeys(Snapshot(f.lists.Keys), f);
      ghost var ks := f.lists[this];
      var node, f1 := addThis.Clone(f);
      OkIs(f1);
      ClonedRoot(f, addThis, f1, node, this);
      ghost var h := Snapshot(f1.lists.Keys);
      SnapshotKeys(f1.lists.Keys);
      SnapshotAt(f1.lists.Keys, beforeThis);
      SnapshotAt(f1.lists.Keys, node);
      ChildIs(h, f1, this, beforeThis);
      ghost var i := IndexOf(ks, beforeThis);
      NeighboursAre(ks, i, i);
      InsertBeforeLinks(beforeThis, node, f1.lists.Keys);
      SnapshotKeys(f1.lists.Keys);
      AtIs(ks, i);
      PutBeforeIs(ks, beforeThis, node);
      Inserted(h, f, this, i, addThis, f1, node, Snapshot(f1.lists.Keys));
      g := Attach(f1, this, Splice(ks, i, i, [node]), node);
      OkIs(g);
      r := node;
    }

    method InsertBeforeLinks(beforeThis: TiXmlNode, node: TiXmlNode, ghost all: set<TiXmlNode>)
      requires this in all && node in all && beforeThis in all && node != beforeThis && node != beforeThis.prev && node != this
      modifies `firstChild, node`parent, node`prev, node`next, beforeThis`prev
      modifies (if beforeThis.prev == null then {} else {beforeThis.prev})`next
      ensures Rewired(old(Snapshot(all)), this, old(beforeThis.prev), beforeThis, node, Snapshot(all))
    {
      node.parent := this;
      node.next := beforeThis;
      node.prev := beforeThis.prev;
      if beforeThis.prev != null {
        beforeThis.prev.next := node;
      } else {
        firstChild := node;
      }
      beforeThis.prev := node;
    }

    /** Inserts a copy of addThis after a child. */
    method InsertAfterChild(afterThis: TiXmlNode?, addThis: TiXmlNode, ghost f: Forest) returns (r: TiXmlNode?, ghost g: Forest)
      requires Ok(f) && this in f.lists && addThis in f.lists && (afterThis != null ==> afterThis in f.lists)
      modifies `lastChild, f.lists[this]`prev, f.lists[this]`next
      ensures Ok(g)
      ensures r != null <==> afterThis != null && old(afterThis.parent) == this && !addThis.data.Document?
      ensures r == null ==> g == f
      ensures r != null ==> afterThis in f.lists[this] && fresh(g.lists.Keys - f.lists.Keys)
      ensures r != null ==> Grafted(f, this, {}, PutAfter(f.lists[this], afterThis, r), addThis, g, r)
    {
      hide *;
      if afterThis == null || afterThis.parent != this {
        return null, f;
      }
      if addThis.data.Document? {
        return null, f;
      }
      OkIs(f);
      GoodKeys(Snapshot(f.lists.Keys), f);
      ghost var ks := f.lists[this];
      var node, f1 := addThis.Clone(f);
      OkIs(f1);
      ClonedRoot(f, addThis, f1, node, this);
      ghost var h := Snapshot(f1.lists.Keys);
      SnapshotKeys(f1.lists.Keys);
      SnapshotAt(f1.lists.Keys, afterThis);
      SnapshotAt(f1.lists.Keys, node);
      ChildIs(h, f1, this, afterThis);
      ghost var i := IndexOf(ks, afterThis) + 1;
      NeighboursAre(ks, i, i);
      InsertAfterLinks(afterThis, node, f1.lists.Keys);
      SnapshotKeys(f1.lists.Keys);
      BeforeIs(ks, i);
      PutAfterIs(ks, afterThis, node);
      Inserted(h, f, this, i, addThis, f1, node, Snapshot(f1.lists.Keys));
      g := Attach(f1, this, Splice(ks, i, i, [node]), node);
      OkIs(g);
      r := node;
    }

    method InsertAfterLinks(afterThis: TiXmlNode, node: TiXmlNode, ghost all: set<TiXmlNode>)
      requires this in all && node in all && afterThis in all && node != afterThis && node != afterThis.next && node != this
      modifies `lastChild, node`parent, node`prev, node`next, afterThis`next
      modifies (if afterThis.next == null then {} else {afterThis.next})`prev
      ensures Rewired(old(Snapshot(all)), this, afterThis, old(afterThis.next), node, Snapshot(all))
    {
      node.parent := this;
      node.prev := afterThis;
      node.next := afterThis.next;
      if afterThis.next != null {
        afterThis.next.prev := node;
      } else {
        lastChild := node;
      }
      afterThis.next := node;
    }

    /** Appends a copy of addThis. */
    method InsertEndChild(addThis: TiXmlNode, ghost f: Forest) returns (r: TiXmlNode?, ghost g: Forest)
      requires Ok(f) && this in f.lists && addThis in f.lists
      modifies `firstChild, `lastChild, f.lists[this]`next
      ensures Ok(g)
      ensures r != null <==> !addThis.data.Document?
      ensures r == null ==> g == f
      ensures r != null ==> fresh(g.lists.Keys - f.lists.Keys)
      ensures r != null ==> Grafted(f, this, {}, PutLast(f.lists[this], r), addThis, g, r)
    {
      hide *;
      if addThis.data.Document? {
        return null, f;
      }
      OkIs(f);
      GoodKeys(Snapshot(f.lists.Keys), f);
      ghost var ks := f.lists[this];
      var node, f1 := addThis.Clone(f);
      ClonedRoot(f, addThis, f1, node, this);
      RootUnlinked(f1, node);
      SameKind(addThis.data);
      r, g := LinkEndChild(node, f1);
      OkIs(g);
      GoodKeys(Snapshot(g.lists.Keys), g);
      EndGraft(f, this, addThis, f1, node, g);
    }

    /** Puts a copy of withThis, which may be a document here, in the place of a child. */
    method ReplaceChild(replaceThis: TiXmlNode, withThis: TiXmlNode, ghost f: Forest) returns (r: TiXmlNode?, ghost g: Forest)
      requires Ok(f) && this in f.lists && replaceThis in f.lists && withThis in f.lists
      modifies `firstChild, `lastChild, f.lists[this]`prev, f.lists[this]`next
      ensures Ok(g)
      ensures r != null <==> old(replaceThis.parent) == this
      ensures r == null ==> g == f
      ensures r != null ==> replaceThis in f.lists[this] && fresh(g.lists.Keys - f.lists.Keys)
      ensures r != null ==>
        Grafted(f, this, Family(f, replaceThis), PutFor(f.lists[this], replaceThis, r), withThis, g, r)
    {
      hide *;
      OkIs(f);
      GoodKeys(Snapshot(f.lists.Keys), f);
      if replaceThis.parent != this {
        return null, f;
      }
      var node, f1 := withThis.Clone(f);
      OkIs(f1);
      ClonedRoot(f, withThis, f1, node, this);
      SnapshotKeys(f1.lists.Keys);
      SnapshotAt(f1.lists.Keys, replaceThis);
      ChildIs(Snapshot(f1.lists.Keys), f1, this, replaceThis);
      g := Swap(replaceThis, node, f, withThis, f1);
      r := node;
    }

    /** The new node, a fresh copy of src, takes the child's place; the child is deleted, and the copy is adopted last. */
    method Swap(replaceThis: TiXmlNode, node: TiXmlNode, ghost f: Forest, ghost src: TiXmlNode, ghost f1: Forest) returns (ghost g: Forest)
      requires Cloned(f, src, f1, node) && this in f.lists && this in f1.lists && Ok(f1) && node in f1.lists && node.parent == null
      requires replaceThis in f.lists && replaceThis in f.lists[this] && f1.lists[this] == f.lists[this]
      modifies `firstChild, `lastChild, node`parent, node`prev, node`next, f.lists[this]`prev, f.lists[this]`next
      ensures Ok(g) && Closed(f) && g.lists.Keys <= f1.lists.Keys
      ensures Grafted(f, this, Family(f, replaceThis), PutFor(f.lists[this], replaceThis, node), src, g, node)
    {
      hide *;
      OkIs(f1);
      ghost var all := f1.lists.Keys;
      ghost var ks, h := f.lists[this], Snapshot(all);
      ghost var i := IndexOf(ks, replaceThis);
      OldFamilyOf(f, src, f1, node, replaceThis);
      ClonedRoot(f, src, f1, node, this);
      SnapshotKeys(all);
      SnapshotAt(all, replaceThis);
      SnapshotAt(all, node);
      SwapIs(h, f1, this, i, node);
      ReplaceLinks(replaceThis, node, all);
      SnapshotKeys(all);
      ghost var now := Snapshot(all);
      WithParentIs(now, node, this);
      KidDeletable(h, f1, this, i, node, WithParent(now, node, this), now);
      var d := replaceThis.Delete(f1, {});
      assert d == Family(f, replaceThis);
      node.Adopt(this, all);
      PutForIs(ks, replaceThis, node);
      Replaced(h, f, this, i, src, f1, node, Snapshot(all));
      SnapshotMinus(all, d);
      g := Minus(Attach(f1, this, Splice(ks, i, i + 1, [node]), node), d);
      OkIs(g);
    }

    method ReplaceLinks(replaceThis: TiXmlNode, node: TiXmlNode, ghost all: set<TiXmlNode>)
      requires this in all && node in all && replaceThis in all && node != replaceThis && node != this
      requires node != replaceThis.prev && node != replaceThis.next
      requires replaceThis.prev != replaceThis && replaceThis.next != replaceThis
      modifies `firstChild, `lastChild, node`prev, node`next
      modifies (if replaceThis.next == null then {} else {replaceThis.next})`prev
      modifies (if replaceThis.prev == null then {} else {replaceThis.prev})`next
      ensures node in Snapshot(all)
      ensures Rewired(old(Snapshot(all)), this, old(replaceThis.prev), old(replaceThis.next), node, WithParent(Snapshot(all), node, this))
    {
      node.next := replaceThis.next;
      node.prev := replaceThis.prev;
      if replaceThis.next != null {
        replaceThis.next.prev := node;
      } else {
        lastChild := node;
      }
      if replaceThis.prev != null {
        replaceThis.prev.next := node;
      } else {
        firstChild := node;
      }
      ghost var h' := WithParent(Snapshot(all), node, this);
      forall c | c in all
        ensures RewiredAt(old(Snapshot(all)), this, old(replaceThis.prev), old(replaceThis.next), node, h', c)
      {}
    }

    method Adopt(p: TiXmlNode, ghost all: set<TiXmlNode>)
      requires this in all
      modifies `parent
      ensures this in old(Snapshot(all)) && Snapshot(all) == WithParent(old(Snapshot(all)), this, p)
    {
      parent := p;
    }

    /** Takes out a child, with all below it. */
    method RemoveChild(removeThis: TiXmlNode, ghost f: Forest) returns (ok: bool, ghost g: Forest)
      requires Ok(f) && this in f.lists && removeThis in f.lists
      modifies `firstChild, `lastChild, f.lists[this]`prev, f.lists[this]`next
      ensures Ok(g)
      ensures ok <==> old(removeThis.parent) == this
      ensures !ok ==> g == f
      ensures ok ==> removeThis in f.lists[this]
      ensures ok ==> g == Minus(Forest(f.lists[this := Without(f.lists[this], removeThis)], f.rank), Family(f, removeThis))
    {
      hide *;
      if removeThis.parent != this {
        return false, f;
      }
      OkIs(f);
      ghost var h := Snapshot(f.lists.Keys);
      GoodKeys(h, f);
      SnapshotKeys(f.lists.Keys);
      SnapshotAt(f.lists.Keys, removeThis);
      ChildIs(h, f, this, removeThis);
      ghost var ks := f.lists[this];
      ghost var i := IndexOf(ks, removeThis);
      NeighboursAre(ks, i, i + 1);
      RemoveLinks(removeThis, f.lists.Keys);
      SnapshotKeys(f.lists.Keys);
      WithoutIs(ks, removeThis);
      OptionalIs(null);
      ShrinkClosed(f, this, i);
      ghost var base := Forest(f.lists[this := Without(ks, removeThis)], f.rank);
      ghost var now := Snapshot(f.lists.Keys);
      KidDeletable(h, f, this, i, null, now, now);
      var d := removeThis.Delete(f, {});
      assert d == Family(f, removeThis);
      Exchanged(h, f, this, i, null, base, now);
      g := Minus(base, d);
      MinusSnapshot(f, this, Without(ks, removeThis), base, removeThis);
      OkIs(g);
      ok := true;
    }

    method RemoveLinks(removeThis: TiXmlNode, ghost all: set<TiXmlNode>)
      requires this in all && removeThis in all && removeThis.prev != removeThis && removeThis.next != removeThis
      modifies `firstChild, `lastChild
      modifies (if removeThis.next == null then {} else {removeThis.next})`prev
      modifies (if removeThis.prev == null then {} else {removeThis.prev})`next
      ensures Rewired(old(Snapshot(all)), this, old(removeThis.prev), old(removeThis.next), null, Snapshot(all))
    {
      if removeThis.next != null {
        removeThis.next.prev := removeThis.prev;
      } else {
        lastChild := removeThis.prev;
      }
      if removeThis.prev != null {
        removeThis.prev.next := removeThis.next;
      } else {
        firstChild := removeThis.next;
      }
    }

    /** The pointers of `LinkEndChild`. */
    method AppendLinks(node: TiXmlNode, ghost all: set<TiXmlNode>)
      requires this in all && node in all && node != lastChild && node != this
      modifies `firstChild, `lastChild, node`parent, node`prev, node`next
      modifies (if lastChild == null then {} else {lastChild})`next
      ensures Rewired(old(Snapshot(all)), this, old(lastChild), null, node, Snapshot(all))
    {
      node.parent := this;
      node.prev := lastChild;
      node.next := null;
      if lastChild != null {
        lastChild.next := node;
      } else {
        firstChild := node;
      }
      lastChild := node;
    }
  }
}
