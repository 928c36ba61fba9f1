/**
  MT19937 as published: the distances of the recurrence, the words of the reference seed 5489, and the two loops of the
  seeding by an array as one recurrence.
  */
module MersenneReference {
  import opened MersenneTwister
  import opened MersenneWords
  import Arith

  /** The recurrence with its published distances. */
  lemma RecurrenceIs(init: seq<Word>, k: nat)
    requires |init| == 624 && k >= 624
    ensures X(init, k) == X(init, k - 227) ^ Twist(Blend(X(init, k - 624), X(init, k - 623)))
  {
    Recurrence(init, k);
    FeedIs(X(init, k - 227), X(init, k - 624), X(init, k - 623));
    hide *;
  }

  lemma FeedIs(far: Word, u: Word, l: Word)
    ensures Feed(far, u, l) == far ^ Twist(Blend(u, l))
  {
    hide Twist, Blend;
  }

  /** The first words of the state after seeding with 5489. */
  lemma ReferenceSeed()
    ensures SeedWord(5489, 0) == 5489 && SeedWord(5489, 1) == 1301868182 && SeedWord(5489, 2) == 2938499221
    ensures SeedWord(5489, 3) == 2950281878 && SeedWord(5489, 4) == 1875628136
  {
  }

  // ---- Seeding by an array ----

  lemma MixingIs(here: Word, before: Word, key: Word, j: Word)
    ensures KeyMix(here, before, key, j) == (here ^ ((before ^ (before >> 30)) * 1664525)) + key + j
    ensures IndexMix(here, before, j) == (here ^ ((before ^ (before >> 30)) * 1566083941)) - j
  {
  }

  /** The first mixing of the published test key 0x123, 0x234, 0x345, 0x456. */
  lemma ReferenceMix()
    ensures KeyMix(SeedWord(19650218, 1), SeedWord(19650218, 0), 0x123, 0) == 0xFF890AD4
  {
  }

  /** Number of rounds of the loop over the key. */
  function KeyLoop(seeds: seq<Word>): nat { if |seeds| < 624 then 624 else |seeds| }

  /** The array place that round r works on; the rounds go round the places 1 to 623. */
  function PlaceOf(r: nat): nat
    requires r > 0
  {
    (r - 1) % 623 + 1
  }

  /**
    What round r of both loops together puts in its place: the word left there 623 rounds ago, mixed with the word of the
    round before, and with the key or, later, with the place.
    */
  function Mixed(seeds: seq<Word>, r: nat): Word
    requires 0 < |seeds| < 0x8000_0000
  {
    if r == 0 then SeedWord(19650218, 0)
    else
      var here := if r <= 623 then SeedWord(19650218, PlaceOf(r)) else Mixed(seeds, r - 623);
      var before := Mixed(seeds, r - 1);
      var j := (r - 1) % |seeds|;
      if r <= KeyLoop(seeds) then KeyMix(here, before, seeds[j], Number(j))
      else IndexMix(here, before, Number(PlaceOf(r)))
  }

  /** The word in place p after n rounds. */
  function WordAt(seeds: seq<Word>, n: nat, p: nat): Word
    requires 0 < |seeds| < 0x8000_0000 && p < 624
  {
    if n < p then SeedWord(19650218, p) else Mixed(seeds, p + (n - p) / 623 * 623)
  }

  /** The array after n rounds. */
  ghost predicate After(seeds: seq<Word>, n: nat, m: Mixing)
    requires 0 < |seeds| < 0x8000_0000
  {
    && m.Ok(|seeds|) && m.i == n % 623 + 1
    && (forall p :: 1 <= p < 624 ==> m.words[p] == WordAt(seeds, n, p))
    && m.words[m.i - 1] == Mixed(seeds, n)
  }

  lemma WordHere(seeds: seq<Word>, n: nat)
    requires 0 < |seeds| < 0x8000_0000
    ensures PlaceOf(n + 1) == n % 623 + 1 && WordAt(seeds, n + 1, n % 623 + 1) == Mixed(seeds, n + 1)
    ensures WordAt(seeds, n, n % 623 + 1) == if n < 623 then SeedWord(19650218, n % 623 + 1) else Mixed(seeds, n + 1 - 623)
  {
    hide Mixed, SeedWord;
    var p := n % 623 + 1;
    assert n + 1 - p == n / 623 * 623;
    if n >= 623 { assert (n - p) / 623 == n / 623 - 1; }
  }

  lemma WordElsewhere(seeds: seq<Word>, n: nat, p: nat)
    requires 0 < |seeds| < 0x8000_0000 && 1 <= p < 624 && p != n % 623 + 1
    ensures WordAt(seeds, n + 1, p) == WordAt(seeds, n, p)
  {
    hide Mixed, SeedWord;
    if n >= p { assert (n + 1 - p) / 623 == (n - p) / 623; }
  }

  lemma AfterParts(seeds: seq<Word>, n: nat, m: Mixing)
    requires 0 < |seeds| < 0x8000_0000 && After(seeds, n, m)
    ensures m.Ok(|seeds|) && |m.words| == 624 && m.i == n % 623 + 1 && m.words[m.i - 1] == Mixed(seeds, n)
    ensures forall p :: 1 <= p < 624 ==> m.words[p] == WordAt(seeds, n, p)
  {
    hide Mixed, WordAt;
  }

  lemma IsAfter(seeds: seq<Word>, n: nat, m: Mixing)
    requires 0 < |seeds| < 0x8000_0000 && m.Ok(|seeds|) && |m.words| == 624 && m.i == n % 623 + 1 && m.words[m.i - 1] == Mixed(seeds, n)
    requires forall p :: 1 <= p < 624 ==> m.words[p] == WordAt(seeds, n, p)
    ensures After(seeds, n, m)
  {
    hide Mixed, WordAt;
  }

  lemma PutIs(m: Mixing, w: Word, next: nat, keys: nat)
    requires m.Ok(keys) && |m.words| == 624 && next < keys
    ensures var r := m.Put(w, next, keys);
      && |r.words| == 624 && r.j == next && r.i == (if m.i == 623 then 1 else m.i + 1) && r.words[m.i] == w && r.words[r.i - 1] == w
      && forall p :: 1 <= p < 624 && p != m.i ==> r.words[p] == m.words[p]
  {
  }

  /** One round. */
  lemma OneRound(seeds: seq<Word>, n: nat, m: Mixing, w: Word, next: nat)
    requires 0 < |seeds| < 0x8000_0000 && After(seeds, n, m) && w == Mixed(seeds, n + 1) && next < |seeds|
    ensures m.Ok(|seeds|) && After(seeds, n + 1, m.Put(w, next, |seeds|))
  {
    hide *;
    AfterParts(seeds, n, m);
    WordHere(seeds, n);
    PutIs(m, w, next, |seeds|);
    var r := m.Put(w, next, |seeds|);
    forall p | 1 <= p < 624 ensures r.words[p] == WordAt(seeds, n + 1, p) {
      if p != m.i { WordElsewhere(seeds, n, p); }
    }
    IsAfter(seeds, n + 1, r);
  }

  lemma MixedIs(seeds: seq<Word>, r: nat)
    requires 0 < |seeds| < 0x8000_0000 && r > 0
    ensures var here := if r <= 623 then SeedWord(19650218, PlaceOf(r)) else Mixed(seeds, r - 623);
      var j := (r - 1) % |seeds|;
      Mixed(seeds, r) == if r <= KeyLoop(seeds) then KeyMix(here, Mixed(seeds, r - 1), seeds[j], Number(j))
                         else IndexMix(here, Mixed(seeds, r - 1), Number(PlaceOf(r)))
  {
    hide KeyMix, IndexMix, SeedWord, Number, KeyLoop;
  }

  lemma KeyWordIs(m: Mixing, seeds: seq<Word>)
    requires m.Ok(|seeds|) && |seeds| < 0x8000_0000
    ensures |m.words| == 624 && 1 <= m.i < 624 && m.j < |seeds|
    ensures KeyWord(m, seeds) == KeyMix(m.words[m.i], m.words[m.i - 1], seeds[m.j], Number(m.j))
    ensures IndexWord(m, |seeds|) == IndexMix(m.words[m.i], m.words[m.i - 1], Number(m.i))
  {
    hide KeyMix, IndexMix, Number;
  }

  lemma KeyRound(seeds: seq<Word>, n: nat, m: Mixing)
    requires 0 < |seeds| < 0x8000_0000 && After(seeds, n, m) && n < KeyLoop(seeds) && m.j == n % |seeds|
    ensures m.Ok(|seeds|) && KeyWord(m, seeds) == Mixed(seeds, n + 1)
  {
    hide *;
    AfterParts(seeds, n, m);
    WordHere(seeds, n);
    MixedIs(seeds, n + 1);
    KeyWordIs(m, seeds);
  }

  lemma IndexRound(seeds: seq<Word>, n: nat, m: Mixing)
    requires 0 < |seeds| < 0x8000_0000 && After(seeds, n, m) && n >= KeyLoop(seeds)
    ensures m.Ok(|seeds|) && IndexWord(m, |seeds|) == Mixed(seeds, n + 1)
  {
    hide *;
    AfterParts(seeds, n, m);
    WordHere(seeds, n);
    MixedIs(seeds, n + 1);
    KeyWordIs(m, seeds);
  }

  lemma NextKeyIs(n: nat, keys: nat)
    requires keys > 0
    ensures NextKey(n % keys, keys) == (n + 1) % keys
  {
    Arith.NextRemainder(n, keys);
  }

  lemma AtStart(seeds: seq<Word>)
    requires 0 < |seeds| < 0x8000_0000
    ensures var start := Mixing(Seeded(19650218), 1, 0); start.Ok(|seeds|) && After(seeds, 0, start) && KeyRounds(0, start, seeds) == start
  {
    hide SeedWord;
  }

  lemma {:induction false} AfterKey(seeds: seq<Word>, n: nat)
    requires 0 < |seeds| < 0x8000_0000 && n <= KeyLoop(seeds)
    ensures var start := Mixing(Seeded(19650218), 1, 0);
      start.Ok(|seeds|) && After(seeds, n, KeyRounds(n, start, seeds)) && KeyRounds(n, start, seeds).j == n % |seeds|
  {
    hide *;
    var start := Mixing(Seeded(19650218), 1, 0);
    AtStart(seeds);
    if n > 0 {
      AfterKey(seeds, n - 1);
      var m := KeyRounds(n - 1, start, seeds);
      KeyRound(seeds, n - 1, m);
      NextKeyIs(n - 1, |seeds|);
      KeyRoundsNext(n - 1, start, seeds);
      OneRound(seeds, n - 1, m, KeyWord(m, seeds), NextKey(m.j, |seeds|));
      AfterParts(seeds, n - 1, m);
      PutIs(m, KeyWord(m, seeds), NextKey(m.j, |seeds|), |seeds|);
    }
  }

  lemma NoIndexRound(m: Mixing, keys: nat)
    requires m.Ok(keys)
    ensures IndexRounds(0, m, keys) == m
  {
  }

  lemma {:induction false} AfterIndex(seeds: seq<Word>, k: nat, keyed: Mixing)
    requires 0 < |seeds| < 0x8000_0000 && keyed.Ok(|seeds|) && After(seeds, KeyLoop(seeds), keyed)
    ensures After(seeds, KeyLoop(seeds) + k, IndexRounds(k, keyed, |seeds|))
    decreases k
  {
    hide *;
    var n := KeyLoop(seeds);
    if k == 0 {
      NoIndexRound(keyed, |seeds|);
    } else {
      AfterIndex(seeds, k - 1, keyed);
      var m := IndexRounds(k - 1, keyed, |seeds|);
      IndexRound(seeds, n + k - 1, m);
      IndexRoundsNext(k - 1, keyed, |seeds|);
      AfterParts(seeds, n + k - 1, m);
      JStays(m, |seeds|);
      OneRound(seeds, n + k - 1, m, IndexWord(m, |seeds|), m.j);
    }
  }

  lemma JStays(m: Mixing, keys: nat)
    requires m.Ok(keys)
    ensures m.j < keys
  {
  }

  lemma ArrayIs(seeds: seq<Word>, keyed: Mixing)
    requires 0 < |seeds| < 0x8000_0000 && keyed.Ok(|seeds|)
    requires var start := Mixing(Seeded(19650218), 1, 0); start.Ok(|seeds|) && keyed == KeyRounds(KeyLoop(seeds), start, seeds)
    ensures |IndexRounds(623, keyed, |seeds|).words| == 624
    ensures ArraySeeded(seeds) == IndexRounds(623, keyed, |seeds|).words[0 := 0x80000000]
  {
    hide Seeded, KeyRounds, IndexRounds;
  }

  /** Both loops are one recurrence: for a key of any length, word p of the array is that of the last round at place p. */
  lemma ArraySeededIs(seeds: seq<Word>, p: nat)
    requires 0 < |seeds| < 0x8000_0000 && p < 624
    ensures var n := (if |seeds| < 624 then 624 else |seeds|) + 623;
      ArraySeeded(seeds)[p] == if p == 0 then 0x80000000 else Mixed(seeds, p + (n - p) / 623 * 623)
  {
    hide Mixed, KeyRounds, IndexRounds, ArraySeeded, Seeded, After, Mixing.Ok;
    var n := KeyLoop(seeds);
    AtStart(seeds);
    AfterKey(seeds, n);
    var keyed := KeyRounds(n, Mixing(Seeded(19650218), 1, 0), seeds);
    AfterIndex(seeds, 623, keyed);
    ArrayIs(seeds, keyed);
    AfterParts(seeds, n + 623, IndexRounds(623, keyed, |seeds|));
  }
}
