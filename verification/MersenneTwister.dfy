/**
  The Mersenne Twister MT19937: block regeneration in place against the infinite recurrence, and the exactly
  uniform integer generator.
  */
module MersenneTwister {
  import opened Arith
  import opened MersenneWords

  const N: nat := 624
  const M: nat := 397

  // ---------------------------------------------------------------- the recurrence

  function Feed(far: Word, u: Word, l: Word): Word { far ^ Twist(Blend(u, l)) }

  /** x[k + N] = x[k + M] xor twist of (upper(x[k]) | lower(x[k + 1])), from N initial words. */
  function X(init: seq<Word>, k: nat): Word
    requires |init| == N
  {
    if k < N then init[k] else Feed(X(init, k - N + M), X(init, k - N), X(init, k - N + 1))
  }

  function SeedStep(prev: Word, i: nat): Word
    requires i < N
  {
    1812433253 * (prev ^ (prev >> 30)) + i as Word
  }

  /** The words that a 32-bit seed expands to. */
  function SeedWord(seed: Word, i: nat): Word
    requires i < N
  {
    if i == 0 then seed else SeedStep(SeedWord(seed, i - 1), i)
  }

  lemma SeedNext(seed: Word, i: nat)
    requires 0 < i < N
    ensures SeedWord(seed, i) == SeedStep(SeedWord(seed, i - 1), i)
  {
  }

  function Seeded(seed: Word): (init: seq<Word>)
    ensures |init| == N
  {
    seq(N, i requires 0 <= i < N => SeedWord(seed, i))
  }

  lemma Recurrence(init: seq<Word>, k: nat)
    requires |init| == N && k >= N
    ensures X(init, k) == Feed(X(init, k - N + M), X(init, k - N), X(init, k - N + 1))
  {
  }

  lemma FirstGeneration(init: seq<Word>)
    requires |init| == N
    ensures forall i :: 0 <= i < N ==> X(init, i) == init[i]
  {
  }

  // ---------------------------------------------------------------- seeding by an array

  /** The array being mixed, with the places in it and in the key. */
  datatype Mixing = Mixing(words: seq<Word>, i: nat, j: nat) {
    predicate Ok(keys: nat) { |words| == N && 1 <= i < N && j < keys }

    /** The word at the place is replaced; at the end of the array its last word is carried to the front. */
    function Put(w: Word, next: nat, keys: nat): (m: Mixing)
      requires Ok(keys) && next < keys
      ensures m.Ok(keys)
    {
      var mixed := words[i := w];
      if i + 1 >= N then Mixing(mixed[0 := mixed[N - 1]], 1, next) else Mixing(mixed, i + 1, next)
    }
  }

  function Number(n: nat): Word
    requires n < 0x8000_0000
  {
    n as Word
  }

  function KeyMix(here: Word, before: Word, key: Word, j: Word): Word {
    (here ^ ((before ^ (before >> 30)) * 1664525)) + key + j
  }

  function IndexMix(here: Word, before: Word, i: Word): Word { (here ^ ((before ^ (before >> 30)) * 1566083941)) - i }

  function KeyWord(m: Mixing, seeds: seq<Word>): Word
    requires m.Ok(|seeds|) && |seeds| < 0x8000_0000
  {
    KeyMix(m.words[m.i], m.words[m.i - 1], seeds[m.j], Number(m.j))
  }

  function IndexWord(m: Mixing, keys: nat): Word
    requires m.Ok(keys)
  {
    IndexMix(m.words[m.i], m.words[m.i - 1], Number(m.i))
  }

  function NextKey(j: nat, keys: nat): nat { if j + 1 >= keys then 0 else j + 1 }

  /** n rounds that mix in the key. */
  function KeyRounds(n: nat, start: Mixing, seeds: seq<Word>): (m: Mixing)
    requires start.Ok(|seeds|) && |seeds| < 0x8000_0000
    ensures m.Ok(|seeds|)
  {
    if n == 0 then start
    else var m := KeyRounds(n - 1, start, seeds); m.Put(KeyWord(m, seeds), NextKey(m.j, |seeds|), |seeds|)
  }

  /** n rounds that mix in the index. */
  function IndexRounds(n: nat, start: Mixing, keys: nat): (m: Mixing)
    requires start.Ok(keys)
    ensures m.Ok(keys)
  {
    if n == 0 then start
    else var m := IndexRounds(n - 1, start, keys); m.Put(IndexWord(m, keys), m.j, keys)
  }

  lemma KeyRoundsNext(n: nat, start: Mixing, seeds: seq<Word>)
    requires start.Ok(|seeds|) && |seeds| < 0x8000_0000
    ensures var m := KeyRounds(n, start, seeds);
      KeyRounds(n + 1, start, seeds) == m.Put(KeyWord(m, seeds), NextKey(m.j, |seeds|), |seeds|)
  {
    hide KeyWord, Mixing.Put;
  }

  lemma IndexRoundsNext(n: nat, start: Mixing, keys: nat)
    requires start.Ok(keys)
    ensures var m := IndexRounds(n, start, keys); IndexRounds(n + 1, start, keys) == m.Put(IndexWord(m, keys), m.j, keys)
  {
    hide IndexWord, Mixing.Put;
  }

  /** The array that a key of any length expands to. */
  function ArraySeeded(seeds: seq<Word>): (init: seq<Word>)
    requires 0 < |seeds| < 0x8000_0000
    ensures |init| == N && init[0] == 0x80000000
  {
    var keyed := KeyRounds(if N > |seeds| then N else |seeds|, Mixing(Seeded(19650218), 1, 0), seeds);
    IndexRounds(N - 1, keyed, |seeds|).words[0 := 0x80000000]
  }

  // ---------------------------------------------------------------- multiply and reject

  const TWO32: nat := 0x1_0000_0000

  /** `uint32(2^32 / n) * n - 1` in 32-bit arithmetic. */
  function RejectLimit(n: nat): nat
    requires n > 0
  {
    (TWO32 / n % TWO32 * n % TWO32 - 1) % TWO32
  }

  predicate Accepted(w: nat, n: nat)
    requires n > 0
  {
    w * n % TWO32 <= RejectLimit(n)
  }

  function Scaled(w: nat, n: nat): nat { w * n / TWO32 }

  /** The 32-bit words that are accepted and give v. */
  ghost function WordsFor(v: nat, n: nat): set<int>
    requires n > 0
  {
    set w: int | 0 <= w < TWO32 && Accepted(w, n) && Scaled(w, n) == v
  }

  lemma DivBounds(t: nat, n: nat)
    requires 2 <= n < t
    ensures var q := t / n; 1 <= q && q * n <= t < q * n + n && 2 * q <= t
  {
    var q := t / n;
    DivMod(t, n);
    MulMono(2, n, q);
    assert q * n == n * q;
  }

  lemma {:induction false} LimitIsLargestMultiple(n: nat)
    requires 2 <= n < TWO32
    ensures var q := TWO32 / n; 1 <= q && q * n <= TWO32 < q * n + n && RejectLimit(n) == q * n - 1
  {
    DivBounds(TWO32, n);
    WrappedLimit(TWO32 / n * n);
  }

  lemma WrappedLimit(p: nat)
    requires 1 <= p <= TWO32
    ensures (p % TWO32 - 1) % TWO32 == p - 1
  {
  }

  lemma CeilDiv(bound: nat, n: nat, w: int)
    requires n > 0
    ensures w * n >= bound <==> w >= (bound + n - 1) / n
  {
    var lo := (bound + n - 1) / n;
    DivMod(bound + n - 1, n);
    Distribute(lo, 1, n);
    if w >= lo { MulMono(lo, w, n); } else { MulMono(w, lo - 1, n); }
  }

  ghost function Interval(lo: int, size: nat): (s: set<int>)
    ensures |s| == size
    ensures forall w :: w in s <==> lo <= w < lo + size
  {
    if size == 0 then {} else Interval(lo, size - 1) + {lo + size - 1}
  }

  /** A word is accepted with value v exactly when its product falls in v's window of q * n numbers. */
  lemma {:induction false} AcceptedWindow(w: nat, n: nat, v: nat)
    requires 2 <= n < TWO32
    ensures Accepted(w, n) && Scaled(w, n) == v
            <==> v * TWO32 <= w * n < v * TWO32 + TWO32 / n * n
  {
    LimitIsLargestMultiple(n);
    hide RejectLimit;
    ProductWindow(w * n, v, TWO32 / n * n);
  }

  lemma ProductWindow(p: nat, v: nat, k: nat)
    requires 1 <= k <= TWO32
    ensures p % TWO32 <= k - 1 && p / TWO32 == v <==> v * TWO32 <= p < v * TWO32 + k
  {
  }

  lemma Below(w: nat, n: nat)
    requires w * n < n * TWO32
    ensures w < TWO32
  {
    if w >= TWO32 { MulMono(TWO32, w, n); }
  }

  lemma {:induction false} InWindow(w: nat, n: nat, v: nat)
    requires 2 <= n < TWO32 && v < n
    ensures w < TWO32 && Accepted(w, n) && Scaled(w, n) == v
            <==> (v * TWO32 + n - 1) / n <= w < (v * TWO32 + n - 1) / n + TWO32 / n
  {
    hide Accepted, Scaled, RejectLimit;
    var q, bound := TWO32 / n, v * TWO32;
    CeilDiv(bound, n, w);
    CeilDiv(bound, n, w - q);
    assert (w - q) * n == w * n - q * n;
    LimitIsLargestMultiple(n);
    AcceptedWindow(w, n, v);
    assert bound + q * n <= n * TWO32;
    if w * n < n * TWO32 { Below(w, n); }
  }

  ghost function Window(n: nat, v: nat): (s: set<int>)
    requires n > 0
    ensures |s| == TWO32 / n
    ensures forall w :: w in s <==> (v * TWO32 + n - 1) / n <= w < (v * TWO32 + n - 1) / n + TWO32 / n
  {
    Interval((v * TWO32 + n - 1) / n, TWO32 / n)
  }

  lemma InWords(w: int, n: nat, v: nat)
    requires n > 0
    ensures w in WordsFor(v, n) <==> 0 <= w < TWO32 && Accepted(w, n) && Scaled(w, n) == v
  {
    hide Accepted, Scaled;
  }

  /** Exact uniformity: every value of an interval of length n is given by the same number of words. */
  lemma {:induction false} Uniform(n: nat, v: nat)
    requires 2 <= n < TWO32 && v < n
    ensures |WordsFor(v, n)| == TWO32 / n
  {
    hide *;
    var window, words := Window(n, v), WordsFor(v, n);
    forall w: int ensures w in words <==> w in window {
      InWords(w, n, v);
      if w >= 0 { InWindow(w, n, v); }
    }
    assert words == window;
  }

  lemma QuotientBelow(p: nat, n: nat)
    requires p < n * TWO32
    ensures p / TWO32 < n
  {
  }

  /** Every word gives a value of the interval. */
  lemma ScaledInRange(w: nat, n: nat)
    requires w < TWO32 && n > 0
    ensures Scaled(w, n) < n
  {
    MulMono(w + 1, TWO32, n);
    Distribute(w, 1, n);
    QuotientBelow(w * n, n);
  }

  // ---------------------------------------------------------------- the generator

  class CRandomMersenne {
    const mt: array<Word>
    var mti: nat
    var lastInterval: nat
    var rLimit: nat
    ghost var init: seq<Word>
    ghost var generation: nat

    /** The array is one generation of the recurrence, and the reject limit belongs to the last interval. */
    ghost predicate Valid()
      reads this, mt
    {
      && mt.Length == N && |init| == N && mti <= N
      && (forall i :: 0 <= i < N ==> mt[i] == X(init, N * generation + i))
      && (lastInterval != 0 ==> rLimit == RejectLimit(lastInterval))
    }

    /** Index in the recurrence of the next word to be tempered. */
    ghost function Position(): nat
      reads this
    {
      N * generation + mti
    }

    constructor (seed: Word)
      ensures Valid() && fresh(mt) && init == Seeded(seed) && Position() == N + 37 && lastInterval == 0
    {
      mt := new Word[N];
      mti, lastInterval, rLimit, generation := 0, 0, 0, 0;
      init := Seeded(seed);
      new;
      RandomInit(seed);
      lastInterval := 0;
    }

    /** `Init0` */
    method Init0(seed: Word)
      requires mt.Length == N && (lastInterval != 0 ==> rLimit == RejectLimit(lastInterval))
      modifies mt, `mti, `init, `generation
      ensures Valid() && init == Seeded(seed) && Position() == N && generation == 0
    {
      hide X, RejectLimit, SeedWord;
      Expand(seed);
      init, generation := Seeded(seed), 0;
      FirstGeneration(init);
    }

    /** The seeding loop. */
    method Expand(seed: Word)
      requires mt.Length == N
      modifies mt, `mti
      ensures mti == N && forall i :: 0 <= i < N ==> mt[i] == SeedWord(seed, i)
    {
      hide SeedStep;
      mt[0] := seed;
      mti := 1;
      while mti < N
        invariant 1 <= mti <= N
        invariant forall i :: 0 <= i < mti ==> mt[i] == SeedWord(seed, i)
      {
        SeedNext(seed, mti);
        mt[mti] := SeedStep(mt[mti - 1], mti);
        mti := mti + 1;
      }
    }

    method RandomInit(seed: Word)
      requires mt.Length == N && (lastInterval != 0 ==> rLimit == RejectLimit(lastInterval))
      modifies mt, `mti, `init, `generation
      ensures Valid() && init == Seeded(seed) && Position() == N + 37
    {
      Init0(seed);
      for i := 0 to 37
        invariant Valid() && init == Seeded(seed) && Position() == N + i
      {
        var y := BRandom();
      }
    }

    /** One round: the word at place i is replaced. */
    method PutWord(w: Word, i: nat, ghost m: Mixing, ghost k: nat, ghost keys: nat) returns (next: nat)
      requires mt.Length == N && m.Ok(keys) && k < keys && m.words == mt[..] && m.i == i
      modifies mt
      ensures Mixing(mt[..], next, k) == m.Put(w, k, keys)
    {
      mt[i] := w;
      next := i + 1;
      if next >= N {
        mt[0] := mt[N - 1];
        next := 1;
      }
    }

    /** One round of the key loop. */
    method MixKeyWord(seeds: array<Word>, i: nat, j: nat, ghost m: Mixing) returns (next: nat)
      requires mt.Length == N && mt != seeds && seeds.Length < 0x8000_0000
      requires m == Mixing(mt[..], i, j) && m.Ok(seeds.Length)
      modifies mt
      ensures Mixing(mt[..], next, NextKey(j, seeds.Length))
              == m.Put(KeyWord(m, seeds[..]), NextKey(j, seeds.Length), seeds.Length)
    {
      hide KeyMix, Number, Mixing.Put;
      var w := KeyMix(mt[i], mt[i - 1], seeds[j], Number(j));
      next := PutWord(w, i, m, NextKey(j, seeds.Length), seeds.Length);
    }

    /** The loop over the key, at least N rounds long. */
    method MixKey(seeds: array<Word>) returns (i: nat, ghost j: nat)
      requires mt.Length == N && mt != seeds && 0 < seeds.Length < 0x8000_0000
      modifies mt
      ensures Mixing(mt[..], i, j)
              == KeyRounds(if N > seeds.Length then N else seeds.Length, Mixing(old(mt[..]), 1, 0), seeds[..])
    {
      ghost var start := Mixing(mt[..], 1, 0);
      var rounds := if N > seeds.Length then N else seeds.Length;
      var jj := 0;
      i := 1;
      assert KeyRounds(0, start, seeds[..]) == start;
      hide KeyRounds, KeyWord, Mixing.Put;
      for k := 0 to rounds
        invariant Mixing(mt[..], i, jj) == KeyRounds(k, start, seeds[..])
      {
        KeyRoundsNext(k, start, seeds[..]);
        i := MixKeyWord(seeds, i, jj, Mixing(mt[..], i, jj));
        jj := jj + 1;
        if jj >= seeds.Length { jj := 0; }
      }
      j := jj;
    }

    /** One round of the index loop. */
    method MixIndexWord(i: nat, ghost j: nat, ghost m: Mixing, ghost keys: nat) returns (next: nat)
      requires mt.Length == N && m == Mixing(mt[..], i, j) && m.Ok(keys)
      modifies mt
      ensures Mixing(mt[..], next, j) == m.Put(IndexWord(m, keys), j, keys)
    {
      hide IndexMix, Number, Mixing.Put;
      var w := IndexMix(mt[i], mt[i - 1], Number(i));
      next := PutWord(w, i, m, j, keys);
    }

    /** The loop over the index. */
    method MixIndex(from: nat, ghost j: nat, ghost keys: nat)
      requires mt.Length == N && Mixing(mt[..], from, j).Ok(keys)
      modifies mt
      ensures mt[..] == IndexRounds(N - 1, Mixing(old(mt[..]), from, j), keys).words
    {
      ghost var start := Mixing(mt[..], from, j);
      var i := from;
      assert IndexRounds(0, start, keys) == start;
      hide IndexRounds, IndexWord, Mixing.Put;
      for k := 0 to N - 1
        invariant Mixing(mt[..], i, j) == IndexRounds(k, start, keys)
      {
        IndexRoundsNext(k, start, keys);
        i := MixIndexWord(i, j, Mixing(mt[..], i, j), keys);
      }
    }

    /** The mixing, and the front word that keeps the array from being all zero. */
    method MixArray(seeds: array<Word>)
      requires mt.Length == N && mt != seeds && 0 < seeds.Length < 0x8000_0000 && mt[..] == Seeded(19650218)
      modifies mt
      ensures mt[..] == ArraySeeded(seeds[..])
    {
      hide KeyRounds, IndexRounds, Seeded;
      var i;
      ghost var j;
      i, j := MixKey(seeds);
      MixIndex(i, j, seeds.Length);
      mt[0] := 0x80000000;
    }

    /** `RandomInitByArray`: the recurrence starts over from the mixed array, which is never all zero. */
    method RandomInitByArray(seeds: array<Word>)
      requires mt.Length == N && mt != seeds && seeds.Length < 0x8000_0000
      requires lastInterval != 0 ==> rLimit == RejectLimit(lastInterval)
      modifies mt, `mti, `init, `generation
      ensures Valid() && init == if seeds.Length == 0 then Seeded(19650218) else ArraySeeded(old(seeds[..]))
      ensures Position() == if seeds.Length == 0 then N else N + 1
    {
      hide *;
      Init0(19650218);
      if seeds.Length <= 0 { return; }
      ArrayIsInit();
      MixArray(seeds);
      Restart();
      for n := 0 to N + 1
        invariant Valid() && init == ArraySeeded(seeds[..]) && Position() == n
      {
        var y := BRandom();
      }
    }

    lemma ArrayIsInit()
      requires Valid() && generation == 0
      ensures mt[..] == init
    {
      hide X, RejectLimit;
      FirstGeneration(init);
    }

    /** The recurrence starts over from the array as it is. */
    method Restart()
      requires mt.Length == N && (lastInterval != 0 ==> rLimit == RejectLimit(lastInterval))
      modifies `mti, `init, `generation
      ensures Valid() && init == mt[..] && Position() == 0
    {
      hide X, RejectLimit;
      init, generation, mti := mt[..], 0, 0;
      FirstGeneration(init);
    }

    /** Words below k are already of the next generation. */
    ghost predicate Regenerated(k: nat)
      requires k <= N && mt.Length == N && |init| == N
      reads this, mt
    {
      && (forall i :: 0 <= i < k ==> mt[i] == X(init, N * (generation + 1) + i))
      && (forall i :: k <= i < N ==> mt[i] == X(init, N * generation + i))
    }

    /** Words 0 to N - M - 1, whose partner M places ahead is still of the old generation. */
    method FirstLoop()
      requires mt.Length == N && |init| == N && Regenerated(0)
      modifies mt
      ensures Regenerated(N - M)
    {
      hide Feed, X;
      var kk := 0;
      while kk < N - M
        invariant kk <= N - M && Regenerated(kk)
      {
        Recurrence(init, N * (generation + 1) + kk);
        mt[kk] := Feed(mt[kk + M], mt[kk], mt[kk + 1]);
        kk := kk + 1;
      }
    }

    /** Words N - M to N - 2, whose partner has already been regenerated, then the last word, which wraps. */
    method SecondLoop()
      requires mt.Length == N && |init| == N && Regenerated(N - M)
      modifies mt
      ensures Regenerated(N)
    {
      hide Feed, X;
      var kk := N - M;
      while kk < N - 1
        invariant N - M <= kk <= N - 1 && Regenerated(kk)
      {
        Recurrence(init, N * (generation + 1) + kk);
        mt[kk] := Feed(mt[kk + M - N], mt[kk], mt[kk + 1]);
        kk := kk + 1;
      }
      Recurrence(init, N * (generation + 1) + N - 1);
      mt[N - 1] := Feed(mt[M - 1], mt[N - 1], mt[0]);
    }

    /** `BRandom`: the tempering of the next word of the recurrence. */
    method BRandom() returns (y: Word)
      requires Valid()
      modifies mt, `mti, `generation
      ensures Valid() && init == old(init) && Position() == old(Position()) + 1
      ensures y == Temper(X(init, old(Position())))
    {
      hide Feed, X, Mix11, Mix7, Mix15, Mix18;
      if mti >= N {
        FirstLoop();
        SecondLoop();
        generation, mti := generation + 1, 0;
      }
      y := mt[mti];
      mti := mti + 1;
      y := Mix11(y);
      y := Mix7(y);
      y := Mix15(y);
      y := Mix18(y);
    }

    /** `IRandomX`. Draws are rejected until one is accepted; `horizon` bounds how many draws away that is. */
    method IRandomX(min: int, max: int, ghost horizon: nat) returns (r: int)
      requires Valid() && max - min + 1 < 0x8000_0000
      requires min < max ==> HitAhead(init, Position(), horizon, max - min + 1)
      modifies mt, `mti, `generation, `lastInterval, `rLimit
      ensures Valid() && init == old(init)
      ensures max < min ==> r == -0x8000_0000
      ensures min <= max ==> min <= r <= max
      ensures min >= max ==> Position() == old(Position())
      ensures min < max ==>
                var n, start, used := max - min + 1, old(Position()), Position() - old(Position());
                && used <= horizon && FirstHit(init, start, used, n)
                && r == min + Scaled(Output(init, start + used - 1), n)
    {
      if max <= min {
        return if max == min then min else -0x8000_0000;
      }
      hide *;
      var interval := max - min + 1;
      SetInterval(interval);
      var w := Draw(interval, horizon);
      ScaledInRange(w, interval);
      ScaledIs(w, interval);
      r := w * interval / TWO32 + min;
    }

    /** The limit is computed anew only when the interval has changed. */
    method SetInterval(interval: nat)
      requires Valid() && 0 < interval < 0x8000_0000
      modifies `lastInterval, `rLimit
      ensures Valid() && init == old(init) && Position() == old(Position())
      ensures lastInterval == interval && rLimit == RejectLimit(interval)
    {
      hide X, RejectLimit;
      if interval != lastInterval {
        rLimit := RejectLimit(interval);
        lastInterval := interval;
      }
    }

    /** The rejection loop. */
    method Draw(interval: nat, ghost horizon: nat) returns (w: nat)
      requires Valid() && 0 < interval < 0x8000_0000 && lastInterval == interval && rLimit == RejectLimit(interval)
      requires HitAhead(init, Position(), horizon, interval)
      modifies mt, `mti, `generation
      ensures Valid() && init == old(init) && w < TWO32
      ensures var start, used := old(Position()), Position() - old(Position());
              1 <= used <= horizon && FirstHit(init, start, used, interval) && w == Output(init, start + used - 1)
    {
      ghost var seed, start, used := init, Position(), 1;
      hide *;
      w := NextOutput();
      ghost var end := SomeHit(seed, start, horizon, interval);
      NoHitYet(seed, start, interval);
      while w * interval % TWO32 > rLimit
        invariant Valid() && init == seed && 1 <= used <= end + 1 && Position() == start + used
        invariant rLimit == RejectLimit(interval) && w == Output(seed, start + used - 1) && w < TWO32
        invariant NoHit(seed, start, used - 1, interval)
        decreases horizon - used
      {
        HitIs(seed, start, used - 1, interval, w);
        NoHitMore(seed, start, used - 1, interval);
        NoHitBefore(seed, start, used, interval, end);
        w := NextOutput();
        used := used + 1;
      }
      HitIs(seed, start, used - 1, interval, w);
      IsFirstHit(seed, start, used, interval);
    }

    method NextOutput() returns (w: nat)
      requires Valid()
      modifies mt, `mti, `generation
      ensures Valid() && init == old(init) && Position() == old(Position()) + 1
      ensures w == Output(init, old(Position())) && w < TWO32
    {
      hide X, Temper;
      var y := BRandom();
      w := y as int;
    }
  }

  /** Word p of the output sequence as a number. */
  function Output(init: seq<Word>, p: nat): nat
    requires |init| == N
  {
    Temper(X(init, p)) as int
  }

  ghost predicate HitAhead(init: seq<Word>, start: nat, horizon: nat, n: nat)
    requires |init| == N && n > 0
  {
    exists k :: 0 <= k < horizon && Hit(init, start, k, n)
  }

  /** The used-th output from position start is the first to be accepted. */
  ghost predicate FirstHit(init: seq<Word>, start: nat, used: int, n: nat)
    requires |init| == N && n > 0
  {
    used >= 1 && Hit(init, start, used - 1, n) && NoHit(init, start, used - 1, n)
  }

  /** The first used outputs from position start are rejected. */
  ghost predicate NoHit(init: seq<Word>, start: nat, used: int, n: nat)
    requires |init| == N && n > 0
  {
    forall k :: 0 <= k < used ==> !Hit(init, start, k, n)
  }

  lemma SomeHit(init: seq<Word>, start: nat, horizon: nat, n: nat) returns (k: nat)
    requires |init| == N && n > 0 && HitAhead(init, start, horizon, n)
    ensures k < horizon && Hit(init, start, k, n)
  {
    hide Hit;
    k :| 0 <= k < horizon && Hit(init, start, k, n);
  }

  lemma HitIs(init: seq<Word>, start: nat, k: nat, n: nat, w: nat)
    requires |init| == N && n > 0 && w == Output(init, start + k)
    ensures Hit(init, start, k, n) <==> w * n % TWO32 <= RejectLimit(n)
  {
    hide Output, RejectLimit;
  }

  lemma NoHitYet(init: seq<Word>, start: nat, n: nat)
    requires |init| == N && n > 0
    ensures NoHit(init, start, 0, n)
  {
  }

  lemma NoHitMore(init: seq<Word>, start: nat, used: nat, n: nat)
    requires |init| == N && n > 0 && NoHit(init, start, used, n) && !Hit(init, start, used, n)
    ensures NoHit(init, start, used + 1, n)
  {
    hide Hit;
  }

  lemma NoHitBefore(init: seq<Word>, start: nat, used: nat, n: nat, k: nat)
    requires |init| == N && n > 0 && NoHit(init, start, used, n) && Hit(init, start, k, n)
    ensures used <= k
  {
    hide Hit;
  }

  lemma IsFirstHit(init: seq<Word>, start: nat, used: int, n: nat)
    requires |init| == N && n > 0 && used >= 1 && NoHit(init, start, used - 1, n) && Hit(init, start, used - 1, n)
    ensures FirstHit(init, start, used, n)
  {
    hide Hit;
  }

  lemma ScaledIs(w: nat, n: nat)
    ensures Scaled(w, n) == w * n / TWO32
  {
  }

  /** The k-th output from position start is accepted for intervals of length n. */
  ghost predicate Hit(init: seq<Word>, start: nat, k: nat, n: nat)
    requires |init| == N && n > 0
  {
    Accepted(Output(init, start + k), n)
  }
}
