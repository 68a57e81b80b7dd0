/** The rolling Bloom filter: three generations of keys in two bits for each position. */
module RollingBloom {
  import opened Numbers

  type Key = seq<int>

  // ---------------------------------------------------------------------------------------------
  // Words of 64 positions
  // ---------------------------------------------------------------------------------------------

  const BITS := 64

  /** A 64-bit word, as its bits from the lowest up. */
  type Word = s: seq<bool> | |s| == 64 witness seq(64, i => false)

  function Spread(bit: bool): (w: Word)
    ensures forall k :: 0 <= k < BITS ==> w[k] == bit
  {
    seq(BITS, i => bit)
  }

  function And(x: Word, y: Word): (w: Word)
    ensures forall k :: 0 <= k < BITS ==> w[k] == (x[k] && y[k])
  {
    seq(BITS, i requires 0 <= i < BITS => x[i] && y[i])
  }

  function Or(x: Word, y: Word): (w: Word)
    ensures forall k :: 0 <= k < BITS ==> w[k] == (x[k] || y[k])
  {
    seq(BITS, i requires 0 <= i < BITS => x[i] || y[i])
  }

  function Xor(x: Word, y: Word): (w: Word)
    ensures forall k :: 0 <= k < BITS ==> w[k] == (x[k] != y[k])
  {
    seq(BITS, i requires 0 <= i < BITS => x[i] != y[i])
  }

  /** A position's generation, or zero if it is not set. */
  function Generation(low: Word, high: Word, k: nat): nat
    requires k < BITS
  {
    (if low[k] then 1 else 0) + (if high[k] then 2 else 0)
  }

  /** The bits to keep when the positions of a generation are wiped. */
  function KeepMask(low: Word, high: Word, g: nat): Word
  {
    Or(Xor(low, Spread(g % 2 == 1)), Xor(high, Spread(g / 2 == 1)))
  }

  lemma WipeBits(low: Word, high: Word, g: nat, k: nat)
    requires 1 <= g <= 3 && k < BITS
    ensures var m := KeepMask(low, high, g);
      var was := Generation(low, high, k);
      Generation(And(low, m), And(high, m), k) == if was == g then 0 else was
  {}

  // ---------------------------------------------------------------------------------------------
  // Positions and generations
  // ---------------------------------------------------------------------------------------------

  /** A position: a pair of words and a bit in them. */
  datatype Position = Position(pair: nat, bit: nat)

  datatype Shape = Shape(perGeneration: nat, hashFuncs: nat, words: nat, hash: (nat, Key) -> nat)

  predicate Fits(h: Shape) { h.perGeneration > 0 && h.words > 0 && h.words % 2 == 0 }

  function PositionOf(h: Shape, n: nat, key: Key): (p: Position)
    requires h.words > 0
    ensures p.bit < BITS && 2 * p.pair < h.words
  {
    var hashed := h.hash(n, key);
    Position(hashed / BITS % h.words / 2, hashed % BITS)
  }

  /** The low six bits of a hash choose the bit, the others the pair of words. */
  lemma PositionIs(h: Shape, n: nat, key: Key)
    requires h.words > 0
    ensures var p := PositionOf(h, n, key);
      p.bit == h.hash(n, key) % 64 && 2 * p.pair <= h.hash(n, key) / 64 % h.words <= 2 * p.pair + 1
  {}

  predicate Hits(h: Shape, key: Key, p: Position)
    requires h.words > 0
  {
    exists n {:trigger PositionOf(h, n, key)} :: 0 <= n < h.hashFuncs && PositionOf(h, n, key) == p
  }

  /** The index of the last key that hits a position, or -1. */
  function Last(h: Shape, keys: seq<Key>, p: Position): (i: int)
    requires h.words > 0
    ensures -1 <= i < |keys|
    ensures i >= 0 ==> Hits(h, keys[i], p)
    ensures forall j :: i < j < |keys| ==> !Hits(h, keys[j], p)
  {
    if keys == [] then -1
    else if Hits(h, keys[|keys| - 1], p) then |keys| - 1
    else Last(h, keys[..|keys| - 1], p)
  }

  /** Generations are numbered 1, 2, 3, 1, 2, 3 and so on. */
  function Number(epoch: nat): (g: nat)
    ensures 1 <= g <= 3
  {
    epoch % 3 + 1
  }

  /** What a position holds: the generation that hit it last, if that is one of the last three. */
  function Expected(h: Shape, last: int, epoch: nat): nat
    requires h.perGeneration > 0 && last >= -1
  {
    if last < 0 || last / h.perGeneration < epoch - 2 then 0 else Number(last / h.perGeneration)
  }

  /** Starting a generation wipes exactly the positions last hit three generations before. */
  lemma NewGeneration(h: Shape, last: int, epoch: nat)
    requires h.perGeneration > 0 && last >= -1 && (last >= 0 ==> last / h.perGeneration <= epoch)
    ensures var was := Expected(h, last, epoch);
      Expected(h, last, epoch + 1) == if was == Number(epoch + 1) then 0 else was
  {}

  /** How many keys the first `epoch` generations hold. */
  function Total(h: Shape, epoch: nat): nat { epoch * h.perGeneration }

  /** The first key of the generation before the last. */
  function Since(h: Shape, epoch: nat): nat { if epoch < 2 then 0 else Total(h, epoch - 2) }

  /** A position is set exactly when one of the keys since then hits it. */
  lemma SetIff(h: Shape, keys: seq<Key>, p: Position, epoch: nat)
    requires Fits(h)
    ensures Expected(h, Last(h, keys, p), epoch) != 0
      <==> exists i :: Since(h, epoch) <= i < |keys| && Hits(h, keys[i], p)
  {
    var last := Last(h, keys, p);
    if last >= 0 { Reaches(h, last, epoch); }
  }

  lemma Reaches(h: Shape, last: nat, epoch: nat)
    requires h.perGeneration > 0
    ensures last / h.perGeneration < epoch - 2 <==> last < Since(h, epoch)
  {
    var e := h.perGeneration;
    if epoch >= 2 {
      DivMod(last, e);
      if last / e < epoch - 2 { MulAtMost(last / e + 1, epoch - 2, e); } else { MulAtMost(epoch - 2, last / e, e); }
    }
  }

  /** A plain Bloom filter over some keys. */
  ghost predicate Matches(h: Shape, keys: seq<Key>, key: Key)
    requires h.words > 0
  {
    forall n :: 0 <= n < h.hashFuncs ==> HitBy(h, keys, PositionOf(h, n, key))
  }

  ghost predicate HitBy(h: Shape, keys: seq<Key>, p: Position)
    requires h.words > 0
  {
    exists i :: 0 <= i < |keys| && Hits(h, keys[i], p)
  }

  // ---------------------------------------------------------------------------------------------
  // The filter
  // ---------------------------------------------------------------------------------------------

  class RollingBloomFilter {
    const data: array<Word>
    var shape: Shape
    var nEntriesThisGeneration: nat
    var nGeneration: nat
    ghost var keys: seq<Key>
    ghost var epoch: nat

    ghost predicate Within(p: Position) { p.bit < BITS && 2 * p.pair + 1 < data.Length }

    ghost function GenerationAt(p: Position): nat
      requires Within(p)
      reads data
    {
      Generation(data[2 * p.pair], data[2 * p.pair + 1], p.bit)
    }

    ghost predicate Counted()
      reads this
    {
      && Fits(shape) && shape.words == data.Length
      && nEntriesThisGeneration <= shape.perGeneration
      && |keys| == Total(shape, epoch) + nEntriesThisGeneration
      && nGeneration == Number(epoch)
    }

    /** Every position holds the generation that hit it last, if it is one of the last three. */
    ghost predicate Valid()
      reads this, data
    {
      && Counted()
      && forall p :: Within(p) ==> GenerationAt(p) == Expected(shape, Last(shape, keys, p), epoch)
    }

    /** Wipes the positions of a generation. */
    method Wipe(g: nat)
      requires data.Length % 2 == 0 && 1 <= g <= 3
      modifies data
      ensures forall p :: Within(p) ==> GenerationAt(p) == if old(GenerationAt(p)) == g then 0 else old(GenerationAt(p))
    {
      var i := 0;
      while i < data.Length
        invariant 0 <= i <= data.Length && i % 2 == 0
        invariant forall j :: i <= j < data.Length ==> data[j] == old(data[j])
        invariant forall p :: Within(p) && 2 * p.pair < i ==>
          GenerationAt(p) == if old(GenerationAt(p)) == g then 0 else old(GenerationAt(p))
      {
        var low, high := data[i], data[i + 1];
        var mask := KeepMask(low, high, g);
        data[i] := And(low, mask);
        data[i + 1] := And(high, mask);
        forall k | 0 <= k < BITS
          ensures Generation(data[i], data[i + 1], k)
               == if Generation(low, high, k) == g then 0 else Generation(low, high, k)
        {
          WipeBits(low, high, g, k);
        }
        i := i + 2;
      }
    }

    /** Puts a position in a generation. */
    method Mark(p: Position, g: nat)
      requires Within(p) && 1 <= g <= 3
      modifies data
      ensures forall q :: Within(q) ==> GenerationAt(q) == if q == p then g else old(GenerationAt(q))
    {
      data[2 * p.pair] := data[2 * p.pair][p.bit := g % 2 == 1];
      data[2 * p.pair + 1] := data[2 * p.pair + 1][p.bit := g / 2 == 1];
    }

    constructor (nElements: nat, hashFuncs: nat, pairs: nat, hash: (nat, Key) -> nat)
      requires nElements > 0 && pairs > 0
      ensures Valid() && keys == [] && fresh(data)
      ensures shape == Shape((nElements + 1) / 2, hashFuncs, 2 * pairs, hash)
    {
      data := new Word[2 * pairs](i => Spread(false));
      shape := Shape((nElements + 1) / 2, hashFuncs, 2 * pairs, hash);
      nEntriesThisGeneration, nGeneration := 0, 1;
      keys, epoch := [], 0;
    }

    /** Empties the filter and draws a new tweak for the hash. */
    method Reset(hash: (nat, Key) -> nat)
      requires Valid()
      modifies this, data
      ensures Valid() && keys == [] && shape == old(shape).(hash := hash)
    {
      shape := shape.(hash := hash);
      nEntriesThisGeneration, nGeneration := 0, 1;
      keys, epoch := [], 0;
      for i := 0 to data.Length
        modifies data
        invariant forall j :: 0 <= j < i ==> data[j] == Spread(false)
      {
        data[i] := Spread(false);
      }
    }

    /** Starts a generation when the last one is full. */
    method Turn()
      requires Valid()
      modifies this, data
      ensures Valid() && shape == old(shape) && keys == old(keys)
      ensures nEntriesThisGeneration < shape.perGeneration
    {
      hide Last, Expected, Total, Number;
      if nEntriesThisGeneration == shape.perGeneration {
        nEntriesThisGeneration := 0;
        nGeneration := nGeneration + 1;
        if nGeneration == 4 { nGeneration := 1; }
        Turned(epoch);
        Wipe(nGeneration);
        forall p | Within(p)
          ensures GenerationAt(p) == Expected(shape, Last(shape, keys, p), epoch + 1)
        {
          LastEpoch(shape, keys, p, epoch);
          NewGeneration(shape, Last(shape, keys, p), epoch);
        }
        NextEpoch(shape, epoch);
        epoch := epoch + 1;
      }
    }

    method Insert(key: Key)
      requires Valid()
      modifies this, data
      ensures Valid() && keys == old(keys) + [key] && shape == old(shape)
    {
      hide Expected, Generation, PositionOf, Total, Number;
      Turn();
      nEntriesThisGeneration := nEntriesThisGeneration + 1;
      label marking:
      for n := 0 to shape.hashFuncs
        modifies data
        invariant forall q :: Within(q) ==>
          GenerationAt(q) == if exists m {:trigger PositionOf(shape, m, key)} :: 0 <= m < n && PositionOf(shape, m, key) == q
            then nGeneration else old@marking(GenerationAt(q))
      {
        Mark(PositionOf(shape, n, key), nGeneration);
      }
      InsertEpoch(shape, |keys|, epoch, nEntriesThisGeneration - 1);
      forall q | Within(q)
        ensures GenerationAt(q) == Expected(shape, Last(shape, keys + [key], q), epoch)
      {
        assert (keys + [key])[..|keys|] == keys;
        assert Hits(shape, key, q)
          == exists m {:trigger PositionOf(shape, m, key)} :: 0 <= m < shape.hashFuncs && PositionOf(shape, m, key) == q;
      }
      keys := keys + [key];
    }

    /** Answers as a plain filter over the keys of the last three generations would, so it holds every one
        of the last two generations' worth of keys. */
    method Contains(key: Key) returns (r: bool)
      requires Valid()
      ensures Since(shape, epoch) <= |keys|
      ensures r <==> Matches(shape, keys[Since(shape, epoch)..], key)
      ensures forall i :: 0 <= i < |keys| && i >= |keys| - 2 * shape.perGeneration && keys[i] == key ==> r
    {
      hide Last, Expected, Matches, Total, Number, PositionOf, Since;
      SinceEarly(shape, |keys|, epoch, nEntriesThisGeneration);
      r := true;
      for n := 0 to shape.hashFuncs
        invariant forall m :: 0 <= m < n ==> GenerationAt(PositionOf(shape, m, key)) != 0
      {
        var p := PositionOf(shape, n, key);
        if !data[2 * p.pair][p.bit] && !data[2 * p.pair + 1][p.bit] {
          Unset(shape, keys, epoch, key, n);
          RecentMatches(shape, keys, epoch);
          return false;
        }
      }
      forall m | 0 <= m < shape.hashFuncs
        ensures Expected(shape, Last(shape, keys, PositionOf(shape, m, key)), epoch) != 0
      {
        assert GenerationAt(PositionOf(shape, m, key)) != 0;
      }
      AllSet(shape, keys, epoch, key);
    }
  }

  lemma LastEpoch(h: Shape, keys: seq<Key>, p: Position, epoch: nat)
    requires Fits(h) && |keys| == Total(h, epoch) + h.perGeneration
    ensures Last(h, keys, p) >= 0 ==> Last(h, keys, p) / h.perGeneration <= epoch
  {
    hide Last;
    NextEpoch(h, epoch);
    if Last(h, keys, p) >= 0 { QuotientBelow(Last(h, keys, p), h.perGeneration, epoch + 1); }
  }

  lemma NextEpoch(h: Shape, epoch: nat)
    ensures Total(h, epoch) + h.perGeneration == Total(h, epoch + 1)
  {}

  lemma Turned(epoch: nat)
    ensures Number(epoch + 1) == if Number(epoch) + 1 == 4 then 1 else Number(epoch) + 1
  {}

  /** A key is of the generation in which it is inserted. */
  lemma InsertEpoch(h: Shape, i: nat, epoch: nat, entries: nat)
    requires h.perGeneration > 0 && entries < h.perGeneration && i == Total(h, epoch) + entries
    ensures Expected(h, i, epoch) == Number(epoch)
  {
    DivUnique(i, h.perGeneration, epoch, entries);
  }

  lemma SinceEarly(h: Shape, count: nat, epoch: nat, entries: nat)
    requires entries <= h.perGeneration && count == Total(h, epoch) + entries
    ensures Since(h, epoch) <= count && Since(h, epoch) <= if count < 2 * h.perGeneration then 0 else count - 2 * h.perGeneration
  {}

  lemma Unset(h: Shape, keys: seq<Key>, epoch: nat, key: Key, n: nat)
    requires Fits(h) && n < h.hashFuncs && Since(h, epoch) <= |keys|
    requires Expected(h, Last(h, keys, PositionOf(h, n, key)), epoch) == 0
    ensures !Matches(h, keys[Since(h, epoch)..], key)
  {
    var p := PositionOf(h, n, key);
    SetIff(h, keys, p, epoch);
    var recent := keys[Since(h, epoch)..];
    forall i | 0 <= i < |recent| ensures !Hits(h, recent[i], p) {
      assert recent[i] == keys[Since(h, epoch) + i];
    }
  }

  lemma AllSet(h: Shape, keys: seq<Key>, epoch: nat, key: Key)
    requires Fits(h) && Since(h, epoch) <= |keys|
    requires forall n :: 0 <= n < h.hashFuncs ==> Expected(h, Last(h, keys, PositionOf(h, n, key)), epoch) != 0
    ensures Matches(h, keys[Since(h, epoch)..], key)
  {
    hide Last, Expected, PositionOf, Total;
    var recent := keys[Since(h, epoch)..];
    forall n | 0 <= n < h.hashFuncs ensures HitBy(h, recent, PositionOf(h, n, key)) {
      var p := PositionOf(h, n, key);
      assert Expected(h, Last(h, keys, p), epoch) != 0;
      SetIff(h, keys, p, epoch);
      var i :| Since(h, epoch) <= i < |keys| && Hits(h, keys[i], p);
      assert recent[i - Since(h, epoch)] == keys[i];
    }
  }

  lemma RecentMatches(h: Shape, keys: seq<Key>, epoch: nat)
    requires h.words > 0 && Since(h, epoch) <= |keys|
    ensures forall i :: Since(h, epoch) <= i < |keys| ==> Matches(h, keys[Since(h, epoch)..], keys[i])
  {}
}
