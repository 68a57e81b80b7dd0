/** Compact blocks (BIP 152): a block sent as short transaction ids and rebuilt from known transactions. */
module CompactBlock {
  import opened Options

  // ---------------------------------------------------------------------------------------------
  // Requested indexes, sent as differences
  // ---------------------------------------------------------------------------------------------

  const MAX16 := 0xffff

  predicate Sixteen(xs: seq<nat>) { forall i :: 0 <= i < |xs| ==> xs[i] <= MAX16 }

  /** Strictly ascending, from a least value on. */
  predicate Ascending(xs: seq<nat>, least: nat)
  {
    xs == [] || (xs[0] >= least && Ascending(xs[1..], xs[0] + 1))
  }

  /** What is written for ascending indexes: how many are left out before each. */
  function Differences(xs: seq<nat>, least: nat): seq<nat>
    requires Ascending(xs, least)
  {
    if xs == [] then [] else [xs[0] - least] + Differences(xs[1..], xs[0] + 1)
  }

  /** The first difference counts from the least value, every other one from the index before it. */
  lemma {:induction false} DifferencesAt(xs: seq<nat>, least: nat, i: nat)
    requires Ascending(xs, least) && i < |xs|
    ensures |Differences(xs, least)| == |xs|
    ensures var prior := if i == 0 then least else xs[i - 1] + 1; xs[i] >= prior && Differences(xs, least)[i] == xs[i] - prior
  {
    if |xs| > 1 { DifferencesAt(xs[1..], xs[0] + 1, if i == 0 then 0 else i - 1); }
  }

  /** The index after another, in 16 bits. */
  function Next(x: nat): nat { if x == MAX16 then 0 else x + 1 }

  /** What reading makes of differences; it fails as soon as an index does not fit in 16 bits. */
  function Indexes(ds: seq<nat>, offset: nat): (r: Option<seq<nat>>)
    ensures r.Some? ==> |r.value| == |ds| && Sixteen(r.value)
  {
    if ds == [] then Some([])
    else if ds[0] + offset > MAX16 then None
    else
      var rest := Indexes(ds[1..], Next(ds[0] + offset));
      if rest.None? then None else Some([ds[0] + offset] + rest.value)
  }

  /** Every index read is its difference on from the one before, in 16 bits. */
  lemma {:induction false} IndexesAt(ds: seq<nat>, offset: nat, j: nat)
    requires offset <= MAX16 && Indexes(ds, offset).Some? && j < |ds|
    ensures var xs := Indexes(ds, offset).value;
      xs[j] == ds[j] + (if j == 0 then offset else (xs[j - 1] + 1) % 0x1_0000) <= 0xffff
  {
    if j > 0 { IndexesAt(ds[1..], Next(ds[0] + offset), j - 1); }
  }

  method ReadIndexes(ds: seq<nat>) returns (r: Option<seq<nat>>)
    ensures r == Indexes(ds, 0)
  {
    var xs: seq<nat> := [];
    var offset: nat := 0;
    assert ds[0..] == ds;
    Prepend([], 0, Indexes(ds, 0));
    for j := 0 to |ds|
      invariant Indexes(ds, 0) == Prepended(xs, Indexes(ds[j..], offset))
    {
      assert ds[j..][1..] == ds[j + 1..];
      if ds[j] + offset > MAX16 { return None; }
      Prepend(xs, ds[j] + offset, Indexes(ds[j + 1..], Next(ds[j] + offset)));
      xs := xs + [ds[j] + offset];
      offset := Next(ds[j] + offset);
    }
    assert xs + [] == xs;
    return Some(xs);
  }

  function Prepended(xs: seq<nat>, r: Option<seq<nat>>): Option<seq<nat>>
  {
    if r.None? then None else Some(xs + r.value)
  }

  lemma Prepend(xs: seq<nat>, x: nat, r: Option<seq<nat>>)
    ensures Prepended([], r) == r && Prepended(xs, Prepended([x], r)) == Prepended(xs + [x], r)
  {
    if r.Some? {
      assert [] + r.value == r.value;
      assert xs + ([x] + r.value) == xs + [x] + r.value;
    }
  }

  /** Ascending indexes come back as they were. */
  lemma {:induction false} IndexesRoundTrip(xs: seq<nat>, least: nat)
    requires Ascending(xs, least) && Sixteen(xs)
    ensures Indexes(Differences(xs, least), if least > MAX16 then 0 else least) == Some(xs)
  {
    if xs != [] {
      IndexesRoundTrip(xs[1..], xs[0] + 1);
      assert Differences(xs, least)[1..] == Differences(xs[1..], xs[0] + 1);
      assert xs == [xs[0]] + xs[1..];
    }
  }

  /** Only the last of the differences brings the running index to the largest 16-bit number. */
  predicate NoWrap(ds: seq<nat>, offset: nat)
  {
    |ds| <= 1 || (ds[0] + offset != MAX16 && NoWrap(ds[1..], ds[0] + offset + 1))
  }

  /** Read indexes are ascending, and then stand for the differences sent, exactly if these do not lead to
      the largest number, whose successor wraps around, before the end. */
  lemma {:induction false} IndexesAscendIff(ds: seq<nat>, offset: nat)
    requires offset <= MAX16 && Indexes(ds, offset).Some?
    ensures var xs := Indexes(ds, offset).value;
      && (Ascending(xs, offset) <==> NoWrap(ds, offset))
      && (Ascending(xs, offset) ==> Differences(xs, offset) == ds)
  {
    if ds != [] {
      var x := ds[0] + offset;
      var xs := Indexes(ds, offset).value;
      assert xs[1..] == Indexes(ds[1..], Next(x)).value && ds == [ds[0]] + ds[1..];
      IndexesAscendIff(ds[1..], Next(x));
      if x == MAX16 { TooLarge(xs[1..]); }
    }
  }

  lemma TooLarge(xs: seq<nat>)
    requires Sixteen(xs)
    ensures Ascending(xs, MAX16 + 1) <==> xs == []
  {}

  lemma WrappedIndexes()
    ensures Indexes([MAX16, 0], 0) == Some([MAX16, 0])
  {
    var none: seq<nat> := [];
    assert [MAX16, 0][1..] == [0] && [0][1..] == none;
    assert Indexes(none, 1) == Some(none) && [0] + none == [0];
    assert Indexes([0], 0) == Some([0]);
    assert [MAX16] + [0] == [MAX16, 0];
  }

  // ---------------------------------------------------------------------------------------------
  // Slots for the transactions of a block
  // ---------------------------------------------------------------------------------------------

  datatype Tx = Tx(witnessHash: nat, body: nat, isNull: bool)

  type Slots = seq<Option<Tx>>

  /** How many of the first `p` slots are free. */
  function Rank(s: Slots, p: nat): (r: nat)
    requires p <= |s|
    ensures r <= p
  {
    if p == 0 then 0 else Rank(s, p - 1) + if s[p - 1].None? then 1 else 0
  }

  /** Filling a free slot makes the slots after it rank one lower. */
  lemma {:induction false} RankFill(s: Slots, p: nat, tx: Tx, q: nat)
    requires p < |s| && s[p].None? && q <= |s|
    ensures Rank(s[p := Some(tx)], q) == Rank(s, q) - if p < q then 1 else 0
  {
    if q > 0 { RankFill(s, p, tx, q - 1); }
  }

  lemma {:induction false} RankEmpty(s: Slots, q: nat)
    requires q <= |s| && forall p :: 0 <= p < |s| ==> s[p].None?
    ensures Rank(s, q) == q
  {
    if q > 0 { RankEmpty(s, q - 1); }
  }

  /** Free slots are told apart by their ranks. */
  lemma RankApart(s: Slots, p: nat, q: nat)
    requires p < q <= |s| && s[p].None?
    ensures Rank(s, p) < Rank(s, q)
  {}

  // ---------------------------------------------------------------------------------------------
  // The message
  // ---------------------------------------------------------------------------------------------

  /** A transaction sent in full, with the number of transactions left out before it. */
  datatype Prefilled = Prefilled(index: nat, tx: Tx)

  datatype Message = Message(header: Option<nat>, shortIds: seq<nat>, prefilled: seq<Prefilled>)

  /** Two million bytes of block, ten bytes for the smallest transaction. */
  const MAX_TRANSACTIONS := 200_000

  function Count(m: Message): nat { |m.shortIds| + |m.prefilled| }

  /** The position of the last of the first `k` prefilled transactions. */
  function PositionOf(m: Message, k: nat): (p: int)
    requires k <= |m.prefilled|
    ensures p >= k - 1
  {
    if k == 0 then -1 else PositionOf(m, k - 1) + m.prefilled[k - 1].index + 1
  }

  /** Positions sent as differences are the positions of the prefilled transactions. */
  lemma {:induction false} PositionsRoundTrip(m: Message, xs: seq<nat>, k: nat)
    requires Ascending(xs, 0) && |xs| == |m.prefilled| == |Differences(xs, 0)| && k < |xs|
    requires forall i :: 0 <= i < |xs| ==> m.prefilled[i].index == Differences(xs, 0)[i]
    ensures PositionOf(m, k + 1) == xs[k]
  {
    DifferencesAt(xs, 0, k);
    if k > 0 { PositionsRoundTrip(m, xs, k - 1); }
  }

  lemma {:induction false} PositionsRise(m: Message, i: nat, k: nat)
    requires i < k <= |m.prefilled|
    ensures PositionOf(m, i) < PositionOf(m, k)
  {
    if i < k - 1 { PositionsRise(m, i, k - 1); }
  }

  predicate GoodPrefix(m: Message, k: nat)
    requires k <= |m.prefilled|
  {
    forall i :: 1 <= i <= k ==> GoodEntry(m, i)
  }

  predicate GoodEntry(m: Message, i: nat)
    requires 1 <= i <= |m.prefilled|
  {
    && !m.prefilled[i - 1].tx.isNull && PositionOf(m, i) <= MAX16
    && PositionOf(m, i) <= |m.shortIds| + i - 1
  }

  predicate Acceptable(m: Message)
  {
    && m.header.Some? && 0 < Count(m) <= MAX_TRANSACTIONS && GoodPrefix(m, |m.prefilled|)
  }

  /** The slots with the first `k` prefilled transactions in their places. */
  function Placed(m: Message, k: nat): (s: Slots)
    requires k <= |m.prefilled| && GoodPrefix(m, k)
    ensures |s| == Count(m)
    ensures forall p :: PositionOf(m, k) < p < |s| ==> s[p].None?
  {
    if k == 0 then seq(Count(m), i => None)
    else
      assert GoodEntry(m, k);
      assert forall i :: 1 <= i <= k - 1 ==> GoodEntry(m, i);
      Placed(m, k - 1)[PositionOf(m, k) := Some(m.prefilled[k - 1].tx)]
  }

  /** Each prefilled transaction is at its position, and no other slot is taken. */
  lemma {:induction false} PlacedAt(m: Message, k: nat, p: nat)
    requires k <= |m.prefilled| && GoodPrefix(m, k) && p < Count(m)
    ensures forall i :: 1 <= i <= k && PositionOf(m, i) == p ==> Placed(m, k)[p] == Some(m.prefilled[i - 1].tx)
    ensures (forall i :: 1 <= i <= k ==> PositionOf(m, i) != p) ==> Placed(m, k)[p] == None
  {
    if k > 0 {
      assert GoodEntry(m, k);
      assert forall i :: 1 <= i <= k - 1 ==> GoodEntry(m, i);
      PlacedAt(m, k - 1, p);
      forall i | 1 <= i < k ensures PositionOf(m, i) < PositionOf(m, k) { PositionsRise(m, i, k); }
    }
  }

  /** What is left free is exactly one slot for each short id. */
  lemma {:induction false} FreeSlots(m: Message, k: nat)
    requires k <= |m.prefilled| && GoodPrefix(m, k)
    ensures Rank(Placed(m, k), Count(m)) == Count(m) - k
  {
    if k == 0 {
      RankEmpty(Placed(m, 0), Count(m));
    } else {
      assert GoodEntry(m, k);
      assert forall i :: 1 <= i <= k - 1 ==> GoodEntry(m, i);
      FreeSlots(m, k - 1);
      RankFill(Placed(m, k - 1), PositionOf(m, k), m.prefilled[k - 1].tx, Count(m));
    }
  }

  /** Beyond the position of the last prefilled transaction all slots are free. */
  lemma {:induction false} FreeBeyond(m: Message, k: nat, q: nat)
    requires k <= |m.prefilled| && GoodPrefix(m, k) && PositionOf(m, k) < q <= Count(m)
    ensures Rank(Placed(m, k), q) == q - k
    decreases Count(m) - q
  {
    if q == Count(m) { FreeSlots(m, k); } else { FreeBeyond(m, k, q + 1); }
  }

  lemma {:induction false} NoneFree(s: Slots, q: nat)
    requires q <= |s| && Rank(s, q) == 0
    ensures forall p :: 0 <= p < q ==> s[p].Some?
  {
    if q > 0 { NoneFree(s, q - 1); }
  }

  /** With more prefilled transactions than 16 bits can number, an offset of 16 bits finds no free slot. */
  lemma NoFreeSlot(m: Message)
    requires GoodPrefix(m, |m.prefilled|) && |m.prefilled| > MAX16 && m.shortIds != []
    ensures forall offset :: 0 <= offset <= MAX16 ==> Placed(m, |m.prefilled|)[offset].Some?
  {
    var k := |m.prefilled|;
    assert GoodEntry(m, k);
    FreeBeyond(m, k, MAX16 + 1);
    NoneFree(Placed(m, k), MAX16 + 1);
  }

  // ---------------------------------------------------------------------------------------------
  // Looking for the transactions
  // ---------------------------------------------------------------------------------------------

  /** The short id of a witness hash, under the keys drawn for this message. */
  type ShortId = nat -> nat

  /** The position of the i-th free slot. */
  function FreeSlot(s: Slots, n: nat, i: nat): (p: nat)
    requires n <= |s| && i < Rank(s, n)
    ensures p < n && s[p].None? && Rank(s, p) == i
  {
    if s[n - 1].None? && Rank(s, n - 1) == i then n - 1 else FreeSlot(s, n - 1, i)
  }

  lemma SameRank(s: Slots, p: nat, q: nat)
    requires p < |s| && q < |s| && s[p].None? && s[q].None? && Rank(s, p) == Rank(s, q)
    ensures p == q
  {
    if p < q { RankApart(s, p, q); } else if q < p { RankApart(s, q, p); }
  }

  /** Positions are kept in 16 bits. */
  function Short(p: nat): (r: nat)
    ensures r <= p && r <= MAX16 && (p <= MAX16 ==> r == p)
  {
    p % (MAX16 + 1)
  }

  /** What the i-th short id leads to: the i-th free slot, in 16 bits. */
  predicate LeadsShort(where: map<nat, nat>, base: Slots, ids: seq<nat>, i: nat)
    requires i < |ids| <= Rank(base, |base|)
  {
    ids[i] in where && where[ids[i]] == Short(FreeSlot(base, |base|, i))
  }

  predicate MappedShort(where: map<nat, nat>, base: Slots, ids: seq<nat>)
    requires |ids| <= Rank(base, |base|)
  {
    && (forall i :: 0 <= i < |ids| ==> LeadsShort(where, base, ids, i))
    && (forall id :: id in where ==> id in ids)
  }

  /** The i-th short id leads to the i-th free slot. */
  predicate Leads(where: map<nat, nat>, base: Slots, ids: seq<nat>, i: nat)
    requires i < |ids|
  {
    && ids[i] in where && where[ids[i]] < |base| && base[where[ids[i]]].None?
    && Rank(base, where[ids[i]]) == i
  }

  predicate Mapped(where: map<nat, nat>, base: Slots, ids: seq<nat>)
  {
    && (forall i :: 0 <= i < |ids| ==> Leads(where, base, ids, i))
    && (forall id :: id in where ==> id in ids)
  }

  /** Every short id leads to its slot exactly when no free slot lies beyond the 16 bits. */
  lemma MappedIff(where: map<nat, nat>, base: Slots, ids: seq<nat>)
    requires |ids| == Rank(base, |base|) && MappedShort(where, base, ids)
    ensures Mapped(where, base, ids) <==> forall p :: MAX16 < p < |base| ==> base[p].Some?
  {
    forall i | 0 <= i < |ids| ensures Leads(where, base, ids, i) <==> FreeSlot(base, |base|, i) <= MAX16 {
      assert LeadsShort(where, base, ids, i);
      var p := FreeSlot(base, |base|, i);
      if Leads(where, base, ids, i) { SameRank(base, p, Short(p)); }
    }
    forall p | MAX16 < p < |base| && base[p].None? ensures exists i :: 0 <= i < |ids| && FreeSlot(base, |base|, i) == p {
      RankApart(base, p, |base|);
      SameRank(base, p, FreeSlot(base, |base|, Rank(base, p)));
    }
  }

  /** Does a transaction's short id lead to slot `p`? */
  predicate Match(sid: ShortId, where: map<nat, nat>, t: Tx, p: nat)
  {
    sid(t.witnessHash) in where && where[sid(t.witnessHash)] == p
  }

  ghost predicate Matched(sid: ShortId, where: map<nat, nat>, list: seq<Tx>, p: nat)
  {
    exists t :: t in list && Match(sid, where, t, p)
  }

  /** `t` is the one transaction of the list that leads to slot `p`. */
  ghost predicate Sole(sid: ShortId, where: map<nat, nat>, list: seq<Tx>, p: nat, t: Tx)
  {
    t in list && Match(sid, where, t, p) && forall u :: u in list && Match(sid, where, u, p) ==> u == t
  }

  /** What is in a slot to which transactions of a list lead: one of them or nothing, and certainly the
      one if there is only one. */
  ghost predicate Found(sid: ShortId, where: map<nat, nat>, list: seq<Tx>, p: nat, slot: Option<Tx>)
  {
    && (slot.Some? ==> slot.value in list && Match(sid, where, slot.value, p))
    && forall t :: Sole(sid, where, list, p, t) ==> slot == Some(t)
  }

  /** What the search leaves in a slot: what was found for it, or what it held before. */
  ghost predicate KnownAt(sid: ShortId, where: map<nat, nat>, base: Slots, list: seq<Tx>, s: Slots, p: nat)
    requires p < |base| == |s|
  {
    if Matched(sid, where, list, p) then Found(sid, where, list, p, s[p]) else s[p] == base[p]
  }

  ghost predicate Known(sid: ShortId, where: map<nat, nat>, base: Slots, list: seq<Tx>, s: Slots)
  {
    |base| == |s| && forall p :: 0 <= p < |s| ==> KnownAt(sid, where, base, list, s, p)
  }

  /** A known transaction that the search has come to, in the pool or outside it. */
  datatype Seen = Seen(tx: Tx, inPool: bool)

  ghost predicate Hit(sid: ShortId, where: map<nat, nat>, list: seq<Seen>, p: nat)
  {
    exists i :: 0 <= i < |list| && Match(sid, where, list[i].tx, p)
  }

  ghost predicate First(sid: ShortId, where: map<nat, nat>, list: seq<Seen>, p: nat, i: nat)
  {
    && i < |list| && Match(sid, where, list[i].tx, p)
    && forall j :: 0 <= j < i ==> !Match(sid, where, list[j].tx, p)
  }

  /** A later transaction leads to the same slot, and is in the pool or has another witness hash. */
  ghost predicate Clash(sid: ShortId, where: map<nat, nat>, list: seq<Seen>, p: nat, i: nat)
    requires i < |list|
  {
    exists j :: i < j < |list| && Match(sid, where, list[j].tx, p)
                && (list[j].inPool || list[j].tx.witnessHash != list[i].tx.witnessHash)
  }

  /** What is in a slot after the search: the first transaction that leads to it, or nothing if another one clashes with
      that, or what was there if none does. */
  ghost predicate Settled(sid: ShortId, where: map<nat, nat>, list: seq<Seen>, p: nat, before: Option<Tx>, slot: Option<Tx>)
  {
    && (!Hit(sid, where, list, p) ==> slot == before)
    && forall i: nat :: First(sid, where, list, p, i) ==>
         slot == if Clash(sid, where, list, p, i) then None else Some(list[i].tx)
  }

  ghost predicate ScannedAt(sid: ShortId, where: map<nat, nat>, base: Slots, list: seq<Seen>, s: Slots,
                            have: seq<bool>, p: nat)
    requires p < |base| == |s| == |have|
  {
    (have[p] <==> Hit(sid, where, list, p)) && Settled(sid, where, list, p, base[p], s[p])
  }

  ghost predicate Scanned(sid: ShortId, where: map<nat, nat>, base: Slots, list: seq<Seen>, s: Slots,
                          have: seq<bool>)
  {
    |base| == |s| == |have| && forall p :: 0 <= p < |s| ==> ScannedAt(sid, where, base, list, s, have, p)
  }

  /** The slots that the search has filled. */
  ghost function Filled(sid: ShortId, where: map<nat, nat>, list: seq<Seen>, size: nat): set<nat>
  {
    set p: nat | p < size && FilledAt(sid, where, list, p)
  }

  ghost predicate FilledAt(sid: ShortId, where: map<nat, nat>, list: seq<Seen>, p: nat)
  {
    exists i: nat :: First(sid, where, list, p, i) && !Clash(sid, where, list, p, i)
  }

  function Tagged(list: seq<Tx>, inPool: bool): (r: seq<Seen>)
    ensures |r| == |list| && forall i :: 0 <= i < |list| ==> r[i] == Seen(list[i], inPool)
  {
    seq(|list|, i requires 0 <= i < |list| => Seen(list[i], inPool))
  }

  /** The search stops after the first known transaction, but no earlier, with which as many slots are filled as there are
      short ids. */
  ghost predicate StopsAt(sid: ShortId, where: map<nat, nat>, size: nat, before: seq<Seen>, known: seq<Seen>, n: nat)
  {
    && n <= |known|
    && (forall k {:trigger known[..k]} :: 1 <= k < n ==> |Filled(sid, where, before + known[..k], size)| != |where|)
    && (n < |known| ==> n >= 1 && |Filled(sid, where, before + known[..n], size)| == |where|)
  }

  predicate Inside(where: map<nat, nat>, n: nat) { forall id :: id in where ==> where[id] < n }

  lemma ShortInside(where: map<nat, nat>, base: Slots, ids: seq<nat>)
    requires |ids| <= Rank(base, |base|) && MappedShort(where, base, ids)
    ensures Inside(where, |base|)
  {
    forall id | id in where ensures where[id] < |base| {
      var i :| 0 <= i < |ids| && ids[i] == id;
      assert LeadsShort(where, base, ids, i);
    }
  }

  /** The slot that a transaction leads to, after the search has come to it. */
  function Update(slot: Option<Tx>, had: bool, x: Seen): Option<Tx>
  {
    if !had then Some(x.tx)
    else if slot.Some? && (x.inPool || slot.value.witnessHash != x.tx.witnessHash) then None
    else slot
  }

  lemma {:induction false} FirstOf(sid: ShortId, where: map<nat, nat>, list: seq<Seen>, p: nat, k: nat) returns (i: nat)
    requires k < |list| && Match(sid, where, list[k].tx, p)
    ensures First(sid, where, list, p, i) && i <= k
  {
    if j :| 0 <= j < k && Match(sid, where, list[j].tx, p) {
      i := FirstOf(sid, where, list, p, j);
    } else {
      i := k;
    }
  }

  /** The next transaction does not change which one came first, and clashes with it or not. */
  lemma FirstStays(sid: ShortId, where: map<nat, nat>, list: seq<Seen>, p: nat, i: nat, x: Seen)
    requires First(sid, where, list, p, i)
    ensures forall k: nat :: First(sid, where, list + [x], p, k) <==> k == i
    ensures Clash(sid, where, list + [x], p, i) <==>
      || Clash(sid, where, list, p, i)
      || (Match(sid, where, x.tx, p) && (x.inPool || x.tx.witnessHash != list[i].tx.witnessHash))
  {
    hide Match;
    var more := list + [x];
    assert more[|list|] == x && forall k :: 0 <= k < |list| ==> more[k] == list[k];
    if Clash(sid, where, list, p, i) {
      var j :| i < j < |list| && Match(sid, where, list[j].tx, p)
               && (list[j].inPool || list[j].tx.witnessHash != list[i].tx.witnessHash);
      assert more[j] == list[j];
    }
  }

  /** One slot after one more transaction. */
  lemma SettleStep(sid: ShortId, where: map<nat, nat>, list: seq<Seen>, p: nat, before: Option<Tx>, slot: Option<Tx>,
                   had: bool, x: Seen)
    requires (had <==> Hit(sid, where, list, p)) && Settled(sid, where, list, p, before, slot)
    ensures Hit(sid, where, list + [x], p) <==> had || Match(sid, where, x.tx, p)
    ensures Settled(sid, where, list + [x], p, before, if Match(sid, where, x.tx, p) then Update(slot, had, x) else slot)
  {
    hide Match;
    var more := list + [x];
    assert more[|list|] == x && forall k :: 0 <= k < |list| ==> more[k] == list[k];
    if had {
      var k :| 0 <= k < |list| && Match(sid, where, list[k].tx, p);
      assert Match(sid, where, more[k].tx, p);
      var i := FirstOf(sid, where, list, p, k);
      FirstStays(sid, where, list, p, i, x);
    } else if Match(sid, where, x.tx, p) {
      assert First(sid, where, more, p, |list|);
      assert forall k: nat :: First(sid, where, more, p, k) ==> k == |list|;
    }
  }

  /** The whole table after one more transaction of the list. */
  lemma ScanStep(sid: ShortId, where: map<nat, nat>, base: Slots, list: seq<Seen>, s: Slots, have: seq<bool>, x: Seen)
    requires Inside(where, |s|) && Scanned(sid, where, base, list, s, have)
    ensures var id := sid(x.tx.witnessHash);
      if id !in where then Scanned(sid, where, base, list + [x], s, have)
      else
        Scanned(sid, where, base, list + [x],
                s[where[id] := Update(s[where[id]], have[where[id]], x)], have[where[id] := true])
  {
    hide Settled, Hit;
    var id := sid(x.tx.witnessHash);
    var s2 := if id in where then s[where[id] := Update(s[where[id]], have[where[id]], x)] else s;
    var have2 := if id in where then have[where[id] := true] else have;
    forall p | 0 <= p < |s| ensures ScannedAt(sid, where, base, list + [x], s2, have2, p) {
      assert ScannedAt(sid, where, base, list, s, have, p);
      SettleStep(sid, where, list, p, base[p], s[p], have[p], x);
    }
  }

  lemma NothingScanned(sid: ShortId, where: map<nat, nat>, base: Slots, have: seq<bool>)
    requires |have| == |base| && forall p :: 0 <= p < |have| ==> !have[p]
    ensures Scanned(sid, where, base, [], base, have) && Got(have, base) == {}
  {}

  lemma NothingPlaced(m: Message)
    ensures GoodPrefix(m, 0) && Placed(m, 0) == seq(Count(m), i => None)
  {}

  /** The slots that were come across and are not empty. */
  ghost function Got(have: seq<bool>, s: Slots): set<nat>
    requires |have| == |s|
  {
    set p: nat | p < |s| && have[p] && s[p].Some?
  }

  lemma GotSet(have: seq<bool>, s: Slots, p: nat, v: Option<Tx>)
    requires p < |have| == |s|
    ensures Got(have[p := true], s[p := v]) == if v.Some? then Got(have, s) + {p} else Got(have, s) - {p}
    ensures p in Got(have, s) <==> have[p] && s[p].Some?
  {}

  lemma GotUpdate(have: seq<bool>, s: Slots, p: nat, v: Option<Tx>)
    requires p < |have| == |s|
    ensures |Got(have[p := true], s[p := v])|
         == |Got(have, s)| + if v.Some? == (have[p] && s[p].Some?) then 0 else if v.Some? then 1 else -1
  {
    hide Got;
    GotSet(have, s, p, v);
    var a := Got(have, s);
    assert p in a ==> a + {p} == a;
    assert p !in a ==> a - {p} == a;
  }

  lemma {:induction false} FewValues(where: map<nat, nat>)
    ensures |where.Values| <= |where|
    decreases |where|
  {
    if id :| id in where {
      var rest := where - {id};
      FewValues(rest);
      forall v | v in where.Values ensures v in rest.Values + {where[id]} {
        var x :| x in where && where[x] == v;
        if x != id { assert x in rest && rest[x] == v; }
      }
      SubsetCount(where.Values, rest.Values + {where[id]});
    }
  }

  lemma SubsetCount(a: set<nat>, b: set<nat>)
    requires a <= b
    ensures |a| <= |b| && (|a| == |b| ==> a == b)
  {
    assert a + (b - a) == b;
  }

  /** The slots come across that are not empty are those that the search has filled. */
  lemma GotFilled(sid: ShortId, where: map<nat, nat>, base: Slots, list: seq<Seen>, s: Slots, have: seq<bool>)
    requires Scanned(sid, where, base, list, s, have)
    ensures Got(have, s) == Filled(sid, where, list, |base|)
  {
    hide Match, Clash;
    forall p: nat | p < |s|
      ensures have[p] && s[p].Some? <==> FilledAt(sid, where, list, p)
    {
      assert ScannedAt(sid, where, base, list, s, have, p);
      if have[p] {
        var k :| 0 <= k < |list| && Match(sid, where, list[k].tx, p);
        var i := FirstOf(sid, where, list, p, k);
      }
    }
  }

  /** As many slots filled as there are ids: the search has come across every slot that an id leads to. */
  lemma AllHad(sid: ShortId, where: map<nat, nat>, base: Slots, list: seq<Seen>, s: Slots, have: seq<bool>)
    requires Scanned(sid, where, base, list, s, have) && Inside(where, |s|) && |Got(have, s)| == |where|
    ensures forall id :: id in where ==> have[where[id]]
  {
    forall p | p in Got(have, s) ensures p in where.Values {
      assert ScannedAt(sid, where, base, list, s, have, p);
    }
    FewValues(where);
    SubsetCount(Got(have, s), where.Values);
    forall id | id in where ensures have[where[id]] { assert where[id] in where.Values; }
  }

  /** The transactions that a search has come to. */
  ghost predicate PartOf(seen: seq<Seen>, list: seq<Tx>) { forall i :: 0 <= i < |seen| ==> seen[i].tx in list }

  /** No two entries of the pool are the same. */
  ghost predicate PoolApart(seen: seq<Seen>)
  {
    forall i, j :: 0 <= i < j < |seen| && seen[j].inPool ==> seen[i].tx != seen[j].tx
  }

  /** The slots filled with known transactions. */
  ghost function Fetched(sid: ShortId, where: map<nat, nat>, list: seq<Tx>, s: Slots): set<nat>
  {
    set p: nat | p < |s| && Matched(sid, where, list, p) && s[p].Some?
  }

  /** A search that stopped early knows as much as a full one, if it had come across every slot. */
  lemma Stopped(sid: ShortId, where: map<nat, nat>, base: Slots, seen: seq<Seen>, list: seq<Tx>, s: Slots,
                have: seq<bool>)
    requires Scanned(sid, where, base, seen, s, have) && Inside(where, |s|) && PartOf(seen, list) && PoolApart(seen)
    requires (forall t :: t in list ==> exists i :: 0 <= i < |seen| && seen[i].tx == t)
             || forall id :: id in where ==> have[where[id]]
    ensures Known(sid, where, base, list, s) && Got(have, s) == Fetched(sid, where, list, s)
  {
    hide Settled, Found, Sole;
    forall p | 0 <= p < |s|
      ensures KnownAt(sid, where, base, list, s, p) && (have[p] <==> Matched(sid, where, list, p))
    {
      assert ScannedAt(sid, where, base, seen, s, have, p);
      if have[p] {
        var k :| 0 <= k < |seen| && Match(sid, where, seen[k].tx, p);
        assert seen[k].tx in list;
        var i := FirstOf(sid, where, seen, p, k);
        SettledFound(sid, where, seen, list, p, base[p], s[p], i);
      } else {
        assert !Hit(sid, where, seen, p);
        NotMatched(sid, where, seen, list, have, p);
        SettledAsBefore(sid, where, seen, p, base[p], s[p]);
      }
    }
  }

  lemma SettledAsBefore(sid: ShortId, where: map<nat, nat>, seen: seq<Seen>, p: nat, before: Option<Tx>, slot: Option<Tx>)
    requires Settled(sid, where, seen, p, before, slot) && !Hit(sid, where, seen, p)
    ensures slot == before
  {}

  lemma NotMatched(sid: ShortId, where: map<nat, nat>, seen: seq<Seen>, list: seq<Tx>, have: seq<bool>, p: nat)
    requires p < |have| && !have[p] && !Hit(sid, where, seen, p) && Inside(where, |have|)
    requires (forall t :: t in list ==> exists i :: 0 <= i < |seen| && seen[i].tx == t)
             || forall id :: id in where ==> have[where[id]]
    ensures !Matched(sid, where, list, p)
  {}

  lemma SettledFound(sid: ShortId, where: map<nat, nat>, seen: seq<Seen>, list: seq<Tx>, p: nat, before: Option<Tx>,
                     slot: Option<Tx>, i: nat)
    requires Settled(sid, where, seen, p, before, slot) && First(sid, where, seen, p, i)
    requires PartOf(seen, list) && PoolApart(seen)
    ensures Found(sid, where, list, p, slot)
  {
    hide Match;
    forall t | Sole(sid, where, list, p, t) ensures slot == Some(t) {
      assert forall k :: 0 <= k < |seen| && Match(sid, where, seen[k].tx, p) ==> seen[k].tx == t;
      assert !Clash(sid, where, seen, p, i);
    }
  }

  /** Both searches together, whether or not they stopped early. */
  lemma Combined(sid: ShortId, where: map<nat, nat>, base: Slots, pool: seq<Tx>, extra: seq<Tx>, n: nat, k: nat,
                 s: Slots, have: seq<bool>, had: seq<bool>)
    requires n <= |pool| && k <= |extra| && Distinct(pool) && Inside(where, |s|)
    requires Scanned(sid, where, base, Tagged(pool, true)[..n] + Tagged(extra, false)[..k], s, have)
    requires |had| == |have| && (forall p :: 0 <= p < |had| ==> had[p] ==> have[p])
    requires n == |pool| || forall id :: id in where ==> had[where[id]]
    requires k == |extra| || forall id :: id in where ==> have[where[id]]
    ensures Known(sid, where, base, pool + extra, s)
    ensures Got(have, s) == Fetched(sid, where, pool + extra, s)
  {
    hide Distinct, Scanned, Known, Got, Fetched;
    var seen := Tagged(pool, true)[..n] + Tagged(extra, false)[..k];
    Sizes(sid, where, base, seen, s, have);
    forall i | 0 <= i < |seen| ensures seen[i].tx in pool + extra {
      assert seen[i].tx == if i < n then pool[i] else extra[i - n];
    }
    forall i, j | 0 <= i < j < |seen| && seen[j].inPool ensures seen[i].tx != seen[j].tx {
      DistinctPair(pool, i, j);
    }
    if n == |pool| && k == |extra| {
      forall t | t in pool + extra ensures exists i :: 0 <= i < |seen| && seen[i].tx == t {
        var i :| 0 <= i < |pool + extra| && (pool + extra)[i] == t;
        assert seen[i].tx == t;
      }
    } else {
      forall id | id in where ensures have[where[id]] {}
    }
    Stopped(sid, where, base, seen, pool + extra, s, have);
  }

  lemma SettledAll(sid: ShortId, where: map<nat, nat>, base: Slots, list: seq<Seen>, s: Slots, have: seq<bool>)
    requires Scanned(sid, where, base, list, s, have)
    ensures |base| == |s| && forall p :: 0 <= p < |s| ==> Settled(sid, where, list, p, base[p], s[p])
  {
    forall p | 0 <= p < |s| ensures Settled(sid, where, list, p, base[p], s[p]) {
      assert ScannedAt(sid, where, base, list, s, have, p);
    }
  }

  lemma Sizes(sid: ShortId, where: map<nat, nat>, base: Slots, list: seq<Seen>, s: Slots, have: seq<bool>)
    requires Scanned(sid, where, base, list, s, have)
    ensures |base| == |s| == |have|
  {}

  // ---------------------------------------------------------------------------------------------
  // The block being put together
  // ---------------------------------------------------------------------------------------------

  datatype Status = Ok | Invalid | Failed | CheckFailed

  /** What the block check says of a block that was put together. */
  datatype Verdict = Good | Bad | Corrupt

  /** No element occurs twice. */
  predicate Distinct<T(==)>(xs: seq<T>)
  {
    xs == [] || (xs[|xs| - 1] !in xs[..|xs| - 1] && Distinct(xs[..|xs| - 1]))
  }

  lemma {:induction false} DistinctAt<T>(xs: seq<T>, i: nat)
    requires Distinct(xs) && i < |xs|
    ensures xs[i] !in xs[..i]
  {
    if i < |xs| - 1 {
      DistinctAt(xs[..|xs| - 1], i);
      assert xs[..|xs| - 1][..i] == xs[..i];
    }
  }

  lemma DistinctPair<T>(xs: seq<T>, i: nat, k: nat)
    requires Distinct(xs) && i < k < |xs|
    ensures xs[i] != xs[k]
  {}

  /** The first `n` transactions of a block made of those at hand and the missing ones in their order. */
  function Assembled(s: Slots, missing: seq<Tx>, n: nat): (vtx: seq<Tx>)
    requires n <= |s| && Rank(s, n) <= |missing|
    ensures |vtx| == n
  {
    if n == 0 then []
    else Assembled(s, missing, n - 1) + [if s[n - 1].Some? then s[n - 1].value else missing[Rank(s, n - 1)]]
  }

  lemma {:induction false} AssembledAt(s: Slots, missing: seq<Tx>, n: nat, p: nat)
    requires p < n <= |s| && Rank(s, n) <= |missing|
    ensures s[p].None? ==> Rank(s, p) < |missing|
    ensures Assembled(s, missing, n)[p] == if s[p].Some? then s[p].value else missing[Rank(s, p)]
  {
    if p < n - 1 { AssembledAt(s, missing, n - 1, p); }
  }

  class PartiallyDownloadedBlock {
    var header: Option<nat>
    var txnAvailable: Slots
    var mempoolCount: nat

    constructor ()
      ensures header == None && txnAvailable == [] && mempoolCount == 0
    {
      header, txnAvailable, mempoolCount := None, [], 0;
    }

    /** Puts the prefilled transactions in their places, unless one of them has none. */
    method Prefill(m: Message) returns (ok: bool)
      requires txnAvailable == Placed(m, 0)
      modifies this`txnAvailable
      ensures ok <==> GoodPrefix(m, |m.prefilled|)
      ensures ok ==> txnAvailable == Placed(m, |m.prefilled|)
      ensures ok ==> forall i :: 1 <= i <= |m.prefilled| ==>
        0 <= PositionOf(m, i) < Count(m) && txnAvailable[PositionOf(m, i)] == Some(m.prefilled[i - 1].tx)
    {
      var last := -1;
      for i := 0 to |m.prefilled|
        invariant GoodPrefix(m, i) && last == PositionOf(m, i) && txnAvailable == Placed(m, i)
      {
        if m.prefilled[i].tx.isNull {
          assert !GoodEntry(m, i + 1);
          return false;
        }
        last := last + m.prefilled[i].index + 1;
        if last > MAX16 || last > |m.shortIds| + i {
          assert !GoodEntry(m, i + 1);
          return false;
        }
        assert GoodEntry(m, i + 1);
        txnAvailable := txnAvailable[last := Some(m.prefilled[i].tx)];
      }
      forall i | 1 <= i <= |m.prefilled|
        ensures 0 <= PositionOf(m, i) < Count(m) && txnAvailable[PositionOf(m, i)] == Some(m.prefilled[i - 1].tx)
      {
        assert GoodEntry(m, i);
        PlacedAt(m, |m.prefilled|, PositionOf(m, i));
      }
      return true;
    }

    /** Gives each short id the next free slot, which there always is, in 16 bits. */
    method MapIds(ids: seq<nat>, overfull: seq<nat> -> bool) returns (ok: bool, where: map<nat, nat>)
      requires Rank(txnAvailable, |txnAvailable|) == |ids|
      requires ids == [] || |txnAvailable| - |ids| <= MAX16
      ensures ok ==> MappedShort(where, txnAvailable, ids) && |where| == |ids|
      ensures ok <==> Distinct(ids) && forall i :: 0 < i <= |ids| ==> !overfull(ids[..i])
    {
      hide Assigned, MappedShort, Distinct, FreeSlot;
      where := map[];
      AssignNone(txnAvailable);
      var indexOffset := 0;
      for i := 0 to |ids|
        invariant 0 <= indexOffset <= MAX16 && i + indexOffset <= |txnAvailable|
        invariant Rank(txnAvailable, i + indexOffset) == i
        invariant Assigned(where, txnAvailable, ids[..i])
        invariant forall j :: 0 < j <= i ==> !overfull(ids[..j])
      {
        while txnAvailable[i + indexOffset].Some?
          invariant 0 <= indexOffset <= MAX16 && i + indexOffset < |txnAvailable|
          invariant Rank(txnAvailable, i + indexOffset) == i
          decreases |txnAvailable| - indexOffset
        {
          TakenBefore(txnAvailable, i + indexOffset + 1);
          indexOffset := Short(indexOffset + 1);
        }
        RankApart(txnAvailable, i + indexOffset, |txnAvailable|);
        SameRank(txnAvailable, i + indexOffset, FreeSlot(txnAvailable, |txnAvailable|, i));
        assert ids[..i + 1] == ids[..i] + [ids[i]];
        AssignNext(where, txnAvailable, ids[..i], ids[i]);
        where := where[ids[i] := Short(i + indexOffset)];
        if overfull(ids[..i + 1]) { return false, where; }
      }
      assert ids[..|ids|] == ids;
      AssignedAll(where, txnAvailable, ids);
      ok := |where| == |ids|;
    }

    /** Looks at one known transaction. */
    method Look(sid: ShortId, where: map<nat, nat>, have: seq<bool>, x: Tx, inPool: bool, ghost base: Slots,
                ghost list: seq<Seen>)
      returns (have2: seq<bool>)
      requires Scanned(sid, where, base, list, txnAvailable, have) && |base| == |txnAvailable| == |have|
      requires Inside(where, |txnAvailable|) && mempoolCount == |Got(have, txnAvailable)|
      modifies this`txnAvailable, this`mempoolCount
      ensures |base| == |txnAvailable| == |have2|
      ensures Scanned(sid, where, base, list + [Seen(x, inPool)], txnAvailable, have2)
      ensures mempoolCount == |Got(have2, txnAvailable)|
      ensures forall p :: 0 <= p < |have| ==> have[p] ==> have2[p]
    {
      hide Scanned, Got;
      var id := sid(x.witnessHash);
      have2 := have;
      ScanStep(sid, where, base, list, txnAvailable, have, Seen(x, inPool));
      if id in where {
        var p := where[id];
        GotUpdate(have, txnAvailable, p, Update(txnAvailable[p], have[p], Seen(x, inPool)));
        assert txnAvailable[p := txnAvailable[p]] == txnAvailable;
        if !have[p] {
          txnAvailable := txnAvailable[p := Some(x)];
          mempoolCount := mempoolCount + 1;
        } else if txnAvailable[p].Some? && (inPool || txnAvailable[p].value.witnessHash != x.witnessHash) {
          txnAvailable := txnAvailable[p := None];
          mempoolCount := mempoolCount - 1;
        }
        have2 := have[p := true];
      }
    }

    /** Goes through a list of known transactions until as many slots are filled as there are ids. */
    method Search(sid: ShortId, where: map<nat, nat>, have: seq<bool>, known: seq<Tx>, inPool: bool, ghost base: Slots,
                  ghost before: seq<Seen>)
      returns (have2: seq<bool>, ghost n: nat)
      requires Scanned(sid, where, base, before, txnAvailable, have) && |base| == |txnAvailable| == |have|
      requires Inside(where, |txnAvailable|) && mempoolCount == |Got(have, txnAvailable)|
      modifies this`txnAvailable, this`mempoolCount
      ensures |base| == |txnAvailable| == |have2| && n <= |known|
      ensures Scanned(sid, where, base, before + Tagged(known, inPool)[..n], txnAvailable, have2)
      ensures StopsAt(sid, where, |base|, before, Tagged(known, inPool), n)
      ensures mempoolCount == |Got(have2, txnAvailable)|
      ensures n == |known| || forall id :: id in where ==> have2[where[id]]
      ensures forall p :: 0 <= p < |have| ==> have[p] ==> have2[p]
    {
      hide Scanned, Got, Filled;
      ghost var tagged := Tagged(known, inPool);
      have2, n := have, 0;
      assert before + tagged[..0] == before;
      for i := 0 to |known|
        invariant n == i && |base| == |txnAvailable| == |have2|
        invariant Scanned(sid, where, base, before + tagged[..i], txnAvailable, have2)
        invariant mempoolCount == |Got(have2, txnAvailable)|
        invariant forall k {:trigger tagged[..k]} :: 1 <= k <= i ==> |Filled(sid, where, before + tagged[..k], |base|)| != |where|
        invariant forall p :: 0 <= p < |have| ==> have[p] ==> have2[p]
      {
        have2 := Look(sid, where, have2, known[i], inPool, base, before + tagged[..i]);
        assert before + tagged[..i] + [tagged[i]] == before + tagged[..i + 1];
        n := n + 1;
        GotFilled(sid, where, base, before + tagged[..n], txnAvailable, have2);
        if mempoolCount == |where| {
          AllHad(sid, where, base, before + tagged[..n], txnAvailable, have2);
          return;
        }
      }
    }

    /** Starts a block from a message and the transactions known. `where` is the map from short ids to
        positions that it builds; `n` and `k` are how many transactions of the pool and beside it are looked at. */
    method InitData(m: Message, pool: seq<Tx>, extra: seq<Tx>, sid: ShortId, overfull: seq<nat> -> bool)
      returns (status: Status, ghost where: map<nat, nat>, ghost n: nat, ghost k: nat)
      requires header.None? && txnAvailable == [] && mempoolCount == 0
      requires Distinct(pool) && (m.shortIds == [] || |m.prefilled| <= MAX16)
      modifies this
      ensures status == Invalid <==> !Acceptable(m)
      ensures status == Failed <==>
        Acceptable(m) && !(Distinct(m.shortIds) && forall i :: 0 < i <= |m.shortIds| ==> !overfull(m.shortIds[..i]))
      ensures status == Ok ==>
        var base := Placed(m, |m.prefilled|);
        && |m.shortIds| == Rank(base, |base|) && MappedShort(where, base, m.shortIds)
        && Known(sid, where, base, pool + extra, txnAvailable)
        && mempoolCount == |Fetched(sid, where, pool + extra, txnAvailable)|
        && header == m.header
      ensures status == Ok ==>
        var base, pooled, others := Placed(m, |m.prefilled|), Tagged(pool, true), Tagged(extra, false);
        && StopsAt(sid, where, Count(m), [], pooled, n) && StopsAt(sid, where, Count(m), pooled[..n], others, k)
        && |txnAvailable| == Count(m)
        && forall p :: 0 <= p < Count(m) ==>
             Settled(sid, where, pooled[..n] + others[..k], p, base[p], txnAvailable[p])
      ensures status != CheckFailed
    {
      hide MappedShort, Scanned, Known, Distinct, GoodPrefix, Placed, Rank, Got, Fetched, Matched, StopsAt, Settled, Filled;
      where, n, k := map[], 0, 0;
      if m.header.None? || (m.shortIds == [] && m.prefilled == []) { status := Invalid; return; }
      if |m.shortIds| + |m.prefilled| > MAX_TRANSACTIONS { status := Invalid; return; }
      header := m.header;
      NothingPlaced(m);
      txnAvailable := seq(Count(m), i => None);
      var ok := Prefill(m);
      if !ok { status := Invalid; return; }
      ghost var base := Placed(m, |m.prefilled|);
      FreeSlots(m, |m.prefilled|);
      var positions;
      ok, positions := MapIds(m.shortIds, overfull);
      if !ok { status := Failed; return; }
      where := positions;
      ShortInside(where, base, m.shortIds);
      var have := seq(|txnAvailable|, i => false);
      NothingScanned(sid, where, base, have);
      ghost var pooled, others := Tagged(pool, true), Tagged(extra, false);
      have, n := Search(sid, positions, have, pool, true, base, []);
      assert [] + pooled[..n] == pooled[..n];
      ghost var had := have;
      have, k := Search(sid, positions, have, extra, false, base, pooled[..n]);
      Combined(sid, where, base, pool, extra, n, k, txnAvailable, have, had);
      SettledAll(sid, where, base, pooled[..n] + others[..k], txnAvailable, have);
      status := Ok;
    }

    /** Completes the block with the transactions that were missing, once. Too few of them leave the
        block unusable but not closed. */
    method FillBlock(missing: seq<Tx>, check: seq<Tx> -> Verdict) returns (status: Status, vtx: seq<Tx>)
      requires header.Some?
      modifies this
      ensures |missing| != old(Rank(txnAvailable, |txnAvailable|)) <==> status == Invalid
      ensures old(Rank(txnAvailable, |txnAvailable|)) <= |missing| ==>
        && header == None && txnAvailable == []
        && vtx == Assembled(old(txnAvailable), missing, |old(txnAvailable)|)
      ensures status != Invalid ==>
        && (status == Ok <==> check(vtx) == Good)
        && (status == CheckFailed <==> check(vtx) == Bad)
        && (status == Failed <==> check(vtx) == Corrupt)
      ensures status != Invalid ==> |vtx| == |old(txnAvailable)| && forall p :: 0 <= p < |vtx| ==>
        var before := old(Rank(txnAvailable, p));
        if old(txnAvailable)[p].Some? then vtx[p] == old(txnAvailable)[p].value else before < |missing| && vtx[p] == missing[before]
      ensures old(Rank(txnAvailable, |txnAvailable|)) > |missing| ==>
        header == old(header) && |txnAvailable| == |old(txnAvailable)|
    {
      ghost var s := txnAvailable;
      var offset := 0;
      vtx := [];
      for i := 0 to |txnAvailable|
        invariant |txnAvailable| == |s| && forall p :: i <= p < |s| ==> txnAvailable[p] == s[p]
        invariant offset == Rank(s, i) <= |missing| && header == old(header)
        invariant vtx == Assembled(s, missing, i)
      {
        if txnAvailable[i].None? {
          if |missing| <= offset {
            RankApart(s, i, |s|);
            return Invalid, vtx;
          }
          vtx := vtx + [missing[offset]];
          offset := offset + 1;
        } else {
          vtx := vtx + [txnAvailable[i].value];
          txnAvailable := txnAvailable[i := None];
        }
      }
      header, txnAvailable := None, [];
      if |missing| != offset { return Invalid, vtx; }
      forall p | 0 <= p < |vtx| ensures s[p].None? ==> Rank(s, p) < |missing|
        ensures vtx[p] == if s[p].Some? then s[p].value else missing[Rank(s, p)]
      {
        AssembledAt(s, missing, |s|, p);
      }
      var verdict := check(vtx);
      if verdict != Good {
        return if verdict == Corrupt then Failed else CheckFailed, vtx;
      }
      status := Ok;
    }
  }

  /** Every id has the position of one of its occurrences. */
  ghost predicate Assigned(where: map<nat, nat>, base: Slots, ids: seq<nat>)
  {
    && |ids| <= Rank(base, |base|) && where.Keys == Members(ids)
    && forall id {:trigger Occurs(where, base, ids, id)} :: id in where ==> Occurs(where, base, ids, id)
  }

  ghost predicate Occurs(where: map<nat, nat>, base: Slots, ids: seq<nat>, id: nat)
    requires |ids| <= Rank(base, |base|)
  {
    exists i :: 0 <= i < |ids| && ids[i] == id && LeadsShort(where, base, ids, i)
  }

  lemma AssignNone(base: Slots)
    ensures Assigned(map[], base, [])
  {}

  function Members(ids: seq<nat>): (r: set<nat>)
    ensures forall id :: id in r <==> id in ids
  {
    if ids == [] then {} else Members(ids[..|ids| - 1]) + {ids[|ids| - 1]}
  }

  lemma AssignNext(where: map<nat, nat>, base: Slots, ids: seq<nat>, id: nat)
    requires Assigned(where, base, ids) && |ids| < Rank(base, |base|)
    ensures Assigned(where[id := Short(FreeSlot(base, |base|, |ids|))], base, ids + [id])
  {
    var ids2, where2 := ids + [id], where[id := Short(FreeSlot(base, |base|, |ids|))];
    assert ids2[..|ids|] == ids;
    assert where2.Keys == where.Keys + {id};
    forall x | x in where2 ensures Occurs(where2, base, ids2, x) {
      if x == id {
        assert ids2[|ids|] == x && LeadsShort(where2, base, ids2, |ids|);
      } else {
        assert Occurs(where, base, ids, x);
        var i :| 0 <= i < |ids| && ids[i] == x && LeadsShort(where, base, ids, i);
        assert ids2[i] == x && LeadsShort(where2, base, ids2, i);
      }
    }
  }

  lemma OneMember(ids: seq<nat>)
    ensures ids == [] ==> Members(ids) == {} && Distinct(ids)
    ensures ids != [] ==>
      var n := |ids| - 1;
      && Members(ids) == Members(ids[..n]) + {ids[n]} && (Distinct(ids) <==> ids[n] !in ids[..n] && Distinct(ids[..n]))
  {}

  /** As many slots as ids means that no id occurs twice. */
  lemma {:induction false} MembersDistinct(ids: seq<nat>)
    ensures |Members(ids)| <= |ids|
    ensures |Members(ids)| == |ids| <==> Distinct(ids)
  {
    hide Members, Distinct;
    OneMember(ids);
    if ids != [] {
      var n := |ids| - 1;
      MembersDistinct(ids[..n]);
      var before := Members(ids[..n]);
      if ids[n] in before {
        assert Members(ids) == before;
      } else {
        assert |before + {ids[n]}| == |before| + 1;
      }
    }
  }

  lemma AssignedAll(where: map<nat, nat>, base: Slots, ids: seq<nat>)
    requires Assigned(where, base, ids)
    ensures |where| == |ids| <==> Distinct(ids)
    ensures Distinct(ids) ==> MappedShort(where, base, ids)
  {
    hide Distinct, Rank, FreeSlot, Short;
    MembersDistinct(ids);
    assert |where| == |where.Keys|;
    if Distinct(ids) {
      forall i | 0 <= i < |ids| ensures LeadsShort(where, base, ids, i) { AssignedOne(where, base, ids, i); }
    }
  }

  lemma AssignedOne(where: map<nat, nat>, base: Slots, ids: seq<nat>, i: nat)
    requires Assigned(where, base, ids) && Distinct(ids) && i < |ids|
    ensures LeadsShort(where, base, ids, i)
  {
    hide Distinct, Rank, FreeSlot, Short, LeadsShort, Members;
    assert ids[i] in where.Keys;
    assert Occurs(where, base, ids, ids[i]);
    var k :| 0 <= k < |ids| && ids[k] == ids[i] && LeadsShort(where, base, ids, k);
    if k < i { DistinctPair(ids, k, i); }
    if i < k { DistinctPair(ids, i, k); }
  }

  /** The taken slots among the first ones are no more than all of them. */
  lemma {:induction false} TakenBefore(s: Slots, q: nat)
    requires q <= |s|
    ensures q - Rank(s, q) <= |s| - Rank(s, |s|)
    decreases |s| - q
  {
    if q < |s| { TakenBefore(s, q + 1); }
  }

  // ---------------------------------------------------------------------------------------------
  // Rebuilding a block
  // ---------------------------------------------------------------------------------------------

  /** A message stands for a block: its prefilled transactions and short ids are those of the block. */
  ghost predicate Describes(m: Message, block: seq<Tx>, sid: ShortId)
  {
    && Acceptable(m) && |block| == Count(m)
    && var base := Placed(m, |m.prefilled|);
       forall p :: 0 <= p < |block| ==>
         if base[p].Some? then base[p].value == block[p]
         else Rank(base, p) < |m.shortIds| && m.shortIds[Rank(base, p)] == sid(block[p].witnessHash)
  }

  /** The message that a node makes of a block: the first transaction in full, short ids for the rest. */
  function MessageOf(header: nat, block: seq<Tx>, sid: ShortId): Message
    requires block != []
  {
    Message(Some(header),
            seq<nat>(|block| - 1, i requires 0 <= i < |block| - 1 => sid(block[i + 1].witnessHash)),
            [Prefilled(0, block[0])])
  }

  /** The slots of that message: the first one taken, the others free. */
  lemma FirstPlaced(header: nat, block: seq<Tx>, sid: ShortId, p: nat)
    requires 0 < |block| <= MAX_TRANSACTIONS && !block[0].isNull && p < |block|
    ensures var m := MessageOf(header, block, sid);
      && Acceptable(m)
      && var base := Placed(m, 1);
         base[p] == (if p == 0 then Some(block[0]) else None) && Rank(base, p) == if p == 0 then 0 else p - 1
  {
    var m := MessageOf(header, block, sid);
    assert PositionOf(m, 0) == -1;
    assert PositionOf(m, 1) == 0;
    assert GoodEntry(m, 1);
    assert GoodPrefix(m, 0);
    assert Placed(m, 1) == Placed(m, 0)[0 := Some(block[0])];
    RankEmpty(Placed(m, 0), p);
    RankFill(Placed(m, 0), 0, block[0], p);
  }

  lemma MessageDescribes(header: nat, block: seq<Tx>, sid: ShortId)
    requires 0 < |block| <= MAX_TRANSACTIONS && !block[0].isNull
    ensures Describes(MessageOf(header, block, sid), block, sid) && MessageOf(header, block, sid).header == Some(header)
  {
    hide Acceptable, Placed, Rank;
    var m := MessageOf(header, block, sid);
    FirstPlaced(header, block, sid, 0);
    var base := Placed(m, 1);
    forall p | 0 <= p < |block|
      ensures if base[p].Some? then base[p].value == block[p]
              else Rank(base, p) < |m.shortIds| && m.shortIds[Rank(base, p)] == sid(block[p].witnessHash)
    {
      FirstPlaced(header, block, sid, p);
    }
  }

  lemma ShortAt(where: map<nat, nat>, base: Slots, ids: seq<nat>, p: nat)
    requires |ids| == Rank(base, |base|) && MappedShort(where, base, ids) && p < |base| && base[p].None?
    ensures Rank(base, p) < |ids| && ids[Rank(base, p)] in where && where[ids[Rank(base, p)]] == Short(p)
  {
    RankApart(base, p, |base|);
    assert LeadsShort(where, base, ids, Rank(base, p));
    SameRank(base, p, FreeSlot(base, |base|, Rank(base, p)));
  }

  lemma KnownSole(sid: ShortId, where: map<nat, nat>, base: Slots, list: seq<Tx>, s: Slots, p: nat, t: Tx)
    requires Known(sid, where, base, list, s) && p < |s| && Sole(sid, where, list, p, t)
    ensures s[p] == Some(t)
  {
    assert KnownAt(sid, where, base, list, s, p);
  }

  /** A block of 65537 transactions, the first one sent in full: the last short id leads to the first
      slot, and a known transaction with that id takes the place of the one sent. */
  lemma LastIdWraps(header: nat, block: seq<Tx>, sid: ShortId, where: map<nat, nat>, list: seq<Tx>, s: Slots, t: Tx)
    requires |block| == MAX16 + 2 && !block[0].isNull
    requires var m := MessageOf(header, block, sid);
      && Acceptable(m)
      && var base := Placed(m, 1);
         && |m.shortIds| == Rank(base, |base|) && MappedShort(where, base, m.shortIds)
         && Known(sid, where, base, list, s) && |s| > 0 && Sole(sid, where, list, 0, t)
    ensures sid(block[MAX16 + 1].witnessHash) in where && where[sid(block[MAX16 + 1].witnessHash)] == 0
    ensures Placed(MessageOf(header, block, sid), 1)[0] == Some(block[0]) && s[0] == Some(t)
  {
    hide Rank, Placed, MappedShort, Known, Sole;
    var m := MessageOf(header, block, sid);
    FirstPlaced(header, block, sid, MAX16 + 1);
    FirstPlaced(header, block, sid, 0);
    ShortAt(where, Placed(m, 1), m.shortIds, MAX16 + 1);
    KnownSole(sid, where, Placed(m, 1), list, s, 0, t);
  }

  /** No known transaction other than the block's own has one of the block's short ids. */
  ghost predicate Unambiguous(m: Message, block: seq<Tx>, sid: ShortId, list: seq<Tx>)
    requires Describes(m, block, sid)
  {
    forall p, t :: 0 <= p < |block| && t in list && Placed(m, |m.prefilled|)[p].None? ==>
      sid(t.witnessHash) == sid(block[p].witnessHash) ==> t == block[p]
  }

  /** Then the slots hold transactions of the block only, and all of them that were sent or are known. */
  lemma SlotsAreRight(m: Message, block: seq<Tx>, sid: ShortId, where: map<nat, nat>, list: seq<Tx>, s: Slots,
                      p: nat)
    requires Describes(m, block, sid) && Unambiguous(m, block, sid, list) && p < |block|
    requires Mapped(where, Placed(m, |m.prefilled|), m.shortIds)
    requires Known(sid, where, Placed(m, |m.prefilled|), list, s)
    ensures |s| == |block| && (s[p].Some? ==> s[p].value == block[p])
    ensures s[p].Some? <==> Placed(m, |m.prefilled|)[p].Some? || block[p] in list
  {
    var base := Placed(m, |m.prefilled|);
    assert KnownAt(sid, where, base, list, s, p);
    if base[p].Some? {
      forall t | t in list && Match(sid, where, t, p) ensures false {
        IdAt(where, base, m.shortIds, sid(t.witnessHash));
      }
    } else {
      var i := Rank(base, p);
      assert Leads(where, base, m.shortIds, i);
      SameRank(base, p, where[m.shortIds[i]]);
      assert Match(sid, where, block[p], p);
      forall t | t in list && Match(sid, where, t, p) ensures t == block[p] {
        IdAt(where, base, m.shortIds, sid(t.witnessHash));
      }
      if block[p] in list { assert Sole(sid, where, list, p, block[p]); }
    }
  }

  lemma IdAt(where: map<nat, nat>, base: Slots, ids: seq<nat>, id: nat)
    requires Mapped(where, base, ids) && id in where
    ensures where[id] < |base| && base[where[id]].None?
    ensures Rank(base, where[id]) < |ids| && ids[Rank(base, where[id])] == id
  {
    var i :| 0 <= i < |ids| && ids[i] == id;
    assert Leads(where, base, ids, i);
  }

  /** The block's transactions that the first `n` slots lack, in order. */
  function Lacking(block: seq<Tx>, s: Slots, n: nat): (r: seq<Tx>)
    requires n <= |s| == |block|
    ensures |r| == Rank(s, n)
  {
    if n == 0 then []
    else Lacking(block, s, n - 1) + if s[n - 1].None? then [block[n - 1]] else []
  }

  lemma {:induction false} LackingAt(block: seq<Tx>, s: Slots, n: nat, p: nat)
    requires p < n <= |s| == |block| && s[p].None?
    ensures Rank(s, p) < |Lacking(block, s, n)| && Lacking(block, s, n)[Rank(s, p)] == block[p]
  {
    if p < n - 1 { LackingAt(block, s, n - 1, p); }
  }

  /** With the transactions that were lacking, the block comes out as it was. */
  lemma {:induction false} BlockIsRebuilt(m: Message, block: seq<Tx>, sid: ShortId, where: map<nat, nat>,
                                          list: seq<Tx>, s: Slots)
    requires Describes(m, block, sid) && Unambiguous(m, block, sid, list)
    requires Mapped(where, Placed(m, |m.prefilled|), m.shortIds)
    requires Known(sid, where, Placed(m, |m.prefilled|), list, s)
    ensures |s| == |block| && Assembled(s, Lacking(block, s, |s|), |s|) == block
  {
    hide Describes, Unambiguous, Mapped;
    assert |s| == |block| by { Lengths(m, block, sid, where, list, s); }
    var missing := Lacking(block, s, |s|);
    forall p | 0 <= p < |s| ensures Assembled(s, missing, |s|)[p] == block[p] {
      AssembledAt(s, missing, |s|, p);
      SlotsAreRight(m, block, sid, where, list, s, p);
      if s[p].None? { LackingAt(block, s, |s|, p); }
    }
  }

  lemma Lengths(m: Message, block: seq<Tx>, sid: ShortId, where: map<nat, nat>, list: seq<Tx>, s: Slots)
    requires Describes(m, block, sid) && Known(sid, where, Placed(m, |m.prefilled|), list, s)
    ensures |s| == |block|
  {}

  /** A block sent as a compact message, started from the transactions known at the other end and completed
      with those requested, comes out as it was. */
  method Relay(header: nat, block: seq<Tx>, pool: seq<Tx>, extra: seq<Tx>, sid: ShortId, overfull: seq<nat> -> bool,
               check: seq<Tx> -> Verdict)
    returns (status: Status, vtx: seq<Tx>, requested: nat)
    requires 0 < |block| <= MAX16 + 1 && !block[0].isNull && Distinct(pool)
    requires var ids := MessageOf(header, block, sid).shortIds;
      Distinct(ids) && forall i :: 0 < i <= |ids| ==> !overfull(ids[..i])
    requires forall p, t :: 0 < p < |block| && t in pool + extra ==>
      sid(t.witnessHash) == sid(block[p].witnessHash) ==> t == block[p]
    ensures vtx == block
    ensures status == Ok <==> check(block) == Good
    ensures status == CheckFailed <==> check(block) == Bad
    ensures status == Failed <==> check(block) == Corrupt
    ensures requested == |set p | 0 < p < |block| && block[p] !in pool + extra|
  {
    hide Describes, Acceptable, Placed, MappedShort, Mapped, Known, Distinct, Rank;
    var m := MessageOf(header, block, sid);
    MessageDescribes(header, block, sid);
    FirstPlaced(header, block, sid, 0);
    var b := new PartiallyDownloadedBlock();
    ghost var where, n, k;
    status, where, n, k := b.InitData(m, pool, extra, sid, overfull);
    ghost var base := Placed(m, 1);
    MappedIff(where, base, m.shortIds);
    OthersFree(header, block, sid, pool + extra);
    BlockIsRebuilt(m, block, sid, where, pool + extra, b.txnAvailable);
    ghost var s := b.txnAvailable;
    var missing := Lacking(block, b.txnAvailable, |b.txnAvailable|);
    requested := |missing|;
    status, vtx := b.FillBlock(missing, check);
    forall p | 0 <= p < |block| ensures s[p].None? <==> p > 0 && block[p] !in pool + extra {
      SlotsAreRight(m, block, sid, where, pool + extra, s, p);
      FirstPlaced(header, block, sid, p);
    }
    RankCounts(s, |s|);
    assert FreeOnes(s, |s|) == set p | 0 < p < |block| && block[p] !in pool + extra;
  }

  lemma OthersFree(header: nat, block: seq<Tx>, sid: ShortId, list: seq<Tx>)
    requires 0 < |block| <= MAX_TRANSACTIONS && Describes(MessageOf(header, block, sid), block, sid)
    requires forall p, t :: 0 < p < |block| && t in list ==>
      sid(t.witnessHash) == sid(block[p].witnessHash) ==> t == block[p]
    requires !block[0].isNull
    ensures Unambiguous(MessageOf(header, block, sid), block, sid, list)
  {
    hide Rank, Placed;
    var m := MessageOf(header, block, sid);
    forall p, t | 0 <= p < |block| && t in list && Placed(m, 1)[p].None?
      ensures sid(t.witnessHash) == sid(block[p].witnessHash) ==> t == block[p]
    {
      FirstPlaced(header, block, sid, p);
    }
  }

  lemma {:induction false} RankCounts(s: Slots, n: nat)
    requires n <= |s|
    ensures Rank(s, n) == |FreeOnes(s, n)|
  {
    if n > 0 {
      RankCounts(s, n - 1);
      assert FreeOnes(s, n) == FreeOnes(s, n - 1) + if s[n - 1].None? then {n - 1} else {};
    }
  }

  ghost function FreeOnes(s: Slots, n: nat): set<int>
    requires n <= |s|
  {
    set p | 0 <= p < n && s[p].None?
  }
}
