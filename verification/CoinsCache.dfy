/** The cache objects themselves: fields updated in place, even by lookups, with every method
    proved against the value-level operations of CoinsView. */
module CoinsCache {
  import opened CoinsView
  import opened Options
  import Totals

  // ---------------------------------------------------------------------------------------------
  // Memory accounting
  // ---------------------------------------------------------------------------------------------

  /** The dynamic memory of each cached coin. */
  function Sizes(memory: Script -> nat, m: Entries): map<OutPoint, nat>
  {
    map o | o in m :: memory(m[o].coin.script)
  }

  ghost function Total(memory: Script -> nat, m: Entries): nat { Totals.Total(Sizes(memory, m)) }

  function Size(memory: Script -> nat, e: Option<Entry>): nat
  {
    if e.Some? then memory(e.value.coin.script) else 0
  }

  /** Replacing, adding or erasing one entry moves the total by the difference of the two sizes. */
  lemma TotalPut(memory: Script -> nat, m: Entries, o: OutPoint, e: Option<Entry>)
    ensures Total(memory, Put(m, o, e)) == Total(memory, m) - Size(memory, Find(m, o)) + Size(memory, e)
  {
    assert Sizes(memory, Put(m, o, e)) - {o} == Sizes(memory, m) - {o};
    Totals.TotalChange(Sizes(memory, m), Sizes(memory, Put(m, o, e)), o);
  }

  lemma NoUsage(memory: Script -> nat)
    ensures Total(memory, map[]) == 0
  {}

  // ---------------------------------------------------------------------------------------------
  // The database at the bottom
  // ---------------------------------------------------------------------------------------------

  class CoinsViewDB {
    var coins: Utxos

    constructor (coins: Utxos)
      ensures this.coins == coins
    {
      this.coins := coins;
    }

    method BatchWrite(mapCoins: Entries)
      modifies this
      ensures coins == Store(mapCoins, old(coins))
      ensures forall o <- mapCoins :: mapCoins[o].isDirty ==>
                if mapCoins[o].coin.value == -1 then o !in coins else o in coins && coins[o] == mapCoins[o].coin
      ensures forall o :: o !in mapCoins || !mapCoins[o].isDirty ==> Find(coins, o) == Find(old(coins), o)
    {
      var todo := mapCoins.Keys;
      assert coins == Store(mapCoins - todo, coins);
      while todo != {}
        invariant todo <= mapCoins.Keys && coins == Store(mapCoins - todo, old(coins))
      {
        var o :| o in todo;
        StoreStep(mapCoins, old(coins), todo, o);
        if mapCoins[o].isDirty {
          if mapCoins[o].coin.IsSpent() {
            coins := coins - {o};
          } else {
            coins := coins[o := mapCoins[o].coin];
          }
        }
        todo := todo - {o};
      }
      assert mapCoins - {} == mapCoins;
    }
  }

  // ---------------------------------------------------------------------------------------------
  // A cache over another view
  // ---------------------------------------------------------------------------------------------

  datatype Base = Disk(db: CoinsViewDB) | Memory(cache: CoinsViewCache)

  datatype Tx = Tx(txid: nat, coinBase: bool, outs: seq<(int, Script)>)

  /** The coin of output i of a transaction confirmed at a height. */
  function OutputCoin(tx: Tx, i: nat, height: nat): Coin
    requires i < |tx.outs|
  {
    Coin(tx.outs[i].0, tx.outs[i].1, tx.coinBase, height)
  }

  /** The additions a transaction's outputs make to one plain map. */
  function PlainAddCoins(m: Utxos, tx: Tx, height: nat, count: nat): Utxos
    requires count <= |tx.outs|
  {
    if count == 0 then m
    else
      PlainApply(PlainAddCoins(m, tx, height, count - 1),
                 AddOp(OutPoint(tx.txid, count - 1), OutputCoin(tx, count - 1, height), tx.coinBase))
  }

  /** A script that starts with a return or is too long to run: no one can spend its output. */
  predicate Burnt(script: Script) { (|script| >= 1 && script[0] == 0x6a) || |script| >= 10001 }

  /** Every output that can be spent is in the set afterwards, as the transaction has it; nothing else changes. */
  lemma {:induction false} OutputsAdded(m: Utxos, tx: Tx, height: nat, count: nat)
    requires count <= |tx.outs|
    requires tx.coinBase || forall i | 0 <= i < |tx.outs| :: OutPoint(tx.txid, i) !in m
    ensures forall i | 0 <= i < count && !Burnt(tx.outs[i].1) ::
      Find(PlainAddCoins(m, tx, height, count), OutPoint(tx.txid, i))
      == Some(Coin(tx.outs[i].0, tx.outs[i].1, tx.coinBase, height))
    ensures forall i | 0 <= i < count && Burnt(tx.outs[i].1) ::
      Find(PlainAddCoins(m, tx, height, count), OutPoint(tx.txid, i)) == Find(m, OutPoint(tx.txid, i))
    ensures forall o: OutPoint :: o.txid != tx.txid || o.n >= count ==>
      Find(PlainAddCoins(m, tx, height, count), o) == Find(m, o)
  {
    if count > 0 { OutputsAdded(m, tx, height, count - 1); }
  }

  /** An entry as it is loaded from the view below. */
  function Loaded(coin: Coin): (e: Entry)
    ensures e.coin == coin && !e.isDirty && (e.isFresh <==> coin.value == -1)
  {
    Entry(coin, false, coin.IsSpent())
  }

  /** A parent's entry after a child's was merged: a change replaces its coin, or removes it if the coin is spent and the
      parent's base never saw it. */
  ghost predicate MergesInto(child: Entry, o: OutPoint, before: Entries, after: Entries)
  {
    if !child.isDirty then Find(after, o) == Find(before, o)
    else
      var isFresh := if o in before then before[o].isFresh else child.isFresh;
      if isFresh && child.coin.value == -1 then o !in after
      else o in after && after[o].coin == child.coin && after[o].isDirty && after[o].isFresh == isFresh
  }

  lemma MergedInto(child: Entry, o: OutPoint, before: Entries, after: Entries)
    requires Find(after, o) == MergeEntry(child, Find(before, o))
    ensures MergesInto(child, o, before, after)
  {}

  lemma FetchedEntry(v: View, o: OutPoint)
    requires v.Cache?
    ensures Fetch(v, o).Cache? && (o in v.entries ==> Lookup(v, o) == Some(v.entries[o].coin) && Fetch(v, o) == v)
  {}

  class CoinsViewCache {
    const base: Base
    const memory: Script -> nat
    var cacheCoins: Entries
    var cachedCoinsUsage: int
    ghost const Repr: set<object>

    /** The objects of the stack are distinct, down to the database. */
    ghost predicate Linked()
      decreases Repr
    {
      match base
      case Disk(db) => Repr == {this, db}
      case Memory(cache) => this !in cache.Repr && Repr == {this} + cache.Repr && cache.Linked()
    }

    ghost function Model(): (v: View)
      requires Linked()
      reads Repr
      ensures v.Cache? && v.entries == cacheCoins
      decreases Repr
    {
      match base
      case Disk(db) => Cache(cacheCoins, Database(db.coins))
      case Memory(cache) => Cache(cacheCoins, cache.Model())
    }

    ghost predicate Valid()
      reads Repr
    {
      Linked() && Inv(Model())
    }

    /** The recorded usage of every layer is exact; the empty script takes no memory. */
    ghost predicate UsageExact()
      requires Linked()
      reads Repr
      decreases Repr
    {
      memory(EMPTY.script) == 0 && cachedCoinsUsage == Total(memory, cacheCoins) && (base.Memory? ==> base.cache.UsageExact())
    }

    ghost function Coins(): Utxos
      requires Linked()
      reads Repr
    {
      Utxo(Model())
    }

    constructor (base: Base, memory: Script -> nat)
      requires memory(EMPTY.script) == 0
      requires match base case Disk(db) => Inv(Database(db.coins)) case Memory(cache) => cache.Valid()
      ensures Valid() && this.base == base && this.memory == memory && cacheCoins == map[]
      ensures Repr == {this} + (match base case Disk(db) => {db} case Memory(cache) => cache.Repr)
      ensures base.Memory? ==> Coins() == base.cache.Coins() && (base.cache.UsageExact() ==> UsageExact())
      ensures base.Disk? ==> Model().base == Database(base.db.coins) && UsageExact()
    {
      this.base := base;
      this.memory := memory;
      cacheCoins := map[];
      cachedCoinsUsage := 0;
      Repr := {this} + (match base case Disk(db) => {db} case Memory(cache) => cache.Repr);
    }

    /** Load the entry for an outpoint, from whichever layer below has it. */
    method FetchCoin(o: OutPoint) returns (found: bool)
      requires Linked()
      modifies Repr
      ensures Model() == Fetch(old(Model()), o)
      ensures found == (o in cacheCoins) == old(Lookup(Model(), o)).Some?
      ensures cacheCoins == if o in old(cacheCoins) || !found then old(cacheCoins)
                            else old(cacheCoins)[o := Loaded(old(Lookup(Model(), o)).value)]
      ensures old(UsageExact()) ==> UsageExact()
      decreases Repr, 0
    {
      hide Inv, Utxo, Total;
      if o in cacheCoins { return true; }
      var tmp: Option<Coin>;
      match base {
        case Disk(db) => tmp := Find(db.coins, o);
        case Memory(cache) => tmp := cache.GetCoin(o);
      }
      if tmp.None? { return false; }
      assert cacheCoins == old(cacheCoins) && cachedCoinsUsage == old(cachedCoinsUsage);
      var entry := Entry(tmp.value, false, tmp.value.IsSpent());
      TotalPut(memory, cacheCoins, o, Some(entry));
      cacheCoins := cacheCoins[o := entry];
      cachedCoinsUsage := cachedCoinsUsage + memory(entry.coin.script);
      return true;
    }

    method GetCoin(o: OutPoint) returns (coin: Option<Coin>)
      requires Linked()
      modifies Repr
      ensures Model() == Fetch(old(Model()), o) && coin == old(Lookup(Model(), o))
      ensures old(UsageExact()) ==> UsageExact()
      decreases Repr, 1
    {
      var found := FetchCoin(o);
      return if found then Some(cacheCoins[o].coin) else None;
    }

    /** The coin at an outpoint, or the empty coin when the set has none there. */
    method AccessCoin(o: OutPoint) returns (coin: Coin)
      requires Valid()
      modifies Repr
      ensures Valid() && Coins() == old(Coins())
      ensures Model() == Fetch(old(Model()), o)
      ensures coin == CoinAt(Coins(), o)
      ensures if o in Coins() then coin == Coins()[o] else coin.value == -1
      ensures old(UsageExact()) ==> UsageExact()
    {
      LookupAgrees(Model(), o);
      FetchIsInvisible(Model(), o);
      var found := FetchCoin(o);
      return if found then cacheCoins[o].coin else EMPTY;
    }

    method HaveCoin(o: OutPoint) returns (have: bool)
      requires Valid()
      modifies Repr
      ensures Valid() && Coins() == old(Coins())
      ensures have == (o in Coins())
      ensures old(UsageExact()) ==> UsageExact()
    {
      LookupAgrees(Model(), o);
      FetchIsInvisible(Model(), o);
      var found := FetchCoin(o);
      return found && !cacheCoins[o].coin.IsSpent();
    }

    /** Add a coin. Claiming it as new over an unspent cached coin throws; when that happens the
        usage has already been lowered and is not put back. */
    method AddCoin(o: OutPoint, coin: Coin, possibleOverwrite: bool) returns (threw: bool)
      requires Linked() && !coin.IsSpent()
      modifies this
      ensures Model() == Add(old(Model()), o, coin, possibleOverwrite)
      ensures threw == AddThrows(old(Model()), o, coin, possibleOverwrite)
      ensures threw <==> !Burnt(coin.script) && !possibleOverwrite && o in old(cacheCoins) && old(cacheCoins)[o].coin.value != -1
      ensures cacheCoins ==
              if threw || Burnt(coin.script) then old(cacheCoins)
              else
                var was := old(cacheCoins);
                was[o := Entry(coin, true, if o in was then was[o].isFresh || (!possibleOverwrite && !was[o].isDirty)
                                           else !possibleOverwrite)]
      ensures !threw && old(UsageExact()) ==> UsageExact()
      ensures threw ==> cachedCoinsUsage == old(cachedCoinsUsage) - memory(cacheCoins[o].coin.script)
      ensures threw && old(UsageExact()) ==> (UsageExact() <==> memory(cacheCoins[o].coin.script) == 0)
    {
      hide Inv, Utxo, Total, Lookup;
      if coin.IsUnspendable() { return false; }
      var inserted := o !in cacheCoins;
      var entry := if inserted then Entry(EMPTY, false, false) else cacheCoins[o];
      var isFresh := false;
      if !inserted {
        cachedCoinsUsage := cachedCoinsUsage - memory(entry.coin.script);
      }
      if !possibleOverwrite {
        if !entry.coin.IsSpent() {
          return true;
        }
        isFresh := !entry.isDirty;
      }
      TotalPut(memory, cacheCoins, o, Some(Entry(coin, true, entry.isFresh || isFresh)));
      cacheCoins := cacheCoins[o := Entry(coin, true, entry.isFresh || isFresh)];
      cachedCoinsUsage := cachedCoinsUsage + memory(coin.script);
      return false;
    }

    /** Spend a coin, handing out what was stored; without an unspent coin the set is unchanged. */
    method SpendCoin(o: OutPoint) returns (moveout: Coin)
      requires Linked()
      modifies Repr
      ensures Model() == Spend(old(Model()), o)
      ensures moveout == old(Access(Model(), o))
      ensures var was, coin := old(cacheCoins), old(Lookup(Model(), o));
        cacheCoins ==
        if coin.None? then was
        else if (if o in was then was[o].isFresh else coin.value.value == -1) then was - {o}
        else was[o := Entry(Coin(-1, [], false, 0), true, false)]
      ensures old(UsageExact()) ==> UsageExact()
    {
      hide Inv, Utxo, Total, Lookup;
      FetchedEntry(Model(), o);
      var found := FetchCoin(o);
      if !found { return EMPTY; }
      cachedCoinsUsage := cachedCoinsUsage - memory(cacheCoins[o].coin.script);
      moveout := cacheCoins[o].coin;
      if cacheCoins[o].isFresh {
        TotalPut(memory, cacheCoins, o, None);
        cacheCoins := cacheCoins - {o};
      } else {
        TotalPut(memory, cacheCoins, o, Some(Entry(EMPTY, true, false)));
        cacheCoins := cacheCoins[o := Entry(EMPTY, true, false)];
      }
    }

    method Uncache(o: OutPoint)
      requires Linked()
      modifies this
      ensures Model() == CoinsView.Uncache(old(Model()), o)
      ensures o in cacheCoins ==> cacheCoins[o].isDirty || cacheCoins[o].isFresh
      ensures cacheCoins == old(cacheCoins) || (cacheCoins == old(cacheCoins) - {o} && old(Flagless(o)))
      ensures old(UsageExact()) ==> UsageExact()
    {
      if o in cacheCoins && !cacheCoins[o].isDirty && !cacheCoins[o].isFresh {
        TotalPut(memory, cacheCoins, o, None);
        cachedCoinsUsage := cachedCoinsUsage - memory(cacheCoins[o].coin.script);
        cacheCoins := cacheCoins - {o};
      }
    }

    /** A cached entry that is as the view below has it. */
    ghost predicate Flagless(o: OutPoint)
      reads this
    {
      o in cacheCoins && !cacheCoins[o].isDirty && !cacheCoins[o].isFresh
    }

    /** Merge one child entry into this cache. */
    method MergeOne(o: OutPoint, child: Entry) returns (threw: bool)
      modifies this
      ensures threw == Misapplied(child, Find(old(cacheCoins), o))
      ensures threw <==> child.isDirty && child.isFresh && o in old(cacheCoins) && old(cacheCoins)[o].coin.value != -1
      ensures !threw ==> cacheCoins == Put(old(cacheCoins), o, MergeEntry(child, Find(old(cacheCoins), o)))
      ensures !threw ==> MergesInto(child, o, old(cacheCoins), cacheCoins)
      ensures forall p :: p != o ==> Find(cacheCoins, p) == Find(old(cacheCoins), p)
      ensures !threw && old(cachedCoinsUsage == Total(memory, cacheCoins)) ==> cachedCoinsUsage == Total(memory, cacheCoins)
    {
      TotalPut(memory, cacheCoins, o, MergeEntry(child, Find(cacheCoins, o)));
      if child.isDirty {
        if o !in cacheCoins {
          if !(child.isFresh && child.coin.IsSpent()) {
            cacheCoins := cacheCoins[o := Entry(child.coin, true, child.isFresh)];
            cachedCoinsUsage := cachedCoinsUsage + memory(child.coin.script);
          }
        } else {
          var ours := cacheCoins[o];
          if child.isFresh && !ours.coin.IsSpent() {
            return true;
          }
          cachedCoinsUsage := cachedCoinsUsage - memory(ours.coin.script);
          if ours.isFresh && child.coin.IsSpent() {
            cacheCoins := cacheCoins - {o};
          } else {
            cacheCoins := cacheCoins[o := Entry(child.coin, true, ours.isFresh)];
            cachedCoinsUsage := cachedCoinsUsage + memory(child.coin.script);
          }
        }
      }
      assert cacheCoins == Put(old(cacheCoins), o, MergeEntry(child, Find(old(cacheCoins), o)));
      return false;
    }

    /** Merge a child's entries into this cache, in whatever order its map yields them. */
    method BatchWrite(mapCoins: Entries) returns (threw: bool)
      requires Linked()
      modifies this
      ensures threw == exists o <- mapCoins :: Misapplied(mapCoins[o], Find(old(cacheCoins), o))
      ensures !threw ==> Model() == CoinsView.BatchWrite(old(Model()), mapCoins)
      ensures !threw ==> forall o <- mapCoins :: MergesInto(mapCoins[o], o, old(cacheCoins), cacheCoins)
      ensures forall o :: o !in mapCoins ==> Find(cacheCoins, o) == Find(old(cacheCoins), o)
      ensures !threw && old(UsageExact()) ==> UsageExact()
    {
      var todo := mapCoins.Keys;
      assert cacheCoins == Merge(mapCoins - todo, cacheCoins);
      while todo != {}
        invariant todo <= mapCoins.Keys && cacheCoins == Merge(mapCoins - todo, old(cacheCoins))
        invariant forall o <- mapCoins.Keys - todo :: !Misapplied(mapCoins[o], Find(old(cacheCoins), o))
        invariant old(cachedCoinsUsage == Total(memory, cacheCoins)) ==> cachedCoinsUsage == Total(memory, cacheCoins)
      {
        var o :| o in todo;
        MergeStep(mapCoins, old(cacheCoins), todo, o);
        threw := MergeOne(o, mapCoins[o]);
        if threw { return; }
        todo := todo - {o};
      }
      assert mapCoins - {} == mapCoins;
      forall o <- mapCoins ensures MergesInto(mapCoins[o], o, old(cacheCoins), cacheCoins) {
        MergedInto(mapCoins[o], o, old(cacheCoins), cacheCoins);
      }
      return false;
    }

    /** Push every change into the view below; the cache is empty and the top shows the same set. */
    method Flush()
      requires Valid()
      modifies Repr
      ensures Valid() && Coins() == old(Coins()) && cacheCoins == map[]
      ensures Model() == CoinsView.Flush(old(Model()))
      ensures Utxo(Model().base) == old(Coins())
      ensures old(UsageExact()) ==> UsageExact()
    {
      hide Inv, Utxo, Total, Merge, Store, MergesInto, Misapplied;
      FlushIsInvisible(Model());
      match base {
        case Disk(db) => db.BatchWrite(cacheCoins);
        case Memory(cache) =>
          assert cache.Linked() && cache in cache.Repr;
          forall o <- cacheCoins { FlushNeverThrows(Model(), o); }
          var threw := cache.BatchWrite(cacheCoins);
          assert !threw;
      }
      cacheCoins := map[];
      cachedCoinsUsage := 0;
      NoUsage(memory);
    }

    /** Rewrite a coin in place through a modifier, whether or not the set had it. */
    method ModifyCoin(o: OutPoint, modifier: Coin -> Coin)
      requires Valid() && !modifier(CoinAt(Coins(), o)).IsSpent()
      modifies Repr
      ensures Valid() && Coins() == PlainApply(old(Coins()), ModifyOp(o, modifier))
      ensures var coin := modifier(if o in old(Coins()) then old(Coins())[o] else Coin(-1, [], false, 0));
        Coins() == if Burnt(coin.script) then old(Coins()) else old(Coins())[o := coin]
      ensures old(UsageExact()) ==> UsageExact()
    {
      var coin := AccessCoin(o);
      coin := modifier(coin);
      var threw := AddCoin(o, coin, true);
      assert Model() == Apply(old(Model()), ModifyOp(o, modifier)) by {
        LookupAgrees(old(Model()), o);
      }
      StepRefinesPlainMap(old(Model()), ModifyOp(o, modifier));
    }

    /** Add all outputs of a transaction; only coinbase outputs may overwrite. */
    method AddCoins(tx: Tx, height: nat)
      requires Valid() && forall out <- tx.outs :: out.0 != -1
      requires tx.coinBase || forall i | 0 <= i < |tx.outs| :: OutPoint(tx.txid, i) !in Coins()
      modifies this
      ensures Valid() && Coins() == PlainAddCoins(old(Coins()), tx, height, |tx.outs|)
      ensures forall i | 0 <= i < |tx.outs| && !Burnt(tx.outs[i].1) :: OutPoint(tx.txid, i) in Coins() &&
                var coin := Coins()[OutPoint(tx.txid, i)];
                && coin.value == tx.outs[i].0 && coin.script == tx.outs[i].1
                && coin.coinBase == tx.coinBase && coin.height == height
      ensures forall i | 0 <= i < |tx.outs| && Burnt(tx.outs[i].1) ::
                Find(Coins(), OutPoint(tx.txid, i)) == Find(old(Coins()), OutPoint(tx.txid, i))
      ensures forall o: OutPoint :: o.txid != tx.txid || o.n >= |tx.outs| ==> Find(Coins(), o) == Find(old(Coins()), o)
      ensures old(UsageExact()) ==> UsageExact()
    {
      for i := 0 to |tx.outs|
        invariant Valid() && Coins() == PlainAddCoins(old(Coins()), tx, height, i)
        invariant old(UsageExact()) ==> UsageExact()
        invariant tx.coinBase || forall j | i <= j < |tx.outs| :: OutPoint(tx.txid, j) !in Coins()
      {
        StepRefinesPlainMap(Model(), AddOp(OutPoint(tx.txid, i), OutputCoin(tx, i, height), tx.coinBase));
        var threw := AddCoin(OutPoint(tx.txid, i), OutputCoin(tx, i, height), tx.coinBase);
      }
      OutputsAdded(old(Coins()), tx, height, |tx.outs|);
    }

    /** The unspent output of a transaction with the least index, if it has one. */
    method AccessByTxid(txid: nat, maxOutputs: nat) returns (coin: Coin)
      requires Valid()
      modifies Repr
      ensures Valid() && Coins() == old(Coins())
      ensures coin.IsSpent() ==> coin == EMPTY && forall n | 0 <= n < maxOutputs :: OutPoint(txid, n) !in Coins()
      ensures !coin.IsSpent() ==>
                exists n | 0 <= n < maxOutputs :: OutPoint(txid, n) in Coins() && coin == Coins()[OutPoint(txid, n)]
                  && forall k | 0 <= k < n :: OutPoint(txid, k) !in Coins()
    {
      var n := 0;
      while n < maxOutputs
        invariant 0 <= n <= maxOutputs && Valid() && Coins() == old(Coins())
        invariant forall k | 0 <= k < n :: OutPoint(txid, k) !in Coins()
      {
        UnspentInUtxo(Model(), OutPoint(txid, n));
        coin := AccessCoin(OutPoint(txid, n));
        if !coin.IsSpent() { return; }
        n := n + 1;
      }
      return EMPTY;
    }
  }

  /** Merging a child's entries one at a time, in any order, merges them all. */
  lemma MergeStep(child: Entries, parent: Entries, todo: set<OutPoint>, o: OutPoint)
    requires o in todo && todo <= child.Keys
    ensures Find(Merge(child - todo, parent), o) == Find(parent, o)
    ensures Merge(child - (todo - {o}), parent) ==
            Put(Merge(child - todo, parent), o, MergeEntry(child[o], Find(parent, o)))
  {}

  lemma StoreStep(child: Entries, coins: Utxos, todo: set<OutPoint>, o: OutPoint)
    requires o in todo && todo <= child.Keys
    ensures var now := Store(child - todo, coins);
            Store(child - (todo - {o}), coins) == if child[o].isDirty then Put(now, o, Stored(child, coins, o)) else now
  {}

  lemma {:induction false} UnspentInUtxo(v: View, o: OutPoint)
    ensures o in Utxo(v) ==> !Utxo(v)[o].IsSpent()
  {
    if v.Cache? { UnspentInUtxo(v.base, o); }
  }
}
