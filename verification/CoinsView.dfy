/** The layered unspent-output views as values: what every cache operation does to a stack of
    caches of any depth, and the proof that the stack always means one plain map. */
module CoinsView {
  import opened Numbers
  import opened Options

  type Script = seq<Byte>

  const OP_RETURN: Byte := 0x6a
  const MAX_SCRIPT_SIZE := 10000

  datatype OutPoint = OutPoint(txid: nat, n: nat)

  /** A transaction output in the set; a null value (-1) marks it spent. */
  datatype Coin = Coin(value: int, script: Script, coinBase: bool, height: nat) {
    predicate IsSpent() { value == -1 }
    predicate IsUnspendable() { (|script| > 0 && script[0] == OP_RETURN) || |script| > MAX_SCRIPT_SIZE }
  }

  const EMPTY := Coin(-1, [], false, 0)

  datatype Entry = Entry(coin: Coin, isDirty: bool, isFresh: bool)

  type Entries = map<OutPoint, Entry>
  type Utxos = map<OutPoint, Coin>

  /** A database at the bottom, any number of caches on top of it. */
  datatype View = Database(coins: Utxos) | Cache(entries: Entries, base: View)

  // ---------------------------------------------------------------------------------------------
  // Meaning and invariant
  // ---------------------------------------------------------------------------------------------

  /** The one plain map a stack stands for: its unspent coins as seen from the top. */
  ghost function Utxo(v: View): Utxos
  {
    match v
    case Database(coins) => map o | o in coins && !coins[o].IsSpent() :: coins[o]
    case Cache(entries, base) =>
      var below := Utxo(base);
      map o | o in entries.Keys + below.Keys && (o in entries ==> !entries[o].coin.IsSpent())
        :: if o in entries then entries[o].coin else below[o]
  }

  function Find<V>(m: map<OutPoint, V>, o: OutPoint): Option<V>
  {
    if o in m then Some(m[o]) else None
  }

  function Put<V>(m: map<OutPoint, V>, o: OutPoint, v: Option<V>): map<OutPoint, V>
  {
    if v.Some? then m[o := v.value] else m - {o}
  }

  /** What a layer shows at one outpoint, given its own entry and what the view below shows. */
  function Shown(e: Option<Entry>, below: Option<Coin>): Option<Coin>
  {
    if e.None? then below else if e.value.coin.IsSpent() then None else Some(e.value.coin)
  }

  /** What the two flags promise about an entry, given the coin the view below shows. */
  ghost predicate EntryOk(e: Entry, below: Option<Coin>)
  {
    && (e.isFresh ==> below.None?)
    && (!e.isDirty ==> Shown(Some(e), below) == below)
    && (e.isFresh && e.isDirty ==> !e.coin.IsSpent())
    && (e.coin.IsSpent() ==> e.coin == EMPTY)
  }

  ghost predicate Inv(v: View)
  {
    match v
    case Database(coins) => forall o <- coins :: !coins[o].IsSpent()
    case Cache(entries, base) =>
      Inv(base) && forall o <- entries :: EntryOk(entries[o], Find(Utxo(base), o))
  }

  // ---------------------------------------------------------------------------------------------
  // Operations
  // ---------------------------------------------------------------------------------------------

  /** What GetCoin reports; the answer may be a spent coin. */
  function Lookup(v: View, o: OutPoint): Option<Coin>
  {
    match v
    case Database(coins) => if o in coins then Some(coins[o]) else None
    case Cache(entries, base) => if o in entries then Some(entries[o].coin) else Lookup(base, o)
  }

  /** The stack after a lookup: every layer on the way down has loaded the coin. */
  function Fetch(v: View, o: OutPoint): View
  {
    match v
    case Database(_) => v
    case Cache(entries, base) =>
      if o in entries then v
      else
        match Lookup(base, o)
        case None => Cache(entries, Fetch(base, o))
        case Some(coin) => Cache(entries[o := Entry(coin, false, coin.IsSpent())], Fetch(base, o))
  }

  /** Adding over an unspent cached entry without leave to overwrite is a logic error. */
  predicate AddThrows(v: View, o: OutPoint, coin: Coin, overwrite: bool)
    requires v.Cache?
  {
    !coin.IsUnspendable() && !overwrite && o in v.entries && !v.entries[o].coin.IsSpent()
  }

  /** The entry an addition leaves behind: a coin claimed as new is FRESH unless the entry it
      replaces still carries an unflushed change. */
  function AddedEntry(e: Option<Entry>, coin: Coin, overwrite: bool): Entry
  {
    if e.None? then Entry(coin, true, !overwrite)
    else Entry(coin, true, e.value.isFresh || (!overwrite && !e.value.isDirty))
  }

  function Add(v: View, o: OutPoint, coin: Coin, overwrite: bool): View
    requires v.Cache?
  {
    if coin.IsUnspendable() || AddThrows(v, o, coin, overwrite) then v
    else Cache(v.entries[o := AddedEntry(Find(v.entries, o), coin, overwrite)], v.base)
  }

  function Spend(v: View, o: OutPoint): (r: View)
    requires v.Cache?
    ensures r.Cache?
  {
    var w := Fetch(v, o);
    if o !in w.entries then w
    else if w.entries[o].isFresh then Cache(w.entries - {o}, w.base)
    else Cache(w.entries[o := Entry(EMPTY, true, false)], w.base)
  }

  function Uncache(v: View, o: OutPoint): View
    requires v.Cache?
  {
    if o in v.entries && !v.entries[o].isDirty && !v.entries[o].isFresh then Cache(v.entries - {o}, v.base) else v
  }

  /** A child entry marked FRESH over an unspent parent entry: the merge would throw. */
  predicate Misapplied(child: Entry, parent: Option<Entry>)
  {
    child.isDirty && child.isFresh && parent.Some? && !parent.value.coin.IsSpent()
  }

  /** The parent's entry after one child entry has been merged into it. */
  function MergeEntry(child: Entry, parent: Option<Entry>): Option<Entry>
  {
    if !child.isDirty then parent
    else if parent.None? then
      if child.isFresh && child.coin.IsSpent() then None else Some(Entry(child.coin, true, child.isFresh))
    else if parent.value.isFresh && child.coin.IsSpent() then None
    else Some(Entry(child.coin, true, parent.value.isFresh))
  }

  /** All of the child's entries merged into the parent's, each key on its own. */
  function Merge(child: Entries, parent: Entries): Entries
  {
    map o | o in child.Keys + parent.Keys && Merged(child, parent, o).Some? :: Merged(child, parent, o).value
  }

  function Merged(child: Entries, parent: Entries, o: OutPoint): Option<Entry>
  {
    if o in child then MergeEntry(child[o], Find(parent, o)) else Find(parent, o)
  }

  /** The database writes dirty entries only: unspent ones are stored, spent ones erased. */
  function Store(child: Entries, coins: Utxos): Utxos
  {
    map o | o in child.Keys + coins.Keys && Stored(child, coins, o).Some? :: Stored(child, coins, o).value
  }

  function Stored(child: Entries, coins: Utxos, o: OutPoint): Option<Coin>
  {
    if o in child && child[o].isDirty then
      if child[o].coin.IsSpent() then None else Some(child[o].coin)
    else Find(coins, o)
  }

  function BatchWrite(v: View, child: Entries): View
  {
    match v
    case Database(coins) => Database(Store(child, coins))
    case Cache(entries, base) => Cache(Merge(child, entries), base)
  }

  function Flush(v: View): View
    requires v.Cache?
  {
    Cache(map[], BatchWrite(v.base, v.entries))
  }

  // ---------------------------------------------------------------------------------------------
  // What each operation keeps
  // ---------------------------------------------------------------------------------------------

  lemma SameFinds<V>(a: map<OutPoint, V>, b: map<OutPoint, V>)
    requires forall o :: Find(a, o) == Find(b, o)
    ensures a == b
  {
    forall o ensures o in a <==> o in b { assert Find(a, o) == Find(b, o); }
    forall o | o in a ensures a[o] == b[o] { assert Find(a, o) == Find(b, o); }
  }

  lemma ShownAt(v: View, o: OutPoint)
    requires v.Cache?
    ensures Find(Utxo(v), o) == Shown(Find(v.entries, o), Find(Utxo(v.base), o))
  {}

  /** Replacing one entry of a layer: what it does to the flags and to the set shown. */
  lemma PutEntry(v: View, o: OutPoint, e: Option<Entry>)
    requires v.Cache? && Inv(v)
    ensures var w := Cache(Put(v.entries, o, e), v.base);
            var below := Find(Utxo(v.base), o);
            && (Inv(w) <==> (e.Some? ==> EntryOk(e.value, below)))
            && Utxo(w) == Put(Utxo(v), o, Shown(e, below))
  {
    var w := Cache(Put(v.entries, o, e), v.base);
    var below := Find(Utxo(v.base), o);
    if e.Some? ==> EntryOk(e.value, below) {
      forall p <- w.entries ensures EntryOk(w.entries[p], Find(Utxo(w.base), p)) {}
    } else {
      assert w.entries[o] == e.value;
    }
    forall p ensures Find(Utxo(w), p) == Find(Put(Utxo(v), o, Shown(e, below)), p) {
      ShownAt(w, p);
      ShownAt(v, p);
    }
    SameFinds(Utxo(w), Put(Utxo(v), o, Shown(e, below)));
  }

  lemma PutSame<V>(m: map<OutPoint, V>, o: OutPoint)
    ensures Put(m, o, Find(m, o)) == m
  {}

  lemma {:induction false} LookupAgrees(v: View, o: OutPoint)
    requires Inv(v)
    ensures Lookup(v, o).Some? && !Lookup(v, o).value.IsSpent() <==> o in Utxo(v)
    ensures o in Utxo(v) ==> Utxo(v)[o] == Lookup(v, o).value
    ensures Lookup(v, o).Some? && Lookup(v, o).value.IsSpent() ==> Lookup(v, o).value == EMPTY
  {
    if v.Cache? { LookupAgrees(v.base, o); }
  }

  /** Loading a coin changes what is cached in every layer and nothing that any layer shows. */
  lemma {:induction false} FetchIsInvisible(v: View, o: OutPoint)
    requires Inv(v)
    ensures Inv(Fetch(v, o)) && Utxo(Fetch(v, o)) == Utxo(v)
    ensures Lookup(Fetch(v, o), o) == Lookup(v, o)
  {
    if v.Cache? && o !in v.entries {
      FetchIsInvisible(v.base, o);
      LookupAgrees(v.base, o);
      var w := Cache(v.entries, Fetch(v.base, o));
      match Lookup(v.base, o)
      case None =>
      case Some(coin) =>
        PutEntry(w, o, Some(Entry(coin, false, coin.IsSpent())));
        ShownAt(w, o);
        PutSame(Utxo(w), o);
    }
  }

  /** The layer so far below the top. */
  function Layer(v: View, depth: nat): (r: View)
    requires depth < Height(v)
    ensures r.Cache?
  {
    if depth == 0 then v else Layer(v.base, depth - 1)
  }

  /** Does a layer down to this depth have an entry? */
  predicate HasEntry(v: View, o: OutPoint, depth: nat)
    requires depth < Height(v)
  {
    o in v.entries || (depth > 0 && HasEntry(v.base, o, depth - 1))
  }

  /** A lookup leaves the coin found, without a change to write, in every layer above the first that had it. */
  lemma {:induction false} FetchLoads(v: View, o: OutPoint, depth: nat)
    requires depth < Height(v)
    ensures Height(Fetch(v, o)) == Height(v)
    ensures Layer(Fetch(v, o), depth).entries ==
      if HasEntry(v, o, depth) || Lookup(v, o).None? then Layer(v, depth).entries
      else Layer(v, depth).entries[o := Entry(Lookup(v, o).value, false, Lookup(v, o).value.value == -1)]
    decreases depth
  {
    FetchHeight(v, o);
    if depth > 0 && o !in v.entries { FetchLoads(v.base, o, depth - 1); }
  }

  lemma AddOneEntry(e: Option<Entry>, below: Option<Coin>, coin: Coin, overwrite: bool)
    requires !coin.IsSpent() && (e.Some? ==> EntryOk(e.value, below))
    requires overwrite || e.None? || e.value.coin.IsSpent()
    ensures EntryOk(AddedEntry(e, coin, overwrite), below) <==> overwrite || e.Some? || below.None?
  {}

  /** Whatever the flags, the view shows the added coin; the flags stay truthful exactly when the
      caller did not claim novelty for a coin that the view below still shows. */
  lemma AddKeepsInvariantIff(v: View, o: OutPoint, coin: Coin, overwrite: bool)
    requires v.Cache? && Inv(v) && !coin.IsSpent()
    ensures Inv(Add(v, o, coin, overwrite)) <==>
            (coin.IsUnspendable() || overwrite || o in v.entries || o !in Utxo(v.base))
    ensures Utxo(Add(v, o, coin, overwrite)) ==
            if coin.IsUnspendable() || AddThrows(v, o, coin, overwrite) then Utxo(v) else Utxo(v)[o := coin]
  {
    if !coin.IsUnspendable() && !AddThrows(v, o, coin, overwrite) {
      AddOneEntry(Find(v.entries, o), Find(Utxo(v.base), o), coin, overwrite);
      PutEntry(v, o, Some(AddedEntry(Find(v.entries, o), coin, overwrite)));
    }
  }

  /** Erasing a FRESH entry is sound: nothing below can reappear. */
  lemma SpendRemoves(v: View, o: OutPoint)
    requires v.Cache? && Inv(v)
    ensures Inv(Spend(v, o)) && Utxo(Spend(v, o)) == Utxo(v) - {o}
  {
    FetchIsInvisible(v, o);
    LookupAgrees(v, o);
    var w := Fetch(v, o);
    if o !in w.entries {
      PutSame(Utxo(w), o);
    } else {
      assert EntryOk(w.entries[o], Find(Utxo(w.base), o));
      PutEntry(w, o, if w.entries[o].isFresh then None else Some(Entry(EMPTY, true, false)));
    }
  }

  lemma UncacheIsInvisible(v: View, o: OutPoint)
    requires v.Cache? && Inv(v)
    ensures Inv(Uncache(v, o)) && Utxo(Uncache(v, o)) == Utxo(v)
  {
    if Uncache(v, o) != v {
      PutEntry(v, o, None);
      ShownAt(v, o);
      PutSame(Utxo(v), o);
    }
  }

  /** With truthful flags the merge never meets a misapplied FRESH flag. */
  lemma FlushNeverThrows(v: View, o: OutPoint)
    requires v.Cache? && v.base.Cache? && Inv(v) && o in v.entries
    ensures !Misapplied(v.entries[o], Find(v.base.entries, o))
  {}

  /** One key of the merge: the parent then shows what the child showed, and its flags are
      truthful against the grandparent. */
  lemma MergeOneEntry(child: Option<Entry>, parent: Option<Entry>, grand: Option<Coin>)
    requires parent.Some? ==> EntryOk(parent.value, grand)
    requires child.Some? ==> EntryOk(child.value, Shown(parent, grand))
    ensures var r := if child.Some? then MergeEntry(child.value, parent) else parent;
            (r.Some? ==> EntryOk(r.value, grand)) && Shown(r, grand) == Shown(child, Shown(parent, grand))
  {}

  lemma MergeAt(v: View, o: OutPoint)
    requires v.Cache? && v.base.Cache? && Inv(v)
    ensures var w := BatchWrite(v.base, v.entries);
            && (o in w.entries ==> EntryOk(w.entries[o], Find(Utxo(v.base.base), o)))
            && Find(Utxo(w), o) == Find(Utxo(v), o)
  {
    var w := BatchWrite(v.base, v.entries);
    ShownAt(v, o);
    ShownAt(v.base, o);
    ShownAt(w, o);
    assert Find(w.entries, o) == Merged(v.entries, v.base.entries, o);
    MergeOneEntry(Find(v.entries, o), Find(v.base.entries, o), Find(Utxo(v.base.base), o));
  }

  /** Merging into the parent makes it show what the child showed, and leaves the parent's own
      flags truthful against the grandparent. */
  lemma BatchWriteMovesMeaning(v: View)
    requires v.Cache? && Inv(v)
    ensures Inv(BatchWrite(v.base, v.entries))
    ensures Utxo(BatchWrite(v.base, v.entries)) == Utxo(v)
  {
    var w := BatchWrite(v.base, v.entries);
    forall o ensures Find(Utxo(w), o) == Find(Utxo(v), o) {
      if v.base.Cache? {
        MergeAt(v, o);
      } else {
        ShownAt(v, o);
        if o in v.entries { assert EntryOk(v.entries[o], Find(Utxo(v.base), o)); }
      }
    }
    SameFinds(Utxo(w), Utxo(v));
    if v.base.Cache? {
      forall o <- w.entries ensures EntryOk(w.entries[o], Find(Utxo(w.base), o)) { MergeAt(v, o); }
    }
  }

  lemma FlushIsInvisible(v: View)
    requires v.Cache? && Inv(v)
    ensures Inv(Flush(v)) && Utxo(Flush(v)) == Utxo(v) && Utxo(Flush(v).base) == Utxo(v)
  {
    BatchWriteMovesMeaning(v);
    assert Utxo(Flush(v)) == Utxo(v);
  }

  // ---------------------------------------------------------------------------------------------
  // Runs
  // ---------------------------------------------------------------------------------------------

  /** Operations that may be aimed at any layer of the stack, however many caches sit above it. */
  datatype Upkeep = Get(o: OutPoint) | Drop(o: OutPoint) | Push

  datatype Op =
    | AddOp(o: OutPoint, coin: Coin, overwrite: bool)
    | SpendOp(o: OutPoint)
    | ModifyOp(o: OutPoint, modifier: Coin -> Coin)
    | UpkeepOp(depth: nat, upkeep: Upkeep)
    | NewCache

  function Height(v: View): nat { if v.Cache? then 1 + Height(v.base) else 0 }

  function Maintain(v: View, depth: nat, u: Upkeep): (r: View)
    requires depth < Height(v)
    ensures r.Cache? && Height(r) == Height(v)
  {
    if depth > 0 then Cache(v.entries, Maintain(v.base, depth - 1, u))
    else
      match u
      case Get(o) => FetchHeight(v, o); Fetch(v, o)
      case Drop(o) => Uncache(v, o)
      case Push => Flush(v)
  }

  lemma FetchHeight(v: View, o: OutPoint)
    ensures Height(Fetch(v, o)) == Height(v)
  {}

  function CoinAt(m: Utxos, o: OutPoint): Coin { if o in m then m[o] else EMPTY }

  function Access(v: View, o: OutPoint): Coin
  {
    match Lookup(v, o) case None => EMPTY case Some(coin) => coin
  }

  function Apply(v: View, op: Op): (r: View)
    requires v.Cache? && (op.UpkeepOp? ==> op.depth < Height(v))
    ensures r.Cache?
  {
    match op
    case AddOp(o, coin, overwrite) => Add(v, o, coin, overwrite)
    case SpendOp(o) => Spend(v, o)
    case ModifyOp(o, modifier) => Add(Fetch(v, o), o, modifier(Access(v, o)), true)
    case UpkeepOp(depth, u) => Maintain(v, depth, u)
    case NewCache => Cache(map[], v)
  }

  /** The same operation on one plain map. */
  function PlainApply(m: Utxos, op: Op): Utxos
  {
    match op
    case AddOp(o, coin, overwrite) => if coin.IsUnspendable() || (!overwrite && o in m) then m else m[o := coin]
    case SpendOp(o) => m - {o}
    case ModifyOp(o, modifier) =>
      var coin := modifier(CoinAt(m, o));
      if coin.IsUnspendable() then m else m[o := coin]
    case UpkeepOp(_, _) => m
    case NewCache => m
  }

  /** What a caller owes: only unspent coins are added, and a coin added as new is either not in
      the set or already in this cache (where the clash is detected and refused). */
  ghost predicate Legal(v: View, op: Op)
    requires v.Cache?
  {
    match op
    case AddOp(o, coin, overwrite) =>
      !coin.IsSpent() && (coin.IsUnspendable() || overwrite || o in v.entries || o !in Utxo(v))
    case ModifyOp(o, modifier) => !modifier(CoinAt(Utxo(v), o)).IsSpent()
    case UpkeepOp(depth, _) => depth < Height(v)
    case _ => true
  }

  ghost predicate LegalRun(v: View, ops: seq<Op>)
    requires v.Cache?
    decreases |ops|
  {
    ops == [] || (Legal(v, ops[0]) && LegalRun(Apply(v, ops[0]), ops[1..]))
  }

  function Run(v: View, ops: seq<Op>): View
    requires v.Cache? && LegalRun(v, ops)
    decreases |ops|
  {
    if ops == [] then v else Run(Apply(v, ops[0]), ops[1..])
  }

  function PlainRun(m: Utxos, ops: seq<Op>): Utxos
    decreases |ops|
  {
    if ops == [] then m else PlainRun(PlainApply(m, ops[0]), ops[1..])
  }

  /** Upkeep of any layer is invisible from the top. */
  lemma {:induction false} MaintainIsInvisible(v: View, depth: nat, u: Upkeep)
    requires depth < Height(v) && Inv(v)
    ensures Inv(Maintain(v, depth, u)) && Utxo(Maintain(v, depth, u)) == Utxo(v)
    decreases depth
  {
    if depth > 0 {
      MaintainIsInvisible(v.base, depth - 1, u);
    } else {
      match u
      case Get(o) => FetchIsInvisible(v, o);
      case Drop(o) => UncacheIsInvisible(v, o);
      case Push => FlushIsInvisible(v);
    }
  }

  lemma StepRefinesPlainMap(v: View, op: Op)
    requires v.Cache? && Inv(v) && Legal(v, op)
    ensures Inv(Apply(v, op)) && Utxo(Apply(v, op)) == PlainApply(Utxo(v), op)
  {
    match op
    case AddOp(o, coin, overwrite) => AddKeepsInvariantIff(v, o, coin, overwrite);
    case SpendOp(o) => SpendRemoves(v, o);
    case ModifyOp(o, modifier) =>
      FetchIsInvisible(v, o);
      LookupAgrees(v, o);
      AddKeepsInvariantIff(Fetch(v, o), o, modifier(Access(v, o)), true);
    case UpkeepOp(depth, u) => MaintainIsInvisible(v, depth, u);
    case NewCache => assert Utxo(Cache(map[], v)) == Utxo(v);
  }

  /** Every legal run over every stack of caches means the same run over one plain map, and leaves
      truthful flags in every layer. */
  lemma {:induction false} RunRefinesPlainMap(v: View, ops: seq<Op>)
    requires v.Cache? && Inv(v) && LegalRun(v, ops)
    ensures Inv(Run(v, ops)) && Utxo(Run(v, ops)) == PlainRun(Utxo(v), ops)
    decreases |ops|
  {
    if ops != [] {
      StepRefinesPlainMap(v, ops[0]);
      RunRefinesPlainMap(Apply(v, ops[0]), ops[1..]);
    }
  }

  /** Where the rule of AddKeepsInvariantIff is broken the merge does throw: a coin added as new
      over one that only the parent shows. */
  lemma MisuseReachesTheThrow(o: OutPoint, old_: Coin, new_: Coin)
    requires !old_.IsSpent() && !new_.IsSpent() && !new_.IsUnspendable()
    ensures var parent := Cache(map[o := Entry(old_, true, false)], Database(map[]));
            var child := Add(Cache(map[], parent), o, new_, false);
            Inv(Cache(map[], parent)) && Misapplied(child.entries[o], Find(parent.entries, o))
  {}
}
