/** The iterator over a transaction: it merges the keys written with the keys that the parent's iterator
    shows and that are neither written nor deleted. */
module DbIterator {
  import opened DbTransaction
  import opened KeyOrder
  import opened Options

  // ---------------------------------------------------------------------------------------------
  // Merging two ordered sets
  // ---------------------------------------------------------------------------------------------

  function Merged(t: Option<Key>, q: Option<Key>): Option<Key>
  {
    if q.None? || (t.Some? && Less(t.value, q.value)) then t else q
  }

  lemma MergeFirst(w: set<Key>, p: set<Key>, b: Bound, t: Option<Key>, q: Option<Key>)
    requires First(w, b, t) && First(p, b, q)
    ensures First(w + p, b, Merged(t, q))
  {
    var c := Merged(t, q);
    if c.Some? {
      forall x | x in w + p ensures NotBefore(b, c.value, x) {
        if t.Some? && q.Some? {
          var least, other := c.value, if c == t then q.value else t.value;
          assert NotBefore(b, least, x) || NotBefore(b, other, x);
          LessTotal(least, other);
          if Less(x, least) && Less(least, other) { LessTransitive(x, least, other); }
        }
      }
    }
  }

  /** Stepping past a key of the other set does not move the position in this one. */
  lemma OtherStays(w: set<Key>, p: set<Key>, b: Bound, t: Option<Key>, c: Key)
    requires First(w, b, t) && First(w + p, b, Some(c)) && c !in w
    ensures First(w, After(c), t)
  {
    forall x | x in w ensures Admits(After(c), x) <==> Admits(b, x) {
      AfterFirst(w + p, b, c, x);
    }
    if t.Some? {
      forall x | x in w ensures NotBefore(After(c), t.value, x) { assert NotBefore(b, t.value, x); }
    }
  }

  /** Between the bound aimed at and the bound reached there are only hidden keys. */
  ghost predicate Between(keys: set<Key>, hidden: set<Key>, aim: Bound, reached: Bound)
  {
    forall x :: x in keys ==> Gap(hidden, aim, reached, x)
  }

  ghost predicate Gap(hidden: set<Key>, aim: Bound, reached: Bound, x: Key)
  {
    (Admits(reached, x) ==> Admits(aim, x)) && (Admits(aim, x) ==> Admits(reached, x) || x in hidden)
  }

  lemma SkipStart(keys: set<Key>, hidden: set<Key>, aim: Bound)
    ensures Between(keys, hidden, aim, aim)
  {}

  lemma SkipStep(keys: set<Key>, hidden: set<Key>, aim: Bound, reached: Bound, k: Key)
    requires Between(keys, hidden, aim, reached) && First(keys, reached, Some(k)) && k in hidden
    ensures Between(keys, hidden, aim, After(k))
  {
    forall x | x in keys ensures Gap(hidden, aim, After(k), x) {
      assert Gap(hidden, aim, reached, x);
      AfterFirst(keys, reached, k, x);
    }
  }

  lemma SkipEnd(keys: set<Key>, hidden: set<Key>, aim: Bound, reached: Bound, q: Option<Key>)
    requires Between(keys, hidden, aim, reached) && First(keys, reached, q) && (q.Some? ==> q.value !in hidden)
    ensures First(keys - hidden, aim, q)
  {}

  /** The keys still to come, which stepping makes fewer. */
  ghost function Ahead(keys: set<Key>, b: Bound): set<Key> { set x | x in keys && Admits(b, x) }

  lemma AheadShrinks(keys: set<Key>, b: Bound, k: Key)
    requires First(keys, b, Some(k))
    ensures |Ahead(keys, After(k))| < |Ahead(keys, b)|
  {
    forall x | x in keys ensures Admits(After(k), x) <==> Admits(b, x) && x != k { AfterFirst(keys, b, k, x); }
    assert Ahead(keys, After(k)) == Ahead(keys, b) - {k};
  }

  // ---------------------------------------------------------------------------------------------
  // The iterators
  // ---------------------------------------------------------------------------------------------

  /** The database's own iterator, over the keys it held when the iterator was made. */
  class DatabaseIterator {
    const keys: set<Key>
    var position: Option<Key>

    constructor (db: Database)
      ensures keys == db.contents.Keys && position == None
    {
      keys := db.contents.Keys;
      position := None;
    }

    method Move(b: Bound)
      modifies this
      ensures First(keys, b, position)
    {
      position := FindFirst(keys, b);
    }
  }

  datatype Cursor = OnDatabase(rows: DatabaseIterator) | OnTransaction(inner: TransactionIterator)

  class TransactionIterator {
    const transaction: Transaction
    const parentIt: Cursor
    var transactionIt: Option<Key>
    var parentKey: Key
    var curIsParent: bool
    ghost var bound: Bound
    ghost const Repr: set<object>

    /** The iterator stands over the same chain of parents as its transaction. */
    ghost predicate Chained()
      decreases Repr
    {
      && transaction.Linked() && Repr !! transaction.Repr
      && match parentIt
         case OnDatabase(rows) => transaction.parent.Root? && Repr == {this, rows}
         case OnTransaction(inner) =>
           && transaction.parent == Nested(inner.transaction)
           && this !in inner.Repr && Repr == {this} + inner.Repr && inner.Chained()
    }

    /** At the bottom it stands on the keys that are now in the database. */
    ghost predicate Current()
      requires Chained()
      reads transaction.Repr
      decreases Repr
    {
      match parentIt
      case OnDatabase(rows) => rows.keys == transaction.parent.db.contents.Keys
      case OnTransaction(inner) => inner.Current()
    }

    function ParentPosition(): Option<Key>
      requires Chained()
      reads Repr
      decreases Repr, 0
    {
      match parentIt
      case OnDatabase(rows) => rows.position
      case OnTransaction(inner) => inner.Position()
    }

    /** The key shown, if the iterator is valid. */
    function Position(): Option<Key>
      requires Chained()
      reads Repr
      decreases Repr, 1
    {
      if transactionIt.None? && ParentPosition().None? then None
      else if curIsParent then Some(parentKey) else transactionIt
    }

    ghost function Hidden(): set<Key>
      reads transaction
    {
      transaction.writes.Keys + transaction.deletes
    }

    ghost function ParentKeys(): set<Key>
      requires transaction.Linked()
      reads transaction.Repr
    {
      transaction.ParentView().Keys
    }

    /** Both positions are the first from a common bound, and the smaller key is the one shown. */
    ghost predicate Positioned()
      requires Chained() && Current()
      reads Repr, transaction.Repr
      decreases Repr
    {
      && First(transaction.writes.Keys, bound, transactionIt)
      && First(ParentKeys() - Hidden(), bound, ParentPosition())
      && (ParentPosition().Some? ==> parentKey == ParentPosition().value)
      && Position() == Merged(transactionIt, ParentPosition())
      && (Position().Some? && curIsParent ==> ParentPosition().Some?)
      && (parentIt.OnTransaction? ==> parentIt.inner.Positioned())
    }

    constructor (transaction: Transaction)
      requires transaction.Valid()
      ensures this.transaction == transaction && Chained() && Current() && fresh(Repr)
      decreases transaction.Repr
    {
      this.transaction := transaction;
      transactionIt, parentKey, curIsParent := None, [], false;
      match transaction.parent {
        case Root(db, _) =>
          var rows := new DatabaseIterator(db);
          parentIt := OnDatabase(rows);
          Repr := {this, rows};
        case Nested(outer) =>
          var inner := new TransactionIterator(outer);
          parentIt := OnTransaction(inner);
          Repr := {this} + inner.Repr;
      }
    }

    /** The key shown is the first live key from the bound. */
    lemma PositionIsFirst()
      requires Chained() && Current() && Positioned()
      ensures First(transaction.View().Keys, bound, Position())
    {
      MergeFirst(transaction.writes.Keys, ParentKeys() - Hidden(), bound, transactionIt, ParentPosition());
      assert transaction.View().Keys == transaction.writes.Keys + (ParentKeys() - Hidden());
    }

    /** Moves the parent's iterator, to which the parent answers with its own keys. */
    method SeekParent(b: Bound)
      requires Chained() && Current() && !b.After?
      modifies Repr - {this}
      ensures Current() && First(ParentKeys(), b, ParentPosition())
      ensures parentIt.OnTransaction? ==> parentIt.inner.Positioned()
      decreases Repr, 0
    {
      match parentIt {
        case OnDatabase(rows) => rows.Move(b);
        case OnTransaction(inner) => inner.SeekTo(b);
      }
    }

    method NextParent()
      requires Chained() && Current() && ParentPosition().Some?
      requires parentIt.OnTransaction? ==> parentIt.inner.Positioned()
      modifies Repr - {this}
      ensures Current() && First(ParentKeys(), After(old(ParentPosition()).value), ParentPosition())
      ensures parentIt.OnTransaction? ==> parentIt.inner.Positioned()
      decreases Repr, 0
    {
      match parentIt {
        case OnDatabase(rows) => rows.Move(After(rows.position.value));
        case OnTransaction(inner) => inner.Next();
      }
    }

    /** Leaves behind the parent's keys that the transaction hides. */
    method SkipDeletedAndOverwritten(ghost aim: Bound)
      requires Chained() && Current() && First(ParentKeys(), aim, ParentPosition())
      requires parentIt.OnTransaction? ==> parentIt.inner.Positioned()
      modifies Repr - {this}, this`parentKey
      ensures Current() && First(ParentKeys() - Hidden(), aim, ParentPosition())
      ensures ParentPosition().Some? ==> parentKey == ParentPosition().value
      ensures parentIt.OnTransaction? ==> parentIt.inner.Positioned()
      decreases Repr, 1
    {
      hide First, Between, Ahead, Less, Overlay, Positioned;
      ghost var reached := aim;
      SkipStart(ParentKeys(), Hidden(), aim);
      while ParentPosition().Some?
        invariant Current() && First(ParentKeys(), reached, ParentPosition())
        invariant Between(ParentKeys(), Hidden(), aim, reached)
        invariant parentIt.OnTransaction? ==> parentIt.inner.Positioned()
        decreases |Ahead(ParentKeys(), reached)|
      {
        parentKey := ParentPosition().value;
        if parentKey !in transaction.deletes && parentKey !in transaction.writes { break; }
        SkipStep(ParentKeys(), Hidden(), aim, reached, parentKey);
        AheadShrinks(ParentKeys(), reached, parentKey);
        NextParent();
        reached := After(parentKey);
      }
      SkipEnd(ParentKeys(), Hidden(), aim, reached, ParentPosition());
    }

    method DecideCur()
      requires Chained()
      requires ParentPosition().Some? ==> parentKey == ParentPosition().value
      modifies this`curIsParent
      ensures Position() == Merged(transactionIt, ParentPosition())
      ensures Position().Some? && curIsParent ==> ParentPosition().Some?
    {
      if transactionIt.Some? && ParentPosition().None? {
        curIsParent := false;
      } else if transactionIt.None? && ParentPosition().Some? {
        curIsParent := true;
      } else if transactionIt.Some? && ParentPosition().Some? {
        curIsParent := !Less(transactionIt.value, parentKey);
      }
    }

    /** Shows the smaller of the two keys, when both positions are the first from a bound. */
    method Settle(ghost b: Bound)
      requires Chained() && Current() && First(transaction.writes.Keys, b, transactionIt)
      requires First(ParentKeys() - Hidden(), b, ParentPosition())
      requires ParentPosition().Some? ==> parentKey == ParentPosition().value
      requires parentIt.OnTransaction? ==> parentIt.inner.Positioned()
      modifies this`bound, this`curIsParent
      ensures Current() && Positioned() && bound == b
      ensures First(transaction.View().Keys, b, Position())
    {
      hide First, Less, Overlay, Merged;
      bound := b;
      DecideCur();
      PositionIsFirst();
    }

    /** Shows the first live key from the bound. */
    method SeekTo(b: Bound)
      requires Chained() && Current() && !b.After?
      modifies Repr
      ensures Current() && Positioned() && bound == b
      ensures First(transaction.View().Keys, b, Position())
      decreases Repr, 2
    {
      hide First, Positioned;
      transactionIt := FindFirst(transaction.writes.Keys, b);
      SeekParent(b);
      SkipDeletedAndOverwritten(b);
      Settle(b);
    }

    /** Shows the next live key, or none when the iterator is at its end. */
    method Next()
      requires Chained() && Current() && Positioned()
      modifies Repr
      ensures Current() && Positioned()
      ensures old(Position()).None? ==> Position().None?
      ensures old(Position()).Some? ==>
        && bound == After(old(Position()).value)
        && First(transaction.View().Keys, After(old(Position()).value), Position())
      decreases Repr, 2
    {
      hide First, Less, Overlay, Positioned, Merged;
      if transactionIt.None? && ParentPosition().None? { return; }
      StepPastShown();
      ghost var c := Position().value;
      if curIsParent {
        NextParent();
        SkipDeletedAndOverwritten(After(c));
      } else {
        transactionIt := FindFirst(transaction.writes.Keys, After(transactionIt.value));
      }
      Settle(After(c));
    }

    /** What stays and what moves when the iterator steps past the key it shows. */
    lemma StepPastShown()
      requires Chained() && Current() && Positioned() && (transactionIt.Some? || ParentPosition().Some?)
      ensures Position().Some?
      ensures curIsParent ==>
        && ParentPosition() == Position()
        && First(transaction.writes.Keys, After(Position().value), transactionIt)
      ensures !curIsParent ==>
        && transactionIt == Position()
        && First(ParentKeys() - Hidden(), After(Position().value), ParentPosition())
      ensures ParentPosition().Some? ==> parentKey == ParentPosition().value
      ensures parentIt.OnTransaction? ==> parentIt.inner.Positioned()
    {
      var c := Position().value;
      var w, p := transaction.writes.Keys, ParentKeys() - Hidden();
      MergeFirst(w, p, bound, transactionIt, ParentPosition());
      assert w + p == p + w;
      if curIsParent {
        OtherStays(w, p, bound, transactionIt, c);
      } else {
        OtherStays(p, w, bound, ParentPosition(), c);
      }
    }

    /** The key shown is live, and its value is the one a read of the transaction gives. */
    method GetValue() returns (r: Option<Value>)
      requires Chained() && Current() && Positioned() && transaction.Valid()
      ensures Position().None? ==> r == None
      ensures Position().Some? ==> Position().value in transaction.View() && r == Some(transaction.View()[Position().value])
    {
      hide Transaction.Valid, Overlay;
      PositionIsFirst();
      match Position() {
        case None => r := None;
        case Some(k) => r := transaction.Read(k);
      }
    }

    /** From the first key that is not below a bound on, every live key is shown, and then the end. */
    method Collect(b: Bound) returns (shown: seq<Key>)
      requires Chained() && Current() && !b.After?
      modifies Repr
      ensures forall x :: x in shown <==> x in transaction.View() && (b.From? ==> x == b.key || Less(b.key, x))
      ensures forall i, j :: 0 <= i < j < |shown| ==> Less(shown[i], shown[j])
    {
      hide First, Positioned, Overlay, Walk, Path;
      SeekTo(b);
      shown := [];
      ghost var live := transaction.View().Keys;
      PathStart(live, b);
      while Position().Some?
        invariant Current() && Positioned() && live == transaction.View().Keys
        invariant Path(live, b, shown, bound) && First(live, bound, Position())
        decreases |Ahead(live, bound)|
      {
        PathStep(live, b, shown, bound, Position().value);
        AheadShrinks(live, bound, Position().value);
        shown := shown + [Position().value];
        Next();
      }
      PathEnd(live, b, shown, bound);
      forall x ensures x in shown <==> x in live && (b.From? ==> x == b.key || Less(b.key, x)) {
        WalkShowsAll(live, b, shown, x);
        if b.From? { AdmitsIff(b.key, x); }
      }
      forall i, j | 0 <= i < j < |shown| ensures Less(shown[i], shown[j]) { WalkAscends(live, b, shown, i, j); }
    }
  }
}
