/** Database transactions that overlay a parent, nested to any depth, and the merging iterator over them. */
module DbTransaction {
  import opened KeyOrder
  import opened Numbers
  import opened Options
  import opened Totals

  type Value = seq<Byte>
  type Contents = map<Key, Value>

  // ---------------------------------------------------------------------------------------------
  // Overlays
  // ---------------------------------------------------------------------------------------------

  /** What a reader of a transaction sees. */
  function Overlay(writes: Contents, deletes: set<Key>, base: Contents): Contents { base - deletes + writes }

  lemma OverlayWrite(writes: Contents, deletes: set<Key>, base: Contents, k: Key, v: Value)
    ensures Overlay(writes[k := v], deletes - {k}, base) == Overlay(writes, deletes, base)[k := v]
  {}

  lemma OverlayErase(writes: Contents, deletes: set<Key>, base: Contents, k: Key)
    ensures Overlay(writes - {k}, deletes + {k}, base) == Overlay(writes, deletes, base) - {k}
  {}

  function Lookup(m: Contents, k: Key): Option<Value> { if k in m then Some(m[k]) else None }

  /** What each pending change is charged: its key, and its value if it is a write. */
  ghost function Charges(writes: Contents, deletes: set<Key>): map<Key, nat>
  {
    map k | k in writes.Keys + deletes :: |k| + if k in writes then |writes[k]| else 0
  }

  ghost function Usage(writes: Contents, deletes: set<Key>): nat { Total(Charges(writes, deletes)) }

  lemma WriteUsage(writes: Contents, deletes: set<Key>, k: Key, v: Value)
    requires writes.Keys !! deletes
    ensures Usage(writes[k := v], deletes - {k})
         == Usage(writes, deletes)
            - (if k in deletes then |k| else if k in writes then |k| + |writes[k]| else 0)
            + |k| + |v|
  {
    TotalChange(Charges(writes, deletes), Charges(writes[k := v], deletes - {k}), k);
  }

  lemma EraseUsage(writes: Contents, deletes: set<Key>, k: Key)
    requires writes.Keys !! deletes
    ensures Usage(writes - {k}, deletes + {k})
         == Usage(writes, deletes)
            - (if k in deletes then |k| else if k in writes then |k| + |writes[k]| else 0)
            + |k|
  {
    TotalChange(Charges(writes, deletes), Charges(writes - {k}, deletes + {k}), k);
  }

  // ---------------------------------------------------------------------------------------------
  // The database and its batches
  // ---------------------------------------------------------------------------------------------

  datatype Change = Put(key: Key, value: Value) | Delete(key: Key)

  /** Changes take effect in the order in which they were queued. */
  function Applied(changes: seq<Change>, m: Contents): Contents
  {
    if changes == [] then m
    else
      var r := Applied(changes[..|changes| - 1], m);
      match changes[|changes| - 1]
      case Put(k, v) => r[k := v]
      case Delete(k) => r - {k}
  }

  class Database {
    var contents: Contents

    constructor (contents: Contents)
      ensures this.contents == contents
    {
      this.contents := contents;
    }

    method WriteBatch(batch: Batch)
      modifies this
      ensures contents == Applied(batch.changes, old(contents))
    {
      for i := 0 to |batch.changes|
        invariant contents == Applied(batch.changes[..i], old(contents))
      {
        assert batch.changes[..i + 1][..i] == batch.changes[..i];
        match batch.changes[i] {
          case Put(k, v) => contents := contents[k := v];
          case Delete(k) => contents := contents - {k};
        }
      }
      assert batch.changes[..|batch.changes|] == batch.changes;
    }
  }

  class Batch {
    var changes: seq<Change>

    constructor ()
      ensures changes == []
    {
      changes := [];
    }

    method Write(k: Key, v: Value)
      modifies this
      ensures forall m :: Applied(changes, m) == Applied(old(changes), m)[k := v]
    {
      changes := changes + [Put(k, v)];
    }

    method Erase(k: Key)
      modifies this
      ensures forall m :: Applied(changes, m) == Applied(old(changes), m) - {k}
    {
      changes := changes + [Delete(k)];
    }

    method EraseAll(keys: set<Key>, ghost m: Contents)
      modifies this
      ensures Applied(changes, m) == Applied(old(changes), m) - keys
    {
      var todo := keys;
      assert Applied(changes, m) - (keys - todo) == Applied(changes, m);
      while todo != {}
        invariant todo <= keys
        invariant Applied(changes, m) == Applied(old(changes), m) - (keys - todo)
      {
        var k :| k in todo;
        Erase(k);
        ErasedOneMore(Applied(old(changes), m), keys, todo, k);
        todo := todo - {k};
      }
      assert keys - {} == keys;
    }

    method WriteAll(n: Contents, ghost m: Contents)
      modifies this
      ensures Applied(changes, m) == Applied(old(changes), m) + n
    {
      var todo := n.Keys;
      assert Applied(changes, m) + (n - todo) == Applied(changes, m);
      while todo != {}
        invariant todo <= n.Keys
        invariant Applied(changes, m) == Applied(old(changes), m) + (n - todo)
      {
        var k :| k in todo;
        Write(k, n[k]);
        WroteOneMore(Applied(old(changes), m), n, todo, k);
        todo := todo - {k};
      }
      assert n - {} == n;
    }

    method Clear()
      modifies this
      ensures changes == []
    {
      changes := [];
    }
  }

  // ---------------------------------------------------------------------------------------------
  // Transactions
  // ---------------------------------------------------------------------------------------------

  /** The outermost transaction reads the database and commits to a batch; the others read and commit
      to the transaction around them. */
  datatype Parent = Root(db: Database, batch: Batch) | Nested(outer: Transaction)

  class Transaction {
    const parent: Parent
    var writes: Contents
    var deletes: set<Key>
    var memoryUsage: int
    ghost const Repr: set<object>

    ghost predicate Linked()
      decreases Repr
    {
      match parent
      case Root(db, batch) => Repr == {this, db, batch}
      case Nested(outer) => this !in outer.Repr && Repr == {this} + outer.Repr && outer.Linked()
    }

    ghost predicate Local()
      reads this
    {
      writes.Keys !! deletes && memoryUsage == Usage(writes, deletes)
    }

    ghost predicate Valid()
      reads Repr
      decreases Repr
    {
      Linked() && Local() && (parent.Nested? ==> parent.outer.Valid())
    }

    ghost function ParentView(): Contents
      requires Linked()
      reads Repr
      decreases Repr, 0
    {
      match parent
      case Root(db, _) => db.contents
      case Nested(outer) => outer.View()
    }

    ghost function View(): Contents
      requires Linked()
      reads Repr
      decreases Repr, 1
    {
      Overlay(writes, deletes, ParentView())
    }

    constructor (parent: Parent)
      requires parent.Nested? ==> parent.outer.Valid()
      ensures this.parent == parent && Valid() && writes == map[] && deletes == {}
      ensures View() == ParentView()
      ensures Repr == {this} + if parent.Nested? then parent.outer.Repr else {parent.db, parent.batch}
    {
      this.parent := parent;
      writes, deletes, memoryUsage := map[], {}, 0;
      Repr := {this} + if parent.Nested? then parent.outer.Repr else {parent.db, parent.batch};
      new;
      assert Charges(map[], {}) == map[];
    }

    method Write(k: Key, v: Value)
      requires Valid()
      modifies this
      ensures Valid() && writes == old(writes)[k := v] && deletes == old(deletes) - {k}
      ensures View() == old(View())[k := v]
    {
      hide Usage, Overlay;
      WriteUsage(writes, deletes, k, v);
      OverlayWrite(writes, deletes, ParentView(), k, v);
      if k in deletes {
        deletes := deletes - {k};
        memoryUsage := memoryUsage - |k|;
      }
      if k in writes {
        memoryUsage := memoryUsage - (|k| + |writes[k]|);
      }
      writes := writes[k := v];
      memoryUsage := memoryUsage + |k| + |v|;
      assert deletes == old(deletes) - {k};
    }

    method Erase(k: Key)
      requires Valid()
      modifies this
      ensures Valid() && writes == old(writes) - {k} && deletes == old(deletes) + {k}
      ensures View() == old(View()) - {k}
    {
      hide Usage, Overlay;
      EraseUsage(writes, deletes, k);
      OverlayErase(writes, deletes, ParentView(), k);
      if k in writes {
        memoryUsage := memoryUsage - (|k| + |writes[k]|);
        writes := writes - {k};
      }
      if k !in deletes {
        deletes := deletes + {k};
        memoryUsage := memoryUsage + |k|;
      }
      assert writes == old(writes) - {k} && deletes == old(deletes) + {k};
    }

    method Read(k: Key) returns (r: Option<Value>)
      requires Valid()
      ensures r == Lookup(View(), k)
      decreases Repr
    {
      if k in deletes { return None; }
      if k in writes { return Some(writes[k]); }
      match parent {
        case Root(db, _) => r := if k in db.contents then Some(db.contents[k]) else None;
        case Nested(outer) => r := outer.Read(k);
      }
    }

    method Exists(k: Key) returns (r: bool)
      requires Valid()
      ensures r == (k in View())
      decreases Repr
    {
      if k in deletes { return false; }
      if k in writes { return true; }
      match parent {
        case Root(db, _) => r := k in db.contents;
        case Nested(outer) => r := outer.Exists(k);
      }
    }

    method Clear()
      requires Valid()
      modifies this
      ensures Valid() && writes == map[] && deletes == {} && View() == ParentView() == old(ParentView())
    {
      writes, deletes, memoryUsage := map[], {}, 0;
      assert Charges(map[], {}) == map[];
    }

    predicate IsClean()
      reads this
    {
      writes == map[] && deletes == {}
    }

    method GetMemoryUsage() returns (n: int)
      requires Valid()
      ensures n == Usage(writes, deletes)
    {
      n := if memoryUsage < 0 then 0 else memoryUsage;
    }

    /** Takes over the deletions of a transaction that commits to this one. */
    method EraseAll(keys: set<Key>)
      requires Valid()
      modifies this
      ensures Valid() && View() == old(View()) - keys && ParentView() == old(ParentView())
    {
      hide Overlay, Local;
      var todo := keys;
      assert View() - (keys - todo) == View();
      while todo != {}
        invariant todo <= keys && Valid() && ParentView() == old(ParentView())
        invariant View() == old(View()) - (keys - todo)
      {
        var k :| k in todo;
        Erase(k);
        ErasedOneMore(old(View()), keys, todo, k);
        todo := todo - {k};
      }
      assert keys - {} == keys;
    }

    /** And its writes. */
    method WriteAll(m: Contents)
      requires Valid()
      modifies this
      ensures Valid() && View() == old(View()) + m && ParentView() == old(ParentView())
    {
      hide Overlay, Local;
      var todo := m.Keys;
      assert View() + (m - todo) == View();
      while todo != {}
        invariant todo <= m.Keys && Valid() && ParentView() == old(ParentView())
        invariant View() == old(View()) + (m - todo)
      {
        var k :| k in todo;
        Write(k, m[k]);
        WroteOneMore(old(View()), m, todo, k);
        todo := todo - {k};
      }
      assert m - {} == m;
    }

    /** The parent shows afterwards what this transaction showed: at once if it is a transaction, and
        once the batch is written if it is the database. */
    method Commit()
      requires Valid()
      modifies this, match parent { case Root(_, batch) => {batch as object} case Nested(outer) => {outer} }
      ensures Valid() && IsClean() && View() == ParentView()
      ensures match parent
        case Nested(outer) =>
          outer.View() == old(View()) && outer.ParentView() == old(outer.ParentView())
        case Root(db, batch) =>
          && Applied(batch.changes, db.contents) == Overlay(old(writes), old(deletes), old(Applied(batch.changes, db.contents)))
          && db.contents == old(db.contents)
    {
      hide Usage;
      match parent {
        case Root(db, batch) =>
          batch.EraseAll(deletes, db.contents);
          batch.WriteAll(writes, db.contents);
        case Nested(outer) =>
          outer.EraseAll(deletes);
          outer.WriteAll(writes);
      }
      Clear();
    }
  }

  lemma CleanShowsParent(m: Contents)
    ensures Overlay(map[], {}, m) == m
  {}

  lemma ErasedOneMore(m: Contents, keys: set<Key>, todo: set<Key>, k: Key)
    requires k in todo && todo <= keys
    ensures m - (keys - todo) - {k} == m - (keys - (todo - {k}))
  {}

  lemma WroteOneMore(m: Contents, n: Contents, todo: set<Key>, k: Key)
    requires k in todo && todo <= n.Keys
    ensures (m + (n - todo))[k := n[k]] == m + (n - (todo - {k}))
  {}

  // ---------------------------------------------------------------------------------------------
  // The stack the node keeps: database, root transaction, current transaction
  // ---------------------------------------------------------------------------------------------

  class EvoDb {
    const db: Database
    const rootBatch: Batch
    const root: Transaction
    const cur: Transaction

    ghost predicate Valid()
      reads cur.Repr, rootBatch
    {
      && cur.parent == Nested(root) && root.parent == Root(db, rootBatch)
      && cur.Valid() && rootBatch.changes == []
    }

    constructor (contents: Contents)
      ensures Valid() && fresh(cur.Repr) && cur.View() == contents
    {
      var store := new Database(contents);
      var batch := new Batch();
      var outer := new Transaction(Root(store, batch));
      var inner := new Transaction(Nested(outer));
      db, rootBatch, root, cur := store, batch, outer, inner;
    }

    /** Everything committed reaches the database, and no reader sees a difference. */
    method CommitRootTransaction()
      requires Valid() && cur.IsClean()
      modifies db, rootBatch, root
      ensures Valid() && root.IsClean() && cur.IsClean()
      ensures db.contents == old(cur.View()) == cur.View()
    {
      hide Overlay, Usage;
      CleanShowsParent(root.View());
      assert cur.View() == cur.ParentView() == root.View();
      assert root.View() == Overlay(root.writes, root.deletes, Applied(rootBatch.changes, db.contents));
      root.Commit();
      db.WriteBatch(rootBatch);
      assert db.contents == old(root.View());
      rootBatch.Clear();
      CleanShowsParent(db.contents);
      assert root.Local() && root.Valid() && cur.Local() && cur.Linked();
      assert root.View() == root.ParentView() == db.contents;
      assert cur.View() == cur.ParentView() == root.View();
    }
  }
}
