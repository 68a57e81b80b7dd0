/** The address manager itself. Every operation keeps the full consistency check, so that none of its
    assertions can fail. Clock readings and random numbers are parameters. */
module AddrMan {
  import opened AddrManBooks
  import opened Numbers

  const TRIED_CELLS := TRIED_BUCKET_COUNT * BUCKET_SIZE
  const NEW_CELLS := NEW_BUCKET_COUNT * BUCKET_SIZE

  /** A table as it lies in memory, read as a map from its occupied cells. */
  ghost function TableOf(cells: seq<int>): Table
  {
    map sl | 0 <= sl < |cells| && cells[sl] != -1 :: cells[sl]
  }

  lemma WriteCell(cells: seq<int>, sl: nat, id: int)
    requires sl < |cells|
    ensures TableOf(cells[sl := id]) == if id == -1 then TableOf(cells) - {sl} else TableOf(cells)[sl := id]
  {}

  predicate Alike(x: Info, y: Info) { y == x.(randomPos := y.randomPos) }

  /** The same entries, with the same contents but for their places in the random order. */
  ghost predicate SameButPositions(a: Infos, b: Infos)
  {
    && a.Keys == b.Keys
    && (forall id <- a :: Alike(a[id], b[id]))
  }

  lemma RepositionedAddr(a: Infos, b: Infos, addr: map<NetAddr, int>)
    requires SameButPositions(a, b) && AddrOk(a, addr)
    ensures AddrOk(b, addr)
  {
    forall x | x in b ensures Named(b, addr, x) { assert Named(a, addr, x); }
    forall n <- addr ensures addr[n] in b && b[addr[n]].service.ip == n {
      var x := addr[n];
      assert Alike(a[x], b[x]);
    }
  }

  lemma RepositionedTried(h: Hashes, key: nat, a: Infos, b: Infos, triedTable: Table)
    requires SameButPositions(a, b) && TriedOk(h, key, a, triedTable)
    ensures TriedOk(h, key, b, triedTable)
  {
    forall x | x in b ensures Seated(h, key, b, triedTable, x) { assert Seated(h, key, a, triedTable, x); }
    forall sl <- triedTable
      ensures triedTable[sl] in b && b[triedTable[sl]].inTried && sl == h.TriedSlot(key, b[triedTable[sl]].service)
    {
      var x := triedTable[sl];
      assert Alike(a[x], b[x]);
    }
  }

  lemma RepositionedNew(h: Hashes, key: nat, a: Infos, b: Infos, newTable: Table)
    requires SameButPositions(a, b) && NewOk(h, key, a, newTable)
    ensures NewOk(h, key, b, newTable)
  {
    forall x | x in b ensures Counted(b, newTable, x) { assert Counted(a, newTable, x); }
    forall sl <- newTable
      ensures newTable[sl] in b && !b[newTable[sl]].inTried && PlacedNew(h, key, b[newTable[sl]].service, sl)
    {
      var x := newTable[sl];
      assert Alike(a[x], b[x]);
    }
  }

  lemma RepositionedEntries(a: Infos, b: Infos, limbo: set<int>, idCount: int)
    requires SameButPositions(a, b) && EntriesOk(a, limbo) && forall id <- a :: 0 <= id < idCount
    ensures EntriesOk(b, limbo) && (forall id <- b :: 0 <= id < idCount)
    ensures TriedIds(b) == TriedIds(a) && NewIds(b) == NewIds(a)
  {}

  /** Swapping two places in the random order, and the places recorded for their entries. */
  lemma Swapped(info: Infos, random: seq<int>, i: nat, j: nat)
    requires RandomOk(info, random) && i < |random| && j < |random|
    ensures random[i] in info && random[j] in info
    ensures var a, b := random[i], random[j];
            var once := info[a := info[a].(randomPos := j)];
            var twice := once[b := once[b].(randomPos := i)];
            i != j ==> RandomOk(twice, random[i := b][j := a]) && SameButPositions(info, twice)
  {
    if i != j {
      var a, b := random[i], random[j];
      var once := info[a := info[a].(randomPos := j)];
      var twice := once[b := once[b].(randomPos := i)];
      forall x | x in twice ensures Listed(twice, random[i := b][j := a], x) { assert Listed(info, random, x); }
    }
  }

  lemma ListedEntry(info: Infos, random: seq<int>, id: int)
    requires RandomOk(info, random) && id in info
    ensures Listed(info, random, id) && forall i | 0 <= i < |random| && random[i] == id :: info[id].randomPos == i
  {}

  /** The rest of the books under a change of one reference count. */
  lemma Recounted(h: Hashes, key: nat, info: Infos, random: seq<int>, addr: map<NetAddr, int>, triedTable: Table, id: int,
                  count: int)
    requires RandomOk(info, random) && AddrOk(info, addr) && TriedOk(h, key, info, triedTable) && id in info
    ensures var after := info[id := info[id].(refCount := count)];
            && RandomOk(after, random) && AddrOk(after, addr) && TriedOk(h, key, after, triedTable)
            && TriedIds(after) == TriedIds(info) && NewIds(after) == NewIds(info)
  {
    var i := info[id].(refCount := count);
    KeepRandom(info, id, i, random);
    KeepAddr(info, id, i, addr);
    KeepTried(h, key, info, id, i, triedTable);
    KeepKinds(info, id, i);
  }

  /** Emptying a cell of the new table: its holder has one reference less, and is in limbo when that
      was the last. */
  lemma ReleaseCell(h: Hashes, key: nat, info: Infos, cells: seq<int>, limbo: set<int>, sl: nat)
    requires NewOk(h, key, info, TableOf(cells)) && EntriesOk(info, limbo) && sl < |cells| && cells[sl] != -1
    ensures cells[sl] in info && cells[sl] !in limbo && info[cells[sl]].refCount >= 1
    ensures var id := cells[sl];
            var after := info[id := info[id].(refCount := info[id].refCount - 1)];
            && NewOk(h, key, after, TableOf(cells[sl := -1]))
            && EntriesOk(after, if info[id].refCount == 1 then limbo + {id} else limbo)
  {
    var id := cells[sl];
    WriteCell(cells, sl, -1);
    HeldEntry(h, key, info, TableOf(cells), limbo, sl);
    ReleaseNewOk(h, key, info, TableOf(cells), sl);
    RecountEntries(info, limbo, id, info[id].refCount - 1);
    assert limbo - {id} == limbo;
  }

  /** Filling a free cell of the new table with an untried entry that may have one more reference. */
  lemma ReferenceCell(h: Hashes, key: nat, info: Infos, cells: seq<int>, limbo: set<int>, sl: nat, id: int)
    requires NewOk(h, key, info, TableOf(cells)) && EntriesOk(info, limbo) && sl < |cells| && cells[sl] == -1
    requires id in info && id != -1 && !info[id].inTried && info[id].refCount < NEW_BUCKETS_PER_ADDRESS
    requires PlacedNew(h, key, info[id].service, sl)
    ensures var after := info[id := info[id].(refCount := info[id].refCount + 1)];
            NewOk(h, key, after, TableOf(cells[sl := id])) && EntriesOk(after, limbo - {id})
  {
    WriteCell(cells, sl, id);
    ReferenceNewOk(h, key, info, TableOf(cells), sl, id);
    assert Counted(info, TableOf(cells), id);
    RecountEntries(info, limbo, id, info[id].refCount + 1);
  }

  /** What clearing a cell does to the entries: its holder loses a reference, or goes. */
  ghost predicate Cleared(a: Infos, b: Infos, id: int)
  {
    if id == -1 then b == a
    else
      && id in a
      && SameButPositions(if a[id].refCount == 1 then a - {id} else a[id := a[id].(refCount := a[id].refCount - 1)], b)
  }

  /** An entry that a cleared cell did not hold stays. */
  lemma ClearedKeeps(a: Infos, b: Infos, id: int, x: int)
    requires Cleared(a, b, id) && x in a && x != id
    ensures x in b && Alike(a[x], b[x])
  {}

  /** The same entry but for its standing in the tables. */
  predicate Kept(a: Info, b: Info)
  {
    b == a.(refCount := b.refCount, inTried := b.inTried, randomPos := b.randomPos)
  }

  lemma KeptSame(a: Info, b: Info)
    requires Kept(a, b)
    ensures b.service == a.service && b.lastSuccess == a.lastSuccess && b.lastTry == a.lastTry && b.attempts == a.attempts
  {}

  lemma ClearedKept(a: Infos, b: Infos, id: int)
    requires Cleared(a, b, id) && (id in a ==> !a[id].inTried)
    ensures forall x <- b :: x in a && Kept(a[x], b[x])
    ensures TriedIds(b) == TriedIds(a)
    ensures b.Keys == if id != -1 && a[id].refCount == 1 then a.Keys - {id} else a.Keys
  {
    if id != -1 {
      var c := if a[id].refCount == 1 then a - {id} else a[id := a[id].(refCount := a[id].refCount - 1)];
      assert forall x <- b :: x in c && Alike(c[x], b[x]);
    }
  }

  lemma SlotsInRange(h: Hashes, key: nat, service: Service, source: NetAddr)
    ensures h.TriedSlot(key, service) < TRIED_CELLS
    ensures h.NewSlot(key, service, source) < NEW_CELLS && PlacedNew(h, key, service, h.NewSlot(key, service, source))
  {}

  /** A tried entry's bucket is hashed from its service, a new one's from its address and its source; the
      place in the bucket is hashed from the service and the bucket. */
  lemma SlotParts(h: Hashes, key: nat, service: Service, source: NetAddr)
    ensures var sl, bucket := h.TriedSlot(key, service), h.triedHash(key, service) % 256;
      64 * bucket <= sl < 64 * bucket + 64 && (sl - h.positionHash(key, false, bucket, service)) % 64 == 0
    ensures var sl, bucket := h.NewSlot(key, service, source), h.newHash(key, service.ip, source) % 1024;
      64 * bucket <= sl < 64 * bucket + 64 && (sl - h.positionHash(key, true, bucket, service)) % 64 == 0
  {}

  /** An entry is worth keeping if it was tried in the last minute; or if it was seen in the last thirty days and
      not in the future, and has either answered or failed less than three times, and has either answered in the
      last seven days or failed less than ten times. */
  lemma WorthKeeping(i: Info, now: int)
    ensures !i.IsTerrible(now) <==>
      || (i.lastTry != 0 && now - i.lastTry <= 60)
      || (&& i.time != 0 && now - 2592000 <= i.time <= now + 600
          && (i.lastSuccess != 0 || i.attempts <= 2)
          && (i.lastSuccess >= now - 604800 || i.attempts <= 9))
  {}

  /** In each bucket there is one cell that can hold a given entry. */
  lemma OnlyCell(h: Hashes, key: nat, info: Infos, cells: seq<int>, id: int, sl: nat)
    requires NewOk(h, key, info, TableOf(cells)) && sl < |cells| && cells[sl] == id && id != -1
    ensures id in info && sl == Cell(Bucket(sl), h.NewPosition(key, info[id].service, Bucket(sl))) && Bucket(sl) < NEW_BUCKET_COUNT
  {
    assert TableOf(cells)[sl] == id;
  }

  lemma NoCellsNoReferences(h: Hashes, key: nat, info: Infos, cells: seq<int>, id: int)
    requires NewOk(h, key, info, TableOf(cells)) && id in info
    ensures info[id].refCount >= 0
    ensures info[id].refCount == 0 <==> forall sl | 0 <= sl < |cells| && cells[sl] != -1 :: cells[sl] != id
  {
    assert Counted(info, TableOf(cells), id);
    if forall sl | 0 <= sl < |cells| && cells[sl] != -1 :: cells[sl] != id {
      assert RefSlots(TableOf(cells), id) == {};
    } else {
      var sl :| 0 <= sl < |cells| && cells[sl] != -1 && cells[sl] == id;
      assert sl in RefSlots(TableOf(cells), id);
    }
  }

  /** The cells without those that hold an entry. */
  ghost function Without(cells: seq<int>, id: int): (r: seq<int>)
    ensures |r| == |cells| && forall k | 0 <= k < |cells| :: r[k] == if cells[k] == id then -1 else cells[k]
  {
    seq(|cells|, k requires 0 <= k < |cells| => if cells[k] == id then -1 else cells[k])
  }

  /** An entry has taken the cell of the new table that its own source gives it. */
  ghost predicate Homed(h: Hashes, key: nat, i: Info, before: seq<int>, after: seq<int>, id: int)
  {
    var home := h.NewSlot(key, i.service, i.source);
    home < |before| && after == before[home := id]
  }

  /** An entry in the way of another, if there was one, has moved to its home in the new table. */
  ghost predicate Evicted(h: Hashes, key: nat, info: Infos, before: seq<int>, after: seq<int>, id: int)
  {
    if id == -1 then after == before else id in info && Homed(h, key, info[id], before, after, id)
  }

  lemma EvictedFrom(h: Hashes, key: nat, info: Infos, i: Info, before: seq<int>, after: seq<int>, id: int)
    requires id in info && id != -1 && i.service == info[id].service && i.source == info[id].source
    requires Homed(h, key, i, before, after, id)
    ensures Evicted(h, key, info, before, after, id)
  {}

  lemma NotEvicted(h: Hashes, key: nat, info: Infos, cells: seq<int>)
    ensures Evicted(h, key, info, cells, cells, -1)
  {}

  lemma EvictedSame(h: Hashes, key: nat, a: Infos, b: Infos, before: seq<int>, after: seq<int>, id: int, other: int)
    requires Evicted(h, key, a, before, after, id) && id != other && other in b && a == b[other := b[other].(refCount := 0)]
    ensures Evicted(h, key, b, before, after, id)
  {}

  lemma EvictedAlike(h: Hashes, key: nat, a: Infos, b: Infos, before: seq<int>, after: seq<int>, id: int, other: int)
    requires Evicted(h, key, a, before, after, id) && other in a && other in b && a == b[other := a[other]]
    requires a[other].service == b[other].service && a[other].source == b[other].source
    ensures Evicted(h, key, b, before, after, id)
  {}

  /** References after one was given: an entry has some number of them, the one it took a cell from has one
      less, and all others that are left have as many as before. */
  ghost predicate Referenced(a: Infos, b: Infos, id: int, count: int, loser: int)
  {
    && (id in b ==> b[id].refCount == count)
    && forall x <- b :: x in a && x != id ==> b[x].refCount == if x == loser then a[x].refCount - 1 else a[x].refCount
  }

  lemma ClearedReferences(a: Infos, b: Infos, id: int, holder: int)
    requires Cleared(a, b, holder) && id in a && id in b && id != holder && -1 !in a
    ensures b[id].refCount == a[id].refCount
    ensures Referenced(a, b[id := b[id].(refCount := a[id].refCount + 1)], id, a[id].refCount + 1, holder)
  {
    if holder != -1 {
      var c := if a[holder].refCount == 1 then a - {holder} else a[holder := a[holder].(refCount := a[holder].refCount - 1)];
      assert forall x <- b :: x in c && Alike(c[x], b[x]);
    }
  }

  lemma DeletedReferences(a: Infos, b: Infos, id: int)
    requires SameButPositions(a - {id}, b) && -1 !in a && id in a
    ensures id !in b && Referenced(a, b, id, a[id].refCount, -1)
  {
    assert forall x <- b :: x in a - {id} && Alike((a - {id})[x], b[x]);
  }

  lemma SameReferences(a: Infos, id: int)
    requires -1 !in a && id in a
    ensures Referenced(a, a, id, a[id].refCount, -1)
  {}

  lemma KeptCount(a: Infos, b: Infos, id: int, holder: int)
    requires id in a && id in b && Kept(a[id], b[id]) && TriedIds(a) == TriedIds(b)
    requires Referenced(a, b, id, a[id].refCount + 1, holder)
    ensures b[id].refCount == a[id].refCount + 1 && b[id].inTried == a[id].inTried
  {
    assert id in TriedIds(a) <==> id in TriedIds(b);
  }

  lemma UntriedEntry(info: Infos, limbo: set<int>, idCount: int, id: int)
    requires EntriesOk(info, limbo) && id in info && !info[id].inTried && id !in limbo && forall x <- info :: 0 <= x < idCount
    ensures id != -1 && 1 <= info[id].refCount <= NEW_BUCKETS_PER_ADDRESS
  {}

  /** Emptying a cell of the tried table puts its holder in limbo. */
  lemma UnseatCell(h: Hashes, key: nat, info: Infos, random: seq<int>, addr: map<NetAddr, int>, cells: seq<int>,
                   newTable: Table, limbo: set<int>, sl: nat)
    requires RandomOk(info, random) && AddrOk(info, addr) && TriedOk(h, key, info, TableOf(cells))
    requires NewOk(h, key, info, newTable) && EntriesOk(info, limbo) && sl < |cells| && cells[sl] != -1
    ensures cells[sl] in info && cells[sl] !in limbo && info[cells[sl]].inTried
    ensures var id := cells[sl];
            var after := info[id := info[id].(inTried := false)];
            && RandomOk(after, random) && AddrOk(after, addr) && TriedOk(h, key, after, TableOf(cells[sl := -1]))
            && NewOk(h, key, after, newTable) && EntriesOk(after, limbo + {id})
            && id in TriedIds(info) && TriedIds(after) == TriedIds(info) - {id}
            && id !in NewIds(info) && NewIds(after) == NewIds(info) + {id}
  {
    WriteCell(cells, sl, -1);
    assert sl in TableOf(cells);
    var id := cells[sl];
    UnseatTriedOk(h, key, info, TableOf(cells), sl);
    UnseatNewOk(h, key, info, newTable, id, false);
    KeepRandom(info, id, info[id].(inTried := false), random);
    KeepAddr(info, id, info[id].(inTried := false), addr);
    UnseatEntries(info, limbo, id);
  }

  /** Filling the free cell of the tried table that belongs to an entry in limbo. */
  lemma SeatCell(h: Hashes, key: nat, info: Infos, random: seq<int>, addr: map<NetAddr, int>, cells: seq<int>,
                 newTable: Table, limbo: set<int>, sl: nat, id: int)
    requires RandomOk(info, random) && AddrOk(info, addr) && TriedOk(h, key, info, TableOf(cells))
    requires NewOk(h, key, info, newTable) && EntriesOk(info, limbo) && sl < |cells| && cells[sl] == -1
    requires id in limbo && id in info && id != -1 && info[id].lastSuccess != 0 && sl == h.TriedSlot(key, info[id].service)
    ensures var after := info[id := info[id].(inTried := true)];
            && RandomOk(after, random) && AddrOk(after, addr) && TriedOk(h, key, after, TableOf(cells[sl := id]))
            && NewOk(h, key, after, newTable) && EntriesOk(after, limbo - {id})
            && id !in TriedIds(info) && TriedIds(after) == TriedIds(info) + {id}
            && id in NewIds(info) && NewIds(after) == NewIds(info) - {id}
  {
    WriteCell(cells, sl, id);
    SeatTriedOk(h, key, info, TableOf(cells), sl, id);
    UnseatNewOk(h, key, info, newTable, id, true);
    KeepRandom(info, id, info[id].(inTried := true), random);
    KeepAddr(info, id, info[id].(inTried := true), addr);
    SeatEntries(info, limbo, id);
  }

  lemma HolderNotInLimbo(h: Hashes, key: nat, info: Infos, cells: seq<int>, limbo: set<int>, sl: nat)
    requires NewOk(h, key, info, TableOf(cells)) && EntriesOk(info, limbo) && sl < |cells|
    ensures cells[sl] != -1 ==> cells[sl] !in limbo && cells[sl] in info && !info[cells[sl]].inTried
  {
    if cells[sl] != -1 {
      assert sl in TableOf(cells);
      HeldEntry(h, key, info, TableOf(cells), limbo, sl);
    }
  }

  lemma LimboKeys(info: Infos, limbo: set<int>)
    requires EntriesOk(info, limbo)
    ensures forall id <- limbo :: id in info && !info[id].inTried && info[id].refCount == 0
  {}

  /** Statistics, times and service bits may change freely under the books. */
  lemma Restated(h: Hashes, key: nat, info: Infos, random: seq<int>, addr: map<NetAddr, int>, triedTable: Table,
                 newTable: Table, limbo: set<int>, id: int, i: Info)
    requires RandomOk(info, random) && AddrOk(info, addr) && TriedOk(h, key, info, triedTable)
    requires NewOk(h, key, info, newTable) && EntriesOk(info, limbo) && id in info
    requires i.service == info[id].service && Standing(i) == Standing(info[id])
    requires i.lastTry >= 0 && i.lastSuccess >= 0 && (info[id].lastSuccess != 0 ==> i.lastSuccess != 0)
    ensures var after := info[id := i];
            && RandomOk(after, random) && AddrOk(after, addr) && TriedOk(h, key, after, triedTable)
            && NewOk(h, key, after, newTable) && EntriesOk(after, limbo)
            && TriedIds(after) == TriedIds(info) && NewIds(after) == NewIds(info)
  {
    KeepRandom(info, id, i, random);
    KeepAddr(info, id, i, addr);
    KeepTried(h, key, info, id, i, triedTable);
    KeepNew(h, key, info, id, i, newTable);
    KeepKinds(info, id, i);
    KeepEntries(info, limbo, id, i);
  }

  function Standing(i: Info): (int, bool, int) { (i.refCount, i.inTried, i.randomPos) }

  lemma KnownEntry(info: Infos, addr: map<NetAddr, int>, limbo: set<int>, a: NetAddr)
    requires AddrOk(info, addr) && EntriesOk(info, limbo) && a in addr
    ensures addr[a] in info && info[addr[a]].service.ip == a
    ensures info[addr[a]].lastTry >= 0 && info[addr[a]].lastSuccess >= 0 && info[addr[a]].refCount >= 0
  {
    var id := addr[a];
    assert info[id].lastTry >= 0;
  }

  lemma StillNamed(info: Infos, addr: map<NetAddr, int>, id: int)
    requires AddrOk(info, addr) && id in info
    ensures info[id].service.ip in addr && addr[info[id].service.ip] == id
  {
    assert Named(info, addr, id);
  }

  lemma NoSuchId(info: Infos, idCount: int)
    requires forall id <- info :: 0 <= id < idCount
    ensures -1 !in info && info.Keys - {-1} == info.Keys && -1 !in TriedIds(info)
  {}

  lemma TimesOk(info: Infos, limbo: set<int>, id: int)
    requires EntriesOk(info, limbo) && id in info
    ensures info[id].lastTry >= 0 && info[id].lastSuccess >= 0
  {}

  lemma LimboIffBare(info: Infos, limbo: set<int>, id: int)
    requires EntriesOk(info, limbo) && id in info && !info[id].inTried && limbo <= {id}
    ensures (info[id].refCount == 0 <==> id in limbo) && limbo == if id in limbo then {id} else {}
  {}

  lemma DeletedKept(a: Infos, b: Infos, id: int)
    requires SameButPositions(a - {id}, b) && id in a && !a[id].inTried
    ensures b.Keys == a.Keys - {id} && TriedIds(b) == TriedIds(a) && forall x <- b :: Kept(a[x], b[x])
  {
    assert forall x <- b :: x in a - {id} && Alike((a - {id})[x], b[x]);
  }

  function Max(a: int, b: int): int { if a < b then b else a }

  /** A repeated announcement refreshes the time seen and adds service bits. */
  function Refreshed(i: Info, a: Address, now: int, penalty: int): Info
  {
    var interval := if now - a.time < 24 * 60 * 60 then 60 * 60 else 24 * 60 * 60;
    var time := if a.time != 0 && (i.time == 0 || i.time < a.time - interval - penalty) then Max(0, a.time - penalty)
                else i.time;
    i.(time := time, services := i.services + a.services)
  }

  /** An entry after its address was announced again: services are added; the time moves, less a penalty and
      not below zero, if it was unknown or more than an hour behind, or a day for old announcements. */
  ghost predicate Renewed(i: Info, j: Info, a: Address, now: int, penalty: int)
  {
    && j.services == i.services + a.services
    && (if a.time != 0 && (i.time == 0 || (if now - a.time < 86400 then i.time < a.time - 3600 - penalty
                                           else i.time < a.time - 86400 - penalty))
        then j.time >= 0 && (a.time >= penalty ==> j.time == a.time - penalty) && (a.time < penalty ==> j.time == 0)
        else j.time == i.time)
    && j.service == i.service && j.source == i.source && j.lastSuccess == i.lastSuccess && j.lastTry == i.lastTry
    && j.lastCountAttempt == i.lastCountAttempt && j.attempts == i.attempts && j.inTried == i.inTried
  }

  lemma RefreshedIs(i: Info, a: Address, now: int, penalty: int)
    ensures Renewed(i, Refreshed(i, a, now, penalty), a, now, penalty)
    ensures Standing(Refreshed(i, a, now, penalty)) == Standing(i)
    ensures var j := Refreshed(i, a, now, penalty);
      j.service == i.service && j.lastTry == i.lastTry && j.lastSuccess == i.lastSuccess
  {}

  lemma RenewedKept(i: Info, j: Info, k: Info, a: Address, now: int, penalty: int)
    requires Renewed(i, j, a, now, penalty) && Kept(j, k) && k.inTried == j.inTried
    ensures Renewed(i, k, a, now, penalty)
  {}

  lemma StillTried(a: Infos, b: Infos, id: int)
    requires TriedIds(a) == TriedIds(b) && id in a && id in b
    ensures a[id].inTried == b[id].inTried
  {
    assert id in TriedIds(a) <==> id in TriedIds(b);
  }

  /** References after a known address was announced: one more, where the source places it, if there is news
      of an untried entry that has less than eight, the draw allows it and the cell is free or its holder
      terrible. Otherwise all cells stay as they were. */
  ghost predicate Rereferenced(h: Hashes, key: nat, a: Infos, b: Infos, before: seq<int>, after: seq<int>, id: int,
                               n: Address, source: NetAddr, now: int, random: nat -> nat)
    requires id in a && id in b && a[id].refCount >= 0
  {
    var sl, i, time := h.NewSlot(key, a[id].service, source), a[id], b[id].time;
    && sl < |before| && (before[sl] != -1 ==> before[sl] in a)
    && if n.time != 0 && (time == 0 || n.time > time) && !i.inTried && i.refCount < 8 && random(Pow(2, i.refCount)) == 0
          && before[sl] != id && (before[sl] == -1 || a[before[sl]].IsTerrible(now))
       then after == before[sl := id] && Referenced(a, b, id, i.refCount + 1, before[sl])
       else after == before && Referenced(a, b, id, i.refCount, -1)
  }

  /** Nothing but the statistics of the entry has changed so far. */
  lemma NotRereferenced(h: Hashes, key: nat, a: Infos, before: seq<int>, id: int, j: Info, n: Address, source: NetAddr,
                        now: int, random: nat -> nat)
    requires id in a && a[id].refCount >= 0 && -1 !in a && j.refCount == a[id].refCount
    requires var sl := h.NewSlot(key, a[id].service, source); sl < |before| && (before[sl] != -1 ==> before[sl] in a)
    ensures n.time == 0 || (j.time != 0 && n.time <= j.time) || a[id].inTried || a[id].refCount >= 8
            || random(Pow(2, a[id].refCount)) != 0
            ==> Rereferenced(h, key, a, a[id := j], before, before, id, n, source, now, random)
  {}

  lemma PlacedAgain(h: Hashes, key: nat, a: Infos, mid: Infos, b: Infos, before: seq<int>, after: seq<int>, id: int,
                    n: Address, source: NetAddr, now: int, random: nat -> nat)
    requires id in a && id in b && id in mid && mid == a[id := mid[id]] && mid[id].refCount == a[id].refCount >= 1
    requires mid[id].service == a[id].service && Kept(mid[id], b[id]) && -1 !in a
    requires n.time != 0 && (mid[id].time == 0 || n.time > mid[id].time) && !a[id].inTried && a[id].refCount < 8
    requires random(Pow(2, a[id].refCount)) == 0
    requires var sl := h.NewSlot(key, mid[id].service, source);
      && sl < |before| && (before[sl] != -1 ==> before[sl] in mid)
      && if before[sl] != id && (before[sl] == -1 || mid[before[sl]].IsTerrible(now)
                                 || (mid[before[sl]].refCount > 1 && mid[id].refCount == 0))
         then after == before[sl := id] && Referenced(mid, b, id, mid[id].refCount + 1, before[sl])
         else after == before && Referenced(mid, b, id, mid[id].refCount, -1)
    ensures Rereferenced(h, key, a, b, before, after, id, n, source, now, random)
  {}

  /** The cell that the source gives a new entry goes to it if it is free, or its holder is terrible or has
      other references. Otherwise all cells stay as they were. */
  ghost predicate Takes(h: Hashes, key: nat, a: Infos, b: Infos, before: seq<int>, after: seq<int>, id: int,
                        service: Service, source: NetAddr, now: int)
  {
    var sl := h.NewSlot(key, service, source);
    && sl < |before| && (before[sl] != -1 ==> before[sl] in a)
    && if before[sl] == -1 || a[before[sl]].IsTerrible(now) || a[before[sl]].refCount > 1
       then after == before[sl := id] && Referenced(a, b, id, 1, before[sl])
       else after == before && Referenced(a, b, id, 0, -1)
  }

  lemma PlacedFirst(h: Hashes, key: nat, a: Infos, mid: Infos, b: Infos, before: seq<int>, after: seq<int>, id: int,
                    service: Service, source: NetAddr, now: int)
    requires id !in a && id != -1 && -1 !in a && id in mid && mid == a[id := mid[id]] && mid[id].refCount == 0 && mid[id].service == service
    requires var sl := h.NewSlot(key, service, source);
      && sl < |before| && (before[sl] != -1 ==> before[sl] in a)
      && if before[sl] != id && (before[sl] == -1 || mid[before[sl]].IsTerrible(now)
                                 || (mid[before[sl]].refCount > 1 && mid[id].refCount == 0))
         then after == before[sl := id] && Referenced(mid, b, id, mid[id].refCount + 1, before[sl])
         else after == before && Referenced(mid, b, id, mid[id].refCount, -1)
    ensures Takes(h, key, a, b, before, after, id, service, source, now)
  {}

  /** What is recorded of an address when it is first heard of. */
  ghost predicate Novel(i: Info, a: Address, source: NetAddr, penalty: int)
  {
    && i.service == a.service && i.services == a.services && i.source == source
    && i.time >= 0 && (a.time >= penalty ==> i.time == a.time - penalty) && (a.time < penalty ==> i.time == 0)
    && i.lastSuccess == 0 && i.lastTry == 0 && i.lastCountAttempt == 0 && i.attempts == 0
  }

  /** A successful connection. */
  function Confirmed(i: Info, time: int): Info { i.(lastSuccess := time, lastTry := time, attempts := 0) }

  lemma ConfirmedKept(a: Infos, id: int, time: int)
    requires id in a
    ensures forall x <- a :: Kept(if x == id then Confirmed(a[x], time) else a[x], a[id := Confirmed(a[id], time)][x])
  {}

  datatype Try = Try(counts: bool, time: int)

  /** A connection attempt, while the last success anywhere is at a given time. */
  function Attempted(i: Info, t: Try, lastGood: int): Info
  {
    if t.counts && i.lastCountAttempt < lastGood
    then i.(lastTry := t.time, lastCountAttempt := t.time, attempts := i.attempts + 1)
    else i.(lastTry := t.time)
  }

  function AttemptedAll(i: Info, tries: seq<Try>, lastGood: int): Info
    decreases |tries|
  {
    if tries == [] then i else AttemptedAll(Attempted(i, tries[0], lastGood), tries[1..], lastGood)
  }

  /** However often a service fails after the last success anywhere, one failure is counted. */
  lemma {:induction false} CountedOnce(i: Info, tries: seq<Try>, lastGood: int)
    requires forall t <- tries :: t.time >= lastGood
    ensures AttemptedAll(i, tries, lastGood).attempts - i.attempts
      == if i.lastCountAttempt < lastGood && exists t <- tries :: t.counts then 1 else 0
    decreases |tries|
  {
    if tries != [] {
      assert tries == [tries[0]] + tries[1..];
      CountedOnce(Attempted(i, tries[0], lastGood), tries[1..], lastGood);
    }
  }

  /** Only when the clock is behind that success are two failures in a row both counted. */
  lemma CountedTwiceIff(i: Info, t: Try, u: Try, lastGood: int)
    ensures AttemptedAll(i, [t, u], lastGood).attempts == i.attempts + 2
      <==> t.counts && u.counts && i.lastCountAttempt < lastGood && t.time < lastGood
  {
    assert [t, u][1..] == [u] && [u][1..] == [];
    assert AttemptedAll(Attempted(Attempted(i, t, lastGood), u, lastGood), [], lastGood).attempts >= i.attempts;
  }

  lemma KeptThrough(a: Infos, b: Infos, id: int, lost: int)
    requires id in a && id in b && b.Keys == a.Keys - {lost}
    requires forall x <- b :: Kept(a[id := a[id].(refCount := 0)][x], b[x])
    ensures var c := b[id := b[id].(inTried := true)];
            c.Keys == a.Keys - {lost} && forall x <- c :: Kept(a[x], c[x])
  {}

  function AddressOf(i: Info): Address { Address(i.service, i.time, i.services) }

  lemma AllDistinct(info: Infos, random: seq<int>)
    requires RandomOk(info, random)
    ensures forall i | 0 <= i < |random| :: random[i] in info
    ensures forall i, j | 0 <= i < j < |random| :: random[i] != random[j]
    ensures forall id <- info :: id in random
  {
    forall id <- info ensures id in random { assert Listed(info, random, id); }
  }

  lemma SeenAll(info: Infos, random: seq<int>, seen: set<int>)
    requires RandomOk(info, random) && forall id :: id in seen <==> id in random
    ensures seen == info.Keys
  {
    AllDistinct(info, random);
    forall id | id in seen ensures id in info {
      var i :| 0 <= i < |random| && random[i] == id;
    }
    forall id | id in info ensures id in seen {}
  }

  /** Addresses picked from some of the entries: one for each that is not terrible, and no others. */
  ghost predicate Picks(info: Infos, seen: set<int>, picked: seq<int>, vAddr: seq<Address>, now: int)
  {
    && |vAddr| == |picked| && seen <= info.Keys
    && (forall i, j | 0 <= i < j < |picked| :: picked[i] != picked[j])
    && (forall i | 0 <= i < |picked| ::
          && picked[i] in seen && !info[picked[i]].IsTerrible(now)
          && vAddr[i].service == info[picked[i]].service && vAddr[i].time == info[picked[i]].time
          && vAddr[i].services == info[picked[i]].services)
    && (forall id <- seen :: info[id].IsTerrible(now) || id in picked)
  }

  lemma NothingPicked(info: Infos, now: int)
    ensures Picks(info, {}, [], [], now)
  {}

  lemma PickStep(info: Infos, b: Infos, seen: set<int>, picked: seq<int>, vAddr: seq<Address>, now: int, id: int)
    requires Picks(info, seen, picked, vAddr, now) && SameButPositions(info, b) && id in b && id !in seen
    ensures if b[id].IsTerrible(now) then Picks(info, seen + {id}, picked, vAddr, now)
            else Picks(info, seen + {id}, picked + [id], vAddr + [AddressOf(b[id])], now)
  {}

  lemma SameEntries(a: Infos, b: Infos)
    ensures SameButPositions(a, a)
    ensures SameButPositions(a, b) ==> a.Keys == b.Keys
  {}

  lemma StillSame(a: Infos, b: Infos, c: Infos)
    requires SameButPositions(a, b) && SameButPositions(b, c)
    ensures SameButPositions(a, c)
  {}

  lemma EmptyTable(cells: seq<int>)
    requires forall k | 0 <= k < |cells| :: cells[k] == -1
    ensures TableOf(cells) == map[]
  {}

  /** With an empty random order and empty tables the books are right only for no entries at all. */
  lemma Emptied(h: Hashes, key: nat, info: Infos, addr: map<NetAddr, int>)
    ensures RandomOk(info, []) <==> info == map[]
    ensures info == map[] ==> (AddrOk(info, addr) <==> addr == map[])
    ensures info == map[] ==> TriedOk(h, key, info, map[]) && NewOk(h, key, info, map[])
    ensures info == map[] ==> EntriesOk(info, {}) && TriedIds(info) == {} && NewIds(info) == {}
  {
    if info != map[] {
      NonEmpty(info.Keys);
      var id :| id in info.Keys;
      assert !Listed(info, [], id);
    } else if AddrOk(info, addr) {
      assert forall a :: a !in addr;
    }
  }

  lemma KeptAll(a: Infos)
    ensures forall x <- a :: Kept(a[x], a[x])
  {}

  lemma KeptRecount(a: Infos, b: Infos, id: int, count: int)
    requires id in b && forall x <- b :: x in a && Kept(a[x], b[x])
    ensures forall x <- b[id := b[id].(refCount := count)] :: x in a && Kept(a[x], b[id := b[id].(refCount := count)][x])
  {}

  class CAddrMan {
    const h: Hashes
    var nKey: nat
    var nIdCount: int
    var mapInfo: Infos
    var mapAddr: map<NetAddr, int>
    var vRandom: seq<int>
    var nTried: int
    const vvTried: array<int>
    var nNew: int
    const vvNew: array<int>
    var nLastGood: int

    ghost predicate Sized() { vvTried.Length == TRIED_CELLS && vvNew.Length == NEW_CELLS && vvTried != vvNew }

    /** The bookkeeping in the middle of an operation: some entries are in limbo, and the count of
        new entries may lag behind by a known number. */
    ghost predicate Books(limbo: set<int>, lag: int)
      reads this, vvTried, vvNew
    {
      && Sized()
      && RandomOk(mapInfo, vRandom)
      && AddrOk(mapInfo, mapAddr)
      && TriedOk(h, nKey, mapInfo, TableOf(vvTried[..]))
      && NewOk(h, nKey, mapInfo, TableOf(vvNew[..]))
      && EntriesOk(mapInfo, limbo)
      && 0 <= nIdCount && (forall id <- mapInfo :: 0 <= id < nIdCount)
      && nTried == |TriedIds(mapInfo)|
      && nNew + lag == |NewIds(mapInfo)|
    }

    /** What the consistency check demands between operations. */
    ghost predicate Check()
      reads this, vvTried, vvNew
    {
      Books({}, 0)
    }

    lemma CheckedIds()
      requires Check()
      ensures Sized() && -1 !in mapInfo && mapInfo.Keys - {-1} == mapInfo.Keys && -1 !in TriedIds(mapInfo)
    {
      NoSuchId(mapInfo, nIdCount);
    }

    lemma CheckedAddress(a: NetAddr)
      requires Check() && a in mapAddr
      ensures mapAddr[a] in mapInfo && mapInfo[mapAddr[a]].service.ip == a
    {
      KnownEntry(mapInfo, mapAddr, {}, a);
    }

    lemma CheckedName(id: int)
      requires Check() && id in mapInfo
      ensures mapInfo[id].service.ip in mapAddr && mapAddr[mapInfo[id].service.ip] == id
    {
      StillNamed(mapInfo, mapAddr, id);
    }

    constructor (h: Hashes, key: nat)
      ensures Check() && fresh(vvTried) && fresh(vvNew) && this.h == h && nKey == key
      ensures mapInfo == map[] && nLastGood == 1
    {
      this.h := h;
      nKey := key;
      nIdCount, mapInfo, mapAddr, vRandom, nTried, nNew, nLastGood := 0, map[], map[], [], 0, 0, 1;
      vvTried := new int[TRIED_CELLS](_ => -1);
      vvNew := new int[NEW_CELLS](_ => -1);
      new;
      assert TableOf(vvTried[..]) == map[] && TableOf(vvNew[..]) == map[];
    }

    /** Reset the manager, in whatever state it is. The entries and the address index are not emptied,
        so that the result is consistent exactly when there were none. */
    method Clear(key: nat)
      requires Sized()
      modifies this, vvNew, vvTried
      ensures mapInfo == old(mapInfo) && mapAddr == old(mapAddr) && vRandom == [] && nKey == key
      ensures nIdCount == 0 && nTried == 0 && nNew == 0 && nLastGood == 1
      ensures (forall k | 0 <= k < NEW_CELLS :: vvNew[k] == -1) && forall k | 0 <= k < TRIED_CELLS :: vvTried[k] == -1
      ensures Check() <==> old(mapInfo) == map[] && old(mapAddr) == map[]
    {
      hide RandomOk, AddrOk, TriedOk, NewOk, EntriesOk, TriedIds, NewIds, TableOf;
      Emptied(h, key, mapInfo, mapAddr);
      vRandom := [];
      nKey := key;
      forall k | 0 <= k < NEW_CELLS { vvNew[k] := -1; }
      forall k | 0 <= k < TRIED_CELLS { vvTried[k] := -1; }
      nIdCount, nTried, nNew, nLastGood := 0, 0, 0, 1;
      EmptyTable(vvTried[..]);
      EmptyTable(vvNew[..]);
    }

    method Create(a: Address, source: NetAddr) returns (nId: int)
      requires Check() && a.service.ip !in mapAddr
      modifies this`nIdCount, this`mapInfo, this`mapAddr, this`vRandom
      ensures nId == old(nIdCount) && nId !in old(mapInfo) && Books({nId}, 1)
      ensures mapInfo == old(mapInfo)[nId := Info(a.service, a.time, a.services, source, 0, 0, 0, 0, 0, false, |old(vRandom)|)]
      ensures mapAddr == old(mapAddr)[a.service.ip := nId] && TriedIds(mapInfo) == TriedIds(old(mapInfo))
    {
      hide RandomOk, AddrOk, TriedOk, NewOk, EntriesOk, TriedIds, NewIds, TableOf;
      nId := nIdCount;
      nIdCount := nIdCount + 1;
      var info := Info(a.service, a.time, a.services, source, 0, 0, 0, 0, 0, false, |vRandom|);
      NewEntry(h, nKey, mapInfo, nId, info, TableOf(vvTried[..]), TableOf(vvNew[..]));
      NewEntryIndexed(mapInfo, nId, info, vRandom, mapAddr);
      NewEntryLimbo(mapInfo, {}, nId, info);
      assert {} + {nId} == {nId};
      mapInfo := mapInfo[nId := info];
      mapAddr := mapAddr[a.service.ip := nId];
      vRandom := vRandom + [nId];
    }

    method SwapRandom(i: nat, j: nat, ghost limbo: set<int>, ghost lag: int)
      requires RandomOk(mapInfo, vRandom) && i < |vRandom| && j < |vRandom|
      modifies this`mapInfo, this`vRandom
      ensures RandomOk(mapInfo, vRandom) && SameButPositions(old(mapInfo), mapInfo)
      ensures old(Books(limbo, lag)) ==> Books(limbo, lag)
      ensures vRandom == old(vRandom)[i := old(vRandom)[j]][j := old(vRandom)[i]]
    {
      hide RandomOk, AddrOk, TriedOk, NewOk, EntriesOk, TriedIds, NewIds, TableOf;
      if i == j { return; }
      Swapped(mapInfo, vRandom, i, j);
      var nId1, nId2 := vRandom[i], vRandom[j];
      mapInfo := mapInfo[nId1 := mapInfo[nId1].(randomPos := j)];
      mapInfo := mapInfo[nId2 := mapInfo[nId2].(randomPos := i)];
      vRandom := vRandom[i := nId2][j := nId1];
      if old(Books(limbo, lag)) {
        RepositionedAddr(old(mapInfo), mapInfo, mapAddr);
        RepositionedTried(h, nKey, old(mapInfo), mapInfo, TableOf(vvTried[..]));
        RepositionedNew(h, nKey, old(mapInfo), mapInfo, TableOf(vvNew[..]));
        RepositionedEntries(old(mapInfo), mapInfo, limbo, nIdCount);
      }
    }

    /** Delete an entry that is in neither table. */
    method Delete(nId: int, ghost limbo: set<int>, ghost lag: int)
      requires RandomOk(mapInfo, vRandom) && nId in mapInfo && !mapInfo[nId].inTried && mapInfo[nId].refCount == 0
      modifies this`mapInfo, this`vRandom, this`mapAddr, this`nNew
      ensures RandomOk(mapInfo, vRandom) && SameButPositions(old(mapInfo) - {nId}, mapInfo)
      ensures mapAddr == old(mapAddr) - {old(mapInfo)[nId].service.ip} && nNew == old(nNew) - 1
      ensures old(Books(limbo, lag)) && nId in limbo ==> Books(limbo - {nId}, lag)
    {
      hide RandomOk, AddrOk, TriedOk, NewOk, EntriesOk, TriedIds, NewIds, TableOf;
      ListedEntry(mapInfo, vRandom, nId);
      SwapRandom(mapInfo[nId].randomPos, |vRandom| - 1, limbo, lag);
      ListedEntry(mapInfo, vRandom, nId);
      EraseListed(mapInfo, nId, vRandom);
      if old(Books(limbo, lag)) && nId in limbo {
        EraseLimbo(h, nKey, mapInfo, limbo, nId, TableOf(vvTried[..]));
        EraseIndexed(mapInfo, nId, vRandom, mapAddr);
        EraseNewOk(h, nKey, mapInfo, TableOf(vvNew[..]), nId);
      }
      vRandom := vRandom[..|vRandom| - 1];
      mapAddr := mapAddr - {mapInfo[nId].service.ip};
      mapInfo := mapInfo - {nId};
      nNew := nNew - 1;
    }

    /** Clear a cell of the new table, deleting its entry when no other cell refers to it. */
    method ClearNew(sl: nat, ghost limbo: set<int>, ghost lag: int)
      requires Books(limbo, lag) && sl < NEW_CELLS
      modifies this`mapInfo, this`vRandom, this`mapAddr, this`nNew, vvNew
      ensures Books(limbo, lag) && vvNew[..] == old(vvNew[..])[sl := -1]
      ensures Cleared(old(mapInfo), mapInfo, old(vvNew[sl]))
      ensures mapAddr.Keys <= old(mapAddr.Keys)
    {
      hide RandomOk, AddrOk, TriedOk, NewOk, EntriesOk, TriedIds, NewIds, TableOf;
      if vvNew[sl] != -1 {
        var nIdDelete := vvNew[sl];
        HolderNotInLimbo(h, nKey, mapInfo, vvNew[..], limbo, sl);
        ReleaseCell(h, nKey, mapInfo, vvNew[..], limbo, sl);
        Recounted(h, nKey, mapInfo, vRandom, mapAddr, TableOf(vvTried[..]), nIdDelete, mapInfo[nIdDelete].refCount - 1);
        assert mapInfo[nIdDelete].refCount > 0;
        mapInfo := mapInfo[nIdDelete := mapInfo[nIdDelete].(refCount := mapInfo[nIdDelete].refCount - 1)];
        vvNew[sl] := -1;
        assert vvNew[..] == old(vvNew[..])[sl := -1];
        if mapInfo[nIdDelete].refCount == 0 {
          assert mapInfo - {nIdDelete} == old(mapInfo) - {nIdDelete};
          Delete(nIdDelete, limbo + {nIdDelete}, lag);
          assert limbo + {nIdDelete} - {nIdDelete} == limbo;
        }
      }
    }

    /** Remove an entry from all new buckets. */
    method DropReferences(nId: int)
      requires Check() && nId in mapInfo && !mapInfo[nId].inTried
      modifies this`mapInfo, vvNew
      ensures Books({nId}, 0) && mapInfo == old(mapInfo)[nId := old(mapInfo)[nId].(refCount := 0)]
      ensures vvNew[..] == Without(old(vvNew[..]), nId)
    {
      hide RandomOk, AddrOk, TriedOk, NewOk, EntriesOk, TriedIds, NewIds, TableOf;
      ghost var service := mapInfo[nId].service;
      UntriedEntry(mapInfo, {}, nIdCount, nId);
      for bucket := 0 to NEW_BUCKET_COUNT
        invariant nId in mapInfo && mapInfo == old(mapInfo)[nId := old(mapInfo)[nId].(refCount := mapInfo[nId].refCount)]
        invariant mapInfo[nId].refCount >= 0
        invariant Books(if mapInfo[nId].refCount == 0 then {nId} else {}, 0)
        invariant forall sl | 0 <= sl < NEW_CELLS && vvNew[sl] == nId :: bucket <= Bucket(sl) < NEW_BUCKET_COUNT
        invariant forall sl | 0 <= sl < NEW_CELLS :: vvNew[sl] == old(vvNew[sl]) || (vvNew[sl] == -1 && old(vvNew[sl]) == nId)
      {
        var sl := Cell(bucket, h.NewPosition(nKey, mapInfo[nId].service, bucket));
        forall k | 0 <= k < NEW_CELLS && vvNew[k] == nId ensures Bucket(k) == bucket ==> k == sl {
          OnlyCell(h, nKey, mapInfo, vvNew[..], nId, k);
        }
        if vvNew[sl] == nId {
          ghost var limbo := if mapInfo[nId].refCount == 0 then {nId} else {};
          ReleaseCell(h, nKey, mapInfo, vvNew[..], limbo, sl);
          Recounted(h, nKey, mapInfo, vRandom, mapAddr, TableOf(vvTried[..]), nId, mapInfo[nId].refCount - 1);
          ghost var cells := vvNew[..];
          vvNew[sl] := -1;
          assert vvNew[..] == cells[sl := -1];
          mapInfo := mapInfo[nId := mapInfo[nId].(refCount := mapInfo[nId].refCount - 1)];
          assert {} + {nId} == {nId};
        }
      }
      NoCellsNoReferences(h, nKey, mapInfo, vvNew[..], nId);
    }

    /** Give an entry in limbo the new-table cell of its own source, dropping what the cell held. */
    method Rehome(nId: int, ghost moving: int) returns (ghost lost: int)
      requires Books({moving, nId}, 2) && nId != moving && nId != -1
      modifies this`mapInfo, this`vRandom, this`mapAddr, this`nNew, vvNew
      ensures Books({moving}, 1)
      ensures moving in mapInfo && moving in old(mapInfo) && Alike(old(mapInfo)[moving], mapInfo[moving])
      ensures TriedIds(mapInfo) == TriedIds(old(mapInfo))
      ensures mapInfo.Keys == old(mapInfo.Keys) - {lost} && forall x <- mapInfo :: Kept(old(mapInfo)[x], mapInfo[x])
      ensures lost in old(mapInfo) ==> !old(mapInfo)[lost].inTried && old(mapInfo)[lost].refCount == 1
      ensures nId in old(mapInfo) && Homed(h, nKey, old(mapInfo)[nId], old(vvNew[..]), vvNew[..], nId)
    {
      hide RandomOk, AddrOk, TriedOk, NewOk, EntriesOk, TriedIds, NewIds, TableOf,
           Hashes.TriedSlot, Hashes.NewSlot, Info.IsTerrible;
      LimboKeys(mapInfo, {moving, nId});
      var home := h.NewSlot(nKey, mapInfo[nId].service, mapInfo[nId].source);
      SlotsInRange(h, nKey, mapInfo[nId].service, mapInfo[nId].source);
      HolderNotInLimbo(h, nKey, mapInfo, vvNew[..], {moving, nId}, home);
      ghost var holder := vvNew[home];
      ClearNew(home, {moving, nId}, 2);
      ClearedKeeps(old(mapInfo), mapInfo, holder, nId);
      ClearedKeeps(old(mapInfo), mapInfo, holder, moving);
      ClearedKept(old(mapInfo), mapInfo, holder);

      assert vvNew[home] == -1;
      ReferenceCell(h, nKey, mapInfo, vvNew[..], {moving, nId}, home, nId);
      Recounted(h, nKey, mapInfo, vRandom, mapAddr, TableOf(vvTried[..]), nId, 1);
      mapInfo := mapInfo[nId := mapInfo[nId].(refCount := 1)];
      ghost var cells := vvNew[..];
      vvNew[home] := nId;
      nNew := nNew + 1;
      assert vvNew[..] == cells[home := nId];
      assert {moving, nId} - {nId} == {moving};
      lost := if holder != -1 && old(mapInfo)[holder].refCount == 1 then holder else -1;
    }

    /** While one entry is on its way to the tried table, move whatever is in its cell there back to
        the new table. */
    method Vacate(sl: nat, ghost moving: int) returns (ghost lost: int)
      requires Books({moving}, 1) && sl < TRIED_CELLS
      modifies this`mapInfo, this`vRandom, this`mapAddr, this`nNew, this`nTried, vvNew, vvTried
      ensures Books({moving}, 1) && vvTried[..] == old(vvTried[..])[sl := -1]
      ensures moving in mapInfo && moving in old(mapInfo) && Alike(old(mapInfo)[moving], mapInfo[moving])
      ensures TriedIds(mapInfo) == TriedIds(old(mapInfo)) - {old(vvTried[sl])}
      ensures mapInfo.Keys == old(mapInfo.Keys) - {lost} && forall x <- mapInfo :: Kept(old(mapInfo)[x], mapInfo[x])
      ensures lost in old(mapInfo) ==> !old(mapInfo)[lost].inTried && old(mapInfo)[lost].refCount == 1
      ensures Evicted(h, nKey, old(mapInfo), old(vvNew[..]), vvNew[..], old(vvTried[sl])) && old(vvTried[sl]) != moving
    {
      hide RandomOk, AddrOk, TriedOk, NewOk, EntriesOk, TriedIds, NewIds, TableOf, Homed, Evicted;
      LimboKeys(mapInfo, {moving});
      NotEvicted(h, nKey, mapInfo, vvNew[..]);
      if vvTried[sl] == -1 {
        NoSuchId(mapInfo, nIdCount);
        assert moving in mapInfo;
        return -1;
      }
      var nIdEvict := vvTried[sl];
      UnseatCell(h, nKey, mapInfo, vRandom, mapAddr, vvTried[..], TableOf(vvNew[..]), {moving}, sl);
      mapInfo := mapInfo[nIdEvict := mapInfo[nIdEvict].(inTried := false)];
      vvTried[sl] := -1;
      nTried := nTried - 1;
      assert vvTried[..] == old(vvTried[..])[sl := -1];
      assert {moving} + {nIdEvict} == {moving, nIdEvict};
      lost := Rehome(nIdEvict, moving);
      EvictedFrom(h, nKey, old(mapInfo), old(mapInfo)[nIdEvict].(inTried := false), old(vvNew[..]), vvNew[..], nIdEvict);
    }

    /** Move an entry from the new table to the tried table. The entry in its way there returns to
        the new table; no other tried entry moves, and at most one entry is lost. */
    method MakeTried(nId: int) returns (ghost lost: int)
      requires Check() && nId in mapInfo && !mapInfo[nId].inTried && mapInfo[nId].lastSuccess != 0
      modifies this`mapInfo, this`vRandom, this`mapAddr, this`nNew, this`nTried, vvNew, vvTried
      ensures Check() && nId in mapInfo && mapInfo[nId].inTried
      ensures var sl := h.TriedSlot(nKey, old(mapInfo)[nId].service);
              sl < TRIED_CELLS && TriedIds(mapInfo) == TriedIds(old(mapInfo)) - {old(vvTried[sl])} + {nId}
      ensures mapInfo.Keys == old(mapInfo.Keys) - {lost} && forall x <- mapInfo :: Kept(old(mapInfo)[x], mapInfo[x])
      ensures lost in old(mapInfo) ==> !old(mapInfo)[lost].inTried && old(mapInfo)[lost].refCount == 1
      ensures var sl := h.TriedSlot(nKey, old(mapInfo)[nId].service);
              && sl < TRIED_CELLS && vvTried[..] == old(vvTried[..])[sl := nId]
              && Evicted(h, nKey, old(mapInfo), Without(old(vvNew[..]), nId), vvNew[..], old(vvTried[..])[sl])
    {
      hide Books, TriedIds, Kept, Hashes.TriedSlot, Evicted, Without;
      CheckedIds();
      LeaveNew(nId);
      var sl := h.TriedSlot(nKey, mapInfo[nId].service);
      SlotsInRange(h, nKey, mapInfo[nId].service, mapInfo[nId].source);
      ghost var stripped := mapInfo;
      lost := Vacate(sl, nId);
      EvictedSame(h, nKey, stripped, old(mapInfo), Without(old(vvNew[..]), nId), vvNew[..], old(vvTried[..])[sl], nId);
      ghost var vacated := mapInfo;
      assert TriedIds(vacated) == TriedIds(old(mapInfo)) - {old(vvTried[sl])};
      assert vvTried[sl] == -1;
      Seat(sl, nId);
      KeptThrough(old(mapInfo), vacated, nId, lost);
    }

    /** Take an entry out of the new table, on its way to the tried one. */
    method LeaveNew(nId: int)
      requires Check() && nId in mapInfo && !mapInfo[nId].inTried
      modifies this`mapInfo, this`nNew, vvNew
      ensures Books({nId}, 1) && mapInfo == old(mapInfo)[nId := old(mapInfo)[nId].(refCount := 0)]
      ensures TriedIds(mapInfo) == TriedIds(old(mapInfo)) && vvNew[..] == Without(old(vvNew[..]), nId)
    {
      hide RandomOk, AddrOk, TriedOk, NewOk, EntriesOk, TriedIds, NewIds, TableOf, Without;
      DropReferences(nId);
      KeepKinds(old(mapInfo), nId, mapInfo[nId]);
      nNew := nNew - 1;
      assert mapInfo[nId].refCount == 0;
    }

    /** Put an entry in limbo into the free tried cell that belongs to it. */
    method Seat(sl: nat, nId: int)
      requires Books({nId}, 1) && nId in mapInfo && mapInfo[nId].lastSuccess != 0
      requires sl < TRIED_CELLS && sl == h.TriedSlot(nKey, mapInfo[nId].service) && vvTried[sl] == -1
      modifies this`mapInfo, this`nTried, vvTried
      ensures Check() && mapInfo == old(mapInfo)[nId := old(mapInfo)[nId].(inTried := true)]
      ensures TriedIds(mapInfo) == TriedIds(old(mapInfo)) + {nId} && vvTried[..] == old(vvTried[..])[sl := nId]
    {
      hide RandomOk, AddrOk, TriedOk, NewOk, EntriesOk, TriedIds, NewIds, TableOf;
      SeatCell(h, nKey, mapInfo, vRandom, mapAddr, vvTried[..], TableOf(vvNew[..]), {nId}, sl, nId);
      vvTried[sl] := nId;
      nTried := nTried + 1;
      mapInfo := mapInfo[nId := mapInfo[nId].(inTried := true)];
      assert vvTried[..] == old(vvTried[..])[sl := nId];
      assert {nId} - {nId} == {};
    }

    /** The entry a service names exactly, port included. */
    predicate Knows(service: Service)
      reads this
    {
      service.ip in mapAddr && mapAddr[service.ip] in mapInfo && mapInfo[mapAddr[service.ip]].service == service
    }

    /** Look through the new buckets, from a random start, for one that holds an untried entry. The
        search always succeeds. */
    method FindNewBucket(nId: int, nRnd: nat) returns (nUBucket: int)
      requires Check() && nId in mapInfo && !mapInfo[nId].inTried && nRnd < NEW_BUCKET_COUNT
      ensures 0 <= nUBucket < NEW_BUCKET_COUNT
      ensures vvNew[Cell(nUBucket, h.NewPosition(nKey, mapInfo[nId].service, nUBucket))] == nId
    {
      hide RandomOk, AddrOk, TriedOk, NewOk, EntriesOk, TriedIds, NewIds, TableOf;
      UntriedEntry(mapInfo, {}, nIdCount, nId);
      NoCellsNoReferences(h, nKey, mapInfo, vvNew[..], nId);
      ghost var held :| 0 <= held < NEW_CELLS && vvNew[held] == nId;
      OnlyCell(h, nKey, mapInfo, vvNew[..], nId, held);
      ghost var stop := (Bucket(held) + NEW_BUCKET_COUNT - nRnd) % NEW_BUCKET_COUNT;
      nUBucket := -1;
      for n := 0 to NEW_BUCKET_COUNT
        invariant n <= stop
      {
        var nB := (n + nRnd) % NEW_BUCKET_COUNT;
        if vvNew[Cell(nB, h.NewPosition(nKey, mapInfo[nId].service, nB))] == nId {
          return nB;
        }
      }
      assert false;
    }

    /** Mark a service good. A known service is in the tried table afterwards. */
    method Good(service: Service, time: int, nRnd: nat) returns (ghost lost: int)
      requires Check() && time > 0 && nRnd < NEW_BUCKET_COUNT
      modifies this, vvNew, vvTried
      ensures Check() && nKey == old(nKey) && nLastGood == time
      ensures !old(Knows(service)) ==> mapInfo == old(mapInfo) && mapAddr == old(mapAddr) && lost == -1
      ensures old(Knows(service)) ==>
                Knows(service) && mapAddr[service.ip] == old(mapAddr[service.ip])
                && mapInfo[mapAddr[service.ip]].inTried
      ensures forall x <- mapInfo :: x in old(mapInfo)
                && Kept(if old(Knows(service)) && x == old(mapAddr)[service.ip] then Confirmed(old(mapInfo)[x], time)
                        else old(mapInfo)[x], mapInfo[x])
      ensures old(Knows(service)) ==>
                var id := old(mapAddr)[service.ip];
                if old(mapInfo)[id].inTried then TriedIds(mapInfo) == TriedIds(old(mapInfo))
                else
                  var sl := h.TriedSlot(nKey, service);
                  sl < TRIED_CELLS && TriedIds(mapInfo) == TriedIds(old(mapInfo)) - {old(vvTried[sl])} + {id}
      ensures mapInfo.Keys == old(mapInfo.Keys) - {lost}
      ensures lost in old(mapInfo) ==> !old(mapInfo)[lost].inTried && old(mapInfo)[lost].refCount == 1
      ensures old(Knows(service)) ==>
                var i := mapInfo[mapAddr[service.ip]]; i.lastSuccess == time && i.lastTry == time && i.attempts == 0
      ensures if old(Knows(service)) && !old(mapInfo[mapAddr[service.ip]].inTried)
              then
                var id, sl := old(mapAddr)[service.ip], h.TriedSlot(nKey, service);
                && sl < TRIED_CELLS && vvTried[..] == old(vvTried[..])[sl := id]
                && Evicted(h, nKey, old(mapInfo), Without(old(vvNew[..]), id), vvNew[..], old(vvTried[..])[sl])
              else vvTried[..] == old(vvTried[..]) && vvNew[..] == old(vvNew[..])
    {
      hide Books, TriedIds, Hashes.TriedSlot, Kept, Evicted, Without;
      lost := -1;
      KeptAll(mapInfo);
      CheckedIds();
      Seen(time);
      if service.ip !in mapAddr { return; }
      CheckedAddress(service.ip);
      var nId := mapAddr[service.ip];
      if mapInfo[nId].service != service { return; }
      ConfirmedKept(mapInfo, nId, time);
      Confirm(nId, time);
      var info := mapInfo[nId];
      if info.inTried { return; }
      var nUBucket := FindNewBucket(nId, nRnd);
      assert nUBucket != -1;
      ghost var confirmed := mapInfo;
      lost := MakeTried(nId);
      EvictedAlike(h, nKey, confirmed, old(mapInfo), Without(old(vvNew[..]), nId), vvNew[..],
                   old(vvTried[..])[h.TriedSlot(nKey, service)], nId);
      KeptSame(info, mapInfo[nId]);
      CheckedName(nId);
    }

    method Seen(time: int)
      requires Check()
      modifies this`nLastGood
      ensures Check() && nLastGood == time
    {
      nLastGood := time;
    }

    /** Record a success. */
    method Confirm(nId: int, time: int)
      requires Check() && time > 0 && nId in mapInfo
      modifies this`mapInfo
      ensures Check() && mapInfo == old(mapInfo)[nId := Confirmed(old(mapInfo)[nId], time)]
      ensures TriedIds(mapInfo) == TriedIds(old(mapInfo))
    {
      hide RandomOk, AddrOk, TriedOk, NewOk, EntriesOk, TriedIds, NewIds, TableOf;
      var info := mapInfo[nId].(lastSuccess := time, lastTry := time, attempts := 0);
      Restated(h, nKey, mapInfo, vRandom, mapAddr, TableOf(vvTried[..]), TableOf(vvNew[..]), {}, nId, info);
      mapInfo := mapInfo[nId := info];
    }

    /** Change what is recorded about an entry, but not where it stands. */
    method Restate(nId: int, info: Info, ghost limbo: set<int> := {})
      requires Books(limbo, 0) && nId in mapInfo && info.service == mapInfo[nId].service && Standing(info) == Standing(mapInfo[nId])
      requires info.lastTry >= 0 && info.lastSuccess == mapInfo[nId].lastSuccess
      modifies this`mapInfo
      ensures Books(limbo, 0) && mapInfo == old(mapInfo)[nId := info]
      ensures TriedIds(mapInfo) == TriedIds(old(mapInfo))
    {
      hide RandomOk, AddrOk, TriedOk, NewOk, EntriesOk, TriedIds, NewIds, TableOf;
      TimesOk(mapInfo, limbo, nId);
      Restated(h, nKey, mapInfo, vRandom, mapAddr, TableOf(vvTried[..]), TableOf(vvNew[..]), limbo, nId, info);
      mapInfo := mapInfo[nId := info];
    }

    method Attempt(service: Service, fCountFailure: bool, time: int)
      requires Check() && time >= 0
      modifies this`mapInfo
      ensures Check()
      ensures mapInfo ==
              if !old(Knows(service)) then old(mapInfo)
              else
                var id := mapAddr[service.ip];
                old(mapInfo)[id := Attempted(old(mapInfo)[id], Try(fCountFailure, time), nLastGood)]
      ensures old(Knows(service)) ==>
                var id := mapAddr[service.ip];
                var i, j := old(mapInfo)[id], mapInfo[id];
                && j.lastTry == time
                && if fCountFailure && i.lastCountAttempt < nLastGood
                   then j.attempts == i.attempts + 1 && j.lastCountAttempt == time
                   else j.attempts == i.attempts && j.lastCountAttempt == i.lastCountAttempt
    {
      hide RandomOk, AddrOk, TriedOk, NewOk, EntriesOk, TriedIds, NewIds, TableOf;
      if service.ip !in mapAddr { return; }
      KnownEntry(mapInfo, mapAddr, {}, service.ip);
      var nId := mapAddr[service.ip];
      var info := mapInfo[nId];
      if info.service != service { return; }
      info := info.(lastTry := time);
      if fCountFailure && info.lastCountAttempt < nLastGood {
        info := info.(lastCountAttempt := time, attempts := info.attempts + 1);
      }
      Restate(nId, info);
    }

    method Connected(service: Service, time: int)
      requires Check()
      modifies this`mapInfo
      ensures Check()
      ensures mapInfo ==
              if !old(Knows(service)) || time - old(mapInfo)[mapAddr[service.ip]].time <= 20 * 60 then old(mapInfo)
              else old(mapInfo)[mapAddr[service.ip] := old(mapInfo)[mapAddr[service.ip]].(time := time)]
    {
      hide RandomOk, AddrOk, TriedOk, NewOk, EntriesOk, TriedIds, NewIds, TableOf;
      if service.ip !in mapAddr { return; }
      KnownEntry(mapInfo, mapAddr, {}, service.ip);
      var nId := mapAddr[service.ip];
      var info := mapInfo[nId];
      if info.service != service { return; }
      if time - info.time > 20 * 60 {
        Restate(nId, info.(time := time));
      }
    }

    method SetServices(service: Service, services: set<nat>)
      requires Check()
      modifies this`mapInfo
      ensures Check()
      ensures mapInfo ==
              if !old(Knows(service)) then old(mapInfo)
              else old(mapInfo)[mapAddr[service.ip] := old(mapInfo)[mapAddr[service.ip]].(services := services)]
    {
      hide RandomOk, AddrOk, TriedOk, NewOk, EntriesOk, TriedIds, NewIds, TableOf;
      if service.ip !in mapAddr { return; }
      KnownEntry(mapInfo, mapAddr, {}, service.ip);
      var nId := mapAddr[service.ip];
      var info := mapInfo[nId];
      if info.service != service { return; }
      Restate(nId, info.(services := services));
    }

    /** Whether a cell of the new table can be had for an entry without references: it is free, or
        its holder is terrible or has other references. */
    predicate Yields(sl: nat, now: int)
      reads this, vvNew
    {
      && sl < vvNew.Length
      && (vvNew[sl] == -1 || (vvNew[sl] in mapInfo && (mapInfo[vvNew[sl]].IsTerrible(now) || mapInfo[vvNew[sl]].refCount > 1)))
    }

    /** Overwrite a cell of the new table with a reference to an untried entry. */
    method TakeCell(sl: nat, nId: int, ghost limbo: set<int>) returns (ghost lost: int)
      requires Books(limbo, 0) && limbo <= {nId} && nId in mapInfo && !mapInfo[nId].inTried
      requires mapInfo[nId].refCount < NEW_BUCKETS_PER_ADDRESS
      requires sl < NEW_CELLS && vvNew[sl] != nId && PlacedNew(h, nKey, mapInfo[nId].service, sl)
      modifies this`mapInfo, this`vRandom, this`mapAddr, this`nNew, vvNew
      ensures Check() && TriedIds(mapInfo) == TriedIds(old(mapInfo)) && vvNew[..] == old(vvNew[..])[sl := nId]
      ensures mapInfo.Keys == old(mapInfo.Keys) - {lost} && forall x <- mapInfo :: Kept(old(mapInfo)[x], mapInfo[x])
      ensures old(vvNew[sl]) != -1 ==> old(vvNew[sl]) in old(mapInfo) && !old(mapInfo)[old(vvNew[sl])].inTried
      ensures lost == if old(vvNew[sl]) != -1 && old(mapInfo)[old(vvNew[sl])].refCount == 1 then old(vvNew[sl]) else -1
      ensures Referenced(old(mapInfo), mapInfo, nId, old(mapInfo)[nId].refCount + 1, old(vvNew[sl])) && nId in mapInfo
    {
      hide RandomOk, AddrOk, TriedOk, NewOk, EntriesOk, TriedIds, NewIds, TableOf, Kept, Cleared, SameButPositions, Referenced,
           PlacedNew;
      NoSuchId(mapInfo, nIdCount);
      ghost var holder := vvNew[sl];
      HolderNotInLimbo(h, nKey, mapInfo, vvNew[..], limbo, sl);
      ClearNew(sl, limbo, 0);
      ClearedKeeps(old(mapInfo), mapInfo, holder, nId);
      ClearedKept(old(mapInfo), mapInfo, holder);
      lost := if holder != -1 && old(mapInfo)[holder].refCount == 1 then holder else -1;
      KeptRecount(old(mapInfo), mapInfo, nId, mapInfo[nId].refCount + 1);
      ClearedReferences(old(mapInfo), mapInfo, nId, holder);
      AddReference(sl, nId, limbo);
      assert limbo - {nId} == {};
    }

    /** Give an untried entry a reference where its source places it, if the cell is free, or its
        holder terrible, or better referenced than an entry without any. An entry left without a
        reference is deleted. */
    method Place(nId: int, source: NetAddr, now: int, ghost limbo: set<int>) returns (ghost lost: int)
      requires Books(limbo, 0) && limbo <= {nId} && nId in mapInfo && !mapInfo[nId].inTried
      requires mapInfo[nId].refCount < NEW_BUCKETS_PER_ADDRESS
      modifies this`mapInfo, this`vRandom, this`mapAddr, this`nNew, vvNew
      ensures Check() && TriedIds(mapInfo) == TriedIds(old(mapInfo))
      ensures mapInfo.Keys == old(mapInfo.Keys) - {lost} && forall x <- mapInfo :: Kept(old(mapInfo)[x], mapInfo[x])
      ensures lost in old(mapInfo) && lost != nId ==> old(mapInfo)[lost].IsTerrible(now) && !old(mapInfo)[lost].inTried
      ensures lost == nId <==> nId in limbo && !old(Yields(h.NewSlot(nKey, mapInfo[nId].service, source), now))
      ensures nId in mapInfo && nId in limbo ==> !mapInfo[nId].inTried && mapInfo[nId].refCount == 1
      ensures
        var sl, had := h.NewSlot(nKey, old(mapInfo)[nId].service, source), old(mapInfo)[nId].refCount;
        && sl < NEW_CELLS
        && var holder := old(vvNew[..])[sl];
           && (holder != -1 ==> holder in old(mapInfo))
           && (if holder != nId && (holder == -1 || old(mapInfo)[holder].IsTerrible(now)
                                    || (old(mapInfo)[holder].refCount > 1 && had == 0))
               then vvNew[..] == old(vvNew[..])[sl := nId] && Referenced(old(mapInfo), mapInfo, nId, had + 1, holder)
               else vvNew[..] == old(vvNew[..]) && Referenced(old(mapInfo), mapInfo, nId, had, -1))
    {
      hide RandomOk, AddrOk, TriedOk, NewOk, EntriesOk, TriedIds, NewIds, TableOf,
           Hashes.TriedSlot, Hashes.NewSlot, Info.IsTerrible, Kept, Cleared, SameButPositions, Referenced, PlacedNew;
      NoSuchId(mapInfo, nIdCount);
      KeptAll(mapInfo);
      SameReferences(mapInfo, nId);
      SlotsInRange(h, nKey, mapInfo[nId].service, source);
      LimboIffBare(mapInfo, limbo, nId);
      var sl := h.NewSlot(nKey, mapInfo[nId].service, source);
      HolderNotInLimbo(h, nKey, mapInfo, vvNew[..], limbo, sl);
      lost := -1;
      if vvNew[sl] != nId {
        var fInsert := vvNew[sl] == -1;
        if !fInsert {
          var existing := mapInfo[vvNew[sl]];
          if existing.IsTerrible(now) || (existing.refCount > 1 && mapInfo[nId].refCount == 0) {
            fInsert := true;
          }
        }
        if fInsert {
          lost := TakeCell(sl, nId, limbo);
          KeptCount(old(mapInfo), mapInfo, nId, old(vvNew[..])[sl]);
        } else if mapInfo[nId].refCount == 0 {
          LimboKeys(mapInfo, limbo);
          Delete(nId, limbo, 0);
          lost := nId;
          DeletedKept(old(mapInfo), mapInfo, nId);
          DeletedReferences(old(mapInfo), mapInfo, nId);
        }
      }
      assert limbo - {nId} == {};
    }

    method AddReference(sl: nat, nId: int, ghost limbo: set<int>)
      requires Books(limbo, 0) && sl < NEW_CELLS && vvNew[sl] == -1
      requires nId in mapInfo && nId != -1 && !mapInfo[nId].inTried && mapInfo[nId].refCount < NEW_BUCKETS_PER_ADDRESS
      requires PlacedNew(h, nKey, mapInfo[nId].service, sl)
      modifies this`mapInfo, vvNew
      ensures Books(limbo - {nId}, 0) && TriedIds(mapInfo) == TriedIds(old(mapInfo))
      ensures mapInfo == old(mapInfo)[nId := old(mapInfo)[nId].(refCount := old(mapInfo)[nId].refCount + 1)]
      ensures vvNew[..] == old(vvNew[..])[sl := nId]
    {
      hide RandomOk, AddrOk, TriedOk, NewOk, EntriesOk, TriedIds, NewIds, TableOf;
      ReferenceCell(h, nKey, mapInfo, vvNew[..], limbo, sl, nId);
      Recounted(h, nKey, mapInfo, vRandom, mapAddr, TableOf(vvTried[..]), nId, mapInfo[nId].refCount + 1);
      mapInfo := mapInfo[nId := mapInfo[nId].(refCount := mapInfo[nId].refCount + 1)];
      vvNew[sl] := nId;
      assert vvNew[..] == old(vvNew[..])[sl := nId];
    }

    /** Announce an address. Tried entries stay as they are; an entry is only ever lost to another if
        it is terrible; a known address is refreshed and stays; and an unknown one is entered exactly
        when the cell its source gives it can be had. */
    method Add(a: Address, source: NetAddr, timePenalty: int, routable: bool, now: int, random: nat -> nat)
      returns (fNew: bool, ghost lost: int)
      requires Check()
      modifies this`nIdCount, this`mapInfo, this`mapAddr, this`vRandom, this`nNew, vvNew
      ensures Check() && TriedIds(mapInfo) == TriedIds(old(mapInfo))
      ensures !routable ==> mapInfo == old(mapInfo) && mapAddr == old(mapAddr) && vvNew[..] == old(vvNew[..])
      ensures fNew == (routable && a.service.ip !in old(mapAddr))
      ensures lost in old(mapInfo) ==> old(mapInfo)[lost].IsTerrible(now) && !old(mapInfo)[lost].inTried
      ensures forall x <- old(mapInfo) :: x in mapInfo || x == lost
      ensures forall x <- mapInfo :: x in old(mapInfo) && !(routable && a.service.ip == old(mapInfo)[x].service.ip) ==>
                Kept(old(mapInfo)[x], mapInfo[x])
      ensures routable && a.service.ip in old(mapAddr) ==>
                var id, penalty := old(mapAddr)[a.service.ip], if a.service.ip == source then 0 else timePenalty;
                && id in old(mapInfo) && id in mapInfo && Renewed(old(mapInfo)[id], mapInfo[id], a, now, penalty)
                && Rereferenced(h, nKey, old(mapInfo), mapInfo, old(vvNew[..]), vvNew[..], id, a, source, now, random)
      ensures fNew ==>
                (old(nIdCount) in mapInfo <==> old(Yields(h.NewSlot(nKey, a.service, source), now)))
                && mapInfo.Keys <= old(mapInfo.Keys) + {old(nIdCount)}
                && Takes(h, nKey, old(mapInfo), mapInfo, old(vvNew[..]), vvNew[..], old(nIdCount), a.service, source, now)
      ensures fNew && old(nIdCount) in mapInfo ==>
                var i, penalty := mapInfo[old(nIdCount)], if a.service.ip == source then 0 else timePenalty;
                Novel(i, a, source, penalty) && !i.inTried && i.refCount == 1
    {
      hide Books, TriedIds, Info.IsTerrible, Kept, Rereferenced, Renewed, Takes, Novel;
      lost := -1;
      CheckedIds();
      if !routable {
        KeptAll(mapInfo);
        return false, -1;
      }
      var penalty := if a.service.ip == source then 0 else timePenalty;
      if a.service.ip in mapAddr {
        OnlyAddress(a.service.ip);
        lost := AddKnown(a, source, penalty, now, random);
        return false, lost;
      } else {
        NoAddress(a.service.ip);
        fNew, lost := AddNew(a, source, penalty, now);
      }
    }

    lemma OnlyAddress(a: NetAddr)
      requires Check() && a in mapAddr
      ensures mapAddr[a] in mapInfo && forall x <- mapInfo :: mapInfo[x].service.ip == a <==> x == mapAddr[a]
    {
      CheckedAddress(a);
      forall x <- mapInfo { CheckedName(x); }
    }

    lemma NoAddress(a: NetAddr)
      requires Check() && a !in mapAddr
      ensures forall x <- mapInfo :: mapInfo[x].service.ip != a
    {
      forall x <- mapInfo { CheckedName(x); }
    }

    /** Announce a known address: it is refreshed, and may get one more reference. */
    method AddKnown(a: Address, source: NetAddr, penalty: int, now: int, random: nat -> nat) returns (ghost lost: int)
      requires Check() && a.service.ip in mapAddr
      modifies this`mapInfo, this`mapAddr, this`vRandom, this`nNew, vvNew
      ensures Check() && TriedIds(mapInfo) == TriedIds(old(mapInfo))
      ensures lost in old(mapInfo) ==> old(mapInfo)[lost].IsTerrible(now) && !old(mapInfo)[lost].inTried
      ensures mapInfo.Keys == old(mapInfo.Keys) - {lost}
      ensures var id := old(mapAddr)[a.service.ip];
              && id in old(mapInfo) && id in mapInfo && Renewed(old(mapInfo)[id], mapInfo[id], a, now, penalty)
              && Rereferenced(h, nKey, old(mapInfo), mapInfo, old(vvNew[..]), vvNew[..], id, a, source, now, random)
              && forall x <- mapInfo :: x in old(mapInfo) && x != id ==> Kept(old(mapInfo)[x], mapInfo[x])
    {
      hide RandomOk, AddrOk, TriedOk, NewOk, EntriesOk, TriedIds, NewIds, TableOf,
           Hashes.TriedSlot, Hashes.NewSlot, Info.IsTerrible, Kept, Renewed, Rereferenced, Referenced;
      lost := -1;
      NoSuchId(mapInfo, nIdCount);
      KnownEntry(mapInfo, mapAddr, {}, a.service.ip);
      var nId := mapAddr[a.service.ip];
      ghost var i := mapInfo[nId];
      SlotsInRange(h, nKey, i.service, source);
      HolderNotInLimbo(h, nKey, mapInfo, vvNew[..], {}, h.NewSlot(nKey, i.service, source));
      var renewed := Refreshed(mapInfo[nId], a, now, penalty);
      RefreshedIs(mapInfo[nId], a, now, penalty);
      NotRereferenced(h, nKey, mapInfo, vvNew[..], nId, renewed, a, source, now, random);
      Restate(nId, renewed);
      KeptAll(mapInfo);
      var info := mapInfo[nId];
      if a.time == 0 || (info.time != 0 && a.time <= info.time) { return -1; }
      if info.inTried { return -1; }
      if info.refCount == NEW_BUCKETS_PER_ADDRESS { return -1; }
      UntriedEntry(mapInfo, {}, nIdCount, nId);
      var nFactor := 1;
      for n := 0 to info.refCount
        invariant nFactor == Pow(2, n)
      {
        nFactor := nFactor * 2;
      }
      PowGrows(2, 1, info.refCount);
      if nFactor > 1 && random(nFactor) != 0 { return -1; }
      ghost var mid := mapInfo;
      lost := Place(nId, source, now, {});
      PlacedAgain(h, nKey, old(mapInfo), mid, mapInfo, old(vvNew[..]), vvNew[..], nId, a, source, now, random);
      StillTried(old(mapInfo), mapInfo, nId);
      RenewedKept(i, renewed, mapInfo[nId], a, now, penalty);
    }

    /** Announce an unknown address. */
    method AddNew(a: Address, source: NetAddr, penalty: int, now: int) returns (fNew: bool, ghost lost: int)
      requires Check() && a.service.ip !in mapAddr
      modifies this`nIdCount, this`mapInfo, this`mapAddr, this`vRandom, this`nNew, vvNew
      ensures Check() && TriedIds(mapInfo) == TriedIds(old(mapInfo)) && fNew
      ensures lost in old(mapInfo) ==> old(mapInfo)[lost].IsTerrible(now) && !old(mapInfo)[lost].inTried
      ensures forall x <- old(mapInfo) :: x in mapInfo || x == lost
      ensures old(nIdCount) in mapInfo <==> old(Yields(h.NewSlot(nKey, a.service, source), now))
      ensures mapInfo.Keys <= old(mapInfo.Keys) + {old(nIdCount)}
      ensures forall x <- mapInfo :: x in old(mapInfo) ==> Kept(old(mapInfo)[x], mapInfo[x])
      ensures old(nIdCount) in mapInfo ==>
                var i := mapInfo[old(nIdCount)];
                Novel(i, a, source, penalty) && !i.inTried && i.refCount == 1
      ensures Takes(h, nKey, old(mapInfo), mapInfo, old(vvNew[..]), vvNew[..], old(nIdCount), a.service, source, now)
    {
      hide RandomOk, AddrOk, TriedOk, NewOk, EntriesOk, TriedIds, NewIds, TableOf,
           Hashes.TriedSlot, Hashes.NewSlot, Info.IsTerrible, Referenced;
      NoSuchId(mapInfo, nIdCount);
      SlotsInRange(h, nKey, a.service, source);
      HolderNotInLimbo(h, nKey, mapInfo, vvNew[..], {}, h.NewSlot(nKey, a.service, source));
      var nId := Create(a, source);
      nNew := nNew + 1;
      var info := mapInfo[nId];
      Restate(nId, info.(time := Max(0, info.time - penalty)), {nId});
      ghost var mid := mapInfo;
      lost := Place(nId, source, now, {nId});
      PlacedFirst(h, nKey, old(mapInfo), mid, mapInfo, old(vvNew[..]), vvNew[..], nId, a.service, source, now);
      fNew := true;
    }

    /** Select addresses at random: at most 23% of the entries and at most 2500, from distinct entries
        that are not terrible; fewer only when all entries have been looked at. Nothing but the random
        order changes. */
    method GetAddr(now: int) returns (vAddr: seq<Address>, ghost picked: seq<int>, ghost seen: set<int>)
      requires Check()
      modifies this`mapInfo, this`vRandom
      ensures Check() && SameButPositions(old(mapInfo), mapInfo)
      ensures Picks(old(mapInfo), seen, picked, vAddr, now)
      ensures |vAddr| <= 2500 && 100 * |vAddr| <= 23 * |old(vRandom)|
      ensures |vAddr| < 2500 && 100 * (|vAddr| + 1) <= 23 * |old(vRandom)| ==> seen == old(mapInfo.Keys)
    {
      hide RandomOk, AddrOk, TriedOk, NewOk, EntriesOk, TriedIds, NewIds, TableOf,
           Info.IsTerrible, Picks, SameButPositions;
      var nNodes := 23 * |vRandom| / 100;
      if nNodes > 2500 {
        nNodes := 2500;
      }
      vAddr, picked, seen := [], [], {};
      SameEntries(mapInfo, mapInfo);
      NothingPicked(mapInfo, now);
      var n := 0;
      while n < |vRandom| && |vAddr| < nNodes
        invariant 0 <= n <= |vRandom| == |old(vRandom)| && |vAddr| <= nNodes
        invariant Check() && SameButPositions(old(mapInfo), mapInfo)
        invariant forall id :: id in seen <==> id in vRandom[..n]
        invariant Picks(old(mapInfo), seen, picked, vAddr, now)
      {
        var nRndPos :| n <= nRndPos < |vRandom|;
        ghost var before, order := mapInfo, vRandom;
        SwapRandom(n, nRndPos, {}, 0);
        StillSame(old(mapInfo), before, mapInfo);
        assert vRandom[..n] == order[..n];
        AllDistinct(mapInfo, vRandom);
        var nId := vRandom[n];
        assert nId !in vRandom[..n];
        var ai := mapInfo[nId];
        PickStep(old(mapInfo), mapInfo, seen, picked, vAddr, now, nId);
        if !ai.IsTerrible(now) {
          vAddr := vAddr + [AddressOf(ai)];
          picked := picked + [nId];
        }
        seen := seen + {nId};
        assert vRandom[..n + 1] == vRandom[..n] + [nId];
        n := n + 1;
      }
      SameEntries(old(mapInfo), mapInfo);
      if n == |vRandom| {
        assert vRandom[..n] == vRandom;
        SeenAll(mapInfo, vRandom, seen);
      }
    }
  }
}
