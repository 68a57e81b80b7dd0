/** The address manager's mutually redundant structures, the consistency its debug check demands of
    them, and what each elementary change does to it. */
module AddrManBooks {

  const TRIED_BUCKET_COUNT := 256
  const NEW_BUCKET_COUNT := 1024
  const BUCKET_SIZE := 64
  const NEW_BUCKETS_PER_ADDRESS := 8
  const HORIZON_DAYS := 30
  const RETRIES := 3
  const MAX_FAILURES := 10
  const MIN_FAIL_DAYS := 7

  /** A network address; two services may share one. */
  type NetAddr = nat

  datatype Service = Service(ip: NetAddr, port: nat)

  datatype Address = Address(service: Service, time: int, services: set<nat>)

  datatype Info = Info(service: Service, time: int, services: set<nat>, source: NetAddr,
                       lastSuccess: int, lastTry: int, lastCountAttempt: int, attempts: int,
                       refCount: int, inTried: bool, randomPos: int)
  {
    /** Statistics bad enough for the entry to be replaced. */
    predicate IsTerrible(now: int)
    {
      if lastTry != 0 && lastTry >= now - 60 then false
      else
        || time > now + 10 * 60
        || time == 0 || now - time > HORIZON_DAYS * 24 * 60 * 60
        || (lastSuccess == 0 && attempts >= RETRIES)
        || (now - lastSuccess > MIN_FAIL_DAYS * 24 * 60 * 60 && attempts >= MAX_FAILURES)
    }
  }

  /** A cell of a table of buckets, numbered row by row as the table lies in memory. */
  type Slot = nat

  function Cell(bucket: nat, pos: nat): Slot { bucket * BUCKET_SIZE + pos }
  function Bucket(sl: Slot): nat { sl / BUCKET_SIZE }
  function Position(sl: Slot): nat { sl % BUCKET_SIZE }

  /** The keyed hashes that place entries; nothing is assumed of them. */
  datatype Hashes = Hashes(triedHash: (nat, Service) -> nat,
                           newHash: (nat, NetAddr, NetAddr) -> nat,
                           positionHash: (nat, bool, nat, Service) -> nat)
  {
    function TriedSlot(key: nat, s: Service): Slot
    {
      var bucket := triedHash(key, s) % TRIED_BUCKET_COUNT;
      Cell(bucket, positionHash(key, false, bucket, s) % BUCKET_SIZE)
    }

    function NewPosition(key: nat, s: Service, bucket: nat): nat { positionHash(key, true, bucket, s) % BUCKET_SIZE }

    function NewSlot(key: nat, s: Service, source: NetAddr): Slot
    {
      var bucket := newHash(key, s.ip, source) % NEW_BUCKET_COUNT;
      Cell(bucket, NewPosition(key, s, bucket))
    }
  }

  /** A table cell without an entry (-1 in memory) is a missing key here. */
  type Table = map<Slot, int>
  type Infos = map<int, Info>

  // ---------------------------------------------------------------------------------------------
  // The bookkeeping
  // ---------------------------------------------------------------------------------------------

  // Where two structures index each other, the direction from an entry to its place is stated
  // through a named predicate, so that the two directions do not unfold each other without end.

  ghost predicate Listed(info: Infos, random: seq<int>, id: int)
  {
    id in info && 0 <= info[id].randomPos < |random| && random[info[id].randomPos] == id
  }

  /** The random order and the recorded positions are inverse to each other. */
  ghost predicate RandomOk(info: Infos, random: seq<int>)
  {
    && (forall i | 0 <= i < |random| :: random[i] in info && info[random[i]].randomPos == i)
    && (forall id {:trigger Listed(info, random, id)} :: id in info ==> Listed(info, random, id))
  }

  ghost predicate Named(info: Infos, addr: map<NetAddr, int>, id: int)
  {
    id in info && info[id].service.ip in addr && addr[info[id].service.ip] == id
  }

  /** The address index and the entries are inverse to each other. */
  ghost predicate AddrOk(info: Infos, addr: map<NetAddr, int>)
  {
    && (forall a <- addr :: addr[a] in info && info[addr[a]].service.ip == a)
    && (forall id {:trigger Named(info, addr, id)} :: id in info ==> Named(info, addr, id))
  }

  ghost predicate Seated(h: Hashes, key: nat, info: Infos, triedTable: Table, id: int)
  {
    && id in info
    && (info[id].inTried ==>
          var sl := h.TriedSlot(key, info[id].service); sl in triedTable && triedTable[sl] == id)
  }

  /** Tried entries sit in the one cell their hash gives them, and the table holds nothing else. */
  ghost predicate TriedOk(h: Hashes, key: nat, info: Infos, triedTable: Table)
  {
    && (forall sl <- triedTable :: triedTable[sl] in info && info[triedTable[sl]].inTried
                                   && sl == h.TriedSlot(key, info[triedTable[sl]].service))
    && (forall id {:trigger Seated(h, key, info, triedTable, id)} :: id in info ==> Seated(h, key, info, triedTable, id))
  }

  /** A cell of the new table at the position an entry hashes to in that bucket. */
  predicate PlacedNew(h: Hashes, key: nat, service: Service, sl: Slot)
  {
    Bucket(sl) < NEW_BUCKET_COUNT && Position(sl) == h.NewPosition(key, service, Bucket(sl))
  }

  /** The cells of the new table that hold an entry. */
  ghost function RefSlots(newTable: Table, id: int): set<Slot>
  {
    set sl <- newTable | newTable[sl] == id
  }

  ghost predicate Counted(info: Infos, newTable: Table, id: int)
  {
    id in info && info[id].refCount == |RefSlots(newTable, id)|
  }

  /** Every reference in the new table is at its hashed position, and reference counts are exact. */
  ghost predicate NewOk(h: Hashes, key: nat, info: Infos, newTable: Table)
  {
    && (forall sl <- newTable :: newTable[sl] in info && !info[newTable[sl]].inTried && PlacedNew(h, key, info[newTable[sl]].service, sl))
    && (forall id {:trigger Counted(info, newTable, id)} :: id in info ==> Counted(info, newTable, id))
  }

  /** Entries in limbo are in neither table; all others have the references their kind needs. */
  ghost predicate EntriesOk(info: Infos, limbo: set<int>)
  {
    && (forall id <- limbo :: id in info && !info[id].inTried && info[id].refCount == 0)
    && (forall id <- info :: id !in limbo ==>
          if info[id].inTried then info[id].refCount == 0 && info[id].lastSuccess != 0
          else 1 <= info[id].refCount <= NEW_BUCKETS_PER_ADDRESS)
    && (forall id <- info :: info[id].lastTry >= 0 && info[id].lastSuccess >= 0)
  }

  ghost function TriedIds(info: Infos): set<int> { set id <- info | info[id].inTried }
  ghost function NewIds(info: Infos): set<int> { set id <- info | !info[id].inTried }

  lemma NonEmpty(s: set<int>)
    ensures s == {} || exists id :: id in s
  {
    if forall id :: id !in s { assert s == {}; }
  }

  // ---------------------------------------------------------------------------------------------
  // Elementary changes
  // ---------------------------------------------------------------------------------------------

  lemma KeepRandom(info: Infos, id: int, i: Info, random: seq<int>)
    requires RandomOk(info, random) && id in info && i.randomPos == info[id].randomPos
    ensures RandomOk(info[id := i], random)
  {
    var after := info[id := i];
    forall x | x in after ensures Listed(after, random, x) { assert Listed(info, random, x); }
  }

  lemma KeepAddr(info: Infos, id: int, i: Info, addr: map<NetAddr, int>)
    requires AddrOk(info, addr) && id in info && i.service == info[id].service
    ensures AddrOk(info[id := i], addr)
  {
    var after := info[id := i];
    forall x | x in after ensures Named(after, addr, x) { assert Named(info, addr, x); }
  }

  lemma KeepTried(h: Hashes, key: nat, info: Infos, id: int, i: Info, triedTable: Table)
    requires TriedOk(h, key, info, triedTable) && id in info
    requires i.service == info[id].service && i.inTried == info[id].inTried
    ensures TriedOk(h, key, info[id := i], triedTable)
  {
    var after := info[id := i];
    forall x | x in after ensures Seated(h, key, after, triedTable, x) { assert Seated(h, key, info, triedTable, x); }
  }

  lemma KeepNew(h: Hashes, key: nat, info: Infos, id: int, i: Info, newTable: Table)
    requires NewOk(h, key, info, newTable) && id in info
    requires i.service == info[id].service && i.inTried == info[id].inTried && i.refCount == info[id].refCount
    ensures NewOk(h, key, info[id := i], newTable)
  {
    var after := info[id := i];
    forall x | x in after ensures Counted(after, newTable, x) { assert Counted(info, newTable, x); }
  }

  lemma KeepKinds(info: Infos, id: int, i: Info)
    requires id in info && i.inTried == info[id].inTried
    ensures TriedIds(info[id := i]) == TriedIds(info) && NewIds(info[id := i]) == NewIds(info)
  {}

  lemma KeepEntries(info: Infos, limbo: set<int>, id: int, i: Info)
    requires EntriesOk(info, limbo) && id in info && i.refCount == info[id].refCount && i.inTried == info[id].inTried
    requires i.lastTry >= 0 && i.lastSuccess >= 0 && (info[id].lastSuccess != 0 ==> i.lastSuccess != 0)
    ensures EntriesOk(info[id := i], limbo)
  {}

  lemma NewEntry(h: Hashes, key: nat, info: Infos, id: int, i: Info, triedTable: Table, newTable: Table)
    requires TriedOk(h, key, info, triedTable) && NewOk(h, key, info, newTable)
    requires id !in info && !i.inTried && i.refCount == 0
    ensures TriedOk(h, key, info[id := i], triedTable) && NewOk(h, key, info[id := i], newTable)
    ensures TriedIds(info[id := i]) == TriedIds(info) && NewIds(info[id := i]) == NewIds(info) + {id}
    ensures id !in NewIds(info)
  {
    var after := info[id := i];
    forall x | x in after ensures Seated(h, key, after, triedTable, x) && Counted(after, newTable, x) {
      if x != id {
        assert Seated(h, key, info, triedTable, x) && Counted(info, newTable, x);
      } else {
        assert RefSlots(newTable, id) == {};
      }
    }
  }

  lemma NewEntryIndexed(info: Infos, id: int, i: Info, random: seq<int>, addr: map<NetAddr, int>)
    requires RandomOk(info, random) && AddrOk(info, addr) && id !in info
    requires i.service.ip !in addr && i.randomPos == |random|
    ensures RandomOk(info[id := i], random + [id]) && AddrOk(info[id := i], addr[i.service.ip := id])
  {
    var after := info[id := i];
    forall x | x in after ensures Listed(after, random + [id], x) && Named(after, addr[i.service.ip := id], x) {
      if x != id { assert Listed(info, random, x) && Named(info, addr, x); }
    }
  }

  lemma NewEntryLimbo(info: Infos, limbo: set<int>, id: int, i: Info)
    requires EntriesOk(info, limbo) && id !in info && !i.inTried && i.refCount == 0 && i.lastTry >= 0 && i.lastSuccess >= 0
    ensures EntriesOk(info[id := i], limbo + {id})
  {}

  lemma EraseListed(info: Infos, id: int, random: seq<int>)
    requires RandomOk(info, random) && id in info && random != [] && info[id].randomPos == |random| - 1
    ensures RandomOk(info - {id}, random[..|random| - 1])
  {
    assert Listed(info, random, id);
    var after := info - {id};
    forall x | x in after ensures Listed(after, random[..|random| - 1], x) { assert Listed(info, random, x); }
  }

  lemma EraseIndexed(info: Infos, id: int, random: seq<int>, addr: map<NetAddr, int>)
    requires RandomOk(info, random) && AddrOk(info, addr) && id in info && random != [] && info[id].randomPos == |random| - 1
    ensures RandomOk(info - {id}, random[..|random| - 1]) && AddrOk(info - {id}, addr - {info[id].service.ip})
  {
    EraseListed(info, id, random);
    assert Named(info, addr, id);
    var after, ip := info - {id}, info[id].service.ip;
    forall x | x in after ensures Named(after, addr - {ip}, x) { assert Named(info, addr, x); }
  }

  lemma EraseLimbo(h: Hashes, key: nat, info: Infos, limbo: set<int>, id: int, triedTable: Table)
    requires TriedOk(h, key, info, triedTable) && EntriesOk(info, limbo) && id in limbo
    ensures TriedOk(h, key, info - {id}, triedTable) && EntriesOk(info - {id}, limbo - {id})
    ensures TriedIds(info - {id}) == TriedIds(info) && NewIds(info - {id}) == NewIds(info) - {id} && id in NewIds(info)
    ensures id in info && info[id].refCount == 0
  {
    var after := info - {id};
    forall x | x in after ensures Seated(h, key, after, triedTable, x) { assert Seated(h, key, info, triedTable, x); }
  }

  lemma NotReferenced(h: Hashes, key: nat, info: Infos, newTable: Table, id: int)
    requires NewOk(h, key, info, newTable) && id in info && info[id].refCount == 0
    ensures forall sl | sl in newTable :: newTable[sl] != id
  {
    assert Counted(info, newTable, id);
    forall sl | sl in newTable ensures newTable[sl] != id { assert sl !in RefSlots(newTable, id); }
  }

  lemma EraseNewOk(h: Hashes, key: nat, info: Infos, newTable: Table, id: int)
    requires NewOk(h, key, info, newTable) && id in info && info[id].refCount == 0
    ensures NewOk(h, key, info - {id}, newTable)
  {
    NotReferenced(h, key, info, newTable, id);
    var after := info - {id};
    forall x | x in after ensures Counted(after, newTable, x) { assert Counted(info, newTable, x); }
  }

  /** Giving up the reference in one cell, or taking one, moves the count of one entry by one. */
  lemma ReleaseNewOk(h: Hashes, key: nat, info: Infos, newTable: Table, sl: Slot)
    requires NewOk(h, key, info, newTable) && sl in newTable
    ensures var id := newTable[sl]; var i := info[id].(refCount := info[id].refCount - 1);
            i.refCount >= 0 && NewOk(h, key, info[id := i], newTable - {sl})
  {
    var id, less := newTable[sl], newTable - {sl};
    var after := info[id := info[id].(refCount := info[id].refCount - 1)];
    assert Counted(info, newTable, id) && sl in RefSlots(newTable, id);
    forall x | x in after ensures Counted(after, less, x) {
      assert Counted(info, newTable, x);
      assert RefSlots(less, x) == if x == id then RefSlots(newTable, x) - {sl} else RefSlots(newTable, x);
    }
  }

  lemma ReferenceNewOk(h: Hashes, key: nat, info: Infos, newTable: Table, sl: Slot, id: int)
    requires NewOk(h, key, info, newTable) && sl !in newTable && id in info && !info[id].inTried
    requires PlacedNew(h, key, info[id].service, sl)
    ensures NewOk(h, key, info[id := info[id].(refCount := info[id].refCount + 1)], newTable[sl := id])
  {
    hide RefSlots;
    var more, after := newTable[sl := id], info[id := info[id].(refCount := info[id].refCount + 1)];
    forall x | x in after ensures Counted(after, more, x) {
      assert Counted(info, newTable, x);
      MoreSlots(newTable, sl, id, x);
    }
  }

  lemma MoreSlots(newTable: Table, sl: Slot, id: int, x: int)
    requires sl !in newTable
    ensures |RefSlots(newTable[sl := id], x)| == |RefSlots(newTable, x)| + if x == id then 1 else 0
  {
    assert RefSlots(newTable[sl := id], x) == if x == id then RefSlots(newTable, x) + {sl} else RefSlots(newTable, x);
  }

  /** After a reference count has changed, an untried entry is in limbo exactly when it is zero. */
  lemma RecountEntries(info: Infos, limbo: set<int>, id: int, count: int)
    requires EntriesOk(info, limbo) && id in info && !info[id].inTried && 0 <= count <= NEW_BUCKETS_PER_ADDRESS
    ensures count == 0 ==> EntriesOk(info[id := info[id].(refCount := count)], limbo + {id})
    ensures count > 0 ==> EntriesOk(info[id := info[id].(refCount := count)], limbo - {id})
  {}

  lemma HeldEntry(h: Hashes, key: nat, info: Infos, newTable: Table, limbo: set<int>, sl: Slot)
    requires NewOk(h, key, info, newTable) && EntriesOk(info, limbo) && sl in newTable
    ensures newTable[sl] !in limbo && 1 <= info[newTable[sl]].refCount <= NEW_BUCKETS_PER_ADDRESS
  {
    assert Counted(info, newTable, newTable[sl]) && sl in RefSlots(newTable, newTable[sl]);
  }

  lemma UnseatTriedOk(h: Hashes, key: nat, info: Infos, triedTable: Table, sl: Slot)
    requires TriedOk(h, key, info, triedTable) && sl in triedTable
    ensures var id := triedTable[sl];
            var after := info[id := info[id].(inTried := false)];
            && TriedOk(h, key, after, triedTable - {sl})
            && id in TriedIds(info) && TriedIds(after) == TriedIds(info) - {id}
            && id !in NewIds(info) && NewIds(after) == NewIds(info) + {id}
  {
    var id := triedTable[sl];
    var after := info[id := info[id].(inTried := false)];
    forall x | x in after ensures Seated(h, key, after, triedTable - {sl}, x) {
      assert Seated(h, key, info, triedTable, x);
    }
  }

  lemma SeatTriedOk(h: Hashes, key: nat, info: Infos, triedTable: Table, sl: Slot, id: int)
    requires TriedOk(h, key, info, triedTable) && sl !in triedTable && id in info && !info[id].inTried
    requires sl == h.TriedSlot(key, info[id].service)
    ensures var after := info[id := info[id].(inTried := true)];
            && TriedOk(h, key, after, triedTable[sl := id])
            && id !in TriedIds(info) && TriedIds(after) == TriedIds(info) + {id}
            && id in NewIds(info) && NewIds(after) == NewIds(info) - {id}
  {
    var after, seats := info[id := info[id].(inTried := true)], triedTable[sl := id];
    forall x | x in after ensures Seated(h, key, after, seats, x) { assert Seated(h, key, info, triedTable, x); }
  }

  lemma UnseatNewOk(h: Hashes, key: nat, info: Infos, newTable: Table, id: int, inTried: bool)
    requires NewOk(h, key, info, newTable) && id in info && info[id].refCount == 0
    ensures NewOk(h, key, info[id := info[id].(inTried := inTried)], newTable)
  {
    NotReferenced(h, key, info, newTable, id);
    var after := info[id := info[id].(inTried := inTried)];
    forall x | x in after ensures Counted(after, newTable, x) { assert Counted(info, newTable, x); }
  }

  lemma UnseatEntries(info: Infos, limbo: set<int>, id: int)
    requires EntriesOk(info, limbo) && id in info && info[id].inTried
    ensures EntriesOk(info[id := info[id].(inTried := false)], limbo + {id})
  {}

  lemma SeatEntries(info: Infos, limbo: set<int>, id: int)
    requires EntriesOk(info, limbo) && id in limbo && info[id].lastSuccess != 0
    ensures EntriesOk(info[id := info[id].(inTried := true)], limbo - {id})
  {}
}
