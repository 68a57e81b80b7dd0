/** Writing the address manager to a stream and reading it back. */
module AddrManStream {
  import opened AddrManBooks
  import opened AddrMan
  import opened AddrManLoad

  ghost predicate NoDuplicates(ids: seq<int>)
  {
    forall i, j | 0 <= i < j < |ids| :: ids[i] != ids[j]
  }

  ghost predicate Enumerates(ids: seq<int>, s: set<int>)
  {
    NoDuplicates(ids) && (forall id <- ids :: id in s) && (forall id <- s :: id in ids)
  }

  /** The indexes a range of cells is written as. */
  function Indexes(cells: seq<int>, index: map<int, int>, start: nat, end: nat): seq<int>
    requires start <= end <= |cells| && forall k | start <= k < end && cells[k] != -1 :: cells[k] in index
    decreases end - start
  {
    if start == end then []
    else if cells[start] == -1 then Indexes(cells, index, start + 1, end)
    else [index[cells[start]]] + Indexes(cells, index, start + 1, end)
  }

  lemma {:induction false} IndexesSnoc(cells: seq<int>, index: map<int, int>, start: nat, end: nat)
    requires start <= end < |cells| && forall k | start <= k <= end && cells[k] != -1 :: cells[k] in index
    ensures Indexes(cells, index, start, end + 1) ==
            Indexes(cells, index, start, end) + (if cells[end] == -1 then [] else [index[cells[end]]])
    decreases end - start
  {
    if start < end { IndexesSnoc(cells, index, start + 1, end); }
  }

  /** The stream holds these entries and references, the entries in these orders. */
  ghost predicate Describes(data: Data, key: nat, info: Infos, cells: seq<int>, newIds: seq<int>, triedIds: seq<int>,
                            index: map<int, int>)
  {
    && data.version == 1 && data.keySize == 32 && data.key == key
    && data.nNew == |newIds| && data.nTried == |triedIds| && data.nUBuckets == 0x4000_0400
    && Enumerates(newIds, NewIds(info)) && Enumerates(triedIds, TriedIds(info))
    && (forall i | 0 <= i < |newIds| :: newIds[i] in index && index[newIds[i]] == i)
    && RecordsOf(data.newRecords, info, newIds) && RecordsOf(data.triedRecords, info, triedIds)
    && |cells| == NEW_CELLS && (forall k | 0 <= k < NEW_CELLS && cells[k] != -1 :: cells[k] in index && cells[k] in newIds)
    && |data.buckets| == NEW_BUCKET_COUNT
    && forall b | 0 <= b < NEW_BUCKET_COUNT :: data.buckets[b] == Indexes(cells, index, Cell(b, 0), Cell(b + 1, 0))
  }

  ghost predicate RecordsOf(records: seq<Record>, info: Infos, ids: seq<int>)
  {
    |records| == |ids| && forall i | 0 <= i < |ids| :: ids[i] in info && Written(records[i], info[ids[i]])
  }

  // ---------------------------------------------------------------------------------------------
  // Writing
  // ---------------------------------------------------------------------------------------------

  ghost function Elements(ids: seq<int>): set<int> { set id | id in ids }

  lemma {:induction false} DistinctCount(ids: seq<int>)
    requires NoDuplicates(ids)
    ensures |Elements(ids)| == |ids|
  {
    if ids != [] {
      var k := |ids| - 1;
      DistinctCount(ids[..k]);
      assert Elements(ids) == Elements(ids[..k]) + {ids[k]};
    }
  }

  /** The ids of one kind met so far, in the order of the walk. */
  ghost predicate Collected(ids: seq<int>, walked: seq<int>, kind: set<int>)
  {
    Enumerates(ids, Elements(walked) * kind)
  }

  lemma CollectStep(ids: seq<int>, order: seq<int>, n: nat, kind: set<int>)
    requires NoDuplicates(order) && n < |order| && Collected(ids, order[..n], kind)
    ensures order[n] in kind ==> Collected(ids + [order[n]], order[..n + 1], kind) && |ids| < |kind|
    ensures order[n] !in kind ==> Collected(ids, order[..n + 1], kind)
  {
    var id := order[n];
    assert order[..n + 1] == order[..n] + [id];
    assert id !in order[..n];
    assert Elements(order[..n + 1]) == Elements(order[..n]) + {id};
    if id in kind {
      var more := ids + [id];
      forall x | x in Elements(order[..n + 1]) * kind ensures x in more {
        if x != id { assert x in ids; }
      }
      DistinctCount(ids);
      assert Elements(ids) <= kind - {id};
      Smaller(Elements(ids), kind - {id});
    }
  }

  lemma Smaller(a: set<int>, b: set<int>)
    requires a <= b
    ensures |a| <= |b|
  {
    assert a + (b - a) == b;
  }

  lemma CollectAll(ids: seq<int>, order: seq<int>, kind: set<int>, all: set<int>)
    requires Enumerates(order, all) && kind <= all && Collected(ids, order, kind)
    ensures Enumerates(ids, kind) && |ids| == |kind|
  {
    forall id | id in kind ensures id in Elements(order) { assert id in all; }
    assert Elements(order) * kind == kind;
    DistinctCount(ids);
    assert Elements(ids) == kind;
  }

  lemma KindOf(info: Infos, id: int)
    requires EntriesOk(info, {}) && id in info
    ensures (info[id].refCount != 0 <==> id in NewIds(info)) && (info[id].inTried <==> id in TriedIds(info))
    ensures NewIds(info) <= info.Keys && TriedIds(info) <= info.Keys
  {}

  lemma CellsHoldNew(h: Hashes, key: nat, info: Infos, cells: seq<int>)
    requires NewOk(h, key, info, TableOf(cells))
    ensures forall k | 0 <= k < |cells| && cells[k] != -1 :: cells[k] in NewIds(info)
  {
    forall k | 0 <= k < |cells| && cells[k] != -1 ensures cells[k] in NewIds(info) {
      assert k in TableOf(cells);
    }
  }

  /** Write the manager out, walking its entries in whatever order its map yields them. */
  method Serialize(m: CAddrMan, order: seq<int>)
    returns (data: Data, ghost newIds: seq<int>, ghost triedIds: seq<int>, index: map<int, int>)
    requires m.Check() && Enumerates(order, m.mapInfo.Keys)
    ensures Describes(data, m.nKey, m.mapInfo, m.vvNew[..], newIds, triedIds, index)
    ensures data.nNew == m.nNew && data.nTried == m.nTried
  {
    hide RandomOk, AddrOk, TriedOk, NewOk, EntriesOk, TriedIds, NewIds, TableOf, Collected;
    var newRecords, triedRecords;
    index, newRecords, newIds := WriteNew(m, order);
    triedRecords, triedIds := WriteTried(m, order);
    CellsHoldNew(m.h, m.nKey, m.mapInfo, m.vvNew[..]);
    var buckets := WriteBuckets(m.vvNew[..], index);
    data := Data(1, 32, m.nKey, m.nNew, m.nTried, FlipBit30(NEW_BUCKET_COUNT), newRecords, triedRecords, buckets);
  }

  method WriteNew(m: CAddrMan, order: seq<int>) returns (index: map<int, int>, records: seq<Record>, ghost ids: seq<int>)
    requires m.Check() && Enumerates(order, m.mapInfo.Keys)
    ensures RecordsOf(records, m.mapInfo, ids) && Enumerates(ids, NewIds(m.mapInfo)) && |ids| == m.nNew
    ensures forall i | 0 <= i < |ids| :: ids[i] in index && index[ids[i]] == i
    ensures |records| == m.nNew && forall id <- NewIds(m.mapInfo) ::
      id in index && 0 <= index[id] < |records| && Written(records[index[id]], m.mapInfo[id])
  {
    hide RandomOk, AddrOk, TriedOk, NewOk, EntriesOk, TriedIds, NewIds, TableOf, Collected;
    index, records, ids := map[], [], [];
    var nIds := 0;
    NothingCollected(NewIds(m.mapInfo));
    for n := 0 to |order|
      invariant nIds == |ids| && RecordsOf(records, m.mapInfo, ids) && Collected(ids, order[..n], NewIds(m.mapInfo))
      invariant forall i | 0 <= i < |ids| :: ids[i] in index && index[ids[i]] == i
      invariant forall id <- ids :: id in order[..n]
    {
      var id := order[n];
      assert id in m.mapInfo;
      KindOf(m.mapInfo, id);
      CollectStep(ids, order, n, NewIds(m.mapInfo));
      assert order[..n + 1] == order[..n] + [id] && id !in order[..n];
      index := index[id := nIds];
      var info := m.mapInfo[id];
      if info.refCount != 0 {
        assert nIds != m.nNew;
        records := records + [Persisted(info)];
        ids := ids + [id];
        nIds := nIds + 1;
      }
    }
    assert order[..|order|] == order;
    if order != [] { KindOf(m.mapInfo, order[0]); }
    KindsWithin(m.mapInfo);
    CollectAll(ids, order, NewIds(m.mapInfo), m.mapInfo.Keys);
  }

  lemma NothingCollected(kind: set<int>)
    ensures Collected([], [], kind)
  {}

  lemma KindsWithin(info: Infos)
    ensures NewIds(info) <= info.Keys && TriedIds(info) <= info.Keys
  {}

  method WriteTried(m: CAddrMan, order: seq<int>) returns (records: seq<Record>, ghost ids: seq<int>)
    requires m.Check() && Enumerates(order, m.mapInfo.Keys)
    ensures RecordsOf(records, m.mapInfo, ids) && Enumerates(ids, TriedIds(m.mapInfo)) && |ids| == m.nTried
    ensures |records| == m.nTried && forall id <- TriedIds(m.mapInfo) :: exists r <- records :: Written(r, m.mapInfo[id])
  {
    hide RandomOk, AddrOk, TriedOk, NewOk, EntriesOk, TriedIds, NewIds, TableOf, Collected;
    records, ids := [], [];
    var nIds := 0;
    NothingCollected(TriedIds(m.mapInfo));
    for n := 0 to |order|
      invariant nIds == |ids| && RecordsOf(records, m.mapInfo, ids) && Collected(ids, order[..n], TriedIds(m.mapInfo))
    {
      var id := order[n];
      assert id in m.mapInfo;
      KindOf(m.mapInfo, id);
      CollectStep(ids, order, n, TriedIds(m.mapInfo));
      var info := m.mapInfo[id];
      if info.inTried {
        assert nIds != m.nTried;
        records := records + [Persisted(info)];
        ids := ids + [id];
        nIds := nIds + 1;
      }
    }
    assert order[..|order|] == order;
    KindsWithin(m.mapInfo);
    CollectAll(ids, order, TriedIds(m.mapInfo), m.mapInfo.Keys);
  }

  method WriteBuckets(cells: seq<int>, index: map<int, int>) returns (buckets: seq<seq<int>>)
    requires |cells| == NEW_CELLS && forall k | 0 <= k < NEW_CELLS && cells[k] != -1 :: cells[k] in index
    ensures |buckets| == NEW_BUCKET_COUNT
    ensures forall b | 0 <= b < NEW_BUCKET_COUNT :: buckets[b] == Indexes(cells, index, Cell(b, 0), Cell(b + 1, 0))
  {
    buckets := [];
    for bucket := 0 to NEW_BUCKET_COUNT
      invariant |buckets| == bucket
      invariant forall b | 0 <= b < bucket :: buckets[b] == Indexes(cells, index, Cell(b, 0), Cell(b + 1, 0))
    {
      var row := [];
      for i := 0 to BUCKET_SIZE
        invariant row == Indexes(cells, index, Cell(bucket, 0), Cell(bucket, i))
      {
        IndexesSnoc(cells, index, Cell(bucket, 0), Cell(bucket, i));
        if cells[Cell(bucket, i)] != -1 {
          row := row + [index[cells[Cell(bucket, i)]]];
        }
      }
      buckets := buckets + [row];
    }
  }

  // ---------------------------------------------------------------------------------------------
  // Reading
  // ---------------------------------------------------------------------------------------------

  lemma ShelvedFrom(m: CAddrMan, rows: seq<Record>, nNew: int, counts: seq<int>)
    requires m.Sized() && RandomOk(m.mapInfo, m.vRandom)
    requires TriedOk(m.h, m.nKey, m.mapInfo, TableOf(m.vvTried[..])) && NewOk(m.h, m.nKey, m.mapInfo, TableOf(m.vvNew[..]))
    requires RowsOf(m.mapInfo, rows, nNew, counts) && LastNamed(m.mapInfo, m.mapAddr)
    ensures Shelved(m, rows, nNew, counts)
  {}

  predicate Empty(cells: seq<int>) { forall k | 0 <= k < |cells| :: cells[k] == -1 }

  lemma NothingShelved(m: CAddrMan, nNew: int)
    requires m.Sized() && m.mapInfo == map[] && m.mapAddr == map[] && m.vRandom == []
    requires Empty(m.vvNew[..]) && Empty(m.vvTried[..])
    ensures Shelved(m, [], nNew, [])
  {
    EmptyTable(m.vvNew[..]);
    EmptyTable(m.vvTried[..]);
    Emptied(m.h, m.nKey, m.mapInfo, m.mapAddr);
    assert UpTo(0) == {};
  }

  /** Enter one new record; where written references cannot be used, with the cell of its own source. */
  method EnterOneNew(m: CAddrMan, data: Data, n: nat, ghost refs: Refs)
    requires n < |data.newRecords| && n < data.nNew && m.nKey == data.key && m.vvNew.Length == NEW_CELLS
    requires refs == ReadRefs(m.h, data, data.newRecords[..n], 0) && m.vvNew[..] == refs.cells
    requires Shelved(m, data.newRecords[..n], data.nNew, refs.counts)
    modifies m`mapInfo, m`mapAddr, m`vRandom, m.vvNew
    ensures var all := ReadRefs(m.h, data, data.newRecords[..n + 1], 0);
      Shelved(m, data.newRecords[..n + 1], data.nNew, all.counts) && m.vvNew[..] == all.cells
  {
    hide RandomOk, TriedOk, NewOk, RowsOf, LastNamed, TableOf, Hashes.NewSlot, ReadRefs, Shelved;
    ghost var rs, r := data.newRecords[..n], data.newRecords[n];
    assert data.newRecords[..n + 1] == rs + [r];
    ReadRefsNext(m.h, data, rs, r);
    NextId(m, rs, data.nNew, refs.counts);
    EnterNew(m, rs, data.nNew, refs.counts, r);
    var info := Loaded(data.newRecords[n], |m.vRandom|);
    SlotsInRange(m.h, m.nKey, info.service, info.source);
    var sl := m.h.NewSlot(m.nKey, info.service, info.source);
    var homed := !(data.version == 1 && Buckets(data) == NEW_BUCKET_COUNT) && m.vvNew[sl] == -1;
    if homed { EnterNewAt(m, rs, data.nNew, refs.counts, r, sl); }
    m.mapInfo := m.mapInfo[n := if homed then info.(refCount := 1) else info];
    m.mapAddr := m.mapAddr[info.service.ip := n];
    m.vRandom := m.vRandom + [n];
    if homed {
      m.vvNew[sl] := n;
      assert m.vvNew[..] == old(m.vvNew[..])[sl := n];
    }
    ShelvedFrom(m, rs + [r], data.nNew, refs.counts + [if homed then 1 else 0]);
  }

  /** Read the new records. A stream that ends too early leaves an entry for the record that was cut off,
      with whatever fields of it had been read. */
  method ReadNew(m: CAddrMan, data: Data, torn: Record) returns (ok: bool)
    requires m.Sized() && m.mapInfo == map[] && m.mapAddr == map[] && m.vRandom == [] && m.nKey == data.key
    requires Empty(m.vvNew[..]) && Empty(m.vvTried[..])
    modifies m`mapInfo, m`mapAddr, m`vRandom, m.vvNew
    ensures ok <==> data.nNew <= |data.newRecords|
    ensures ok && data.nNew <= 0 ==> m.mapInfo == map[] && m.mapAddr == map[]
    ensures ok ==> RandomOk(m.mapInfo, m.vRandom)
    ensures ok && data.nNew >= 0 ==>
      var rs := data.newRecords[..data.nNew];
      var refs := ReadRefs(m.h, data, rs, 0);
      Shelved(m, rs, data.nNew, refs.counts) && m.vvNew[..] == refs.cells
    ensures !ok ==> m.mapInfo.Keys == UpTo(|data.newRecords| + 1)
    ensures !ok ==> forall n | 0 <= n < |data.newRecords| :: Written(data.newRecords[n], m.mapInfo[n])
  {
    hide Shelved, ReadRefs;
    NothingShelved(m, data.nNew);
    NoRecords(m.h, data, m.vvNew[..]);
    var n := 0;
    assert data.newRecords[..0] == [];
    while n < data.nNew
      invariant 0 <= n <= |data.newRecords| && (n <= data.nNew || n == 0) && (n == 0 ==> m.mapInfo == map[] && m.mapAddr == map[])
      invariant var refs := ReadRefs(m.h, data, data.newRecords[..n], 0);
        Shelved(m, data.newRecords[..n], data.nNew, refs.counts) && m.vvNew[..] == refs.cells
    {
      if n >= |data.newRecords| {
        ReadSoFar(m, data.newRecords[..n], data.nNew, ReadRefs(m.h, data, data.newRecords[..n], 0).counts);
        m.mapInfo := m.mapInfo[n := Loaded(torn, -1)];
        return false;
      }
      EnterOneNew(m, data, n, ReadRefs(m.h, data, data.newRecords[..n], 0));
      n := n + 1;
    }
    NextId(m, data.newRecords[..n], data.nNew, ReadRefs(m.h, data, data.newRecords[..n], 0).counts);
    return true;
  }

  lemma NoRecords(h: Hashes, data: Data, cells: seq<int>)
    requires |cells| == NEW_CELLS && Empty(cells)
    ensures ReadRefs(h, data, [], 0) == Refs(cells, [])
  {
    assert NoRefs(0).cells == cells;
  }

  lemma ReadSoFar(m: CAddrMan, rows: seq<Record>, nNew: int, counts: seq<int>)
    requires Shelved(m, rows, nNew, counts)
    ensures m.mapInfo.Keys == UpTo(|rows|) && forall n | 0 <= n < |rows| :: Written(rows[n], m.mapInfo[n])
  {
    forall n | 0 <= n < |rows| ensures Written(rows[n], m.mapInfo[n]) {
      assert RowAt(m.mapInfo, rows, nNew, counts, n);
    }
  }

  /** Enter one tried record into the cell its hash gives it, unless that is taken. */
  method EnterOneTried(m: CAddrMan, r: Record, ghost rows: seq<Record>, ghost nNew: int, ghost counts: seq<int>)
    returns (lost: bool)
    requires m.Sized() && RandomOk(m.mapInfo, m.vRandom) && m.nIdCount !in m.mapInfo
    modifies m`mapInfo, m`mapAddr, m`vRandom, m`nIdCount, m.vvTried
    ensures RandomOk(m.mapInfo, m.vRandom)
    ensures var sl := m.h.TriedSlot(m.nKey, r.service);
            && sl < TRIED_CELLS && lost == (old(m.vvTried[..])[sl] != -1)
            && (lost ==> m.mapInfo == old(m.mapInfo) && m.nIdCount == old(m.nIdCount) && m.vvTried[..] == old(m.vvTried[..]))
            && (!lost ==>
                  && m.mapInfo == old(m.mapInfo)[old(m.nIdCount) := Loaded(r, |old(m.vRandom)|).(inTried := true)]
                  && m.nIdCount == old(m.nIdCount) + 1 && m.vvTried[..] == old(m.vvTried[..])[sl := old(m.nIdCount)])
    ensures old(Shelved(m, rows, nNew, counts)) && |counts| <= |rows| == old(m.nIdCount) && 0 <= nNew <= |rows| ==>
              && (lost <==> SeatTaken(m.h, m.nKey, rows[nNew..], r))
              && Shelved(m, if lost then rows else rows + [r], nNew, counts)
  {
    hide RandomOk, TriedOk, NewOk, RowsOf, LastNamed, TableOf, Hashes.TriedSlot, Shelved, SeatTaken;
    var info := Loaded(r, |m.vRandom|);
    SlotsInRange(m.h, m.nKey, info.service, info.source);
    var sl := m.h.TriedSlot(m.nKey, info.service);
    ghost var shelved := Shelved(m, rows, nNew, counts) && |counts| <= |rows| == m.nIdCount && 0 <= nNew <= |rows|;
    if shelved { TakenIff(m, rows, nNew, counts, r); }
    if m.vvTried[sl] != -1 { return true; }
    info := info.(inTried := true);
    EnterListed(m.mapInfo, m.vRandom, m.nIdCount, info);
    if shelved { EnterTried(m, rows, nNew, counts, r); }
    m.vRandom := m.vRandom + [m.nIdCount];
    m.mapInfo := m.mapInfo[m.nIdCount := info];
    m.mapAddr := m.mapAddr[info.service.ip := m.nIdCount];
    m.vvTried[sl] := m.nIdCount;
    m.nIdCount := m.nIdCount + 1;
    assert m.vvTried[..] == old(m.vvTried[..])[sl := old(m.nIdCount)];
    if shelved { ShelvedFrom(m, rows + [r], nNew, counts); }
    return false;
  }

  /** Some tried records have been read. */
  ghost predicate TriedRead(m: CAddrMan, data: Data, counts: seq<int>, n: nat, nLost: nat)
    requires 0 <= data.nNew <= |data.newRecords| && n <= |data.triedRecords|
    reads m`mapInfo, m`mapAddr, m`vRandom, m`nKey, m.vvNew, m.vvTried, m`nIdCount
  {
    var seated := FirstComers(m.h, data.key, data.triedRecords[..n]);
    && Shelved(m, data.newRecords[..data.nNew] + seated, data.nNew, counts)
    && m.nIdCount == data.nNew + |seated| && nLost == n - |seated|
  }

  lemma FirstComersNext(h: Hashes, key: nat, rs: seq<Record>, n: nat)
    requires n < |rs|
    ensures var before := FirstComers(h, key, rs[..n]);
      FirstComers(h, key, rs[..n + 1]) == if SeatTaken(h, key, before, rs[n]) then before else before + [rs[n]]
  {
    assert rs[..n + 1][..n] == rs[..n];
  }

  method ReadOneTried(m: CAddrMan, data: Data, n: nat, ghost counts: seq<int>, ghost nLost: nat) returns (lost: bool)
    requires m.Sized() && RandomOk(m.mapInfo, m.vRandom) && m.nIdCount !in m.mapInfo && m.nKey == data.key
    requires data.nNew <= |data.newRecords| && n < |data.triedRecords|
    requires data.nNew >= 0 ==> TriedRead(m, data, counts, n, nLost) && |counts| <= data.nNew
    modifies m`mapInfo, m`mapAddr, m`vRandom, m`nIdCount, m.vvTried
    ensures RandomOk(m.mapInfo, m.vRandom)
    ensures m.nIdCount == old(m.nIdCount) + (if lost then 0 else 1)
    ensures m.mapInfo.Keys == old(m.mapInfo.Keys) + (if lost then {} else {old(m.nIdCount)})
    ensures old(Empty(m.vvTried[..])) ==> !lost
    ensures data.nNew >= 0 ==> TriedRead(m, data, counts, n + 1, if lost then nLost + 1 else nLost)
  {
    hide RandomOk, Shelved, FirstComers, SeatTaken, Hashes.TriedSlot;
    ghost var seated, r := FirstComers(m.h, data.key, data.triedRecords[..n]), data.triedRecords[n];
    FirstComersNext(m.h, data.key, data.triedRecords, n);
    ghost var rows := if data.nNew >= 0 then data.newRecords[..data.nNew] + seated else [];
    lost := EnterOneTried(m, data.triedRecords[n], rows, data.nNew, counts);
    if data.nNew >= 0 {
      assert rows[data.nNew..] == seated;
      assert rows + [r] == data.newRecords[..data.nNew] + (seated + [r]);
    }
  }

  method ReadTried(m: CAddrMan, data: Data, ghost counts: seq<int>) returns (ok: bool, nLost: nat)
    requires m.Sized() && RandomOk(m.mapInfo, m.vRandom) && m.nKey == data.key && m.nIdCount == data.nNew
    requires data.nNew <= |data.newRecords| && Empty(m.vvTried[..])
    requires data.nNew < 0 ==> m.mapInfo == map[]
    requires data.nNew >= 0 ==> Shelved(m, data.newRecords[..data.nNew], data.nNew, counts) && |counts| <= data.nNew
    modifies m`mapInfo, m`mapAddr, m`vRandom, m`nIdCount, m.vvTried
    ensures RandomOk(m.mapInfo, m.vRandom)
    ensures ok <==> data.nTried <= |data.triedRecords|
    ensures ok && data.nNew >= 0 ==> TriedRead(m, data, counts, if data.nTried < 0 then 0 else data.nTried, nLost)
    ensures m.mapInfo == map[] <==> data.nNew <= 0 && (data.nTried <= 0 || data.triedRecords == [])
    ensures m.mapInfo == map[] ==> m.mapAddr == old(m.mapAddr)
    ensures data.nTried <= 0 ==> nLost == 0
  {
    hide RandomOk, TriedRead, Shelved, Empty;
    nLost := 0;
    var n := 0;
    if data.nNew >= 0 { NoTriedRead(m, data, counts); }
    while n < data.nTried
      invariant 0 <= n <= |data.triedRecords| && (n <= data.nTried || n == 0) && RandomOk(m.mapInfo, m.vRandom)
      invariant forall id <- m.mapInfo :: id < m.nIdCount
      invariant m.mapInfo == map[] <==> data.nNew <= 0 && n == 0
      invariant n == 0 ==> Empty(m.vvTried[..]) && nLost == 0 && m.mapAddr == old(m.mapAddr)
      invariant data.nNew >= 0 ==> TriedRead(m, data, counts, n, nLost)
    {
      if n >= |data.triedRecords| { return false, nLost; }
      ghost var next := m.nIdCount;
      assert next !in m.mapInfo;
      var lost := ReadOneTried(m, data, n, counts, nLost);
      assert !lost ==> next in m.mapInfo;
      if lost {
        nLost := nLost + 1;
      }
      n := n + 1;
    }
    ok := true;
  }

  lemma NoTriedRead(m: CAddrMan, data: Data, counts: seq<int>)
    requires 0 <= data.nNew <= |data.newRecords| && m.nIdCount == data.nNew
    requires Shelved(m, data.newRecords[..data.nNew], data.nNew, counts)
    ensures TriedRead(m, data, counts, 0, 0)
    ensures m.mapInfo.Keys == UpTo(data.nNew) && (m.mapInfo == map[] <==> data.nNew == 0)
  {
    assert data.triedRecords[..0] == [];
    assert data.newRecords[..data.nNew] + [] == data.newRecords[..data.nNew];
    assert data.nNew > 0 ==> 0 in m.mapInfo;
  }

  /** Restore one written reference, if it makes sense. */
  method RestoreOne(m: CAddrMan, data: Data, bucket: nat, nIndex: int, ghost rows: seq<Record>, ghost refs: Refs)
    requires m.Sized() && RandomOk(m.mapInfo, m.vRandom) && bucket < Buckets(data) && m.nKey == data.key
    requires 0 <= data.nNew ==>
      && Shelved(m, rows, data.nNew, refs.counts) && |refs.counts| == data.nNew <= |rows|
      && |refs.cells| == NEW_CELLS && m.vvNew[..] == refs.cells
    modifies m`mapInfo, m.vvNew
    ensures RandomOk(m.mapInfo, m.vRandom) && m.mapInfo.Keys == old(m.mapInfo.Keys)
    ensures 0 <= data.nNew ==>
      var more := if Current(data) then RowRef(m.h, data.key, rows[..data.nNew], refs, bucket, nIndex) else refs;
      Shelved(m, rows, data.nNew, more.counts) && m.vvNew[..] == more.cells
    ensures if 0 <= nIndex < data.nNew && data.version == 1 && Buckets(data) == 1024
               && refs.counts[nIndex] < 8 && refs.cells[Place(m.h, data.key, bucket, rows[nIndex])] == -1
            then
              && m.vvNew[..] == refs.cells[Place(m.h, data.key, bucket, rows[nIndex]) := nIndex]
              && nIndex in old(m.mapInfo)
              && m.mapInfo == old(m.mapInfo)[nIndex := old(m.mapInfo)[nIndex].(refCount := refs.counts[nIndex] + 1)]
            else m.vvNew[..] == old(m.vvNew[..]) && m.mapInfo == old(m.mapInfo)
  {
    hide RandomOk, TriedOk, NewOk, RowsOf, LastNamed, TableOf, Hashes.NewPosition, Shelved;
    if 0 <= nIndex < data.nNew {
      EntryAt(m, rows, data.nNew, refs.counts, nIndex);
      var info := m.mapInfo[nIndex];
      if data.version == 1 && Buckets(data) == NEW_BUCKET_COUNT {
        var sl := Cell(bucket, m.h.NewPosition(m.nKey, info.service, bucket));
        InItsBucket(m.h, m.nKey, info.service, bucket);
        if m.vvNew[sl] == -1 && info.refCount < NEW_BUCKETS_PER_ADDRESS {
          AddReference(m, rows, data.nNew, refs.counts, nIndex, sl);
          m.mapInfo := m.mapInfo[nIndex := info.(refCount := info.refCount + 1)];
          m.vvNew[sl] := nIndex;
          assert m.vvNew[..] == old(m.vvNew[..])[sl := nIndex];
          ShelvedFrom(m, rows, data.nNew, refs.counts[nIndex := refs.counts[nIndex] + 1]);
        }
      }
    }
  }

  /** Where an entry is in a bucket of the new table. */
  function Place(h: Hashes, key: nat, bucket: nat, r: Record): (sl: Slot)
    ensures 64 * bucket <= sl < 64 * bucket + 64
    ensures (sl - h.positionHash(key, true, bucket, r.service)) % 64 == 0
  {
    Cell(bucket, h.NewPosition(key, r.service, bucket))
  }

  lemma EntryAt(m: CAddrMan, rows: seq<Record>, nNew: int, counts: seq<int>, id: int)
    requires Shelved(m, rows, nNew, counts) && 0 <= id < |counts| <= |rows|
    ensures id in m.mapInfo && m.mapInfo[id].refCount == counts[id] && m.mapInfo[id].service == rows[id].service
    ensures m.Sized()
  {
    assert RowAt(m.mapInfo, rows, nNew, counts, id);
  }

  lemma InItsBucket(h: Hashes, key: nat, service: Service, bucket: nat)
    requires bucket < NEW_BUCKET_COUNT
    ensures var sl := Cell(bucket, h.NewPosition(key, service, bucket)); sl < NEW_CELLS && PlacedNew(h, key, service, sl)
  {}

  /** Restore the references written for one bucket. */
  method RestoreBucket(m: CAddrMan, data: Data, bucket: nat, ghost rows: seq<Record>, ghost refs: Refs)
    requires m.Sized() && RandomOk(m.mapInfo, m.vRandom) && bucket < Buckets(data) && bucket < |data.buckets|
    requires m.nKey == data.key
    requires 0 <= data.nNew ==>
      && Shelved(m, rows, data.nNew, refs.counts) && |refs.counts| == data.nNew <= |rows|
      && |refs.cells| == NEW_CELLS && m.vvNew[..] == refs.cells
    modifies m`mapInfo, m.vvNew
    ensures RandomOk(m.mapInfo, m.vRandom) && m.mapInfo.Keys == old(m.mapInfo.Keys)
    ensures 0 <= data.nNew ==>
      var more := if Current(data) then RowRefs(m.h, data.key, rows[..data.nNew], refs, bucket, data.buckets[bucket]) else refs;
      Shelved(m, rows, data.nNew, more.counts) && m.vvNew[..] == more.cells
  {
    hide RandomOk, Shelved, RowRef;
    var row := data.buckets[bucket];
    ghost var now := refs;
    for n := 0 to |row|
      invariant RandomOk(m.mapInfo, m.vRandom) && m.mapInfo.Keys == old(m.mapInfo.Keys)
      invariant 0 <= data.nNew ==>
        && now == (if Current(data) then RowRefs(m.h, data.key, rows[..data.nNew], refs, bucket, row[..n]) else refs)
        && Shelved(m, rows, data.nNew, now.counts) && m.vvNew[..] == now.cells
    {
      RestoreOne(m, data, bucket, row[n], rows, now);
      assert row[..n + 1][..n] == row[..n];
      if 0 <= data.nNew && Current(data) { now := RowRef(m.h, data.key, rows[..data.nNew], now, bucket, row[n]); }
    }
    assert row[..|row|] == row;
  }

  method RestoreAll(m: CAddrMan, data: Data, ghost rows: seq<Record>) returns (ok: bool)
    requires m.Sized() && RandomOk(m.mapInfo, m.vRandom) && m.nKey == data.key
    requires 0 <= data.nNew ==>
      && data.nNew <= |rows|
      && var refs := ReadRefs(m.h, data, rows[..data.nNew], 0);
         Shelved(m, rows, data.nNew, refs.counts) && m.vvNew[..] == refs.cells
    modifies m`mapInfo, m.vvNew
    ensures RandomOk(m.mapInfo, m.vRandom) && m.mapInfo.Keys == old(m.mapInfo.Keys)
    ensures ok <==> Buckets(data) <= |data.buckets|
    ensures ok && 0 <= data.nNew ==>
      var refs := ReadRefs(m.h, data, rows[..data.nNew], if Current(data) then NEW_BUCKET_COUNT else 0);
      Shelved(m, rows, data.nNew, refs.counts) && m.vvNew[..] == refs.cells
  {
    hide RandomOk, Shelved, RowRefs, HomeRefs;
    var bucket := 0;
    while bucket < Buckets(data)
      invariant 0 <= bucket <= |data.buckets| && (bucket <= Buckets(data) || bucket == 0)
      invariant RandomOk(m.mapInfo, m.vRandom) && m.mapInfo.Keys == old(m.mapInfo.Keys)
      invariant 0 <= data.nNew ==>
        var refs := ReadRefs(m.h, data, rows[..data.nNew], bucket);
        Shelved(m, rows, data.nNew, refs.counts) && m.vvNew[..] == refs.cells
    {
      if bucket >= |data.buckets| { return false; }
      RestoreBucket(m, data, bucket, rows, if 0 <= data.nNew then ReadRefs(m.h, data, rows[..data.nNew], bucket) else NoRefs(0));
      bucket := bucket + 1;
    }
    ok := true;
  }

  /** Drop the entries that got no reference, and their addresses. */
  method Prune(m: CAddrMan)
    requires RandomOk(m.mapInfo, m.vRandom)
    modifies m`mapInfo, m`mapAddr, m`vRandom, m`nNew
    ensures RandomOk(m.mapInfo, m.vRandom)
    ensures SameButPositions(old(m.mapInfo) - Bare(old(m.mapInfo)), m.mapInfo)
    ensures m.mapAddr == old(m.mapAddr) - Addresses(old(m.mapInfo), Bare(old(m.mapInfo)))
    ensures m.nNew == old(m.nNew) - |Bare(old(m.mapInfo))|
  {
    hide RandomOk, SameButPositions, Addresses, Bare, AddrOk;
    ghost var info, dead: set<int> := m.mapInfo, {};
    NothingDropped(info, m.mapAddr);
    var todo := m.mapInfo.Keys;
    while todo != {}
      invariant RandomOk(m.mapInfo, m.vRandom) && todo <= m.mapInfo.Keys <= info.Keys
      invariant SameButPositions(info - dead, m.mapInfo) && m.mapAddr == old(m.mapAddr) - Addresses(info, dead)
      invariant m.nNew == old(m.nNew) - |dead| && dead == Bare(info) - todo
    {
      NonEmpty(todo);
      var id :| id in todo;
      DropOne(info, dead, m.mapInfo, todo, id);
      todo := todo - {id};
      if !m.mapInfo[id].inTried && m.mapInfo[id].refCount == 0 {
        ghost var before := m.mapInfo;
        m.Delete(id, {}, 0);
        DroppedOne(info, dead, before, m.mapInfo, m.mapAddr, old(m.mapAddr), id);
        dead := dead + {id};
      }
    }
    assert Bare(info) - {} == Bare(info);
  }

  lemma NothingDropped(info: Infos, addr: map<NetAddr, int>)
    ensures SameButPositions(info - {}, info) && addr - Addresses(info, {}) == addr && Bare(info) - info.Keys == {}
  {}

  /** Whether an entry is dropped depends on what it was at the start. */
  lemma DropOne(info: Infos, dead: set<int>, now: Infos, todo: set<int>, id: int)
    requires SameButPositions(info - dead, now) && id in todo && todo <= now.Keys && dead == Bare(info) - todo
    ensures id !in dead && (id in Bare(info) <==> !now[id].inTried && now[id].refCount == 0)
    ensures Bare(info) - (todo - {id}) == dead + if id in Bare(info) then {id} else {}
  {
    assert id in info - dead && Alike((info - dead)[id], now[id]);
  }

  lemma DroppedOne(info: Infos, dead: set<int>, before: Infos, after: Infos, addr: map<NetAddr, int>,
                   addr0: map<NetAddr, int>, id: int)
    requires SameButPositions(info - dead, before) && id in before && SameButPositions(before - {id}, after)
    requires addr == addr0 - Addresses(info, dead) - {before[id].service.ip} && before.Keys <= info.Keys
    ensures SameButPositions(info - (dead + {id}), after) && addr == addr0 - Addresses(info, dead + {id})
    ensures after.Keys == before.Keys - {id}
  {
    assert Alike((info - dead)[id], before[id]);
    assert info - (dead + {id}) == info - dead - {id};
    forall x | x in after ensures Alike((info - (dead + {id}))[x], after[x]) {
      assert Alike((info - dead)[x], before[x]) && Alike((before - {id})[x], after[x]);
    }
    assert Addresses(info, dead + {id}) == Addresses(info, dead) + {info[id].service.ip};
  }

  // ---------------------------------------------------------------------------------------------
  // Streams written from a consistent manager
  // ---------------------------------------------------------------------------------------------

  /** The manager a stream was written from. */
  datatype Original = Original(info: Infos, addr: map<NetAddr, int>, newCells: seq<int>, triedCells: seq<int>,
                               newIds: seq<int>, triedIds: seq<int>, index: map<int, int>)

  ghost predicate Saved(h: Hashes, data: Data, o: Original)
  {
    && Describes(data, data.key, o.info, o.newCells, o.newIds, o.triedIds, o.index)
    && AddrOk(o.info, o.addr) && TriedOk(h, data.key, o.info, TableOf(o.triedCells))
    && NewOk(h, data.key, o.info, TableOf(o.newCells)) && EntriesOk(o.info, {}) && |o.triedCells| == TRIED_CELLS
    && forall id <- o.info :: id >= 0
  }

  lemma SavedHeader(h: Hashes, data: Data, o: Original)
    requires Saved(h, data, o)
    ensures data.version == 1 && data.keySize == 32 && Buckets(data) == NEW_BUCKET_COUNT
    ensures data.nNew == |o.newIds| && data.nTried == |o.triedIds| && |data.buckets| == NEW_BUCKET_COUNT
    ensures |data.newRecords| == data.nNew && |data.triedRecords| == data.nTried && !Truncated(data) && Current(data)
    ensures |o.newCells| == NEW_CELLS && |o.triedCells| == TRIED_CELLS
  {}

  lemma SavedNew(h: Hashes, data: Data, o: Original, n: nat)
    requires Saved(h, data, o) && n < |o.newIds|
    ensures n < |data.newRecords| && o.newIds[n] in o.info && !o.info[o.newIds[n]].inTried
    ensures Written(data.newRecords[n], o.info[o.newIds[n]]) && data.newRecords[n].lastSuccess >= 0
    ensures o.newIds[n] !in o.newIds[..n]
  {
    var id := o.newIds[n];
    assert id in o.newIds;
    assert id in NewIds(o.info);
    assert o.info[id].lastSuccess >= 0;
  }

  lemma SavedTried(h: Hashes, data: Data, o: Original, n: nat)
    requires Saved(h, data, o) && n < |o.triedIds|
    ensures n < |data.triedRecords| && o.triedIds[n] in o.info && o.info[o.triedIds[n]].inTried
    ensures Written(data.triedRecords[n], o.info[o.triedIds[n]]) && data.triedRecords[n].lastSuccess > 0
    ensures o.triedIds[n] !in o.triedIds[..n]
  {
    var id := o.triedIds[n];
    assert id in o.triedIds;
    assert id in TriedIds(o.info);
    assert o.info[id].lastSuccess >= 0;
  }

  /** No two tried entries share a cell, so that none is lost. */
  lemma {:induction false} SavedComers(h: Hashes, data: Data, o: Original, n: nat)
    requires Saved(h, data, o) && n <= |data.triedRecords|
    ensures FirstComers(h, data.key, data.triedRecords[..n]) == data.triedRecords[..n]
  {
    hide Saved, FirstComers, Hashes.TriedSlot;
    if n > 0 {
      SavedComers(h, data, o, n - 1);
      FirstComersNext(h, data.key, data.triedRecords, n - 1);
      var before, r := data.triedRecords[..n - 1], data.triedRecords[n - 1];
      forall j | 0 <= j < n - 1 ensures h.TriedSlot(data.key, before[j].service) != h.TriedSlot(data.key, r.service) {
        TwoSeats(h, data, o, j, n - 1);
      }
      assert before + [r] == data.triedRecords[..n];
    } else {
      NoComers(h, data.key, data.triedRecords[..0]);
    }
  }

  lemma NoComers(h: Hashes, key: nat, rs: seq<Record>)
    requires rs == []
    ensures FirstComers(h, key, rs) == []
  {}

  lemma TwoSeats(h: Hashes, data: Data, o: Original, i: nat, j: nat)
    requires Saved(h, data, o) && i < j < |data.triedRecords|
    ensures h.TriedSlot(data.key, data.triedRecords[i].service) != h.TriedSlot(data.key, data.triedRecords[j].service)
  {
    SavedTried(h, data, o, i);
    SavedTried(h, data, o, j);
    assert Seated(h, data.key, o.info, TableOf(o.triedCells), o.triedIds[i]);
    assert Seated(h, data.key, o.info, TableOf(o.triedCells), o.triedIds[j]);
  }

  /** The references of the first cells have been restored, and no others. */
  ghost predicate CellsRestored(cells: seq<int>, orig: seq<int>, index: map<int, int>, upTo: nat)
  {
    && |cells| == |orig| && upTo <= |orig|
    && (forall k | 0 <= k < upTo :: if orig[k] == -1 then cells[k] == -1 else orig[k] in index && cells[k] == index[orig[k]])
    && (forall k | upTo <= k < |orig| :: cells[k] == -1)
  }

  /** In a list of indexes that is not used up, the next one belongs to the next occupied cell. */
  lemma {:induction false} NextCell(cells: seq<int>, index: map<int, int>, start: nat, end: nat, restored: seq<int>)
    returns (c: nat)
    requires start <= end <= |cells| && forall k | start <= k < end && cells[k] != -1 :: cells[k] in index
    requires Indexes(cells, index, start, end) != [] && CellsRestored(restored, cells, index, start)
    ensures start <= c < end && cells[c] != -1 && CellsRestored(restored, cells, index, c)
    ensures Indexes(cells, index, start, end) == [index[cells[c]]] + Indexes(cells, index, c + 1, end)
    decreases end - start
  {
    if cells[start] != -1 {
      c := start;
    } else {
      c := NextCell(cells, index, start + 1, end, restored);
    }
  }

  lemma {:induction false} NoMoreCells(cells: seq<int>, index: map<int, int>, start: nat, end: nat, restored: seq<int>)
    requires start <= end <= |cells| && forall k | start <= k < end && cells[k] != -1 :: cells[k] in index
    requires Indexes(cells, index, start, end) == [] && CellsRestored(restored, cells, index, start)
    ensures CellsRestored(restored, cells, index, end)
    decreases end - start
  {
    if start < end {
      assert cells[start] == -1;
      NoMoreCells(cells, index, start + 1, end, restored);
    }
  }

  /** Restored references to an entry are among the original ones, so that a cell not yet restored
      leaves room for one more. */
  lemma RoomForReference(h: Hashes, data: Data, o: Original, cells: seq<int>, c: nat, n: nat)
    requires Saved(h, data, o) && c < NEW_CELLS && CellsRestored(cells, o.newCells, o.index, c)
    requires o.newCells[c] != -1 && n < |o.newIds| && o.newIds[n] == o.newCells[c]
    ensures |RefSlots(TableOf(cells), n)| < NEW_BUCKETS_PER_ADDRESS
  {
    var id := o.newIds[n];
    var restored, original := RefSlots(TableOf(cells), n), RefSlots(TableOf(o.newCells), id);
    SavedNew(h, data, o, n);
    assert Counted(o.info, TableOf(o.newCells), id);
    assert o.info[id].refCount <= NEW_BUCKETS_PER_ADDRESS;
    forall sl | sl in restored ensures sl in original - {c} {
      assert cells[sl] == n && sl < c;
      var x := o.newCells[sl];
      assert x in o.newIds;
      var j :| 0 <= j < |o.newIds| && o.newIds[j] == x;
    }
    assert c in original;
    SmallerSlots(restored, original - {c});
  }

  lemma SmallerSlots(a: set<Slot>, b: set<Slot>)
    requires a <= b
    ensures |a| <= |b|
  {
    assert a + (b - a) == b;
  }

  lemma SavedCell(h: Hashes, data: Data, o: Original, c: nat)
    requires Saved(h, data, o) && c < NEW_CELLS && o.newCells[c] != -1
    ensures var id := o.newCells[c];
            && id in o.index && 0 <= o.index[id] < |o.newIds| && o.newIds[o.index[id]] == id && id in o.info
            && PlacedNew(h, data.key, o.info[id].service, c)
            && c == Cell(Bucket(c), h.NewPosition(data.key, o.info[id].service, Bucket(c)))
  {
    var id := o.newCells[c];
    assert id in o.newIds;
    var j :| 0 <= j < |o.newIds| && o.newIds[j] == id;
    OnlyCell(h, data.key, o.info, o.newCells, id, c);
    assert TableOf(o.newCells)[c] == id;
  }

  lemma CountedBy(h: Hashes, key: nat, info: Infos, newTable: Table, id: int)
    requires NewOk(h, key, info, newTable) && id in info
    ensures info[id].refCount == |RefSlots(newTable, id)|
  {
    assert Counted(info, newTable, id);
  }

  lemma SavedBucket(h: Hashes, data: Data, o: Original, bucket: nat)
    requires Saved(h, data, o) && bucket < |data.buckets|
    ensures |o.newCells| == NEW_CELLS && Cell(bucket + 1, 0) <= NEW_CELLS
    ensures forall k | 0 <= k < NEW_CELLS && o.newCells[k] != -1 :: o.newCells[k] in o.index
    ensures data.buckets[bucket] == Indexes(o.newCells, o.index, Cell(bucket, 0), Cell(bucket + 1, 0))
  {}

  /** The counts are those of the cells. */
  ghost predicate Exact(refs: Refs)
  {
    forall n | 0 <= n < |refs.counts| :: refs.counts[n] == |RefSlots(TableOf(refs.cells), n)|
  }

  lemma ExactNext(refs: Refs, c: nat, n: nat)
    requires Exact(refs) && c < |refs.cells| && refs.cells[c] == -1 && n < |refs.counts|
    ensures Exact(Refs(refs.cells[c := n], refs.counts[n := refs.counts[n] + 1]))
  {
    hide RefSlots, TableOf;
    var more := Refs(refs.cells[c := n], refs.counts[n := refs.counts[n] + 1]);
    FreeCell(refs.cells, c);
    WriteCell(refs.cells, c, n);
    forall x | 0 <= x < |more.counts| ensures more.counts[x] == |RefSlots(TableOf(more.cells), x)| {
      MoreSlots(TableOf(refs.cells), c, n, x);
    }
  }

  /** The next written reference is restored to the cell it came from. */
  lemma RestoreNext(h: Hashes, data: Data, o: Original, refs: Refs, c: nat)
    requires Saved(h, data, o) && c < NEW_CELLS && o.newCells[c] != -1 && |refs.counts| == |data.newRecords|
    requires CellsRestored(refs.cells, o.newCells, o.index, c) && Exact(refs) && Bucket(c) < NEW_BUCKET_COUNT
    ensures o.newCells[c] in o.index
    ensures var more := RowRef(h, data.key, data.newRecords, refs, Bucket(c), o.index[o.newCells[c]]);
      CellsRestored(more.cells, o.newCells, o.index, c + 1) && Exact(more)
  {
    hide Saved, Exact, RefSlots, TableOf, Hashes.NewPosition;
    SavedHeader(h, data, o);
    SavedBucket(h, data, o, Bucket(c));
    SavedCell(h, data, o, c);
    var n := o.index[o.newCells[c]];
    SavedNew(h, data, o, n);
    RoomForReference(h, data, o, refs.cells, c, n);
    ExactAt(refs, n);
    ExactNext(refs, c, n);
  }

  lemma ExactAt(refs: Refs, n: nat)
    requires Exact(refs) && n < |refs.counts|
    ensures refs.counts[n] == |RefSlots(TableOf(refs.cells), n)|
  {}

  lemma RestoreRow(h: Hashes, data: Data, o: Original, refs: Refs, bucket: nat)
    requires Saved(h, data, o) && bucket < NEW_BUCKET_COUNT && bucket < |data.buckets|
    requires |refs.counts| == |data.newRecords| && CellsRestored(refs.cells, o.newCells, o.index, Cell(bucket, 0)) && Exact(refs)
    ensures |refs.cells| == NEW_CELLS
    ensures var more := RowRefs(h, data.key, data.newRecords, refs, bucket, data.buckets[bucket]);
      CellsRestored(more.cells, o.newCells, o.index, Cell(bucket + 1, 0)) && Exact(more)
  {
    hide Saved, Exact, CellsRestored, Indexes, RowRef;
    SavedBucket(h, data, o, bucket);
    RestoredSize(refs.cells, o.newCells, o.index, Cell(bucket, 0));
    var row := data.buckets[bucket];
    var c, end, now := Cell(bucket, 0), Cell(bucket + 1, 0), refs;
    for n := 0 to |row|
      invariant Cell(bucket, 0) <= c <= end && |now.cells| == NEW_CELLS && |now.counts| == |data.newRecords|
      invariant now == RowRefs(h, data.key, data.newRecords, refs, bucket, row[..n])
      invariant CellsRestored(now.cells, o.newCells, o.index, c) && Exact(now)
      invariant row[n..] == Indexes(o.newCells, o.index, c, end)
    {
      assert row[n..] != [];
      c := NextCell(o.newCells, o.index, c, end, now.cells);
      assert row[n] == row[n..][0] && row[n + 1..] == row[n..][1..];
      RestoreNext(h, data, o, now, c);
      assert row[..n + 1][..n] == row[..n];
      now := RowRef(h, data.key, data.newRecords, now, bucket, row[n]);
      c := c + 1;
    }
    assert row[..|row|] == row && row[|row|..] == [];
    NoMoreCells(o.newCells, o.index, c, end, now.cells);
  }

  lemma RestoredSize(cells: seq<int>, orig: seq<int>, index: map<int, int>, upTo: nat)
    requires CellsRestored(cells, orig, index, upTo)
    ensures |cells| == |orig|
  {}

  /** Every written reference returns to its cell. */
  lemma {:induction false} SavedRefs(h: Hashes, data: Data, o: Original, count: nat)
    requires Saved(h, data, o) && count <= NEW_BUCKET_COUNT && count <= |data.buckets|
    ensures var refs := BucketRefs(h, data.key, data.newRecords, data.buckets, count);
      CellsRestored(refs.cells, o.newCells, o.index, Cell(count, 0)) && Exact(refs)
  {
    if count > 0 {
      SavedRefs(h, data, o, count - 1);
      RestoreRow(h, data, o, BucketRefs(h, data.key, data.newRecords, data.buckets, count - 1), count - 1);
    } else {
      var refs := NoRefs(|data.newRecords|);
      EmptyTable(refs.cells);
      forall n | 0 <= n < |refs.counts| ensures refs.counts[n] == |RefSlots(TableOf(refs.cells), n)| {
        assert RefSlots(TableOf(refs.cells), n) == {};
      }
    }
  }

  /** With every cell restored, an entry has the references its original had. */
  lemma SameReferences(h: Hashes, data: Data, o: Original, refs: Refs, n: nat)
    requires Saved(h, data, o) && CellsRestored(refs.cells, o.newCells, o.index, NEW_CELLS)
    requires Exact(refs) && n < |refs.counts| == |o.newIds|
    ensures o.newIds[n] in o.info && refs.counts[n] == o.info[o.newIds[n]].refCount >= 1
  {
    SavedNew(h, data, o, n);
    var id := o.newIds[n];
    ExactAt(refs, n);
    CountedBy(h, data.key, o.info, TableOf(o.newCells), id);
    assert RefSlots(TableOf(refs.cells), n) == RefSlots(TableOf(o.newCells), id) by {
      forall sl | 0 <= sl < NEW_CELLS ensures refs.cells[sl] == n <==> o.newCells[sl] == id {
        if o.newCells[sl] != -1 { SavedCell(h, data, o, sl); }
      }
    }
    assert id in o.info && !o.info[id].inTried;
  }

  lemma {:induction false} FewElements(cells: seq<int>)
    ensures |Elements(cells)| <= |cells|
  {
    if cells != [] {
      var k := |cells| - 1;
      FewElements(cells[..k]);
      assert Elements(cells) == Elements(cells[..k]) + {cells[k]};
    }
  }

  /** No table can hold more entries than it has cells. */
  lemma WithinLimits(h: Hashes, data: Data, o: Original)
    requires Saved(h, data, o)
    ensures data.nNew <= NEW_CELLS && data.nTried <= TRIED_CELLS
  {
    forall id | id in o.newIds ensures id in Elements(o.newCells) {
      assert id in NewIds(o.info);
      NoCellsNoReferences(h, data.key, o.info, o.newCells, id);
      assert o.info[id].refCount >= 1;
    }
    FewElements(o.newCells);
    DistinctCount(o.newIds);
    assert Elements(o.newIds) <= Elements(o.newCells);
    Smaller(Elements(o.newIds), Elements(o.newCells));
    forall id | id in o.triedIds ensures id in Elements(o.triedCells) {
      assert id in TriedIds(o.info);
      assert Seated(h, data.key, o.info, TableOf(o.triedCells), id);
    }
    FewElements(o.triedCells);
    DistinctCount(o.triedIds);
    assert Elements(o.triedIds) <= Elements(o.triedCells);
    Smaller(Elements(o.triedIds), Elements(o.triedCells));
  }

  lemma AllIds(h: Hashes, data: Data, o: Original)
    requires Saved(h, data, o)
    ensures Enumerates(o.newIds + o.triedIds, o.info.Keys)
  {
    var ids := o.newIds + o.triedIds;
    forall id | id in o.info ensures id in ids {
      if o.info[id].inTried { assert id in TriedIds(o.info); } else { assert id in NewIds(o.info); }
    }
    forall id | id in ids ensures id in o.info {
      if id in o.newIds { assert id in NewIds(o.info); } else { assert id in TriedIds(o.info); }
    }
    forall i, j | 0 <= i < j < |ids| ensures ids[i] != ids[j] {
      if i < |o.newIds| <= j {
        assert ids[i] in o.newIds && ids[j] in o.triedIds;
        assert ids[i] in NewIds(o.info) && ids[j] in TriedIds(o.info);
      }
    }
  }

  lemma SavedRow(h: Hashes, data: Data, o: Original, k: nat)
    requires Saved(h, data, o) && k < |o.newIds| + |o.triedIds|
    ensures |data.newRecords + data.triedRecords| == |o.newIds + o.triedIds|
    ensures var id, r := (o.newIds + o.triedIds)[k], (data.newRecords + data.triedRecords)[k];
      && id in o.info && Written(r, o.info[id]) && o.info[id].inTried == (k >= |o.newIds|)
      && r.lastSuccess >= 0 && (k >= |o.newIds| ==> r.lastSuccess != 0)
  {
    SavedHeader(h, data, o);
    if k < |o.newIds| { SavedNew(h, data, o, k); } else { SavedTried(h, data, o, k - |o.newIds|); }
  }

  lemma SavedAddresses(h: Hashes, data: Data, o: Original, j: nat, k: nat)
    requires Saved(h, data, o) && j < |o.newIds| + |o.triedIds| && k < |o.newIds| + |o.triedIds| && j != k
    ensures |data.newRecords + data.triedRecords| == |o.newIds + o.triedIds|
    ensures var rows := data.newRecords + data.triedRecords; rows[j].service.ip != rows[k].service.ip
  {
    AllIds(h, data, o);
    SavedRow(h, data, o, j);
    SavedRow(h, data, o, k);
    var ids := o.newIds + o.triedIds;
    assert ids[j] != ids[k];
    assert Named(o.info, o.addr, ids[j]) && Named(o.info, o.addr, ids[k]);
  }

  lemma SavedRowsAre(h: Hashes, data: Data, o: Original)
    requires Saved(h, data, o)
    ensures 0 <= data.nNew && 0 <= data.nTried && !Truncated(data)
    ensures Rows(h, data) == data.newRecords + data.triedRecords && |Rows(h, data)| == |o.newIds + o.triedIds|
    ensures FinalRefs(h, data) == BucketRefs(h, data.key, data.newRecords, data.buckets, NEW_BUCKET_COUNT)
  {
    hide Saved, FirstComers, BucketRefs;
    SavedHeader(h, data, o);
    SavedComers(h, data, o, data.nTried);
    assert data.newRecords[..data.nNew] == data.newRecords && data.triedRecords[..data.nTried] == data.triedRecords;
  }

  /** What was written is consistent when it is read back, and every new entry has its references. */
  lemma SavedLoadable(h: Hashes, data: Data, o: Original)
    requires Saved(h, data, o)
    ensures 0 <= data.nNew && 0 <= data.nTried && !Truncated(data) && !Refused(data) && Loadable(h, data)
    ensures var refs := FinalRefs(h, data);
      && CellsRestored(refs.cells, o.newCells, o.index, NEW_CELLS) && |refs.counts| == |o.newIds|
      && forall n | 0 <= n < |o.newIds| :: o.newIds[n] in o.info && refs.counts[n] == o.info[o.newIds[n]].refCount >= 1
  {
    hide Saved, FirstComers, BucketRefs, CellsRestored, Exact, Rows, FinalRefs;
    SavedHeader(h, data, o);
    WithinLimits(h, data, o);
    SavedRowsAre(h, data, o);
    SavedRefs(h, data, o, NEW_BUCKET_COUNT);
    var rows, refs := Rows(h, data), FinalRefs(h, data);
    forall n | 0 <= n < |o.newIds| ensures o.newIds[n] in o.info && refs.counts[n] == o.info[o.newIds[n]].refCount >= 1 {
      SameReferences(h, data, o, refs, n);
    }
    forall k | 0 <= k < |rows| ensures SoundRow(rows, refs.counts, k) {
      SavedRow(h, data, o, k);
      forall j | 0 <= j < |rows| && j != k ensures rows[j].service.ip != rows[k].service.ip {
        SavedAddresses(h, data, o, j, k);
      }
    }
  }

  /** An entry that stands for an original one. */
  ghost predicate Stands(info: Infos, n: int, orig: Infos, id: int)
  {
    && n in info && id in orig
    && info[n].service == orig[id].service && info[n].time == orig[id].time && info[n].services == orig[id].services
    && info[n].source == orig[id].source && info[n].lastSuccess == orig[id].lastSuccess
    && info[n].attempts == orig[id].attempts && info[n].lastTry == 0 && info[n].lastCountAttempt == 0
  }

  /** The manager has the original's entries, under new numbers, in the same cells with the same
      standing. */
  ghost predicate SameUpToIds(m: CAddrMan, o: Original)
    reads m, m.vvNew, m.vvTried
  {
    var ids := o.newIds + o.triedIds;
    && m.Sized() && Enumerates(ids, o.info.Keys) && m.mapInfo.Keys == UpTo(|ids|)
    && (forall n {:trigger ids[n]} | 0 <= n < |ids| ::
          && Stands(m.mapInfo, n, o.info, ids[n])
          && m.mapInfo[n].inTried == o.info[ids[n]].inTried && m.mapInfo[n].refCount == o.info[ids[n]].refCount)
    && SameCells(m.vvNew[..], o.newCells, ids) && SameCells(m.vvTried[..], o.triedCells, ids)
  }

  ghost predicate SameCells(cells: seq<int>, orig: seq<int>, ids: seq<int>)
  {
    && |cells| == |orig|
    && forall k | 0 <= k < |cells| ::
         if orig[k] == -1 then cells[k] == -1 else 0 <= cells[k] < |ids| && ids[cells[k]] == orig[k]
  }

  lemma SameNewCells(h: Hashes, data: Data, o: Original, cells: seq<int>)
    requires Saved(h, data, o) && CellsRestored(cells, o.newCells, o.index, NEW_CELLS)
    ensures SameCells(cells, o.newCells, o.newIds + o.triedIds)
  {}

  /** The entries before and after those without references were dropped, which were none. */
  lemma SavedEntry(m: CAddrMan, data: Data, o: Original, info: Infos, n: nat)
    requires Saved(m.h, data, o) && n < |o.newIds| + |o.triedIds|
    requires 0 <= data.nNew && 0 <= data.nTried && !Truncated(data)
    requires RowsOf(info, Rows(m.h, data), data.nNew, FinalRefs(m.h, data).counts)
    requires SameButPositions(info - Bare(info), m.mapInfo)
    ensures var id := (o.newIds + o.triedIds)[n];
      && Stands(m.mapInfo, n, o.info, id) && m.mapInfo[n].inTried == o.info[id].inTried
      && m.mapInfo[n].refCount == o.info[id].refCount
  {
    hide Saved, FirstComers, BucketRefs, CellsRestored, Rows, FinalRefs, Loadable;
    SavedHeader(m.h, data, o);
    SavedLoadable(m.h, data, o);
    SavedRowsAre(m.h, data, o);
    SavedRow(m.h, data, o, n);
    var rows, counts := Rows(m.h, data), FinalRefs(m.h, data).counts;
    assert RowAt(info, rows, data.nNew, counts, n);
    assert n in info - Bare(info) && Alike((info - Bare(info))[n], m.mapInfo[n]);
    if n >= |o.newIds| { TriedHasNone(m.h, data, o, (o.newIds + o.triedIds)[n]); }
  }

  lemma TriedHasNone(h: Hashes, data: Data, o: Original, id: int)
    requires Saved(h, data, o) && id in o.info && o.info[id].inTried
    ensures o.info[id].refCount == 0
  {}

  /** The tried cells are those of the original: each is the one its entry hashes to. */
  lemma SavedSeat(m: CAddrMan, data: Data, o: Original, k: nat)
    requires Saved(m.h, data, o) && m.Sized() && TriedOk(m.h, data.key, m.mapInfo, TableOf(m.vvTried[..])) && k < TRIED_CELLS
    requires m.mapInfo.Keys == UpTo(|o.newIds + o.triedIds|)
    requires forall n | 0 <= n < |o.newIds + o.triedIds| ::
      Stands(m.mapInfo, n, o.info, (o.newIds + o.triedIds)[n])
      && m.mapInfo[n].inTried == o.info[(o.newIds + o.triedIds)[n]].inTried
    ensures |o.triedCells| == TRIED_CELLS
    ensures var ids, n := o.newIds + o.triedIds, m.vvTried[k];
      if o.triedCells[k] == -1 then n == -1 else 0 <= n < |ids| && ids[n] == o.triedCells[k]
  {
    hide RandomOk, NewOk, AddrOk, EntriesOk, Hashes.TriedSlot;
    AllIds(m.h, data, o);
    var ids := o.newIds + o.triedIds;
    FreeCell(m.vvTried[..], k);
    FreeCell(o.triedCells, k);
    if m.vvTried[k] != -1 {
      var n := m.vvTried[k];
      assert TableOf(m.vvTried[..])[k] == n;
      assert Stands(m.mapInfo, n, o.info, ids[n]);
      assert Seated(m.h, data.key, o.info, TableOf(o.triedCells), ids[n]);
    }
    if o.triedCells[k] != -1 {
      var id := o.triedCells[k];
      assert TableOf(o.triedCells)[k] == id;
      assert id in ids;
      var n :| 0 <= n < |ids| && ids[n] == id;
      assert Stands(m.mapInfo, n, o.info, ids[n]);
      assert Seated(m.h, data.key, m.mapInfo, TableOf(m.vvTried[..]), n);
    }
  }

  lemma NoneBare(m: CAddrMan, data: Data, o: Original, info: Infos)
    requires Saved(m.h, data, o) && 0 <= data.nNew && 0 <= data.nTried && !Truncated(data)
    requires RowsOf(info, Rows(m.h, data), data.nNew, FinalRefs(m.h, data).counts)
    requires SameButPositions(info - Bare(info), m.mapInfo)
    ensures Bare(info) == {} && m.mapInfo.Keys == UpTo(|o.newIds + o.triedIds|)
  {
    hide Saved, Rows, FinalRefs, Bare;
    SavedRowsAre(m.h, data, o);
    assert info.Keys == UpTo(|o.newIds + o.triedIds|);
    forall id | id in info ensures id in m.mapInfo { SavedEntry(m, data, o, info, id); }
    assert m.mapInfo.Keys == info.Keys;
    forall id | id in Bare(info) ensures false { BareIn(info, id); }
  }

  lemma BareIn(info: Infos, id: int)
    requires id in Bare(info)
    ensures id in info && id !in info - Bare(info)
  {}

  /** What has been read back is the original, up to the numbering. */
  lemma ReadBack(m: CAddrMan, data: Data, o: Original, info: Infos)
    requires Saved(m.h, data, o) && m.Sized() && TriedOk(m.h, data.key, m.mapInfo, TableOf(m.vvTried[..]))
    requires 0 <= data.nNew && 0 <= data.nTried && !Truncated(data)
    requires RowsOf(info, Rows(m.h, data), data.nNew, FinalRefs(m.h, data).counts)
    requires SameButPositions(info - Bare(info), m.mapInfo) && m.vvNew[..] == FinalRefs(m.h, data).cells
    ensures SameUpToIds(m, o) && Bare(info) == {}
  {
    hide RandomOk, AddrOk, TriedOk, NewOk, EntriesOk, TableOf, Saved, CellsRestored, Enumerates, Rows, FinalRefs, Loadable,
         RowsOf, SameButPositions, Bare, Stands;
    var ids := o.newIds + o.triedIds;
    SavedHeader(m.h, data, o);
    AllIds(m.h, data, o);
    NoneBare(m, data, o, info);
    SavedLoadable(m.h, data, o);
    forall n | 0 <= n < |ids|
      ensures Stands(m.mapInfo, n, o.info, ids[n]) && m.mapInfo[n].inTried == o.info[ids[n]].inTried
      ensures m.mapInfo[n].refCount == o.info[ids[n]].refCount
    {
      SavedEntry(m, data, o, info, n);
    }
    SameNewCells(m.h, data, o, m.vvNew[..]);
    forall k | 0 <= k < TRIED_CELLS
      ensures var n := m.vvTried[k];
        if o.triedCells[k] == -1 then n == -1 else 0 <= n < |ids| && ids[n] == o.triedCells[k]
    {
      SavedSeat(m, data, o, k);
    }
  }

  // ---------------------------------------------------------------------------------------------
  // The whole of it
  // ---------------------------------------------------------------------------------------------

  lemma ShelvedParts(m: CAddrMan, rows: seq<Record>, nNew: int, counts: seq<int>)
    requires Shelved(m, rows, nNew, counts)
    ensures TriedOk(m.h, m.nKey, m.mapInfo, TableOf(m.vvTried[..])) && NewOk(m.h, m.nKey, m.mapInfo, TableOf(m.vvNew[..]))
    ensures RowsOf(m.mapInfo, rows, nNew, counts) && LastNamed(m.mapInfo, m.mapAddr)
  {}

  lemma CountsNotNegative(m: CAddrMan)
    requires m.Check()
    ensures m.nNew >= 0 && m.nTried >= 0
  {}

  lemma CheckSeats(m: CAddrMan)
    requires m.Check()
    ensures TriedOk(m.h, m.nKey, m.mapInfo, TableOf(m.vvTried[..]))
  {}

  /** Read everything after the header. */
  method ReadBody(m: CAddrMan, data: Data, torn: Record) returns (ok: bool)
    requires m.Sized() && m.mapInfo == map[] && m.mapAddr == map[] && m.vRandom == [] && m.nKey == data.key
    requires Empty(m.vvNew[..]) && Empty(m.vvTried[..]) && m.nTried == data.nTried
    modifies m`mapInfo, m`mapAddr, m`vRandom, m`nIdCount, m`nTried, m.vvNew, m.vvTried
    ensures ok <==> !Truncated(data)
    ensures ok ==> RandomOk(m.mapInfo, m.vRandom) && (data.nTried < 0 ==> m.nTried < 0)
    ensures ok && 0 <= data.nNew && 0 <= data.nTried ==>
      var rows, refs := Rows(m.h, data), FinalRefs(m.h, data);
      && Shelved(m, rows, data.nNew, refs.counts) && m.vvNew[..] == refs.cells
      && m.nIdCount == |rows| && m.nTried == |rows| - data.nNew
    ensures !ok ==> (m.mapInfo == map[] <==> data.nNew <= 0 && (data.nTried <= 0 || data.triedRecords == []))
    ensures !ok && m.mapInfo == map[] ==> m.mapAddr == map[]
    ensures data.nNew > |data.newRecords| ==>
      && m.mapInfo.Keys == UpTo(|data.newRecords| + 1)
      && forall n | 0 <= n < |data.newRecords| :: Written(data.newRecords[n], m.mapInfo[n])
  {
    hide RandomOk, Shelved, ReadRefs, FirstComers, FlipBit30, Written, Empty;
    ok := ReadNew(m, data, torn);
    if !ok {
      assert 0 in m.mapInfo;
      return;
    }
    m.nIdCount := data.nNew;
    ghost var rows: seq<Record> := if data.nNew >= 0 then data.newRecords[..data.nNew] else [];
    ghost var counts := if data.nNew >= 0 then ReadRefs(m.h, data, rows, 0).counts else [];
    var nLost;
    ok, nLost := ReadTried(m, data, counts);
    if !ok { return; }
    m.nTried := m.nTried - nLost;
    if data.nNew >= 0 {
      rows := rows + FirstComers(m.h, data.key, data.triedRecords[..if data.nTried < 0 then 0 else data.nTried]);
      assert rows[..data.nNew] == data.newRecords[..data.nNew];
    }
    ok := RestoreAll(m, data, rows);
  }

  /** Read a stream into an empty manager. No assertion fails, whatever the stream holds. Which streams are
      refused, and which of the others give a consistent manager, is exact; one that was written from a
      consistent manager gives the original's entries, references and places, up to the numbering. */
  method Unserialize(m: CAddrMan, data: Data, randomKey: nat, torn: Record, ghost o: Original) returns (ok: bool)
    requires m.Sized() && m.mapInfo == map[] && m.mapAddr == map[]
    modifies m, m.vvNew, m.vvTried
    ensures ok <==> !Refused(data) && !Truncated(data)
    ensures ok ==> (m.Check() <==> Loadable(m.h, data))
    ensures ok && 0 <= data.nNew && 0 <= data.nTried ==>
      var refs := FinalRefs(m.h, data); Arrived(m.mapInfo, Rows(m.h, data), refs.counts) && m.vvNew[..] == refs.cells
    ensures !ok ==> (m.mapInfo == map[] <==> NothingEntered(data)) && (m.mapInfo == map[] ==> m.mapAddr == map[])
    ensures !Refused(data) && data.nNew > |data.newRecords| ==>
      && m.mapInfo.Keys == UpTo(|data.newRecords| + 1)
      && forall n | 0 <= n < |data.newRecords| :: Written(data.newRecords[n], m.mapInfo[n])
    ensures Saved(m.h, data, o) ==> ok && m.Check() && SameUpToIds(m, o)
    ensures Saved(m.h, data, o) ==> m.nKey == data.key && m.nNew == data.nNew && m.nTried == data.nTried
  {
    hide RandomOk, TriedOk, NewOk, TableOf, Saved, RowsOf, LastNamed, SameUpToIds, Shelved, Rows, FinalRefs, SoundRows,
         Bare, Addresses, SameButPositions, CAddrMan.Books, FlipBit30, Written, Arrived;
    if Saved(m.h, data, o) { SavedLoadable(m.h, data, o); }
    m.Clear(randomKey);
    if data.keySize != 32 { return false; }
    m.nKey, m.nNew, m.nTried := data.key, data.nNew, data.nTried;
    if data.nNew > NEW_CELLS || data.nTried > TRIED_CELLS { return false; }
    ok := ReadBody(m, data, torn);
    if !ok { return; }
    ghost var info, addr, sane := m.mapInfo, m.mapAddr, data.nNew >= 0 && data.nTried >= 0;
    if sane { ShelvedParts(m, Rows(m.h, data), data.nNew, FinalRefs(m.h, data).counts); }
    Prune(m);
    if sane {
      ConsistentIff(m, info, addr, Rows(m.h, data), FinalRefs(m.h, data).counts);
      RowsArrived(info, Rows(m.h, data), FinalRefs(m.h, data).counts, m.mapInfo);
      if Saved(m.h, data, o) {
        CheckSeats(m);
        ReadBack(m, data, o, info);
        SavedHeader(m.h, data, o);
        SavedRowsAre(m.h, data, o);
      }
    } else if m.Check() {
      CountsNotNegative(m);
    }
  }

  /** Load a file; when that fails, reset the manager. It is consistent then only if nothing had been
      entered before the failure. */
  method Reload(m: CAddrMan, data: Data, randomKey: nat, resetKey: nat, torn: Record) returns (ok: bool)
    requires m.Sized() && m.mapInfo == map[] && m.mapAddr == map[]
    modifies m, m.vvNew, m.vvTried
    ensures ok <==> !Refused(data) && !Truncated(data)
    ensures m.Check() <==> if ok then Loadable(m.h, data) else NothingEntered(data)
    ensures !Refused(data) && data.nNew > |data.newRecords| ==>
      && m.mapInfo.Keys == UpTo(|data.newRecords| + 1)
      && forall n | 0 <= n < |data.newRecords| :: Written(data.newRecords[n], m.mapInfo[n])
  {
    hide Saved, CAddrMan.Books, Loadable, Truncated, Refused, NothingEntered, SameUpToIds, Written, Arrived;
    ok := Unserialize(m, data, randomKey, torn, Original(map[], map[], [], [], [], [], map[]));
    if !ok { m.Clear(resetKey); }
  }

  /** A file that announces two new entries and holds one: the manager keeps that entry through the reset,
      and is not consistent. */
  method CutShort(h: Hashes, key: nat, r: Record, torn: Record) returns (m: CAddrMan, ok: bool)
    ensures !ok && 0 in m.mapInfo && Written(r, m.mapInfo[0]) && !m.Check()
  {
    hide CAddrMan.Books, Loadable, Written;
    m := new CAddrMan(h, key);
    NoAddresses(m);
    ok := Reload(m, Data(1, 32, key, 2, 0, FlipBit30(NEW_BUCKET_COUNT), [r], [], []), key, key, torn);
    assert [r][0] == r;
  }

  lemma NoAddresses(m: CAddrMan)
    requires m.Check() && m.mapInfo == map[]
    ensures m.Sized() && m.mapAddr == map[]
  {
    assert forall a :: a !in m.mapAddr;
  }

  lemma WrittenIsSaved(m: CAddrMan, data: Data, newIds: seq<int>, triedIds: seq<int>, index: map<int, int>)
    requires m.Check() && Describes(data, m.nKey, m.mapInfo, m.vvNew[..], newIds, triedIds, index)
    ensures Saved(m.h, data, Original(m.mapInfo, m.mapAddr, m.vvNew[..], m.vvTried[..], newIds, triedIds, index))
  {}

  lemma DescribedKey(data: Data, key: nat, info: Infos, cells: seq<int>, newIds: seq<int>, triedIds: seq<int>, index: map<int, int>)
    requires Describes(data, key, info, cells, newIds, triedIds, index)
    ensures data.key == key
  {}

  /** Written out and read back, a consistent manager loses no entry, no reference and no place. */
  method SaveAndLoad(m: CAddrMan, order: seq<int>, randomKey: nat, torn: Record)
    returns (copy: CAddrMan, ghost newIds: seq<int>, ghost triedIds: seq<int>, ghost index: map<int, int>)
    requires m.Check() && Enumerates(order, m.mapInfo.Keys)
    ensures m.Check() && fresh(copy) && copy.Check() && copy.h == m.h && copy.nKey == m.nKey
    ensures copy.nNew == m.nNew && copy.nTried == m.nTried
    ensures SameUpToIds(copy, Original(m.mapInfo, m.mapAddr, m.vvNew[..], m.vvTried[..], newIds, triedIds, index))
  {
    hide RandomOk, AddrOk, TriedOk, NewOk, EntriesOk, TriedIds, NewIds, TableOf, Describes, Saved, SameUpToIds, CAddrMan.Books;
    var data, written;
    data, newIds, triedIds, written := Serialize(m, order);
    index := written;
    ghost var o := Original(m.mapInfo, m.mapAddr, m.vvNew[..], m.vvTried[..], newIds, triedIds, index);
    WrittenIsSaved(m, data, newIds, triedIds, index);
    copy := new CAddrMan(m.h, randomKey);
    NoAddresses(copy);
    var ok := Unserialize(copy, data, randomKey, torn, o);
    assert ok;
    DescribedKey(data, m.nKey, m.mapInfo, m.vvNew[..], newIds, triedIds, index);
  }
}
