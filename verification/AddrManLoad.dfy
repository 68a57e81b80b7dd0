/** What a stream of the address manager holds, and what reading it makes of it, whatever it holds. Only
    entries and new-table references are written; everything else is rebuilt, and entries are renumbered. */
module AddrManLoad {
  import opened AddrManBooks
  import opened AddrMan

  /** What is written about an entry. */
  datatype Record = Record(service: Service, time: int, services: set<nat>, source: NetAddr, lastSuccess: int, attempts: int)

  function Persisted(i: Info): Record { Record(i.service, i.time, i.services, i.source, i.lastSuccess, i.attempts) }

  /** A record holds everything of an entry but its latest attempts, its references and its place. */
  predicate Written(r: Record, i: Info)
  {
    && r.service == i.service && r.time == i.time && r.services == i.services && r.source == i.source
    && r.lastSuccess == i.lastSuccess && r.attempts == i.attempts
  }

  function Loaded(r: Record, pos: int): Info
  {
    Info(r.service, r.time, r.services, r.source, r.lastSuccess, 0, 0, r.attempts, 0, false, pos)
  }

  /** The fields of a stream, which may end anywhere between records. */
  datatype Data = Data(version: int, keySize: int, key: nat, nNew: int, nTried: int, nUBuckets: int,
                       newRecords: seq<Record>, triedRecords: seq<Record>, buckets: seq<seq<int>>)

  const BIT30 := 0x4000_0000

  /** Exclusive or with bit 30. */
  function FlipBit30(n: int): int { if (n / BIT30) % 2 == 1 then n - BIT30 else n + BIT30 }

  /** Bit 30 changes, and none of the bits below or above it. */
  lemma FlipBit30Is(n: int)
    ensures var m := FlipBit30(n);
      && m % 0x4000_0000 == n % 0x4000_0000 && m / 0x8000_0000 == n / 0x8000_0000
      && (m / 0x4000_0000) % 2 != (n / 0x4000_0000) % 2 && FlipBit30(m) == n
  {}

  function Buckets(data: Data): int { if data.version != 0 then FlipBit30(data.nUBuckets) else data.nUBuckets }

  /** Can the references be used as they were written? */
  predicate Current(data: Data) { data.version == 1 && Buckets(data) == NEW_BUCKET_COUNT }

  /** A header that is refused before anything is read. */
  predicate Refused(data: Data) { data.keySize != 32 || data.nNew > NEW_CELLS || data.nTried > TRIED_CELLS }

  /** A stream that ends before what its header announces. */
  predicate Truncated(data: Data)
  {
    data.nNew > |data.newRecords| || data.nTried > |data.triedRecords| || Buckets(data) > |data.buckets|
  }

  // ---------------------------------------------------------------------------------------------
  // Entries
  // ---------------------------------------------------------------------------------------------

  predicate SeatTaken(h: Hashes, key: nat, rs: seq<Record>, r: Record)
  {
    exists x <- rs :: h.TriedSlot(key, x.service) == h.TriedSlot(key, r.service)
  }

  /** The tried records that get an entry: each cell goes to the first that hashes to it. */
  function FirstComers(h: Hashes, key: nat, rs: seq<Record>): (r: seq<Record>)
    ensures |r| <= |rs|
  {
    if rs == [] then []
    else
      var before := FirstComers(h, key, rs[..|rs| - 1]);
      if SeatTaken(h, key, before, rs[|rs| - 1]) then before else before + [rs[|rs| - 1]]
  }

  /** Does a record before it hash to the same cell? */
  predicate Late(h: Hashes, key: nat, rs: seq<Record>, i: nat)
    requires i < |rs|
  {
    exists j :: 0 <= j < i && h.TriedSlot(key, rs[j].service) == h.TriedSlot(key, rs[i].service)
  }

  /** A tried record is entered if and only if no record before it hashes to the same cell, and the order
      stays. */
  lemma {:induction false} FirstComersAre(h: Hashes, key: nat, rs: seq<Record>) returns (at: seq<nat>)
    ensures |at| == |FirstComers(h, key, rs)|
    ensures forall k | 0 <= k < |at| :: at[k] < |rs| && FirstComers(h, key, rs)[k] == rs[at[k]]
    ensures forall j, k | 0 <= j < k < |at| :: at[j] < at[k]
    ensures forall i | 0 <= i < |rs| :: i in at <==> !Late(h, key, rs, i)
    ensures forall i | 0 <= i < |rs| :: SeatTaken(h, key, FirstComers(h, key, rs), rs[i])
  {
    hide Hashes.TriedSlot, SeatTaken, Late;
    if rs == [] {
      at := [];
    } else {
      var n := |rs| - 1;
      at := FirstComersAre(h, key, rs[..n]);
      var before, all := FirstComers(h, key, rs[..n]), FirstComers(h, key, rs);
      LateIff(h, key, rs, before, at);
      forall i | 0 <= i < n
        ensures (Late(h, key, rs, i) <==> Late(h, key, rs[..n], i)) && SeatTaken(h, key, all, rs[i])
      {
        SameSeats(h, key, rs, n, i, before, all);
      }
      if !SeatTaken(h, key, before, rs[n]) {
        at := at + [n];
        HasSeat(h, key, all, |before|);
      }
    }
  }

  lemma LateIff(h: Hashes, key: nat, rs: seq<Record>, before: seq<Record>, at: seq<nat>)
    requires rs != [] && |at| == |before| && forall k | 0 <= k < |at| :: at[k] < |rs| - 1 && before[k] == rs[at[k]]
    requires forall i | 0 <= i < |rs| - 1 :: SeatTaken(h, key, before, rs[i])
    ensures Late(h, key, rs, |rs| - 1) <==> SeatTaken(h, key, before, rs[|rs| - 1])
  {
    hide Hashes.TriedSlot;
  }

  lemma SameSeats(h: Hashes, key: nat, rs: seq<Record>, n: nat, i: nat, before: seq<Record>, all: seq<Record>)
    requires i < n < |rs| && before <= all && SeatTaken(h, key, before, rs[i])
    ensures (Late(h, key, rs, i) <==> Late(h, key, rs[..n], i)) && SeatTaken(h, key, all, rs[i])
  {
    hide Hashes.TriedSlot;
    forall x | x in before ensures x in all {}
  }

  lemma HasSeat(h: Hashes, key: nat, rs: seq<Record>, k: nat)
    requires k < |rs|
    ensures SeatTaken(h, key, rs, rs[k])
  {
    assert rs[k] in rs;
  }

  /** The entries that are read, in the order of their numbers: new ones first. */
  function Rows(h: Hashes, data: Data): (rows: seq<Record>)
    requires 0 <= data.nNew && 0 <= data.nTried && !Truncated(data)
    ensures |rows| >= data.nNew
  {
    data.newRecords[..data.nNew] + FirstComers(h, data.key, data.triedRecords[..data.nTried])
  }

  // ---------------------------------------------------------------------------------------------
  // References
  // ---------------------------------------------------------------------------------------------

  /** The cells of the new table and how many of them each new entry has. */
  datatype Refs = Refs(cells: seq<int>, counts: seq<int>)

  predicate CountsOk(counts: seq<int>) { forall k | 0 <= k < |counts| :: 0 <= counts[k] <= NEW_BUCKETS_PER_ADDRESS }

  function NoRefs(n: nat): (r: Refs)
    ensures |r.cells| == NEW_CELLS && |r.counts| == n && CountsOk(r.counts)
    ensures (forall k | 0 <= k < NEW_CELLS :: r.cells[k] == -1) && forall k | 0 <= k < n :: r.counts[k] == 0
  {
    Refs(seq(NEW_CELLS, _ => -1), seq(n, _ => 0))
  }

  /** Where written references cannot be used, an entry gets the cell of its own source, if that is free. */
  function HomeRef(h: Hashes, key: nat, refs: Refs, r: Record): (s: Refs)
    requires |refs.cells| == NEW_CELLS
    ensures |s.cells| == NEW_CELLS && |s.counts| == |refs.counts| + 1 && (CountsOk(refs.counts) ==> CountsOk(s.counts))
  {
    SlotsInRange(h, key, r.service, r.source);
    var sl := h.NewSlot(key, r.service, r.source);
    if refs.cells[sl] == -1 then Refs(refs.cells[sl := |refs.counts|], refs.counts + [1])
    else Refs(refs.cells, refs.counts + [0])
  }

  function HomeRefs(h: Hashes, key: nat, rs: seq<Record>): (s: Refs)
    ensures |s.cells| == NEW_CELLS && |s.counts| == |rs| && CountsOk(s.counts)
  {
    if rs == [] then NoRefs(0) else HomeRef(h, key, HomeRefs(h, key, rs[..|rs| - 1]), rs[|rs| - 1])
  }

  /** The cell that a new record's own source gives it. */
  function Home(h: Hashes, key: nat, r: Record): Slot { h.NewSlot(key, r.service, r.source) }

  predicate HomeTaken(h: Hashes, key: nat, rs: seq<Record>, i: nat)
    requires i < |rs|
  {
    exists j :: 0 <= j < i && Home(h, key, rs[j]) == Home(h, key, rs[i])
  }

  /** Every record's home is taken, by the first record that has it. */
  ghost predicate FirstAtHome(h: Hashes, key: nat, rs: seq<Record>, cells: seq<int>)
  {
    && |cells| == NEW_CELLS
    && (forall i | 0 <= i < |rs| :: Home(h, key, rs[i]) < NEW_CELLS && cells[Home(h, key, rs[i])] != -1)
    && forall sl | 0 <= sl < NEW_CELLS && cells[sl] != -1 ::
         0 <= cells[sl] < |rs| && Home(h, key, rs[cells[sl]]) == sl && !HomeTaken(h, key, rs, cells[sl])
  }

  /** Without written references, a record has one exactly if no record before it has the same home. */
  lemma {:induction false} HomeRefsAre(h: Hashes, key: nat, rs: seq<Record>)
    ensures FirstAtHome(h, key, rs, HomeRefs(h, key, rs).cells)
    ensures forall i | 0 <= i < |rs| :: HomeRefs(h, key, rs).counts[i] == if HomeTaken(h, key, rs, i) then 0 else 1
  {
    hide FirstAtHome, HomeTaken, Home;
    if rs == [] {
      NobodyHome(h, key);
    } else {
      var n := |rs| - 1;
      var was, s := HomeRefs(h, key, rs[..n]), HomeRefs(h, key, rs);
      HomeRefsAre(h, key, rs[..n]);
      HomeNext(h, key, rs, was, s);
      forall i | 0 <= i < n ensures HomeTaken(h, key, rs, i) <==> HomeTaken(h, key, rs[..n], i) { SameHomes(h, key, rs, n, i); }
    }
  }

  lemma NobodyHome(h: Hashes, key: nat)
    ensures FirstAtHome(h, key, [], HomeRefs(h, key, []).cells)
  {}

  lemma SameHomes(h: Hashes, key: nat, rs: seq<Record>, n: nat, i: nat)
    requires i < n < |rs|
    ensures HomeTaken(h, key, rs, i) <==> HomeTaken(h, key, rs[..n], i)
  {
    hide Home;
  }

  lemma HomeNext(h: Hashes, key: nat, rs: seq<Record>, was: Refs, s: Refs)
    requires rs != [] && FirstAtHome(h, key, rs[..|rs| - 1], was.cells) && |was.counts| == |rs| - 1
    requires s == HomeRef(h, key, was, rs[|rs| - 1])
    ensures FirstAtHome(h, key, rs, s.cells)
    ensures s.counts == was.counts + [if HomeTaken(h, key, rs, |rs| - 1) then 0 else 1]
  {
    hide Hashes.NewSlot;
    var n := |rs| - 1;
    SlotsInRange(h, key, rs[n].service, rs[n].source);
    var sl := Home(h, key, rs[n]);
    assert was.cells[sl] != -1 <==> HomeTaken(h, key, rs, n) by {
      if was.cells[sl] != -1 { assert Home(h, key, rs[was.cells[sl]]) == sl; }
    }
    hide Home;
    forall c | 0 <= c < NEW_CELLS && s.cells[c] != -1 ensures !HomeTaken(h, key, rs, s.cells[c]) {
      if s.cells[c] != n { SameHomes(h, key, rs, n, s.cells[c]); }
    }
  }

  predicate Takes(h: Hashes, key: nat, rs: seq<Record>, refs: Refs, bucket: nat, n: int)
    requires |refs.cells| == NEW_CELLS && |refs.counts| == |rs| && bucket < NEW_BUCKET_COUNT
  {
    && 0 <= n < |rs| && refs.counts[n] < NEW_BUCKETS_PER_ADDRESS
    && refs.cells[Cell(bucket, h.NewPosition(key, rs[n].service, bucket))] == -1
  }

  /** A written reference to an entry: it is restored if its cell is free and the entry may have one more. */
  function RowRef(h: Hashes, key: nat, rs: seq<Record>, refs: Refs, bucket: nat, n: int): (s: Refs)
    requires |refs.cells| == NEW_CELLS && |refs.counts| == |rs| && bucket < NEW_BUCKET_COUNT
    ensures |s.cells| == NEW_CELLS && |s.counts| == |rs| && (CountsOk(refs.counts) ==> CountsOk(s.counts))
  {
    if Takes(h, key, rs, refs, bucket, n) then
      Refs(refs.cells[Cell(bucket, h.NewPosition(key, rs[n].service, bucket)) := n], refs.counts[n := refs.counts[n] + 1])
    else refs
  }

  function RowRefs(h: Hashes, key: nat, rs: seq<Record>, refs: Refs, bucket: nat, row: seq<int>): (s: Refs)
    requires |refs.cells| == NEW_CELLS && |refs.counts| == |rs| && bucket < NEW_BUCKET_COUNT
    ensures |s.cells| == NEW_CELLS && |s.counts| == |rs| && (CountsOk(refs.counts) ==> CountsOk(s.counts))
    decreases |row|
  {
    if row == [] then refs
    else RowRef(h, key, rs, RowRefs(h, key, rs, refs, bucket, row[..|row| - 1]), bucket, row[|row| - 1])
  }

  function BucketRefs(h: Hashes, key: nat, rs: seq<Record>, buckets: seq<seq<int>>, count: nat): (s: Refs)
    requires count <= |buckets| && count <= NEW_BUCKET_COUNT
    ensures |s.cells| == NEW_CELLS && |s.counts| == |rs| && CountsOk(s.counts)
    decreases count
  {
    if count == 0 then NoRefs(|rs|)
    else RowRefs(h, key, rs, BucketRefs(h, key, rs, buckets, count - 1), count - 1, buckets[count - 1])
  }

  /** The references after reading all new records and so many buckets. */
  function ReadRefs(h: Hashes, data: Data, rs: seq<Record>, count: nat): (s: Refs)
    requires Current(data) ==> count <= |data.buckets| && count <= NEW_BUCKET_COUNT
    ensures |s.cells| == NEW_CELLS && |s.counts| == |rs| && CountsOk(s.counts)
  {
    if Current(data) then BucketRefs(h, data.key, rs, data.buckets, count) else HomeRefs(h, data.key, rs)
  }

  /** One more new record. */
  lemma ReadRefsNext(h: Hashes, data: Data, rs: seq<Record>, r: Record)
    ensures var refs := ReadRefs(h, data, rs, 0);
      ReadRefs(h, data, rs + [r], 0)
      == if Current(data) then Refs(refs.cells, refs.counts + [0]) else HomeRef(h, data.key, refs, r)
  {
    assert (rs + [r])[..|rs|] == rs;
    if Current(data) {
      assert NoRefs(|rs| + 1).cells == NoRefs(|rs|).cells;
      assert NoRefs(|rs| + 1).counts == NoRefs(|rs|).counts + [0];
    }
  }

  // ---------------------------------------------------------------------------------------------
  // Which streams are good
  // ---------------------------------------------------------------------------------------------

  function FinalRefs(h: Hashes, data: Data): (s: Refs)
    requires 0 <= data.nNew && !Truncated(data)
    ensures |s.cells| == NEW_CELLS && |s.counts| == data.nNew && CountsOk(s.counts)
  {
    ReadRefs(h, data, data.newRecords[..data.nNew], if Current(data) then NEW_BUCKET_COUNT else 0)
  }

  /** A new entry survives if it has got a reference; a tried one does in any case. */
  predicate Survives(counts: seq<int>, k: nat) { k < |counts| ==> counts[k] != 0 }

  /** A tried row must have had a success. */
  predicate TimesOf(rows: seq<Record>, counts: seq<int>, k: nat)
    requires k < |rows|
  {
    rows[k].lastSuccess >= 0 && (k >= |counts| ==> rows[k].lastSuccess != 0)
  }

  /** A row that can stand in a consistent manager, among others. */
  predicate SoundRow(rows: seq<Record>, counts: seq<int>, k: nat)
    requires k < |rows|
  {
    && TimesOf(rows, counts, k)
    && forall j :: 0 <= j < |rows| && j != k ==> rows[j].service.ip != rows[k].service.ip
  }

  predicate SoundRows(rows: seq<Record>, counts: seq<int>)
  {
    forall k :: 0 <= k < |rows| && Survives(counts, k) ==> SoundRow(rows, counts, k)
  }

  /** The streams that give a consistent manager: no negative count, and every entry that survives has an
      address unlike all others that are read and sensible times. */
  predicate Loadable(h: Hashes, data: Data)
    requires !Truncated(data)
  {
    0 <= data.nNew && 0 <= data.nTried && SoundRows(Rows(h, data), FinalRefs(h, data).counts)
  }

  /** Streams that leave nothing behind when reading them fails. */
  predicate NothingEntered(data: Data)
  {
    Refused(data) || (data.nNew <= 0 && (data.nTried <= 0 || data.triedRecords == []))
  }

  // ---------------------------------------------------------------------------------------------
  // A manager being filled
  // ---------------------------------------------------------------------------------------------

  ghost function UpTo(n: int): (s: set<int>)
    ensures forall i :: i in s <==> 0 <= i < n
  {
    if n <= 0 then {} else UpTo(n - 1) + {n - 1}
  }

  lemma {:induction false} CountUpTo(n: nat)
    ensures |UpTo(n)| == n
  {
    if n > 0 { CountUpTo(n - 1); }
  }

  function CountAt(counts: seq<int>, id: int): int { if 0 <= id < |counts| then counts[id] else 0 }

  /** An entry as it was read: the first `nNew` are new, the rest tried. */
  ghost predicate RowAt(info: Infos, rows: seq<Record>, nNew: int, counts: seq<int>, id: int)
  {
    && id in info && 0 <= id < |rows| && Written(rows[id], info[id]) && (info[id].inTried <==> id >= nNew)
    && info[id].refCount == CountAt(counts, id) && info[id].lastTry == 0 && info[id].lastCountAttempt == 0
  }

  ghost predicate RowsOf(info: Infos, rows: seq<Record>, nNew: int, counts: seq<int>)
  {
    && info.Keys == UpTo(|rows|)
    && forall id {:trigger RowAt(info, rows, nNew, counts, id)} | 0 <= id < |rows| :: RowAt(info, rows, nNew, counts, id)
  }

  ghost predicate HasName(info: Infos, addr: map<NetAddr, int>, id: int)
  {
    id in info && info[id].service.ip in addr && id <= addr[info[id].service.ip]
  }

  /** The address index leads to the last entry with each address. */
  ghost predicate LastNamed(info: Infos, addr: map<NetAddr, int>)
  {
    && (forall a <- addr :: addr[a] in info && info[addr[a]].service.ip == a)
    && (forall id {:trigger HasName(info, addr, id)} :: id in info ==> HasName(info, addr, id))
  }

  /** The random order and both tables are right, and entries and addresses are those that were read. */
  ghost predicate Shelved(m: CAddrMan, rows: seq<Record>, nNew: int, counts: seq<int>)
    reads m`mapInfo, m`mapAddr, m`vRandom, m`nKey, m.vvNew, m.vvTried
  {
    && m.Sized() && RandomOk(m.mapInfo, m.vRandom)
    && TriedOk(m.h, m.nKey, m.mapInfo, TableOf(m.vvTried[..])) && NewOk(m.h, m.nKey, m.mapInfo, TableOf(m.vvNew[..]))
    && RowsOf(m.mapInfo, rows, nNew, counts) && LastNamed(m.mapInfo, m.mapAddr)
  }

  lemma EnterListed(info: Infos, random: seq<int>, id: int, i: Info)
    requires RandomOk(info, random) && id !in info && i.randomPos == |random|
    ensures RandomOk(info[id := i], random + [id])
  {
    var after := info[id := i];
    forall x | x in after ensures Listed(after, random + [id], x) { if x != id { assert Listed(info, random, x); } }
  }

  lemma EnterName(info: Infos, addr: map<NetAddr, int>, id: int, i: Info)
    requires LastNamed(info, addr) && id !in info && forall x <- info :: x < id
    ensures LastNamed(info[id := i], addr[i.service.ip := id])
  {
    var after, names := info[id := i], addr[i.service.ip := id];
    forall x | x in after ensures HasName(after, names, x) { if x != id { assert HasName(info, addr, x); } }
  }

  lemma KeepNames(info: Infos, addr: map<NetAddr, int>, id: int, i: Info)
    requires LastNamed(info, addr) && id in info && i.service == info[id].service
    ensures LastNamed(info[id := i], addr)
  {
    var after := info[id := i];
    forall x | x in after ensures HasName(after, addr, x) { assert HasName(info, addr, x); }
  }

  lemma EnterRowOf(info: Infos, rows: seq<Record>, nNew: int, counts: seq<int>, r: Record, i: Info, more: seq<int>)
    requires RowsOf(info, rows, nNew, counts) && |counts| <= |rows|
    requires Written(r, i) && (i.inTried <==> |rows| >= nNew) && i.lastTry == 0 && i.lastCountAttempt == 0
    requires counts <= more && |more| <= |rows| + 1 && (forall k | |counts| <= k < |rows| && k < |more| :: more[k] == 0)
    requires i.refCount == CountAt(more, |rows|)
    ensures RowsOf(info[|rows| := i], rows + [r], nNew, more)
  {
    var after, all := info[|rows| := i], rows + [r];
    forall id | 0 <= id < |all| ensures RowAt(after, all, nNew, more, id) {
      if id < |rows| { assert RowAt(info, rows, nNew, counts, id); }
    }
    assert UpTo(|rows|) + {|rows|} == UpTo(|rows| + 1);
  }

  lemma RecountRowOf(info: Infos, rows: seq<Record>, nNew: int, counts: seq<int>, id: int, count: int)
    requires RowsOf(info, rows, nNew, counts) && 0 <= id < |counts| <= |rows|
    ensures id in info && info[id].refCount == counts[id]
    ensures RowsOf(info[id := info[id].(refCount := count)], rows, nNew, counts[id := count])
  {
    assert RowAt(info, rows, nNew, counts, id);
    var after := info[id := info[id].(refCount := count)];
    var more := counts[id := count];
    forall x | 0 <= x < |rows| ensures RowAt(after, rows, nNew, more, x) {
      assert RowAt(info, rows, nNew, counts, x);
    }
    assert after.Keys == info.Keys;
  }

  lemma NextId(m: CAddrMan, rows: seq<Record>, nNew: int, counts: seq<int>)
    requires Shelved(m, rows, nNew, counts)
    ensures m.Sized() && m.mapInfo.Keys == UpTo(|rows|) && RandomOk(m.mapInfo, m.vRandom)
  {}

  /** A new record without a reference. */
  lemma EnterNew(m: CAddrMan, rows: seq<Record>, nNew: int, counts: seq<int>, r: Record)
    requires Shelved(m, rows, nNew, counts) && |counts| == |rows| < nNew
    ensures var n, i := |rows|, Loaded(r, |m.vRandom|);
            var after := m.mapInfo[n := i];
            && n !in m.mapInfo && RandomOk(after, m.vRandom + [n])
            && TriedOk(m.h, m.nKey, after, TableOf(m.vvTried[..])) && NewOk(m.h, m.nKey, after, TableOf(m.vvNew[..]))
            && RowsOf(after, rows + [r], nNew, counts + [0]) && LastNamed(after, m.mapAddr[r.service.ip := n])
  {
    hide RandomOk, TriedOk, NewOk, RowsOf, LastNamed, TableOf;
    NextId(m, rows, nNew, counts);
    var n, i := |rows|, Loaded(r, |m.vRandom|);
    EnterListed(m.mapInfo, m.vRandom, n, i);
    NewEntry(m.h, m.nKey, m.mapInfo, n, i, TableOf(m.vvTried[..]), TableOf(m.vvNew[..]));
    EnterRowOf(m.mapInfo, rows, nNew, counts, r, i, counts + [0]);
    EnterName(m.mapInfo, m.mapAddr, n, i);
  }

  /** The same with a reference in a free cell that belongs to it. */
  lemma EnterNewAt(m: CAddrMan, rows: seq<Record>, nNew: int, counts: seq<int>, r: Record, sl: nat)
    requires Shelved(m, rows, nNew, counts) && |counts| == |rows| < nNew
    requires sl < NEW_CELLS && m.vvNew[sl] == -1 && PlacedNew(m.h, m.nKey, r.service, sl)
    ensures var n, i := |rows|, Loaded(r, |m.vRandom|).(refCount := 1);
            var after := m.mapInfo[n := i];
            && n !in m.mapInfo && RandomOk(after, m.vRandom + [n])
            && TriedOk(m.h, m.nKey, after, TableOf(m.vvTried[..]))
            && NewOk(m.h, m.nKey, after, TableOf(m.vvNew[..][sl := n]))
            && RowsOf(after, rows + [r], nNew, counts + [1]) && LastNamed(after, m.mapAddr[r.service.ip := n])
  {
    hide RandomOk, TriedOk, NewOk, RowsOf, LastNamed, TableOf;
    EnterNew(m, rows, nNew, counts, r);
    var n, i := |rows|, Loaded(r, |m.vRandom|);
    var mid, j := m.mapInfo[n := i], i.(refCount := 1);
    assert mid[n := j] == m.mapInfo[n := j];
    KeepRandom(mid, n, j, m.vRandom + [n]);
    KeepTried(m.h, m.nKey, mid, n, j, TableOf(m.vvTried[..]));
    FreeCell(m.vvNew[..], sl);
    WriteCell(m.vvNew[..], sl, n);
    ReferenceNewOk(m.h, m.nKey, mid, TableOf(m.vvNew[..]), sl, n);
    RecountRowOf(mid, rows + [r], nNew, counts + [0], n, 1);
    assert (counts + [0])[n := 1] == counts + [1];
    KeepNames(mid, m.mapAddr[r.service.ip := n], n, j);
  }

  lemma FreeCell(cells: seq<int>, sl: nat)
    requires sl < |cells|
    ensures sl in TableOf(cells) <==> cells[sl] != -1
  {}

  /** A tried record in the free cell that its hash gives it. */
  lemma EnterTried(m: CAddrMan, rows: seq<Record>, nNew: int, counts: seq<int>, r: Record)
    requires Shelved(m, rows, nNew, counts) && |counts| <= |rows| && nNew <= |rows|
    requires m.h.TriedSlot(m.nKey, r.service) < TRIED_CELLS && m.vvTried[m.h.TriedSlot(m.nKey, r.service)] == -1
    ensures var n, i, sl := |rows|, Loaded(r, |m.vRandom|).(inTried := true), m.h.TriedSlot(m.nKey, r.service);
            var after := m.mapInfo[n := i];
            && n !in m.mapInfo && RandomOk(after, m.vRandom + [n])
            && TriedOk(m.h, m.nKey, after, TableOf(m.vvTried[..][sl := n]))
            && NewOk(m.h, m.nKey, after, TableOf(m.vvNew[..]))
            && RowsOf(after, rows + [r], nNew, counts) && LastNamed(after, m.mapAddr[r.service.ip := n])
  {
    hide RandomOk, TriedOk, NewOk, RowsOf, LastNamed, TableOf, Hashes.TriedSlot;
    NextId(m, rows, nNew, counts);
    var n, i, sl := |rows|, Loaded(r, |m.vRandom|), m.h.TriedSlot(m.nKey, r.service);
    var mid, j := m.mapInfo[n := i], i.(inTried := true);
    assert mid[n := j] == m.mapInfo[n := j];
    NewEntry(m.h, m.nKey, m.mapInfo, n, i, TableOf(m.vvTried[..]), TableOf(m.vvNew[..]));
    FreeCell(m.vvTried[..], sl);
    WriteCell(m.vvTried[..], sl, n);
    SeatTriedOk(m.h, m.nKey, mid, TableOf(m.vvTried[..]), sl, n);
    UnseatNewOk(m.h, m.nKey, mid, TableOf(m.vvNew[..]), n, true);
    EnterListed(m.mapInfo, m.vRandom, n, j);
    EnterRowOf(m.mapInfo, rows, nNew, counts, r, j, counts);
    EnterName(m.mapInfo, m.mapAddr, n, j);
  }

  /** One more reference to a new entry, in a free cell that belongs to it. */
  lemma AddReference(m: CAddrMan, rows: seq<Record>, nNew: int, counts: seq<int>, id: int, sl: nat)
    requires Shelved(m, rows, nNew, counts) && 0 <= id < |counts| <= |rows| && id < nNew
    requires sl < NEW_CELLS && m.vvNew[sl] == -1 && PlacedNew(m.h, m.nKey, rows[id].service, sl)
    ensures id in m.mapInfo && m.mapInfo[id].refCount == counts[id] && m.mapInfo[id].service == rows[id].service
    ensures var after := m.mapInfo[id := m.mapInfo[id].(refCount := counts[id] + 1)];
            && RandomOk(after, m.vRandom) && TriedOk(m.h, m.nKey, after, TableOf(m.vvTried[..]))
            && NewOk(m.h, m.nKey, after, TableOf(m.vvNew[..][sl := id]))
            && RowsOf(after, rows, nNew, counts[id := counts[id] + 1]) && LastNamed(after, m.mapAddr)
  {
    hide RandomOk, TriedOk, NewOk, LastNamed, TableOf;
    assert RowAt(m.mapInfo, rows, nNew, counts, id);
    RecountRowOf(m.mapInfo, rows, nNew, counts, id, counts[id] + 1);
    hide RowsOf;
    var i := m.mapInfo[id].(refCount := counts[id] + 1);
    KeepRandom(m.mapInfo, id, i, m.vRandom);
    KeepTried(m.h, m.nKey, m.mapInfo, id, i, TableOf(m.vvTried[..]));
    FreeCell(m.vvNew[..], sl);
    WriteCell(m.vvNew[..], sl, id);
    ReferenceNewOk(m.h, m.nKey, m.mapInfo, TableOf(m.vvNew[..]), sl, id);
    KeepNames(m.mapInfo, m.mapAddr, id, i);
  }

  /** A tried cell is taken exactly when a tried row hashes to it. */
  lemma TakenIff(m: CAddrMan, rows: seq<Record>, nNew: nat, counts: seq<int>, r: Record)
    requires Shelved(m, rows, nNew, counts) && nNew <= |rows| && m.h.TriedSlot(m.nKey, r.service) < TRIED_CELLS
    ensures m.vvTried[m.h.TriedSlot(m.nKey, r.service)] != -1 <==> SeatTaken(m.h, m.nKey, rows[nNew..], r)
  {
    hide RandomOk, NewOk, LastNamed, Hashes.TriedSlot;
    var sl := m.h.TriedSlot(m.nKey, r.service);
    FreeCell(m.vvTried[..], sl);
    if m.vvTried[sl] != -1 {
      var id := m.vvTried[sl];
      assert RowAt(m.mapInfo, rows, nNew, counts, id);
      assert rows[nNew..][id - nNew] == rows[id];
    }
    if SeatTaken(m.h, m.nKey, rows[nNew..], r) {
      var k :| 0 <= k < |rows[nNew..]| && m.h.TriedSlot(m.nKey, rows[nNew..][k].service) == sl;
      assert RowAt(m.mapInfo, rows, nNew, counts, nNew + k);
      assert Seated(m.h, m.nKey, m.mapInfo, TableOf(m.vvTried[..]), nNew + k);
    }
  }

  // ---------------------------------------------------------------------------------------------
  // After entries without references have been dropped
  // ---------------------------------------------------------------------------------------------

  ghost function Bare(info: Infos): set<int> { set id <- info | !info[id].inTried && info[id].refCount == 0 }

  ghost function Addresses(info: Infos, ids: set<int>): set<NetAddr>
  {
    set id <- ids | id in info :: info[id].service.ip
  }

  /** No entry that stays shares its address with another one, whether that stays or not. */
  ghost predicate Apart(info: Infos, dead: set<int>)
  {
    forall x, y :: x in info && x !in dead && y in info && x != y ==> info[x].service.ip != info[y].service.ip
  }

  /** Dropping entries takes their addresses out of the index, so that it is right for the others exactly
      if they shared none. */
  lemma AddrIff(info: Infos, addr: map<NetAddr, int>, dead: set<int>, rest: Infos)
    requires LastNamed(info, addr) && SameButPositions(info - dead, rest)
    ensures AddrOk(rest, addr - Addresses(info, dead)) <==> Apart(info, dead)
  {
    var left := addr - Addresses(info, dead);
    if AddrOk(rest, left) {
      forall x, y | x in info && x !in dead && y in info && x != y ensures info[x].service.ip != info[y].service.ip {
        assert x in rest && Alike((info - dead)[x], rest[x]);
        assert Named(rest, left, x);
        if y !in dead {
          assert y in rest && Alike((info - dead)[y], rest[y]);
          assert Named(rest, left, y);
        }
      }
    }
    if Apart(info, dead) { ApartNamed(info, addr, dead, rest); }
  }

  lemma ApartNamed(info: Infos, addr: map<NetAddr, int>, dead: set<int>, rest: Infos)
    requires LastNamed(info, addr) && SameButPositions(info - dead, rest) && Apart(info, dead)
    ensures AddrOk(rest, addr - Addresses(info, dead))
  {
    var left := addr - Addresses(info, dead);
    forall x | x in rest ensures Named(rest, left, x) {
      assert x in info && Alike((info - dead)[x], rest[x]);
      assert HasName(info, addr, x);
    }
    forall a <- left ensures left[a] in rest && rest[left[a]].service.ip == a {
      var z := addr[a];
      assert z in info && info[z].service.ip == a;
      assert z !in dead;
      assert Alike((info - dead)[z], rest[z]);
    }
  }

  lemma PrunedTried(h: Hashes, key: nat, info: Infos, triedTable: Table)
    requires TriedOk(h, key, info, triedTable)
    ensures TriedOk(h, key, info - Bare(info), triedTable)
  {
    var rest := info - Bare(info);
    forall x | x in rest ensures Seated(h, key, rest, triedTable, x) { assert Seated(h, key, info, triedTable, x); }
  }

  lemma PrunedNew(h: Hashes, key: nat, info: Infos, newTable: Table)
    requires NewOk(h, key, info, newTable)
    ensures NewOk(h, key, info - Bare(info), newTable)
  {
    var rest := info - Bare(info);
    forall x | x in rest ensures Counted(rest, newTable, x) { assert Counted(info, newTable, x); }
    forall sl <- newTable ensures newTable[sl] in rest {
      var id := newTable[sl];
      assert Counted(info, newTable, id) && sl in RefSlots(newTable, id);
    }
  }

  lemma PrunedKinds(info: Infos, rows: seq<Record>, nNew: nat, counts: seq<int>, rest: Infos)
    requires RowsOf(info, rows, nNew, counts) && nNew <= |rows| && SameButPositions(info - Bare(info), rest)
    ensures |NewIds(rest)| == nNew - |Bare(info)| && |TriedIds(rest)| == |rows| - nNew
  {
    hide RowsOf, SameButPositions, Bare;
    PrunedKind(info, rows, nNew, counts, rest);
    CountUpTo(nNew);
    CountUpTo(|rows|);
    assert Bare(info) <= UpTo(nNew) <= UpTo(|rows|);
    assert NewIds(rest) == UpTo(nNew) - Bare(info);
    assert TriedIds(rest) == UpTo(|rows|) - UpTo(nNew);
  }

  lemma PrunedKind(info: Infos, rows: seq<Record>, nNew: nat, counts: seq<int>, rest: Infos)
    requires RowsOf(info, rows, nNew, counts) && nNew <= |rows| && SameButPositions(info - Bare(info), rest)
    ensures Bare(info) <= UpTo(nNew) && rest.Keys == UpTo(|rows|) - Bare(info)
    ensures forall id <- rest :: rest[id].inTried <==> id >= nNew
  {
    hide Written;
    forall id | 0 <= id < |rows| ensures id in info && (info[id].inTried <==> id >= nNew) {
      assert RowAt(info, rows, nNew, counts, id);
    }
    forall id | id in rest ensures id in info && id !in Bare(info) && rest[id].inTried == info[id].inTried {
      assert Alike((info - Bare(info))[id], rest[id]);
    }
  }

  lemma PrunedEntries(info: Infos, rows: seq<Record>, counts: seq<int>, rest: Infos)
    requires RowsOf(info, rows, |counts|, counts) && |counts| <= |rows| && CountsOk(counts)
    requires SameButPositions(info - Bare(info), rest)
    ensures forall k | 0 <= k < |rows| :: k in rest <==> Survives(counts, k)
    ensures EntriesOk(rest, {}) <==> forall k | 0 <= k < |rows| && Survives(counts, k) :: TimesOf(rows, counts, k)
  {
    forall k | 0 <= k < |rows|
      ensures k in rest <==> Survives(counts, k)
      ensures k in rest ==> rest[k].lastSuccess == rows[k].lastSuccess && rest[k].lastTry == 0
      ensures k in rest ==> rest[k].inTried == (k >= |counts|) && rest[k].refCount == CountAt(counts, k)
    {
      assert RowAt(info, rows, |counts|, counts, k);
      if k in rest { assert Alike((info - Bare(info))[k], rest[k]); }
    }
  }

  /** The entries after reading: the rows that survive, with what was written of them. */
  ghost predicate Arrived(info: Infos, rows: seq<Record>, counts: seq<int>)
  {
    && (forall k <- info :: 0 <= k < |rows|)
    && (forall k | 0 <= k < |rows| :: k in info <==> k >= |counts| || counts[k] != 0)
    && (forall k <- info :: Written(rows[k], info[k]) && (info[k].inTried <==> k >= |counts|) && info[k].refCount == CountAt(counts, k))
  }

  lemma RowsArrived(info: Infos, rows: seq<Record>, counts: seq<int>, rest: Infos)
    requires RowsOf(info, rows, |counts|, counts) && |counts| <= |rows| && SameButPositions(info - Bare(info), rest)
    ensures Arrived(rest, rows, counts)
  {
    forall k | 0 <= k < |rows|
      ensures k in rest <==> k >= |counts| || counts[k] != 0
      ensures k in rest ==>
        Written(rows[k], rest[k]) && (rest[k].inTried <==> k >= |counts|) && rest[k].refCount == CountAt(counts, k)
    {
      assert RowAt(info, rows, |counts|, counts, k);
      if k in rest { assert Alike((info - Bare(info))[k], rest[k]); }
    }
  }

  lemma ApartRows(info: Infos, rows: seq<Record>, counts: seq<int>)
    requires RowsOf(info, rows, |counts|, counts) && |counts| <= |rows|
    ensures Apart(info, Bare(info)) <==>
      forall k, j | 0 <= k < |rows| && Survives(counts, k) && 0 <= j < |rows| && j != k ::
        rows[j].service.ip != rows[k].service.ip
  {
    forall k | 0 <= k < |rows|
      ensures k in info && info[k].service == rows[k].service && (k in Bare(info) <==> !Survives(counts, k))
    {
      assert RowAt(info, rows, |counts|, counts, k);
    }
  }

  lemma SoundIff(rows: seq<Record>, counts: seq<int>)
    ensures SoundRows(rows, counts) <==>
      && (forall k | 0 <= k < |rows| && Survives(counts, k) :: TimesOf(rows, counts, k))
      && (forall k, j | 0 <= k < |rows| && Survives(counts, k) && 0 <= j < |rows| && j != k ::
            rows[j].service.ip != rows[k].service.ip)
  {
    if SoundRows(rows, counts) {
      forall k | 0 <= k < |rows| && Survives(counts, k)
        ensures TimesOf(rows, counts, k)
        ensures forall j | 0 <= j < |rows| && j != k :: rows[j].service.ip != rows[k].service.ip
      {
        assert SoundRow(rows, counts, k);
      }
    }
  }

  /** What was read is consistent, once entries without references are gone, exactly if the rows are sound. */
  lemma ConsistentIff(m: CAddrMan, info: Infos, addr: map<NetAddr, int>, rows: seq<Record>, counts: seq<int>)
    requires m.Sized() && RandomOk(m.mapInfo, m.vRandom) && SameButPositions(info - Bare(info), m.mapInfo)
    requires m.mapAddr == addr - Addresses(info, Bare(info)) && LastNamed(info, addr)
    requires TriedOk(m.h, m.nKey, info, TableOf(m.vvTried[..])) && NewOk(m.h, m.nKey, info, TableOf(m.vvNew[..]))
    requires RowsOf(info, rows, |counts|, counts) && |counts| <= |rows| == m.nIdCount && CountsOk(counts)
    requires m.nNew == |counts| - |Bare(info)| && m.nTried == |rows| - |counts|
    ensures m.Check() <==> SoundRows(rows, counts)
  {
    hide RandomOk, AddrOk, TriedOk, NewOk, EntriesOk, TriedIds, NewIds, TableOf, LastNamed, Bare, Addresses, Apart,
         SoundRows, CountsOk, Survives, TimesOf;
    var rest := m.mapInfo;
    PrunedTried(m.h, m.nKey, info, TableOf(m.vvTried[..]));
    PrunedNew(m.h, m.nKey, info, TableOf(m.vvNew[..]));
    RepositionedTried(m.h, m.nKey, info - Bare(info), rest, TableOf(m.vvTried[..]));
    RepositionedNew(m.h, m.nKey, info - Bare(info), rest, TableOf(m.vvNew[..]));
    PrunedKinds(info, rows, |counts|, counts, rest);
    PrunedEntries(info, rows, counts, rest);
    AddrIff(info, addr, Bare(info), rest);
    ApartRows(info, rows, counts);
    SoundIff(rows, counts);
    assert forall id <- rest :: 0 <= id < m.nIdCount;
  }
}
