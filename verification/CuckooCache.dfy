/** The cuckoo cache of verified signatures: bounded displacement over eight hash locations, two ageing
    epochs and lazy erasure. Writers are sequential, as the cache demands of its callers. */
module CuckooCache {
  import opened Numbers
  import opened Options

  /** A slot of the table: its element, whether it is to be kept, and whether it is of the live epoch. */
  datatype Slot = Slot(elem: nat, kept: bool, recent: bool)

  /** The depth limit fixes the size of the table; the hash maps a selector and an element to a word. */
  datatype Shape = Shape(depthLimit: nat, hash: (nat, nat) -> nat)

  datatype Cache = Cache(slots: seq<Slot>, counter: nat)

  const HASHES := 8
  const WORD := 0x1_0000_0000
  const INVALID := WORD - 1

  /** The element a fresh table is filled with. */
  const EMPTY := 0

  function Size(h: Shape): (r: nat)
    ensures r > 0
  {
    PowPositive(2, h.depthLimit);
    Pow(2, h.depthLimit)
  }

  /** Sizes that 32-bit indices can number. */
  predicate Fits(h: Shape) { 1 <= h.depthLimit <= 31 }

  function EpochSize(h: Shape): (r: nat)
    ensures r >= 1
  {
    var e := 45 * Size(h) % WORD / 100;
    if e < 1 then 1 else e
  }

  /** The largest number of kept elements that one epoch can reach. */
  function EpochBound(h: Shape): nat
  {
    EpochSize(h) + if EpochSize(h) / 16 < 1 then 1 else EpochSize(h) / 16
  }

  // ---------------------------------------------------------------------------------------------
  // Locations
  // ---------------------------------------------------------------------------------------------

  function Loc(h: Shape, k: nat, e: nat): (i: nat)
    ensures i < Size(h)
  {
    h.hash(k, e) % Size(h)
  }

  /** Is slot `i` one of the eight locations of `e`? */
  predicate Home(h: Shape, e: nat, i: nat) { exists k {:trigger Loc(h, k, e)} :: 0 <= k < HASHES && Loc(h, k, e) == i }

  predicate Contains(h: Shape, s: seq<Slot>, e: nat)
    requires |s| == Size(h)
  {
    exists k {:trigger Loc(h, k, e)} :: 0 <= k < HASHES && s[Loc(h, k, e)].elem == e
  }

  /** The first selector from `k` on whose slot holds `e`. */
  function Find(h: Shape, s: seq<Slot>, e: nat, k: nat): (r: nat)
    requires |s| == Size(h) && k <= HASHES
    ensures k <= r <= HASHES
    ensures r < HASHES ==> s[Loc(h, r, e)].elem == e
    ensures forall j {:trigger Loc(h, j, e)} :: k <= j < r ==> s[Loc(h, j, e)].elem != e
    decreases HASHES - k
  {
    if k == HASHES || s[Loc(h, k, e)].elem == e then k else Find(h, s, e, k + 1)
  }

  /** The first selector from `k` on whose slot may be overwritten. */
  function FindFree(h: Shape, s: seq<Slot>, e: nat, k: nat): (r: nat)
    requires |s| == Size(h) && k <= HASHES
    ensures k <= r <= HASHES
    ensures r < HASHES ==> !s[Loc(h, r, e)].kept
    ensures forall j {:trigger Loc(h, j, e)} :: k <= j < r ==> s[Loc(h, j, e)].kept
    decreases HASHES - k
  {
    if k == HASHES || !s[Loc(h, k, e)].kept then k else FindFree(h, s, e, k + 1)
  }

  /** The first selector from `k` on that leads to slot `last`. */
  function FindLoc(h: Shape, e: nat, last: nat, k: nat): (r: nat)
    requires k <= HASHES
    ensures k <= r <= HASHES
    decreases HASHES - k
  {
    if k == HASHES || Loc(h, k, e) == last then k else FindLoc(h, e, last, k + 1)
  }

  /** The slot whose element makes room: the one after the slot looked at last. */
  function Victim(h: Shape, e: nat, last: nat): (i: nat)
    ensures i < Size(h)
  {
    Loc(h, (1 + FindLoc(h, e, last, 0)) % HASHES, e)
  }

  lemma {:induction false} FindLocAt(h: Shape, e: nat, last: nat, k: nat)
    requires k <= HASHES
    ensures var r := FindLoc(h, e, last, k);
      && (r < HASHES ==> Loc(h, r, e) == last)
      && forall j {:trigger Loc(h, j, e)} :: k <= j < r ==> Loc(h, j, e) != last
    decreases HASHES - k
  {
    if k < HASHES { FindLocAt(h, e, last, k + 1); }
  }

  /** The element put in last is the next to be moved exactly when the first of its slot's selectors is
      followed by another one of the same slot. */
  lemma LastMovesIff(h: Shape, e: nat, last: nat)
    ensures Victim(h, e, last) == last <==>
      exists k {:trigger Loc(h, k, e)} :: 0 <= k < HASHES - 1 && Loc(h, k, e) == last && Loc(h, k + 1, e) == last
        && forall j {:trigger Loc(h, j, e)} :: 0 <= j < k ==> Loc(h, j, e) != last
  {
    hide Loc, FindLoc;
    FindLocAt(h, e, last, 0);
  }

  /** It can: an element whose first two selectors agree, and no others, is moved out of that slot. */
  lemma LastCanMove(x: nat)
    requires x < 32
    ensures Victim(Shape(5, (k: nat, e: nat) => if k < 2 then e else e + k), x, x) == x
  {
    var h := Shape(5, (k: nat, e: nat) => if k < 2 then e else e + k);
    assert Pow(2, 5) == 2 * Pow(2, 4) && Pow(2, 4) == 16;
    assert Loc(h, 0, x) == x && Loc(h, 1, x) == x;
    LastMovesIff(h, x, x);
  }

  /** The first slot to be taken is the second location. */
  lemma SecondLocationFirst(h: Shape, e: nat)
    requires Fits(h)
    ensures Victim(h, e, INVALID) == Loc(h, 1, e)
  {
    hide Loc;
    FindLocAt(h, e, INVALID, 0);
    SizeBelow(h.depthLimit);
  }

  lemma SizeBelow(d: nat)
    requires d <= 31
    ensures Pow(2, d) < INVALID
  {
    Pow2Of32();
    PowGrows(2, d, 31);
  }

  lemma FindIsContains(h: Shape, s: seq<Slot>, e: nat)
    requires |s| == Size(h)
    ensures Find(h, s, e, 0) < HASHES <==> Contains(h, s, e)
  {}

  // ---------------------------------------------------------------------------------------------
  // Operations
  // ---------------------------------------------------------------------------------------------

  function Sum(s: seq<Slot>, f: Slot -> nat): nat
  {
    if s == [] then 0 else Sum(s[..|s| - 1], f) + f(s[|s| - 1])
  }

  lemma SumPart(s: seq<Slot>, i: nat, f: Slot -> nat)
    requires i <= |s|
    ensures i < |s| ==> Sum(s[..i + 1], f) == Sum(s[..i], f) + f(s[i])
    ensures Sum(s[..0], f) == 0
  {
    if i < |s| { assert s[..i + 1][..i] == s[..i]; }
  }

  const Live: Slot -> nat := (x: Slot) => if x.kept && x.recent then 1 else 0
  const Dying: Slot -> nat := (x: Slot) => if x.kept && !x.recent then 1 else 0
  const Kept: Slot -> nat := (x: Slot) => if x.kept then 1 else 0

  function Holds(e: nat): Slot -> nat { (x: Slot) => if x.kept && x.elem == e then 1 else 0 }
  function HoldsLive(e: nat): Slot -> nat { (x: Slot) => if x.kept && x.recent && x.elem == e then 1 else 0 }

  function Fresh(n: nat): (s: seq<Slot>)
    ensures |s| == n && forall i :: 0 <= i < n ==> s[i] == Slot(EMPTY, false, false)
  {
    seq(n, i => Slot(EMPTY, false, false))
  }

  function Setup(h: Shape): (c: Cache)
    ensures |c.slots| == Size(h)
  {
    Cache(Fresh(Size(h)), EpochSize(h))
  }

  /** The old epoch becomes collectable and the live one becomes the old one. */
  function Aged(s: seq<Slot>): (r: seq<Slot>)
    ensures |r| == |s|
    ensures forall i :: 0 <= i < |s| ==> r[i] == Slot(s[i].elem, s[i].kept && s[i].recent, false)
  {
    seq(|s|, i requires 0 <= i < |s| => Slot(s[i].elem, s[i].kept && s[i].recent, false))
  }

  function Max(a: nat, b: nat): nat { if a < b then b else a }

  function EpochCheck(h: Shape, c: Cache): (r: Cache)
    ensures |r.slots| == |c.slots|
  {
    if c.counter != 0 then c.(counter := c.counter - 1)
    else
      var live := Sum(c.slots, Live);
      if live >= EpochSize(h) then Cache(Aged(c.slots), EpochSize(h))
      else c.(counter := Max(1, Max(EpochSize(h) / 16, EpochSize(h) - live)))
  }

  datatype Placed = Placed(slots: seq<Slot>, dropped: Option<Slot>)

  /** Puts `e` in a free slot of its own, or displaces an element and goes on with that one, at most
      `depth` times. */
  function Place(h: Shape, s: seq<Slot>, e: nat, recent: bool, last: nat, depth: nat): (r: Placed)
    requires |s| == Size(h)
    ensures |r.slots| == Size(h)
    decreases depth
  {
    if depth == 0 then Placed(s, Some(Slot(e, true, recent)))
    else
      var k := FindFree(h, s, e, 0);
      if k < HASHES then Placed(s[Loc(h, k, e) := Slot(e, true, recent)], None)
      else
        var i := Victim(h, e, last);
        Place(h, s[i := Slot(e, s[i].kept, recent)], s[i].elem, s[i].recent, i, depth - 1)
  }

  /** An insertion, without the ageing that precedes it. */
  function Enter(h: Shape, s: seq<Slot>, e: nat): (r: Placed)
    requires |s| == Size(h)
    ensures |r.slots| == Size(h)
  {
    var k := Find(h, s, e, 0);
    if k < HASHES then Placed(s[Loc(h, k, e) := Slot(e, true, true)], None)
    else Place(h, s, e, true, INVALID, h.depthLimit)
  }

  function Insert(h: Shape, c: Cache, e: nat): (r: Cache)
    requires |c.slots| == Size(h)
    ensures |r.slots| == Size(h)
  {
    var c1 := EpochCheck(h, c);
    c1.(slots := Enter(h, c1.slots, e).slots)
  }

  /** A lookup that lets the element found be collected. */
  function Erase(h: Shape, c: Cache, e: nat): (r: Cache)
    requires |c.slots| == Size(h)
    ensures |r.slots| == Size(h)
  {
    var k := Find(h, c.slots, e, 0);
    if k < HASHES then
      var i := Loc(h, k, e);
      c.(slots := c.slots[i := c.slots[i].(kept := false)])
    else c
  }

  // ---------------------------------------------------------------------------------------------
  // Counting
  // ---------------------------------------------------------------------------------------------

  lemma {:induction false} SumUpdate(s: seq<Slot>, i: nat, x: Slot, f: Slot -> nat)
    requires i < |s|
    ensures Sum(s[i := x], f) == Sum(s, f) - f(s[i]) + f(x)
  {
    var k := |s| - 1;
    if i < k {
      SumUpdate(s[..k], i, x, f);
      assert s[i := x][..k] == s[..k][i := x];
    } else {
      assert s[i := x][..k] == s[..k];
    }
  }

  lemma {:induction false} KeptSplit(s: seq<Slot>)
    ensures Sum(s, Kept) == Sum(s, Live) + Sum(s, Dying)
    ensures Sum(s, Kept) <= |s|
  {
    if s != [] { KeptSplit(s[..|s| - 1]); }
  }

  lemma {:induction false} KeptFull(s: seq<Slot>)
    requires forall i :: 0 <= i < |s| ==> s[i].kept
    ensures Sum(s, Kept) == |s|
  {
    if s != [] { KeptFull(s[..|s| - 1]); }
  }

  lemma {:induction false} NoneHeld(s: seq<Slot>, f: Slot -> nat)
    requires forall i :: 0 <= i < |s| ==> f(s[i]) == 0
    ensures Sum(s, f) == 0
  {
    if s != [] { NoneHeld(s[..|s| - 1], f); }
  }

  lemma {:induction false} SomeHeld(s: seq<Slot>, f: Slot -> nat) returns (i: nat)
    requires Sum(s, f) > 0
    ensures i < |s| && f(s[i]) > 0
  {
    i := |s| - 1;
    if f(s[i]) == 0 { i := SomeHeld(s[..i], f); }
  }

  lemma {:induction false} HeldCounts(s: seq<Slot>, i: nat, f: Slot -> nat)
    requires i < |s|
    ensures Sum(s, f) >= f(s[i])
  {
    if i < |s| - 1 { HeldCounts(s[..|s| - 1], i, f); }
  }

  /** Ageing turns every live element into a dying one. */
  lemma {:induction false} AgedSums(s: seq<Slot>)
    ensures Sum(Aged(s), Live) == 0 && Sum(Aged(s), Dying) == Sum(s, Live)
  {
    if s != [] {
      var k := |s| - 1;
      AgedSums(s[..k]);
      assert Aged(s)[..k] == Aged(s[..k]);
    }
  }

  // ---------------------------------------------------------------------------------------------
  // Displacement loses at most one element
  // ---------------------------------------------------------------------------------------------

  /** A weight that only kept slots carry. */
  ghost predicate OfKept(f: Slot -> nat) { forall x: Slot :: !x.kept ==> f(x) == 0 }

  function Weight(d: Option<Slot>, f: Slot -> nat): nat { if d.Some? then f(d.value) else 0 }

  /** Whatever is counted over the kept slots: a placement adds the new element and takes away the
      dropped one, and moves the others without loss and with their epochs. */
  lemma {:induction false} PlaceConserves(h: Shape, s: seq<Slot>, e: nat, recent: bool, last: nat, depth: nat,
                                          f: Slot -> nat)
    requires |s| == Size(h) && OfKept(f)
    ensures
      var r := Place(h, s, e, recent, last, depth);
      Sum(r.slots, f) + Weight(r.dropped, f) == Sum(s, f) + f(Slot(e, true, recent))
    decreases depth
  {
    hide Sum, Size, Loc, FindFree, FindLoc;
    if depth > 0 {
      var k := FindFree(h, s, e, 0);
      if k < HASHES {
        var free := s[Loc(h, k, e)];
        assert f(free) == 0;
        SumUpdate(s, Loc(h, k, e), Slot(e, true, recent), f);
      } else {
        var i := Victim(h, e, last);
        var x := s[i];
        assert x == Slot(x.elem, true, x.recent);
        SumUpdate(s, i, Slot(e, true, recent), f);
        PlaceConserves(h, s[i := Slot(e, true, recent)], x.elem, x.recent, i, depth - 1, f);
      }
    }
  }

  /** Nothing is dropped when the element has a free slot of its own. */
  lemma FreeSlotDropsNothing(h: Shape, s: seq<Slot>, e: nat, k: nat)
    requires |s| == Size(h) && Fits(h) && k < HASHES && !s[Loc(h, k, e)].kept
    ensures Enter(h, s, e).dropped == None
    ensures Contains(h, Enter(h, s, e).slots, e)
  {}

  /** The entry is counted once more, unless it was already kept where it was found. */
  lemma EnterConserves(h: Shape, s: seq<Slot>, e: nat, x: nat)
    requires |s| == Size(h)
    ensures
      var r := Enter(h, s, e);
      var again := Contains(h, s, e) && s[Loc(h, Find(h, s, e, 0), e)].kept;
      Sum(r.slots, Holds(x)) + Weight(r.dropped, Holds(x))
      == Sum(s, Holds(x)) + (if x == e && !again then 1 else 0)
  {
    var k := Find(h, s, e, 0);
    if k < HASHES {
      SumUpdate(s, Loc(h, k, e), Slot(e, true, true), Holds(x));
    } else {
      PlaceConserves(h, s, e, true, INVALID, h.depthLimit, Holds(x));
    }
  }

  // ---------------------------------------------------------------------------------------------
  // What is displaced, and when something is dropped
  // ---------------------------------------------------------------------------------------------

  /** Slot `i` comes after slot `last` among the locations of `e`: after the first selector that leads to
      `last`, the last one being followed by the first; or it is the second location, if none does. */
  predicate Follows(h: Shape, e: nat, last: nat, i: nat)
  {
    || (exists k {:trigger Loc(h, k, e)} :: 0 <= k < 8 && Loc(h, k, e) == last && i == Loc(h, if k == 7 then 0 else k + 1, e)
                                            && forall j {:trigger Loc(h, j, e)} :: 0 <= j < k ==> Loc(h, j, e) != last)
    || (i == Loc(h, 1, e) && forall k {:trigger Loc(h, k, e)} :: 0 <= k < 8 ==> Loc(h, k, e) != last)
  }

  /** No location of `e` may be overwritten. */
  predicate Crowded(h: Shape, s: seq<Slot>, e: nat)
    requires |s| == Size(h)
  {
    forall k {:trigger Loc(h, k, e)} :: 0 <= k < 8 ==> s[Loc(h, k, e)].kept
  }

  /** Selector `k` leads to the first location of `e` that may be overwritten. */
  predicate FirstFree(h: Shape, s: seq<Slot>, e: nat, k: nat)
    requires |s| == Size(h)
  {
    k < 8 && !s[Loc(h, k, e)].kept && forall j {:trigger Loc(h, j, e)} :: 0 <= j < k ==> s[Loc(h, j, e)].kept
  }

  /** The table after the first `n` of some elements took their slots, one after the other. */
  ghost function Moved(s: seq<Slot>, xs: seq<Slot>, at: seq<nat>, n: nat): (r: seq<Slot>)
    requires n <= |at| && n <= |xs| && forall j :: 0 <= j < |at| ==> at[j] < |s|
    ensures |r| == |s|
  {
    if n == 0 then s else Moved(s, xs, at, n - 1)[at[n - 1] := xs[n - 1]]
  }

  ghost function Before(last: nat, at: seq<nat>, n: nat): nat
    requires n <= |at|
  {
    if n == 0 then last else at[n - 1]
  }

  /** A displacement: the element has no location to spare, and takes the slot after the one taken before;
      the next element is the one found there. */
  ghost predicate Displaced(h: Shape, s: seq<Slot>, last: nat, xs: seq<Slot>, at: seq<nat>, j: nat)
    requires |s| == Size(h) && |xs| == |at| + 1 && j < |at| && forall i :: 0 <= i < |at| ==> at[i] < |s|
  {
    var t := Moved(s, xs, at, j);
    && Crowded(h, t, xs[j].elem) && Follows(h, xs[j].elem, Before(last, at, j), at[j])
    && xs[j + 1] == t[at[j]]
  }

  /** A chain of displacements that starts with an element. */
  ghost predicate Chain(h: Shape, s: seq<Slot>, x: Slot, last: nat, xs: seq<Slot>, at: seq<nat>)
    requires |s| == Size(h)
  {
    && |xs| == |at| + 1 && xs[0] == x && x.kept && (forall j :: 0 <= j < |at| ==> at[j] < |s|)
    && forall j {:trigger Displaced(h, s, last, xs, at, j)} :: 0 <= j < |at| ==> Displaced(h, s, last, xs, at, j)
  }

  /** An insertion without an element of that name in the table: a chain of displacements that either is as long
      as the limit, and drops its last element, or ends with an element that takes its first location to spare. */
  ghost predicate Displaces(h: Shape, s: seq<Slot>, x: Slot, last: nat, depth: nat, xs: seq<Slot>, at: seq<nat>,
                            slots: seq<Slot>, dropped: Option<Slot>)
    requires |s| == Size(h)
  {
    && Chain(h, s, x, last, xs, at) && |at| <= depth
    && var n := |at|;
       if n == depth then dropped == Some(xs[n]) && slots == Moved(s, xs, at, n)
       else dropped == None && exists k :: FirstFree(h, Moved(s, xs, at, n), xs[n].elem, k)
                                           && slots == Moved(s, xs, at, n)[Loc(h, k, xs[n].elem) := xs[n]]
  }

  lemma VictimFollows(h: Shape, e: nat, last: nat, i: nat)
    requires Follows(h, e, last, i)
    ensures Victim(h, e, last) == i
  {
    hide Loc, FindLoc;
    FindLocAt(h, e, last, 0);
  }

  lemma FollowsVictim(h: Shape, e: nat, last: nat)
    ensures Follows(h, e, last, Victim(h, e, last))
  {
    hide Loc, FindLoc;
    FindLocAt(h, e, last, 0);
  }

  lemma IsLocation(h: Shape, s: seq<Slot>, e: nat, last: nat, i: nat)
    requires |s| == Size(h) && Follows(h, e, last, i) && Crowded(h, s, e)
    ensures i < |s| && s[i].kept
  {
    hide Loc;
  }

  lemma FirstFreeFound(h: Shape, s: seq<Slot>, e: nat)
    requires |s| == Size(h)
    ensures var k := FindFree(h, s, e, 0); if Crowded(h, s, e) then k == 8 else FirstFree(h, s, e, k)
    ensures forall k :: FirstFree(h, s, e, k) ==> k == FindFree(h, s, e, 0)
  {
    hide Loc;
    forall k | FirstFree(h, s, e, k) ensures k == FindFree(h, s, e, 0) {
      assert s[Loc(h, k, e)] == s[Loc(h, k, e)];
    }
  }

  /** Placing goes along every chain. */
  lemma {:induction false} PlaceFollows(h: Shape, s: seq<Slot>, x: Slot, last: nat, depth: nat, xs: seq<Slot>, at: seq<nat>, n: nat)
    requires |s| == Size(h) && Chain(h, s, x, last, xs, at) && n <= |at| <= depth
    ensures xs[n].kept
    ensures Place(h, s, x.elem, x.recent, last, depth)
         == Place(h, Moved(s, xs, at, n), xs[n].elem, xs[n].recent, Before(last, at, n), depth - n)
  {
    hide Loc, Size, FindFree, Victim, Crowded, Follows, FirstFree;
    if n > 0 {
      var t := Moved(s, xs, at, n - 1);
      PlaceFollows(h, s, x, last, depth, xs, at, n - 1);
      assert Displaced(h, s, last, xs, at, n - 1);
      FirstFreeFound(h, t, xs[n - 1].elem);
      VictimFollows(h, xs[n - 1].elem, Before(last, at, n - 1), at[n - 1]);
      IsLocation(h, t, xs[n - 1].elem, Before(last, at, n - 1), at[n - 1]);
    }
  }

  /** Something is dropped exactly if a chain of displacements is as long as the limit, and then it is the
      element that was displaced last; otherwise the first element of the chain that has a location to spare
      takes it. */
  lemma PlaceDisplaces(h: Shape, s: seq<Slot>, x: Slot, last: nat, depth: nat, xs: seq<Slot>, at: seq<nat>)
    requires |s| == Size(h) && Chain(h, s, x, last, xs, at) && |at| <= depth
    requires |at| < depth ==> !Crowded(h, Moved(s, xs, at, |at|), xs[|at|].elem)
    ensures var r := Place(h, s, x.elem, x.recent, last, depth);
      Displaces(h, s, x, last, depth, xs, at, r.slots, r.dropped)
  {
    hide Loc, Size, FindFree, Victim, Crowded, Displaced;
    var n := |at|;
    PlaceFollows(h, s, x, last, depth, xs, at, n);
    if n < depth {
      FirstFreeFound(h, Moved(s, xs, at, n), xs[n].elem);
    }
  }

  /** And there is such a chain for every insertion. */
  lemma {:induction false} ChainExists(h: Shape, s: seq<Slot>, x: Slot, last: nat, depth: nat) returns (xs: seq<Slot>, at: seq<nat>)
    requires |s| == Size(h) && x.kept
    ensures Chain(h, s, x, last, xs, at) && |at| <= depth
    ensures |at| < depth ==> !Crowded(h, Moved(s, xs, at, |at|), xs[|at|].elem)
  {
    hide Loc, Size, Victim, Crowded, Follows;
    if depth == 0 {
      xs, at := [x], [];
    } else {
      xs, at := ChainExists(h, s, x, last, depth - 1);
      var n := |at|;
      var t := Moved(s, xs, at, n);
      if n == depth - 1 && Crowded(h, t, xs[n].elem) {
        ChainGrows(h, s, x, last, xs, at);
        var i := Victim(h, xs[n].elem, Before(last, at, n));
        xs, at := xs + [t[i]], at + [i];
      }
    }
  }

  lemma ChainGrows(h: Shape, s: seq<Slot>, x: Slot, last: nat, xs: seq<Slot>, at: seq<nat>)
    requires |s| == Size(h) && Chain(h, s, x, last, xs, at) && Crowded(h, Moved(s, xs, at, |at|), xs[|at|].elem)
    ensures var i := Victim(h, xs[|at|].elem, Before(last, at, |at|));
      Chain(h, s, x, last, xs + [Moved(s, xs, at, |at|)[i]], at + [i])
  {
    hide Loc, Size, Victim, Crowded, Follows;
    var n := |at|;
    var t := Moved(s, xs, at, n);
    var i := Victim(h, xs[n].elem, Before(last, at, n));
    FollowsVictim(h, xs[n].elem, Before(last, at, n));
    IsLocation(h, t, xs[n].elem, Before(last, at, n), i);
    var ys, bt := xs + [t[i]], at + [i];
    forall j | 0 <= j <= n ensures Displaced(h, s, last, ys, bt, j) {
      MovedAlike(s, xs, at, ys, bt, j);
      if j < n { assert Displaced(h, s, last, xs, at, j); }
    }
  }

  lemma {:induction false} MovedAlike(s: seq<Slot>, xs: seq<Slot>, at: seq<nat>, ys: seq<Slot>, bt: seq<nat>, n: nat)
    requires n <= |at| && n <= |xs| && xs <= ys && at <= bt
    requires forall j :: 0 <= j < |bt| ==> bt[j] < |s|
    ensures (forall j :: 0 <= j < |at| ==> at[j] < |s|) && Moved(s, ys, bt, n) == Moved(s, xs, at, n)
  {
    forall j | 0 <= j < |at| ensures at[j] < |s| { assert at[j] == bt[j]; }
    if n > 0 { MovedAlike(s, xs, at, ys, bt, n - 1); }
  }

  lemma DroppedIff(h: Shape, s: seq<Slot>, x: Slot, last: nat, depth: nat)
    requires |s| == Size(h) && x.kept
    ensures Place(h, s, x.elem, x.recent, last, depth).dropped.Some? <==>
      exists xs, at :: Chain(h, s, x, last, xs, at) && |at| == depth
  {
    hide Place, Chain, Crowded;
    var xs, at := ChainExists(h, s, x, last, depth);
    PlaceDisplaces(h, s, x, last, depth, xs, at);
    if ys, bt :| Chain(h, s, x, last, ys, bt) && |bt| == depth {
      PlaceDisplaces(h, s, x, last, depth, ys, bt);
    }
  }

  /** An element of a chain stands in the slot it took, unless a later one took the same. */
  lemma {:induction false} MovedAt(s: seq<Slot>, xs: seq<Slot>, at: seq<nat>, n: nat, j: nat)
    requires j < n <= |at| && n <= |xs| && forall k :: 0 <= k < |at| ==> at[k] < |s|
    requires forall k :: j < k < n ==> at[k] != at[j]
    ensures Moved(s, xs, at, n)[at[j]] == xs[j]
  {
    if j < n - 1 { MovedAt(s, xs, at, n - 1, j); }
  }

  /** All other slots are as they were. */
  lemma {:induction false} NotMoved(s: seq<Slot>, xs: seq<Slot>, at: seq<nat>, n: nat, i: nat)
    requires n <= |at| && n <= |xs| && i < |s| && forall k :: 0 <= k < |at| ==> at[k] < |s|
    requires forall k :: 0 <= k < n ==> at[k] != i
    ensures Moved(s, xs, at, n)[i] == s[i]
  {
    if n > 0 { NotMoved(s, xs, at, n - 1, i); }
  }

  /** Unless the limit is reached, every element of the chain is in the table afterwards: where it went, or where it
      went when it was displaced once more. */
  lemma {:induction false} ChainHeld(h: Shape, s: seq<Slot>, x: Slot, last: nat, depth: nat, xs: seq<Slot>, at: seq<nat>,
                                     slots: seq<Slot>, j: nat) returns (i: nat)
    requires |s| == Size(h) && Displaces(h, s, x, last, depth, xs, at, slots, None) && j <= |at|
    ensures i < |slots| && slots[i] == xs[j] && xs[j].kept
    decreases |at| - j
  {
    hide Loc, Size, Crowded, Follows, Displaced;
    var n := |at|;
    PlaceFollows(h, s, x, last, depth, xs, at, j);
    if j == n {
      var k :| FirstFree(h, Moved(s, xs, at, n), xs[n].elem, k)
               && slots == Moved(s, xs, at, n)[Loc(h, k, xs[n].elem) := xs[n]];
      i := Loc(h, k, xs[n].elem);
    } else if exists k :: j < k < n && at[k] == at[j] {
      var m := TakenAgain(s, xs, at, j, n);
      assert Displaced(h, s, last, xs, at, m);
      FoundThere(h, s, last, xs, at, m);
      i := ChainHeld(h, s, x, last, depth, xs, at, slots, m + 1);
    } else {
      i := at[j];
      MovedAt(s, xs, at, n, j);
      var k :| FirstFree(h, Moved(s, xs, at, n), xs[n].elem, k)
               && slots == Moved(s, xs, at, n)[Loc(h, k, xs[n].elem) := xs[n]];
    }
  }

  lemma FoundThere(h: Shape, s: seq<Slot>, last: nat, xs: seq<Slot>, at: seq<nat>, m: nat)
    requires |s| == Size(h) && |xs| == |at| + 1 && m < |at| && (forall i :: 0 <= i < |at| ==> at[i] < |s|)
    requires Displaced(h, s, last, xs, at, m)
    ensures xs[m + 1] == Moved(s, xs, at, m)[at[m]]
  {}

  lemma TakenAgain(s: seq<Slot>, xs: seq<Slot>, at: seq<nat>, j: nat, n: nat) returns (m: nat)
    requires j < n <= |at| && |at| <= |xs| && forall i :: 0 <= i < |at| ==> at[i] < |s|
    requires exists k :: j < k < n && at[k] == at[j]
    ensures j < m < n && at[m] == at[j] && Moved(s, xs, at, m)[at[m]] == xs[j]
  {
    m := j + 1;
    while at[m] != at[j]
      invariant j < m < n && (forall k :: j < k < m ==> at[k] != at[j]) && exists k :: m <= k < n && at[k] == at[j]
      decreases n - m
    {
      m := m + 1;
    }
    MovedAt(s, xs, at, m, j);
  }

  /** Selector `k` leads to the first location of `e` that holds it. */
  predicate FirstHolds(h: Shape, s: seq<Slot>, e: nat, k: nat)
    requires |s| == Size(h)
  {
    k < 8 && s[Loc(h, k, e)].elem == e && forall j {:trigger Loc(h, j, e)} :: 0 <= j < k ==> s[Loc(h, j, e)].elem != e
  }

  /** An insertion only marks an element that is already there, kept and of the live epoch; any other one starts a
      chain of displacements. */
  lemma EnterIs(h: Shape, s: seq<Slot>, e: nat) returns (xs: seq<Slot>, at: seq<nat>)
    requires |s| == Size(h)
    ensures var r := Enter(h, s, e);
      if exists k :: FirstHolds(h, s, e, k)
      then r.dropped == None && exists k :: FirstHolds(h, s, e, k) && r.slots == s[Loc(h, k, e) := Slot(e, true, true)]
      else Displaces(h, s, Slot(e, true, true), INVALID, h.depthLimit, xs, at, r.slots, r.dropped)
  {
    hide Place, Chain, Crowded, Displaces, Loc;
    xs, at := ChainExists(h, s, Slot(e, true, true), INVALID, h.depthLimit);
    PlaceDisplaces(h, s, Slot(e, true, true), INVALID, h.depthLimit, xs, at);
    var k := Find(h, s, e, 0);
    if k < 8 { assert FirstHolds(h, s, e, k); }
  }

  /** An erasing lookup makes the slot collectable in which it found the element, and changes nothing else; what has
      that location is then inserted without a displacement. */
  lemma EraseIs(h: Shape, c: Cache, e: nat)
    requires |c.slots| == Size(h) && Fits(h)
    ensures if exists k :: FirstHolds(h, c.slots, e, k)
            then exists k :: FirstHolds(h, c.slots, e, k) && Erase(h, c, e)
                               == Cache(c.slots[Loc(h, k, e) := Slot(e, false, c.slots[Loc(h, k, e)].recent)], c.counter)
            else Erase(h, c, e) == c
    ensures forall k, x, j :: FirstHolds(h, c.slots, e, k) && j < 8 && Loc(h, j, x) == Loc(h, k, e) ==>
      Enter(h, Erase(h, c, e).slots, x).dropped == None
  {
    hide Loc, Enter;
    var n := Find(h, c.slots, e, 0);
    if n < 8 { assert FirstHolds(h, c.slots, e, n); }
    forall k, x, j | FirstHolds(h, c.slots, e, k) && j < 8 && Loc(h, j, x) == Loc(h, k, e)
      ensures Enter(h, Erase(h, c, e).slots, x).dropped == None
    {
      assert k == n by { assert Loc(h, k, e) == Loc(h, k, e) && Loc(h, n, e) == Loc(h, n, e); }
      FreeSlotDropsNothing(h, Erase(h, c, e).slots, x, j);
    }
  }

  /** An epoch is 45% of the table, as far as 32 bits hold that, rounded down, and at least one. */
  lemma EpochSizeIs(h: Shape)
    ensures var share, e := 45 * Size(h) % 0x1_0000_0000, EpochSize(h);
      100 * e <= share < 100 * (e + 1) || (e == 1 && share < 100)
  {}

  // ---------------------------------------------------------------------------------------------
  // What every operation keeps
  // ---------------------------------------------------------------------------------------------

  /** An element stands at one of its own eight locations. */
  predicate Own(h: Shape, s: seq<Slot>, i: nat)
    requires i < |s|
  {
    s[i].kept || s[i].elem != EMPTY ==> Home(h, s[i].elem, i)
  }

  /** And it stands nowhere else. */
  predicate Distinct(s: seq<Slot>, i: nat, j: nat)
    requires i < |s| && j < |s|
  {
    i != j && s[i].elem == s[j].elem ==> s[i].elem == EMPTY
  }

  ghost predicate TableOk(h: Shape, s: seq<Slot>)
  {
    && |s| == Size(h)
    && (forall i {:trigger Own(h, s, i)} :: 0 <= i < |s| ==> Own(h, s, i))
    && (forall i, j {:trigger Distinct(s, i, j)} :: 0 <= i < |s| && 0 <= j < |s| ==> Distinct(s, i, j))
  }

  ghost predicate Absent(s: seq<Slot>, e: nat) { e == EMPTY || forall i :: 0 <= i < |s| ==> s[i].elem != e }

  lemma PutKeeps(h: Shape, s: seq<Slot>, i: nat, e: nat, x: Slot)
    requires TableOk(h, s) && Absent(s, e) && i < |s| && Home(h, e, i) && x.elem == e
    ensures TableOk(h, s[i := x])
    ensures Absent(s[i := x], s[i].elem)
  {
    var t := s[i := x];
    forall j | 0 <= j < |t| ensures Own(h, t, j) { assert Own(h, s, j); }
    forall j, k | 0 <= j < |t| && 0 <= k < |t| ensures Distinct(t, j, k) { assert Distinct(s, j, k); }
    forall j | 0 <= j < |t| ensures t[j].elem != s[i].elem || s[i].elem == EMPTY {
      assert Distinct(s, i, j);
    }
  }

  lemma {:induction false} PlaceKeeps(h: Shape, s: seq<Slot>, e: nat, recent: bool, last: nat, depth: nat)
    requires |s| == Size(h) && TableOk(h, s) && Absent(s, e)
    ensures TableOk(h, Place(h, s, e, recent, last, depth).slots)
    decreases depth
  {
    hide TableOk, Absent, Size, FindLoc;
    if depth > 0 {
      var k := FindFree(h, s, e, 0);
      if k < HASHES {
        PutKeeps(h, s, Loc(h, k, e), e, Slot(e, true, recent));
      } else {
        var i := Victim(h, e, last);
        PutKeeps(h, s, i, e, Slot(e, s[i].kept, recent));
        PlaceKeeps(h, s[i := Slot(e, s[i].kept, recent)], s[i].elem, s[i].recent, i, depth - 1);
      }
    }
  }

  lemma AbsentElsewhere(h: Shape, s: seq<Slot>, e: nat)
    requires TableOk(h, s) && !Contains(h, s, e)
    ensures Absent(s, e)
  {
    forall i | 0 <= i < |s| && s[i].elem == e ensures e == EMPTY {
      assert Own(h, s, i);
    }
  }

  lemma EnterKeeps(h: Shape, s: seq<Slot>, e: nat)
    requires TableOk(h, s)
    ensures TableOk(h, Enter(h, s, e).slots)
  {
    var k := Find(h, s, e, 0);
    if k < HASHES {
      FlagsKeep(h, s, Loc(h, k, e), Slot(e, true, true));
    } else {
      AbsentElsewhere(h, s, e);
      PlaceKeeps(h, s, e, true, INVALID, h.depthLimit);
    }
  }

  /** Flags may change freely, except that an element is only kept where it belongs. */
  lemma FlagsKeep(h: Shape, s: seq<Slot>, i: nat, x: Slot)
    requires TableOk(h, s) && i < |s| && x.elem == s[i].elem && (x.kept ==> s[i].kept || Home(h, x.elem, i))
    ensures TableOk(h, s[i := x])
  {
    var t := s[i := x];
    forall j | 0 <= j < |t| ensures Own(h, t, j) { assert Own(h, s, j); }
    forall j, k | 0 <= j < |t| && 0 <= k < |t| ensures Distinct(t, j, k) { assert Distinct(s, j, k); }
  }

  lemma AgedKeeps(h: Shape, s: seq<Slot>)
    requires TableOk(h, s)
    ensures TableOk(h, Aged(s))
  {
    var t := Aged(s);
    forall j | 0 <= j < |t| ensures Own(h, t, j) { assert Own(h, s, j); }
    forall j, k | 0 <= j < |t| && 0 <= k < |t| ensures Distinct(t, j, k) { assert Distinct(s, j, k); }
  }

  /** Neither epoch outgrows its bound: what the live one holds and the inserts until the next count
      fit together. `due` is one between the ageing and the placement of an insert. */
  ghost predicate LoadOk(h: Shape, c: Cache, due: nat)
  {
    Sum(c.slots, Live) + c.counter + due <= EpochBound(h) && Sum(c.slots, Dying) <= EpochBound(h)
  }

  ghost predicate Inv(h: Shape, c: Cache) { TableOk(h, c.slots) && LoadOk(h, c, 0) }

  lemma EpochCheckKeeps(h: Shape, c: Cache)
    requires Inv(h, c)
    ensures TableOk(h, EpochCheck(h, c).slots) && LoadOk(h, EpochCheck(h, c), 1)
  {
    AgedKeeps(h, c.slots);
    AgedSums(c.slots);
  }

  lemma EnterLoad(h: Shape, s: seq<Slot>, e: nat)
    requires |s| == Size(h)
    ensures Sum(Enter(h, s, e).slots, Live) <= Sum(s, Live) + 1
    ensures Sum(Enter(h, s, e).slots, Dying) <= Sum(s, Dying)
  {
    var k := Find(h, s, e, 0);
    if k < HASHES {
      SumUpdate(s, Loc(h, k, e), Slot(e, true, true), Live);
      SumUpdate(s, Loc(h, k, e), Slot(e, true, true), Dying);
    } else {
      PlaceConserves(h, s, e, true, INVALID, h.depthLimit, Live);
      PlaceConserves(h, s, e, true, INVALID, h.depthLimit, Dying);
    }
  }

  lemma InsertKeeps(h: Shape, c: Cache, e: nat)
    requires Inv(h, c)
    ensures Inv(h, Insert(h, c, e))
  {
    hide TableOk, Sum, Enter, EpochCheck, EpochBound;
    EpochCheckKeeps(h, c);
    var c1 := EpochCheck(h, c);
    assert TableOk(h, c1.slots);
    EnterKeeps(h, c1.slots, e);
    EnterLoad(h, c1.slots, e);
  }

  lemma EraseKeeps(h: Shape, c: Cache, e: nat)
    requires Inv(h, c)
    ensures Inv(h, Erase(h, c, e))
  {
    hide Sum, EpochBound;
    var k := Find(h, c.slots, e, 0);
    if k < HASHES {
      var i := Loc(h, k, e);
      var x := c.slots[i].(kept := false);
      FlagsKeep(h, c.slots, i, x);
      SumUpdate(c.slots, i, x, Live);
      SumUpdate(c.slots, i, x, Dying);
    }
  }

  lemma SetupInv(h: Shape)
    ensures Inv(h, Setup(h))
  {
    var s := Fresh(Size(h));
    NoneHeld(s, Live);
    NoneHeld(s, Dying);
    forall i | 0 <= i < |s| ensures Own(h, s, i) {}
    forall i, j | 0 <= i < |s| && 0 <= j < |s| ensures Distinct(s, i, j) {}
  }

  // ---------------------------------------------------------------------------------------------
  // Whole runs
  // ---------------------------------------------------------------------------------------------

  datatype Op = Insertion(e: nat) | Erasure(e: nat)

  function Step(h: Shape, c: Cache, op: Op): (r: Cache)
    requires |c.slots| == Size(h)
    ensures |r.slots| == Size(h)
  {
    match op
    case Insertion(e) => Insert(h, c, e)
    case Erasure(e) => Erase(h, c, e)
  }

  function Run(h: Shape, c: Cache, ops: seq<Op>): (r: Cache)
    requires |c.slots| == Size(h)
    ensures |r.slots| == Size(h)
  {
    if ops == [] then c else Step(h, Run(h, c, ops[..|ops| - 1]), ops[|ops| - 1])
  }

  lemma {:induction false} RunKeeps(h: Shape, c: Cache, ops: seq<Op>)
    requires Inv(h, c)
    ensures Inv(h, Run(h, c, ops))
  {
    hide Inv, Insert, Erase;
    assert |c.slots| == Size(h) by { SizeOf(h, c); }
    if ops != [] {
      var c1 := Run(h, c, ops[..|ops| - 1]);
      RunKeeps(h, c, ops[..|ops| - 1]);
      match ops[|ops| - 1] {
        case Insertion(e) => InsertKeeps(h, c1, e);
        case Erasure(e) => EraseKeeps(h, c1, e);
      }
    }
  }

  lemma SizeOf(h: Shape, c: Cache)
    requires Inv(h, c)
    ensures |c.slots| == Size(h)
  {}

  /** Two full epochs fit in the table exactly for tables of 32 slots and more. */
  lemma TwoEpochsFitIff(h: Shape)
    requires Fits(h)
    ensures 2 * EpochBound(h) < Size(h) <==> h.depthLimit >= 5
  {
    if h.depthLimit >= 5 {
      SizeGrows(h.depthLimit);
      EpochSizeBound(h);
      BoundFits(Size(h), EpochSize(h));
    } else {
      assert Pow(2, 1) == 2 && Pow(2, 2) == 4 && Pow(2, 3) == 8 && Pow(2, 4) == 16;
    }
  }

  lemma EpochSizeBound(h: Shape)
    requires Size(h) >= 32
    ensures 100 * EpochSize(h) <= 45 * Size(h)
  {
    hide Size;
    DivMod(45 * Size(h), WORD);
    DivMod(45 * Size(h) % WORD, 100);
  }

  lemma BoundFits(size: nat, e: nat)
    requires size >= 32 && 100 * e <= 45 * size
    ensures 2 * (e + if e / 16 < 1 then 1 else e / 16) < size
  {}

  lemma {:induction false} SizeGrows(d: nat)
    requires d >= 5
    ensures Pow(2, d) >= 32
  {
    if d > 5 { SizeGrows(d - 1); }
  }

  ghost predicate SomeFree(s: seq<Slot>) { exists i :: 0 <= i < |s| && !s[i].kept }

  /** In every run, whatever is inserted and erased, at most two epoch bounds are kept; from 32 slots on
      some slot is free at all times. */
  lemma RunNeverFills(h: Shape, ops: seq<Op>)
    requires Fits(h)
    ensures var s := Run(h, Setup(h), ops).slots;
      && Sum(s, Kept) <= 2 * EpochBound(h)
      && (h.depthLimit >= 5 ==> SomeFree(s))
  {
    hide Run, EpochBound, Size, Setup;
    SetupInv(h);
    RunKeeps(h, Setup(h), ops);
    var s := Run(h, Setup(h), ops).slots;
    KeptSplit(s);
    TwoEpochsFitIff(h);
    if forall i :: 0 <= i < |s| ==> s[i].kept { KeptFull(s); }
  }

  /** All eight locations are the element's own number, as far as the table reaches. */
  const Plain: (nat, nat) -> nat := (k: nat, x: nat) => x

  /** Insertions of the numbers from 1 on. */
  function Counting(n: nat): (ops: seq<Op>)
    ensures |ops| == n && forall i :: 0 <= i < n ==> ops[i] == Insertion(i + 1)
  {
    seq(n, i requires 0 <= i < n => Insertion(i + 1))
  }

  /** After `n` numbers, in a table of 2 `e` + 2 slots. The first epoch has `e` of them and the next ones
      have `e` + 1 each; `phase` says how often the table has aged. */
  ghost predicate Filled(e: nat, s: seq<Slot>, n: nat, phase: nat)
  {
    var size := 2 * e + 2;
    && |s| == size && (forall i :: 0 <= i < size ==> s[i].elem <= n)
    && (forall i :: 0 <= i < size ==> (s[i].kept <==> if phase < 2 then 1 <= i <= n else e < i <= 2 * e + 1 || i <= n - size))
    && (forall i :: 0 <= i < size && s[i].kept ==> (s[i].recent <==> if phase < 2 then phase * e < i else i <= n - size))
    && Sum(s, Live) == n - (if phase < 2 then phase * e else 2 * e + 1)
  }

  function Phase(e: nat, n: nat): nat { if n <= e then 0 else if n <= 2 * e + 1 then 1 else 2 }

  /** The number at which an epoch ends. */
  function PhaseEnd(e: nat, phase: nat): nat { if phase == 0 then e else if phase == 1 then 2 * e + 1 else 3 * e + 2 }

  lemma NextSlot(e: nat, n: nat)
    requires n < 3 * e + 2
    ensures (n + 1) % (2 * e + 2) == if n < 2 * e + 1 then n + 1 else n - 2 * e - 1
  {
    if n >= 2 * e + 1 { DivUnique(n + 1, 2 * e + 2, 1, n - 2 * e - 1); }
  }

  /** An element with a free slot of its own goes there. */
  lemma EnterFree(h: Shape, s: seq<Slot>, x: nat, i: nat)
    requires |s| == Size(h) && h.hash == Plain && h.depthLimit >= 1 && i == x % Size(h) && !s[i].kept && s[i].elem != x
    ensures Enter(h, s, x).slots == s[i := Slot(x, true, true)]
    ensures Sum(Enter(h, s, x).slots, Live) == Sum(s, Live) + 1
  {
    hide Size, Sum;
    assert forall k {:trigger Loc(h, k, x)} :: Loc(h, k, x) == i;
    SumUpdate(s, i, Slot(x, true, true), Live);
  }

  lemma FilledAges(e: nat, s: seq<Slot>, phase: nat)
    requires phase < 2 && Filled(e, s, PhaseEnd(e, phase), phase)
    ensures Filled(e, Aged(s), PhaseEnd(e, phase), phase + 1) && Sum(s, Live) >= e
  {
    hide Sum;
    AgedSums(s);
  }

  lemma FilledEnter(h: Shape, s: seq<Slot>, n: nat)
    requires h.hash == Plain && h.depthLimit >= 1 && Size(h) == 2 * EpochSize(h) + 2 && n < 3 * EpochSize(h) + 2
    requires Filled(EpochSize(h), s, n, Phase(EpochSize(h), n + 1))
    ensures Filled(EpochSize(h), Enter(h, s, n + 1).slots, n + 1, Phase(EpochSize(h), n + 1))
  {
    hide Size, EpochSize, Sum, Enter;
    var e := EpochSize(h);
    NextSlot(e, n);
    EnterFree(h, s, n + 1, (n + 1) % Size(h));
  }

  ghost predicate CountedUp(h: Shape, c: Cache, n: nat)
  {
    var e := EpochSize(h);
    Filled(e, c.slots, n, Phase(e, n)) && c.counter == PhaseEnd(e, Phase(e, n)) - n
  }

  lemma CountedStep(h: Shape, c: Cache, n: nat)
    requires h.hash == Plain && h.depthLimit >= 1 && Size(h) == 2 * EpochSize(h) + 2 && n < 3 * EpochSize(h) + 2
    requires CountedUp(h, c, n)
    ensures CountedUp(h, Insert(h, c, n + 1), n + 1)
  {
    hide Size, EpochSize, Sum, Enter, Aged, Filled;
    var e := EpochSize(h);
    if c.counter == 0 { FilledAges(e, c.slots, Phase(e, n)); }
    FilledEnter(h, EpochCheck(h, c).slots, n);
  }

  lemma {:induction false} CountingRun(h: Shape, n: nat)
    requires h.hash == Plain && h.depthLimit >= 1 && Size(h) == 2 * EpochSize(h) + 2 && n <= 3 * EpochSize(h) + 2
    ensures CountedUp(h, Run(h, Setup(h), Counting(n)), n)
  {
    hide Size, EpochSize, Insert;
    if n == 0 {
      NoneHeld(Setup(h).slots, Live);
    } else {
      CountingRun(h, n - 1);
      assert Counting(n)[..n - 1] == Counting(n - 1);
      CountedStep(h, Run(h, Setup(h), Counting(n - 1)), n - 1);
    }
  }

  lemma PairFills(h: Shape)
    requires h.depthLimit == 1 && h.hash == Plain
    ensures !SomeFree(Run(h, Setup(h), Counting(2)).slots)
  {
    assert Size(h) == 2 && EpochSize(h) == 1;
    var s := Fresh(2);
    NoneHeld(s, Live);
    EnterFree(h, s, 1, 1);
    var c := Insert(h, Setup(h), 1);
    assert c == Cache(s[1 := Slot(1, true, true)], 0);
    AgedSums(c.slots);
    EnterFree(h, Aged(c.slots), 2, 0);
    assert Counting(2)[..1] == Counting(1) && Counting(1)[..0] == [];
    assert Run(h, Setup(h), Counting(1)) == c;
  }

  /** Tables of 2, 4, 8 and 16 slots do fill up, by insertions alone. */
  lemma SmallTableFills(d: nat) returns (n: nat)
    requires 1 <= d <= 4
    ensures !SomeFree(Run(Shape(d, Plain), Setup(Shape(d, Plain)), Counting(n)).slots)
  {
    var h := Shape(d, Plain);
    assert Pow(2, 1) == 2 && Pow(2, 2) == 4 && Pow(2, 3) == 8 && Pow(2, 4) == 16;
    if d == 1 {
      n := 2;
      PairFills(h);
    } else {
      n := 3 * EpochSize(h) + 2;
      CountingRun(h, n);
    }
  }

  /** Whatever the hashes and whatever is inserted and erased, some slot is always free: exactly for
      tables of 32 slots and more. */
  lemma NeverFullIff(d: nat)
    requires 1 <= d <= 31
    ensures (forall hash, ops :: SomeFree(Run(Shape(d, hash), Setup(Shape(d, hash)), ops).slots)) <==> d >= 5
  {
    hide Run, Setup, SomeFree;
    if d >= 5 {
      forall hash, ops ensures SomeFree(Run(Shape(d, hash), Setup(Shape(d, hash)), ops).slots) {
        RunNeverFills(Shape(d, hash), ops);
      }
    } else {
      var n := SmallTableFills(d);
      assert !SomeFree(Run(Shape(d, Plain), Setup(Shape(d, Plain)), Counting(n)).slots);
    }
  }

  /** A kept element is found by a lookup. */
  lemma KeptIsFound(h: Shape, s: seq<Slot>, e: nat)
    requires TableOk(h, s) && Sum(s, Holds(e)) > 0
    ensures Contains(h, s, e)
  {
    var i := SomeHeld(s, Holds(e));
    assert Own(h, s, i);
  }

  /** A lookup that lets its element be collected does not hide it: the next lookup still finds it. */
  lemma ErasedIsStillFound(h: Shape, c: Cache, e: nat, x: nat)
    requires |c.slots| == Size(h)
    ensures Contains(h, Erase(h, c, e).slots, x) <==> Contains(h, c.slots, x)
  {}

  lemma {:induction false} PlaceWithin(h: Shape, s: seq<Slot>, e: nat, recent: bool, last: nat, depth: nat,
                                       known: set<nat>)
    requires |s| == Size(h) && e in known && forall i :: 0 <= i < |s| ==> s[i].elem in known
    ensures forall i :: 0 <= i < |s| ==> Place(h, s, e, recent, last, depth).slots[i].elem in known
    decreases depth
  {
    hide Loc, FindLoc, Size;
    if depth > 0 && FindFree(h, s, e, 0) == HASHES {
      var i := Victim(h, e, last);
      PlaceWithin(h, s[i := Slot(e, s[i].kept, recent)], s[i].elem, s[i].recent, i, depth - 1, known);
    }
  }

  function Inserted(ops: seq<Op>): set<nat>
  {
    if ops == [] then {EMPTY}
    else
      var op := ops[|ops| - 1];
      Inserted(ops[..|ops| - 1]) + (if op.Insertion? then {op.e} else {})
  }

  /** In every run a lookup finds only what some insert brought, or the filling of a fresh table. */
  lemma {:induction false} RunFindsOnlyInserted(h: Shape, ops: seq<Op>)
    ensures forall i :: 0 <= i < Size(h) ==> Run(h, Setup(h), ops).slots[i].elem in Inserted(ops)
    ensures forall e :: Contains(h, Run(h, Setup(h), ops).slots, e) ==> e in Inserted(ops)
  {
    hide Size, Loc, Find, Place;
    if ops != [] {
      var c := Run(h, Setup(h), ops[..|ops| - 1]);
      RunFindsOnlyInserted(h, ops[..|ops| - 1]);
      var op := ops[|ops| - 1];
      if op.Insertion? {
        var s := EpochCheck(h, c).slots;
        PlaceWithin(h, s, op.e, true, INVALID, h.depthLimit, Inserted(ops));
      }
    }
  }

  // ---------------------------------------------------------------------------------------------
  // An inserted element outlives an epoch
  // ---------------------------------------------------------------------------------------------

  lemma {:induction false} AgedHolds(s: seq<Slot>, e: nat)
    ensures Sum(Aged(s), Holds(e)) == Sum(s, HoldsLive(e))
  {
    if s != [] {
      var k := |s| - 1;
      AgedHolds(s[..k], e);
      assert Aged(s)[..k] == Aged(s[..k]);
    }
  }

  /** The step neither displaces `e` for good nor lets it be collected. */
  predicate Spares(h: Shape, c: Cache, op: Op, e: nat)
    requires |c.slots| == Size(h)
  {
    match op
    case Insertion(x) =>
      var d := Enter(h, EpochCheck(h, c).slots, x).dropped;
      d.Some? ==> d.value.elem != e
    case Erasure(x) => x != e
  }

  predicate SparesAll(h: Shape, c: Cache, ops: seq<Op>, e: nat)
    requires |c.slots| == Size(h)
  {
    ops == []
    || (&& SparesAll(h, c, ops[..|ops| - 1], e)
        && Spares(h, Run(h, c, ops[..|ops| - 1]), ops[|ops| - 1], e))
  }

  function Insertions(ops: seq<Op>): nat
  {
    if ops == [] then 0 else Insertions(ops[..|ops| - 1]) + if ops[|ops| - 1].Insertion? then 1 else 0
  }

  /** `e` is kept, and stays so through `n` more inserts. */
  predicate Secure(c: Cache, e: nat, n: int)
  {
    Sum(c.slots, HoldsLive(e)) > 0 || (Sum(c.slots, Holds(e)) > 0 && n <= c.counter)
  }

  /** Anything counted over the kept copies of `e` does not shrink when the entry spares `e`. */
  lemma EnterSpares(h: Shape, s: seq<Slot>, x: nat, e: nat, f: Slot -> nat)
    requires |s| == Size(h) && OfKept(f)
    requires forall y: Slot :: f(y) <= f(Slot(y.elem, true, true)) && (y.elem != e ==> f(y) == 0)
    requires var d := Enter(h, s, x).dropped; d.Some? ==> d.value.elem != e
    ensures Sum(Enter(h, s, x).slots, f) >= Sum(s, f)
    ensures x == e ==> Sum(Enter(h, s, x).slots, f) >= f(Slot(e, true, true))
  {
    hide Sum, Place, Find, Size, Loc;
    var k := Find(h, s, x, 0);
    if k < HASHES {
      var i := Loc(h, k, x);
      SumUpdate(s, i, Slot(x, true, true), f);
      HeldCounts(s[i := Slot(x, true, true)], i, f);
    } else {
      assert Weight(Enter(h, s, x).dropped, f) == 0;
      PlaceConserves(h, s, x, true, INVALID, h.depthLimit, f);
    }
  }

  lemma StepSecure(h: Shape, c: Cache, op: Op, e: nat, n: nat)
    requires |c.slots| == Size(h) && Secure(c, e, n) && Spares(h, c, op, e)
    requires op.Insertion? ==> 1 <= n <= EpochSize(h) + 1
    ensures Secure(Step(h, c, op), e, if op.Insertion? then n - 1 else n)
  {
    hide Sum, Enter, Size, Loc, Find;
    match op {
      case Insertion(x) =>
        var s := EpochCheck(h, c).slots;
        AgedHolds(c.slots, e);
        EnterSpares(h, s, x, e, Holds(e));
        EnterSpares(h, s, x, e, HoldsLive(e));
      case Erasure(x) =>
        var k := Find(h, c.slots, x, 0);
        if k < HASHES {
          var i := Loc(h, k, x);
          SumUpdate(c.slots, i, c.slots[i].(kept := false), Holds(e));
          SumUpdate(c.slots, i, c.slots[i].(kept := false), HoldsLive(e));
        }
    }
  }

  lemma {:induction false} RunSecure(h: Shape, c: Cache, ops: seq<Op>, e: nat)
    requires |c.slots| == Size(h) && Sum(c.slots, HoldsLive(e)) > 0 && SparesAll(h, c, ops, e)
    requires Insertions(ops) <= EpochSize(h) + 1
    ensures Secure(Run(h, c, ops), e, EpochSize(h) + 1 - Insertions(ops))
  {
    hide Sum, Step, Spares, Size;
    if ops != [] {
      var n := |ops| - 1;
      RunSecure(h, c, ops[..n], e);
      StepSecure(h, Run(h, c, ops[..n]), ops[n], e, EpochSize(h) + 1 - Insertions(ops[..n]));
    }
  }

  /** Whatever came before, an element that is inserted is found through a whole epoch and one more
      insert after that, unless it is erased or displaced on the way. */
  lemma InsertedStays(h: Shape, before: seq<Op>, e: nat, after: seq<Op>)
    requires Spares(h, Run(h, Setup(h), before), Insertion(e), e)
    requires SparesAll(h, Insert(h, Run(h, Setup(h), before), e), after, e)
    requires Insertions(after) <= EpochSize(h) + 1
    ensures Contains(h, Run(h, Insert(h, Run(h, Setup(h), before), e), after).slots, e)
  {
    hide Sum, Enter, EpochCheck, Size, SparesAll, Insertions, Contains, Run, Inv, Setup;
    SetupInv(h);
    RunKeeps(h, Setup(h), before);
    var c := Run(h, Setup(h), before);
    EnterSpares(h, EpochCheck(h, c).slots, e, e, HoldsLive(e));
    InsertKeeps(h, c, e);
    var c1 := Insert(h, c, e);
    RunKeeps(h, c1, after);
    RunSecure(h, c1, after, e);
    LiveIsHeld(Run(h, c1, after).slots, e);
    HeldIsFound(h, Run(h, c1, after), e);
  }

  lemma HeldIsFound(h: Shape, c: Cache, e: nat)
    requires Inv(h, c) && Sum(c.slots, Holds(e)) > 0
    ensures Contains(h, c.slots, e)
  {
    KeptIsFound(h, c.slots, e);
  }

  lemma {:induction false} LiveIsHeld(s: seq<Slot>, e: nat)
    ensures Sum(s, HoldsLive(e)) <= Sum(s, Holds(e))
  {
    if s != [] { LiveIsHeld(s[..|s| - 1], e); }
  }

  // ---------------------------------------------------------------------------------------------
  // The flags and the cache in memory
  // ---------------------------------------------------------------------------------------------

  function Mask(k: nat): bv8
    requires k < 8
  {
    match k
    case 0 => 0x01
    case 1 => 0x02
    case 2 => 0x04
    case 3 => 0x08
    case 4 => 0x10
    case 5 => 0x20
    case 6 => 0x40
    case _ => 0x80
  }

  function Bit(m: bv8, k: nat): bool
    requires k < 8
  {
    Mask(k) & m != 0
  }

  function Raise(m: bv8, k: nat): (r: bv8)
    requires k < 8
    ensures forall j :: 0 <= j < 8 ==> Bit(r, j) == (j == k || Bit(m, j))
  {
    m | Mask(k)
  }

  function Lower(m: bv8, k: nat): (r: bv8)
    requires k < 8
    ensures forall j :: 0 <= j < 8 ==> Bit(r, j) == (j != k && Bit(m, j))
  {
    m & !Mask(k)
  }

  /** Flags packed eight to a byte; a set flag says that the entry may be discarded. */
  class BitPackedFlags {
    const mem: array<bv8>

    predicate IsSet(s: nat)
      requires s < 8 * mem.Length
      reads mem
    {
      Bit(mem[s / 8], s % 8)
    }

    constructor (size: nat)
      ensures fresh(mem) && size <= 8 * mem.Length
      ensures forall s :: 0 <= s < 8 * mem.Length ==> IsSet(s)
    {
      mem := new bv8[(size + 7) / 8](i => 0xFF);
    }

    method Set(s: nat)
      requires s < 8 * mem.Length
      modifies mem
      ensures forall t :: 0 <= t < 8 * mem.Length ==> IsSet(t) == (t == s || old(IsSet(t)))
    {
      hide Bit, Raise;
      mem[s / 8] := Raise(mem[s / 8], s % 8);
    }

    method Unset(s: nat)
      requires s < 8 * mem.Length
      modifies mem
      ensures forall t :: 0 <= t < 8 * mem.Length ==> IsSet(t) == (t != s && old(IsSet(t)))
    {
      hide Bit, Lower;
      mem[s / 8] := Lower(mem[s / 8], s % 8);
    }
  }

  /** The eight locations of an element. */
  function Hashes(h: Shape, e: nat): (locs: seq<nat>)
    ensures |locs| == HASHES && forall k :: 0 <= k < HASHES ==> locs[k] == Loc(h, k, e)
  {
    seq(HASHES, k requires 0 <= k < HASHES => Loc(h, k, e))
  }

  class SignatureCache {
    const shape: Shape
    const size: nat
    const table: array<nat>
    const collectionFlags: BitPackedFlags
    const epochFlags: array<bool>
    var epochHeuristicCounter: nat

    ghost predicate Valid()
    {
      && Fits(shape)
      && size == Size(shape) == table.Length == epochFlags.Length
      && size <= 8 * collectionFlags.mem.Length
      && table as object != collectionFlags.mem && epochFlags as object != collectionFlags.mem
      && table as object != epochFlags
    }

    ghost function SlotAt(i: nat): Slot
      requires Valid() && i < size
      reads table, epochFlags, collectionFlags.mem
    {
      Slot(table[i], !collectionFlags.IsSet(i), epochFlags[i])
    }

    ghost function Slots(): (s: seq<Slot>)
      requires Valid()
      reads table, epochFlags, collectionFlags.mem
      ensures |s| == Size(shape) && forall i :: 0 <= i < |s| ==> s[i] == SlotAt(i)
    {
      seq(size, i requires 0 <= i < size reads table, epochFlags, collectionFlags.mem => SlotAt(i))
    }

    ghost function State(): (c: Cache)
      requires Valid()
      reads this, table, epochFlags, collectionFlags.mem
      ensures |c.slots| == Size(shape)
    {
      Cache(Slots(), epochHeuristicCounter)
    }

    constructor (depthLimit: nat, hash: (nat, nat) -> nat)
      requires Fits(Shape(depthLimit, hash))
      ensures Valid() && shape == Shape(depthLimit, hash)
      ensures fresh(table) && fresh(epochFlags) && fresh(collectionFlags) && fresh(collectionFlags.mem)
      ensures State() == Setup(shape) && Inv(shape, State())
    {
      shape := Shape(depthLimit, hash);
      size := Size(Shape(depthLimit, hash));
      table := new nat[Size(Shape(depthLimit, hash))](i => EMPTY);
      collectionFlags := new BitPackedFlags(Size(Shape(depthLimit, hash)));
      epochFlags := new bool[Size(Shape(depthLimit, hash))](i => false);
      epochHeuristicCounter := EpochSize(Shape(depthLimit, hash));
      new;
      assert Slots() == Fresh(size);
      SetupInv(shape);
    }

    /** Puts an element in a slot, to be kept. */
    method Put(i: nat, e: nat, recent: bool)
      requires Valid() && i < size
      modifies table, epochFlags, collectionFlags.mem
      ensures Slots() == old(Slots())[i := Slot(e, true, recent)]
    {
      hide BitPackedFlags.IsSet;
      table[i] := e;
      collectionFlags.Unset(i);
      epochFlags[i] := recent;
      forall j | 0 <= j < size ensures SlotAt(j) == old(Slots())[i := Slot(e, true, recent)][j] {
        assert old(Slots())[j] == old(SlotAt(j));
        assert collectionFlags.IsSet(j) == (j != i && old(collectionFlags.IsSet(j)));
      }
    }

    method CountLive() returns (n: nat)
      requires Valid()
      ensures n == Sum(Slots(), Live)
    {
      hide BitPackedFlags.IsSet, Sum, Size;
      n := 0;
      SumPart(Slots(), 0, Live);
      for i := 0 to size
        invariant n == Sum(Slots()[..i], Live)
      {
        SumPart(Slots(), i, Live);
        if epochFlags[i] && !collectionFlags.IsSet(i) { n := n + 1; }
      }
      assert Slots()[..size] == Slots();
    }

    method Age()
      requires Valid()
      modifies epochFlags, collectionFlags.mem
      ensures Slots() == Aged(old(Slots()))
    {
      hide BitPackedFlags.IsSet;
      for i := 0 to size
        invariant forall j :: 0 <= j < i ==> SlotAt(j) == Aged(old(Slots()))[j]
        invariant forall j :: i <= j < size ==> SlotAt(j) == old(SlotAt(j))
      {
        assert SlotAt(i) == old(SlotAt(i));
        if epochFlags[i] { epochFlags[i] := false; } else { collectionFlags.Set(i); }
      }
    }

    method CheckEpoch()
      requires Valid()
      modifies this, epochFlags, collectionFlags.mem
      ensures State() == EpochCheck(shape, old(State()))
      ensures var live, e := Sum(old(Slots()), Live), EpochSize(shape);
        if old(epochHeuristicCounter) > 0 then Slots() == old(Slots()) && epochHeuristicCounter == old(epochHeuristicCounter) - 1
        else if live < e then
          && Slots() == old(Slots()) && epochHeuristicCounter >= 1 && 16 * epochHeuristicCounter > e - 16
          && epochHeuristicCounter >= e - live
          && (epochHeuristicCounter == 1 || 16 * epochHeuristicCounter <= e || epochHeuristicCounter == e - live)
        else
          && epochHeuristicCounter == e
          && forall i :: 0 <= i < size ==>
               SlotAt(i) == Slot(old(table[i]), old(SlotAt(i)).kept && old(SlotAt(i)).recent, false)
    {
      if epochHeuristicCounter != 0 {
        epochHeuristicCounter := epochHeuristicCounter - 1;
        return;
      }
      var epochUnusedCount := CountLive();
      if epochUnusedCount >= EpochSize(shape) {
        Age();
        epochHeuristicCounter := EpochSize(shape);
      } else {
        epochHeuristicCounter := Max(1, Max(EpochSize(shape) / 16, EpochSize(shape) - epochUnusedCount));
      }
    }

    /** The selector of the first location that holds the element, or the number of selectors. */
    method Search(locs: seq<nat>, e: nat) returns (k: nat)
      requires Valid() && locs == Hashes(shape, e)
      ensures k == Find(shape, Slots(), e, 0)
    {
      k := 0;
      while k < HASHES && table[locs[k]] != e
        invariant k <= HASHES && Find(shape, Slots(), e, k) == Find(shape, Slots(), e, 0)
      {
        k := k + 1;
      }
    }

    method SearchFree(locs: seq<nat>, ghost e: nat) returns (k: nat)
      requires Valid() && locs == Hashes(shape, e)
      ensures k == FindFree(shape, Slots(), e, 0)
    {
      k := 0;
      while k < HASHES && !collectionFlags.IsSet(locs[k])
        invariant k <= HASHES && FindFree(shape, Slots(), e, k) == FindFree(shape, Slots(), e, 0)
      {
        k := k + 1;
      }
    }

    method SearchLoc(locs: seq<nat>, ghost e: nat, last: nat) returns (k: nat)
      requires locs == Hashes(shape, e)
      ensures k == FindLoc(shape, e, last, 0)
    {
      k := 0;
      while k < HASHES && locs[k] != last
        invariant k <= HASHES && FindLoc(shape, e, last, k) == FindLoc(shape, e, last, 0)
      {
        k := k + 1;
      }
    }

    /** Exchanges the element of a slot and its epoch for others. */
    method Exchange(i: nat, e: nat, recent: bool) returns (displaced: nat, epoch: bool)
      requires Valid() && i < size
      modifies table, epochFlags
      ensures displaced == old(Slots())[i].elem && epoch == old(Slots())[i].recent
      ensures Slots() == old(Slots())[i := Slot(e, old(Slots())[i].kept, recent)]
    {
      hide BitPackedFlags.IsSet;
      displaced, epoch := table[i], epochFlags[i];
      table[i] := e;
      epochFlags[i] := recent;
    }

    /** Displaces elements until one has a location to spare, or until the limit is reached and the one displaced
        last is dropped. */
    method PlaceElement(x: nat) returns (ghost dropped: Option<Slot>, ghost xs: seq<Slot>, ghost at: seq<nat>)
      requires Valid()
      modifies table, epochFlags, collectionFlags.mem
      ensures Placed(Slots(), dropped) == Place(shape, old(Slots()), x, true, INVALID, shape.depthLimit)
      ensures Displaces(shape, old(Slots()), Slot(x, true, true), INVALID, shape.depthLimit, xs, at, Slots(), dropped)
    {
      hide Size, FindFree, FindLoc, Loc, SlotAt, Displaces, Chain, Crowded;
      xs, at := ChainExists(shape, Slots(), Slot(x, true, true), INVALID, shape.depthLimit);
      PlaceDisplaces(shape, Slots(), Slot(x, true, true), INVALID, shape.depthLimit, xs, at);
      var e: nat, lastLoc: nat, lastEpoch := x, INVALID, true;
      var locs := Hashes(shape, e);
      var depth := 0;
      while depth < shape.depthLimit
        invariant depth <= shape.depthLimit
        invariant locs == Hashes(shape, e)
        invariant Place(shape, Slots(), e, lastEpoch, lastLoc, shape.depthLimit - depth)
               == Place(shape, old(Slots()), x, true, INVALID, shape.depthLimit)
      {
        var k := SearchFree(locs, e);
        if k < HASHES {
          Put(locs[k], e, lastEpoch);
          dropped := None;
          return;
        }
        var n := SearchLoc(locs, e, lastLoc);
        lastLoc := locs[(1 + n) % HASHES];
        e, lastEpoch := Exchange(lastLoc, e, lastEpoch);
        locs := Hashes(shape, e);
        depth := depth + 1;
      }
      dropped := Some(Slot(e, true, lastEpoch));
    }

    /** Drops at most one element that was to be kept, and says which. */
    method InsertElement(e: nat) returns (ghost dropped: Option<Slot>)
      requires Valid()
      modifies this, table, epochFlags, collectionFlags.mem
      ensures State() == Insert(shape, old(State()), e)
      ensures dropped == Enter(shape, EpochCheck(shape, old(State())).slots, e).dropped
      ensures Inv(shape, old(State())) ==> Inv(shape, State())
    {
      hide Size, Find, Place, Loc, Inv, EpochCheck, SlotAt;
      if Inv(shape, State()) { InsertKeeps(shape, State(), e); }
      CheckEpoch();
      var locs := Hashes(shape, e);
      var k := Search(locs, e);
      if k < HASHES {
        Put(locs[k], e, true);
        dropped := None;
      } else {
        ghost var xs, at;
        dropped, xs, at := PlaceElement(e);
      }
    }

    method ContainsElement(e: nat, erase: bool) returns (found: bool)
      requires Valid()
      modifies collectionFlags.mem
      ensures found == Contains(shape, old(Slots()), e)
      ensures State() == (if erase then Erase(shape, old(State()), e) else old(State()))
      ensures forall k :: FirstHolds(shape, old(Slots()), e, k) ==>
        found && (erase ==> collectionFlags.IsSet(Loc(shape, k, e)))
      ensures Inv(shape, old(State())) ==> Inv(shape, State())
    {
      hide Size, Find, Contains, Inv, BitPackedFlags.IsSet;
      if Inv(shape, State()) { EraseKeeps(shape, State(), e); }
      FindIsContains(shape, Slots(), e);
      var locs := Hashes(shape, e);
      var k := Search(locs, e);
      found := k < HASHES;
      if found && erase {
        collectionFlags.Set(locs[k]);
        ghost var i := locs[k];
        assert Slots() == old(Slots())[i := old(Slots())[i].(kept := false)];
      }
    }
  }
}
