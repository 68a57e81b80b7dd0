/** The verification queue as a state machine: one master and any number of workers, a lock and two
    condition variables. Every critical section is one step; between steps the threads interleave
    freely, and a waiting thread may also wake for no reason. */
module CheckQueue {
  import opened Numbers
  import opened Options

  /** A queued verification; its outcome is the same whoever runs it. */
  datatype Check = Check(id: nat, outcome: bool)

  /** Where a thread is: outside the loop, blocked on its condition variable, woken but not yet back
      in the lock, or running a batch without the lock. */
  datatype Place = Outside | Waiting | Woken | Running(batch: seq<Check>, ok: bool)

  datatype Who = Master | Worker(i: nat)

  /** The shared fields and all threads, and what was added and completed since the last Wait. */
  datatype State = State(queue: seq<Check>, nIdle: int, nTotal: int, allOk: bool, nTodo: int,
                         master: Place, workers: seq<Place>, added: multiset<Check>, done: multiset<Check>)

  // ---------------------------------------------------------------------------------------------
  // Steps
  // ---------------------------------------------------------------------------------------------

  predicate Exists(s: State, who: Who) { who.Worker? ==> who.i < |s.workers| }

  function At(s: State, who: Who): Place
    requires Exists(s, who)
  {
    if who.Master? then s.master else s.workers[who.i]
  }

  function Move(s: State, who: Who, p: Place): State
    requires Exists(s, who)
  {
    if who.Master? then s.(master := p) else s.(workers := s.workers[who.i := p])
  }

  /** How many checks to take: aim for ever smaller batches, at least one, at most the batch size. */
  function BatchCount(batchSize: nat, s: State): int
    requires s.nTotal + s.nIdle + 1 > 0
  {
    var share := |s.queue| / (s.nTotal + s.nIdle + 1);
    var most := if batchSize < share then batchSize else share;
    if most < 1 then 1 else most
  }

  /** The last checks of the queue, taken from its end one by one. */
  function Taken(queue: seq<Check>, n: nat): seq<Check>
    requires n <= |queue|
  {
    seq(n, i requires 0 <= i < n => queue[|queue| - 1 - i])
  }

  method TakeBatch(queue: seq<Check>, n: nat) returns (batch: seq<Check>, rest: seq<Check>)
    requires n <= |queue|
    ensures batch == Taken(queue, n) && rest == queue[..|queue| - n]
  {
    batch, rest := [], queue;
    for i := 0 to n
      invariant rest == queue[..|queue| - i] && batch == Taken(queue, i)
    {
      batch := batch + [rest[|rest| - 1]];
      rest := rest[..|rest| - 1];
    }
  }

  predicate AllTrue(checks: multiset<Check>) { forall c <- checks :: c.outcome }

  /** Run a batch, but only as long as nothing has failed. */
  method RunBatch(batch: seq<Check>, okBefore: bool) returns (ok: bool)
    ensures ok == (okBefore && AllTrue(multiset(batch)))
  {
    ok := okBefore;
    for i := 0 to |batch|
      invariant ok == (okBefore && forall k | 0 <= k < i :: batch[k].outcome)
    {
      if ok {
        ok := batch[i].outcome;
      }
    }
    assert forall c <- multiset(batch) :: c in batch;
    assert forall k | 0 <= k < |batch| :: batch[k] in multiset(batch);
  }

  datatype Outcome = Outcome(state: State, returned: Option<bool>)

  /** The rest of a critical section, from the point where the loop proper starts: take a batch, or
      return if all is done, or wait. */
  function LoopTop(batchSize: nat, s: State, who: Who): Outcome
    requires Exists(s, who) && (s.queue != [] ==> 0 < s.nTotal + s.nIdle + 1 && BatchCount(batchSize, s) <= |s.queue|)
  {
    if s.queue == [] then
      if who.Master? && s.nTodo == 0 then
        Outcome(s.(nTotal := s.nTotal - 1, allOk := true, master := Outside, added := multiset{}, done := multiset{}),
                Some(s.allOk))
      else Outcome(Move(s.(nIdle := s.nIdle + 1), who, Waiting), None)
    else
      var n := BatchCount(batchSize, s);
      Outcome(Move(s.(queue := s.queue[..|s.queue| - n]), who, Running(Taken(s.queue, n), s.allOk)), None)
  }

  datatype Event =
    | Add(checks: seq<Check>, woken: Option<nat>)
    | Start(who: Who)
    | Finish(who: Who)
    | Wake(who: Who)
    | Spurious(who: Who)

  function WakeIfWaiting(p: Place): Place { if p.Waiting? then Woken else p }

  function NotifyAll(workers: seq<Place>): seq<Place>
  {
    seq(|workers|, i requires 0 <= i < |workers| => WakeIfWaiting(workers[i]))
  }

  /** A single notification goes to some waiting worker, and is lost only if none waits. */
  predicate Notifies(workers: seq<Place>, woken: Option<nat>)
  {
    match woken
    case Some(i) => i < |workers| && workers[i].Waiting?
    case None => forall w <- workers :: !w.Waiting?
  }

  predicate Enabled(s: State, e: Event)
  {
    match e
    case Add(checks, woken) => s.master.Outside? && (|checks| == 1 ==> Notifies(s.workers, woken))
    case Start(who) => Exists(s, who) && At(s, who).Outside?
    case Finish(who) => Exists(s, who) && At(s, who).Running?
    case Wake(who) => Exists(s, who) && At(s, who).Woken?
    case Spurious(who) => Exists(s, who) && At(s, who).Waiting?
  }

  /** The first part of a critical section: the thread is in the lock, neither idle nor with a batch. */
  function Entered(s: State, e: Event): State
    requires Enabled(s, e) && (e.Start? || e.Finish? || e.Wake?)
  {
    var t := Move(s, e.who, Outside);
    match e
    case Start(_) => t.(nTotal := s.nTotal + 1)
    case Wake(_) => t.(nIdle := s.nIdle - 1)
    case Finish(who) =>
      var Running(batch, ok) := At(s, who);
      var left := s.nTodo - |batch|;
      t.(allOk := s.allOk && ok && AllTrue(multiset(batch)), nTodo := left, done := s.done + multiset(batch),
         master := if left == 0 && who.Worker? then WakeIfWaiting(t.master) else t.master)
  }

  function Added(s: State, checks: seq<Check>, woken: Option<nat>): State
    requires Enabled(s, Add(checks, woken))
  {
    s.(queue := s.queue + checks, nTodo := s.nTodo + |checks|, added := s.added + multiset(checks),
       workers := if |checks| == 1 then (if woken.Some? then s.workers[woken.value := Woken] else s.workers)
                  else if |checks| > 1 then NotifyAll(s.workers) else s.workers)
  }

  function Step(batchSize: nat, s: State, e: Event): Outcome
    requires Inv(s) && Enabled(s, e)
  {
    match e
    case Add(checks, woken) => Outcome(Added(s, checks, woken), None)
    case Spurious(who) => Outcome(Move(s, who, Woken), None)
    case _ =>
      EnteredKeeps(s, e);
      BatchFits(batchSize, Entered(s, e));
      LoopTop(batchSize, Entered(s, e), e.who)
  }

  function Idlers(workers: nat): State
  {
    State([], 0, 0, true, 0, Outside, seq(workers, _ => Outside), multiset{}, multiset{})
  }

  // ---------------------------------------------------------------------------------------------
  // The invariant
  // ---------------------------------------------------------------------------------------------

  function Batch(p: Place): seq<Check> { if p.Running? then p.batch else [] }
  function Idle(p: Place): nat { if p.Waiting? || p.Woken? then 1 else 0 }
  function Inside(p: Place): nat { if p.Outside? then 0 else 1 }

  function Sum(ws: seq<Place>, f: Place -> nat): nat
  {
    if ws == [] then 0 else Sum(ws[..|ws| - 1], f) + f(ws[|ws| - 1])
  }

  /** How often a check occurs in a thread's batch. */
  function CountIn(p: Place, c: Check): nat { multiset(Batch(p))[c] }
  function Count(c: Check): Place -> nat { p => CountIn(p, c) }

  /** How often a check is still queued or in some batch. */
  function Outstanding(s: State, c: Check): nat
  {
    multiset(s.queue)[c] + Sum(s.workers, Count(c)) + CountIn(s.master, c)
  }

  function Held(p: Place): nat { |Batch(p)| }

  predicate BatchOk(p: Place, allOk: bool)
  {
    p.Running? ==> p.batch != [] && (!p.ok ==> !allOk)
  }

  /** The counters are exact, with some number of threads in the lock. */
  ghost predicate CountersOk(s: State, inLock: nat)
  {
    && s.nTodo == |s.queue| + Sum(s.workers, Held) + Held(s.master)
    && s.nIdle == Sum(s.workers, Idle) + Idle(s.master)
    && s.nTotal == Sum(s.workers, Inside) + Inside(s.master) + inLock
  }

  /** No check is lost or doubled: each added one is outstanding or done. */
  ghost predicate Conserved(s: State)
  {
    forall c :: s.added[c] == Outstanding(s, c) + s.done[c]
  }

  /** The running result is that of the completed checks, and a batch is skipped only after a failure. */
  ghost predicate ResultOk(s: State)
  {
    && (s.allOk <==> AllTrue(s.done))
    && (forall w <- s.workers :: BatchOk(w, s.allOk)) && BatchOk(s.master, s.allOk)
  }

  /** While the master is blocked without a notification, work is outstanding, all of it in batches. */
  predicate MasterOk(s: State) { s.master.Waiting? ==> s.queue == [] && s.nTodo > 0 }

  ghost predicate Books(s: State, inLock: nat)
  {
    CountersOk(s, inLock) && Conserved(s) && ResultOk(s) && MasterOk(s)
  }

  ghost predicate Inv(s: State) { Books(s, 0) }

  lemma {:induction false} SumUpdate(ws: seq<Place>, i: nat, p: Place, f: Place -> nat)
    requires i < |ws|
    ensures Sum(ws[i := p], f) == Sum(ws, f) - f(ws[i]) + f(p)
  {
    var k := |ws| - 1;
    if i < k {
      SumUpdate(ws[..k], i, p, f);
      assert ws[i := p][..k] == ws[..k][i := p];
    } else {
      assert ws[i := p][..k] == ws[..k];
    }
  }

  lemma MoveSum(s: State, who: Who, p: Place, f: Place -> nat)
    requires Exists(s, who)
    ensures var t := Move(s, who, p);
            Sum(t.workers, f) + f(t.master) == Sum(s.workers, f) + f(s.master) - f(At(s, who)) + f(p)
  {
    if who.Worker? { SumUpdate(s.workers, who.i, p, f); }
  }

  lemma MoveOutstanding(s: State, who: Who, p: Place, c: Check)
    requires Exists(s, who)
    ensures Outstanding(Move(s, who, p), c) == Outstanding(s, c) - CountIn(At(s, who), c) + CountIn(p, c)
  {
    hide Sum;
    MoveSum(s, who, p, Count(c));
  }

  lemma QueueOutstanding(s: State, queue: seq<Check>, c: Check)
    ensures Outstanding(s.(queue := queue), c) == Outstanding(s, c) - multiset(s.queue)[c] + multiset(queue)[c]
  {}

  lemma MoveSums(s: State, who: Who, p: Place)
    requires Exists(s, who)
    ensures var t := Move(s, who, p); var q := At(s, who);
            && Sum(t.workers, Held) + Held(t.master) == Sum(s.workers, Held) + Held(s.master) - Held(q) + Held(p)
            && Sum(t.workers, Idle) + Idle(t.master) == Sum(s.workers, Idle) + Idle(s.master) - Idle(q) + Idle(p)
            && Sum(t.workers, Inside) + Inside(t.master) == Sum(s.workers, Inside) + Inside(s.master) - Inside(q) + Inside(p)
            && forall c :: Outstanding(t, c) == Outstanding(s, c) - CountIn(q, c) + CountIn(p, c)
  {
    MoveSum(s, who, p, Held);
    MoveSum(s, who, p, Idle);
    MoveSum(s, who, p, Inside);
    forall c { MoveOutstanding(s, who, p, c); }
  }

  lemma EnteredCounters(s: State, e: Event)
    requires CountersOk(s, 0) && Enabled(s, e) && (e.Start? || e.Finish? || e.Wake?)
    ensures CountersOk(Entered(s, e), 1) && Entered(s, e).nTodo >= 0
  {
    hide Sum;
    MoveSums(s, e.who, Outside);
  }

  lemma SameOutstanding(s: State, t: State, c: Check)
    requires t.queue == s.queue && t.workers == s.workers && CountIn(t.master, c) == CountIn(s.master, c)
    ensures Outstanding(t, c) == Outstanding(s, c)
  {}

  lemma EnteredOutstanding(s: State, e: Event, c: Check)
    requires Enabled(s, e) && (e.Start? || e.Finish? || e.Wake?)
    ensures Outstanding(Entered(s, e), c) == Outstanding(s, c) - CountIn(At(s, e.who), c)
  {
    MoveOutstanding(s, e.who, Outside, c);
    SameOutstanding(Move(s, e.who, Outside), Entered(s, e), c);
  }

  lemma EnteredConserved(s: State, e: Event)
    requires Conserved(s) && Enabled(s, e) && (e.Start? || e.Finish? || e.Wake?)
    ensures Conserved(Entered(s, e))
  {
    hide Outstanding;
    var t := Entered(s, e);
    forall c ensures t.added[c] == Outstanding(t, c) + t.done[c] {
      EnteredOutstanding(s, e, c);
      assert t.done[c] == s.done[c] + if e.Finish? then CountIn(At(s, e.who), c) else 0;
    }
  }

  lemma AllTrueSum(a: multiset<Check>, b: multiset<Check>)
    ensures AllTrue(a + b) <==> AllTrue(a) && AllTrue(b)
  {
    assert forall c :: c in a + b <==> c in a || c in b;
  }

  /** A thread that leaves its batch behind, while the result can only get worse. */
  lemma MoveBatches(s: State, who: Who, allOk: bool)
    requires Exists(s, who) && (forall w <- s.workers :: BatchOk(w, s.allOk)) && (allOk ==> s.allOk)
    ensures forall w <- Move(s, who, Outside).workers :: BatchOk(w, allOk)
  {
    var t := Move(s, who, Outside);
    forall w | w in t.workers ensures BatchOk(w, allOk) {
      var i :| 0 <= i < |t.workers| && t.workers[i] == w;
      assert w.Outside? || (w == s.workers[i] && BatchOk(s.workers[i], s.allOk));
    }
  }

  lemma EnteredResult(s: State, e: Event)
    requires ResultOk(s) && Enabled(s, e) && (e.Start? || e.Finish? || e.Wake?)
    ensures ResultOk(Entered(s, e)) && At(Entered(s, e), e.who).Outside?
  {
    hide AllTrue;
    MoveBatches(s, e.who, Entered(s, e).allOk);
    if e.Finish? {
      AllTrueSum(s.done, multiset(At(s, e.who).batch));
      assert BatchOk(At(s, e.who), s.allOk);
    }
  }

  lemma EnteredKeeps(s: State, e: Event)
    requires Inv(s) && Enabled(s, e) && (e.Start? || e.Finish? || e.Wake?)
    ensures Books(Entered(s, e), 1) && Exists(Entered(s, e), e.who) && At(Entered(s, e), e.who).Outside?
  {
    hide CountersOk, Conserved, ResultOk;
    EnteredCounters(s, e);
    EnteredConserved(s, e);
    EnteredResult(s, e);
  }

  lemma BatchFits(batchSize: nat, s: State)
    requires CountersOk(s, 1)
    ensures 0 < s.nTotal + s.nIdle + 1 && (s.queue != [] ==> 1 <= BatchCount(batchSize, s) <= |s.queue|)
  {
    hide Sum;
    DivAtMost(|s.queue|, s.nTotal + s.nIdle + 1);
  }

  lemma {:induction false} TakenCounts(queue: seq<Check>, n: nat)
    requires n <= |queue|
    ensures multiset(queue) == multiset(queue[..|queue| - n]) + multiset(Taken(queue, n))
  {
    if n == 0 {
      assert queue[..|queue|] == queue && Taken(queue, 0) == [];
    } else {
      TakenCounts(queue, n - 1);
      var rest := queue[..|queue| - n + 1];
      assert rest == queue[..|queue| - n] + [queue[|queue| - n]];
      assert Taken(queue, n) == Taken(queue, n - 1) + [queue[|queue| - n]];
    }
  }

  lemma LoopTopCounters(batchSize: nat, s: State, who: Who)
    requires CountersOk(s, 1) && Exists(s, who) && At(s, who).Outside?
    ensures 0 < s.nTotal + s.nIdle + 1 && (s.queue != [] ==> 1 <= BatchCount(batchSize, s) <= |s.queue|)
    ensures CountersOk(LoopTop(batchSize, s, who).state, 0)
  {
    hide Sum, BatchCount;
    BatchFits(batchSize, s);
    if s.queue == [] {
      MoveSums(s, who, Waiting);
    } else {
      MoveSums(s, who, Running(Taken(s.queue, BatchCount(batchSize, s)), s.allOk));
    }
  }

  lemma LoopTopOutstanding(batchSize: nat, s: State, who: Who, c: Check)
    requires Exists(s, who) && At(s, who).Outside?
    requires s.queue != [] ==> 0 < s.nTotal + s.nIdle + 1 && 1 <= BatchCount(batchSize, s) <= |s.queue|
    ensures LoopTop(batchSize, s, who).returned.None? ==> Outstanding(LoopTop(batchSize, s, who).state, c) == Outstanding(s, c)
  {
    hide Outstanding, BatchCount, Taken;
    if s.queue == [] {
      MoveOutstanding(s.(nIdle := s.nIdle + 1), who, Waiting, c);
      SameOutstanding(s, s.(nIdle := s.nIdle + 1), c);
    } else {
      var n := BatchCount(batchSize, s);
      var rest, batch := s.queue[..|s.queue| - n], Taken(s.queue, n);
      TakenCounts(s.queue, n);
      QueueOutstanding(s, rest, c);
      MoveOutstanding(s.(queue := rest), who, Running(batch, s.allOk), c);
      assert multiset(s.queue)[c] == multiset(rest)[c] + multiset(batch)[c];
    }
  }

  lemma LoopTopConserved(batchSize: nat, s: State, who: Who)
    requires CountersOk(s, 1) && Conserved(s) && Exists(s, who) && At(s, who).Outside?
    ensures 0 < s.nTotal + s.nIdle + 1 && (s.queue != [] ==> 1 <= BatchCount(batchSize, s) <= |s.queue|)
    ensures LoopTop(batchSize, s, who).returned.None? ==> Conserved(LoopTop(batchSize, s, who).state)
  {
    hide Sum, BatchCount, Outstanding;
    BatchFits(batchSize, s);
    var o := LoopTop(batchSize, s, who);
    if o.returned.None? {
      forall c ensures o.state.added[c] == Outstanding(o.state, c) + o.state.done[c] {
        LoopTopOutstanding(batchSize, s, who, c);
      }
    }
  }

  lemma LoopTopResult(batchSize: nat, s: State, who: Who)
    requires CountersOk(s, 1) && ResultOk(s) && MasterOk(s) && Exists(s, who) && At(s, who).Outside?
    ensures 0 < s.nTotal + s.nIdle + 1 && (s.queue != [] ==> 1 <= BatchCount(batchSize, s) <= |s.queue|)
    ensures var o := LoopTop(batchSize, s, who);
            MasterOk(o.state) && (o.returned.None? ==> ResultOk(o.state))
  {
    hide Sum, BatchCount, AllTrue;
    BatchFits(batchSize, s);
    var t := LoopTop(batchSize, s, who).state;
    assert s.nTodo >= 0;
    if LoopTop(batchSize, s, who).returned.None? {
      forall w | w in t.workers ensures BatchOk(w, t.allOk) {
        var i :| 0 <= i < |t.workers| && t.workers[i] == w;
        if who == Worker(i) {
          assert |s.queue| > 0 ==> |Taken(s.queue, BatchCount(batchSize, s))| > 0;
        } else {
          assert BatchOk(s.workers[i], s.allOk);
        }
      }
    }
  }

  /** Once nothing is outstanding, all added checks are done. */
  lemma {:induction false} NothingHeld(ws: seq<Place>, c: Check)
    requires Sum(ws, Held) == 0
    ensures Sum(ws, Count(c)) == 0
  {
    if ws != [] {
      NothingHeld(ws[..|ws| - 1], c);
      assert |Batch(ws[|ws| - 1])| == 0;
    }
  }

  lemma {:induction false} NoneRunning(ws: seq<Place>, allOk: bool)
    requires Sum(ws, Held) == 0 && forall w <- ws :: BatchOk(w, allOk)
    ensures forall w <- ws :: !w.Running?
  {
    if ws != [] {
      var k := |ws| - 1;
      assert forall w <- ws[..k] :: w in ws;
      assert ws[k] in ws && |Batch(ws[k])| == 0;
      NoneRunning(ws[..k], allOk);
      assert ws == ws[..k] + [ws[k]];
    }
  }

  /** Wait returns when nothing is outstanding, with true exactly when every check added since the
      last Wait is true, and leaves the queue as new. */
  lemma ReturnIsRight(batchSize: nat, s: State)
    requires Books(s, 1) && s.master.Outside? && s.queue == [] && s.nTodo == 0
    ensures var o := LoopTop(batchSize, s, Master);
            && Inv(o.state) && o.returned == Some(AllTrue(s.added))
            && (forall w <- o.state.workers :: !w.Running?) && o.state.allOk
  {
    hide AllTrue;
    var t := LoopTop(batchSize, s, Master).state;
    NoneRunning(s.workers, s.allOk);
    forall c ensures s.added[c] == s.done[c] && Outstanding(t, c) == 0 {
      NothingHeld(s.workers, c);
      assert s.added[c] == Outstanding(s, c) + s.done[c];
    }
    assert s.added == s.done;
    NothingFails();
  }

  lemma NothingFails()
    ensures AllTrue(multiset{})
  {}

  lemma LoopTopKeeps(batchSize: nat, s: State, who: Who)
    requires Books(s, 1) && Exists(s, who) && At(s, who).Outside?
    ensures 0 < s.nTotal + s.nIdle + 1 && (s.queue != [] ==> 1 <= BatchCount(batchSize, s) <= |s.queue|)
    ensures Inv(LoopTop(batchSize, s, who).state)
  {
    hide CountersOk, Conserved, ResultOk, BatchCount;
    LoopTopCounters(batchSize, s, who);
    if s.queue == [] && who.Master? && s.nTodo == 0 {
      ReturnIsRight(batchSize, s);
    } else {
      LoopTopConserved(batchSize, s, who);
      LoopTopResult(batchSize, s, who);
    }
  }

  lemma {:induction false} NotifySum(ws: seq<Place>, f: Place -> nat)
    requires forall p :: f(WakeIfWaiting(p)) == f(p)
    ensures Sum(NotifyAll(ws), f) == Sum(ws, f)
  {
    if ws != [] {
      NotifySum(ws[..|ws| - 1], f);
      assert NotifyAll(ws)[..|ws| - 1] == NotifyAll(ws[..|ws| - 1]);
    }
  }

  /** Waking waiting workers changes no count. */
  lemma WokenSums(s: State, checks: seq<Check>, woken: Option<nat>, f: Place -> nat)
    requires Enabled(s, Add(checks, woken)) && forall p :: f(WakeIfWaiting(p)) == f(p)
    ensures Sum(Added(s, checks, woken).workers, f) == Sum(s.workers, f)
  {
    if |checks| == 1 && woken.Some? {
      SumUpdate(s.workers, woken.value, Woken, f);
      assert f(WakeIfWaiting(Waiting)) == f(Waiting);
    } else if |checks| > 1 {
      NotifySum(s.workers, f);
    }
  }

  lemma AddKeeps(s: State, checks: seq<Check>, woken: Option<nat>)
    requires Inv(s) && Enabled(s, Add(checks, woken))
    ensures Inv(Added(s, checks, woken))
  {
    hide Sum, AllTrue;
    var t := Added(s, checks, woken);
    WokenSums(s, checks, woken, Held);
    WokenSums(s, checks, woken, Idle);
    WokenSums(s, checks, woken, Inside);
    forall c ensures t.added[c] == Outstanding(t, c) + t.done[c] {
      WokenSums(s, checks, woken, Count(c));
      assert s.added[c] == Outstanding(s, c) + s.done[c];
      assert multiset(t.queue)[c] == multiset(s.queue)[c] + multiset(checks)[c];
    }
    forall w | w in t.workers ensures BatchOk(w, t.allOk) {
      var i :| 0 <= i < |t.workers| && t.workers[i] == w;
      assert BatchOk(s.workers[i], s.allOk);
    }
  }

  lemma SpuriousKeeps(s: State, who: Who)
    requires Inv(s) && Enabled(s, Spurious(who))
    ensures Inv(Move(s, who, Woken))
  {
    hide Sum, AllTrue;
    var t := Move(s, who, Woken);
    MoveSums(s, who, Woken);
    forall c ensures t.added[c] == Outstanding(t, c) + t.done[c] {
      assert s.added[c] == Outstanding(s, c) + s.done[c];
    }
    forall w | w in t.workers ensures BatchOk(w, t.allOk) {
      var i :| 0 <= i < |t.workers| && t.workers[i] == w;
      assert BatchOk(s.workers[i], s.allOk);
    }
  }

  /** Every step keeps the invariant. */
  lemma StepKeeps(batchSize: nat, s: State, e: Event)
    requires Inv(s) && Enabled(s, e)
    ensures Inv(Step(batchSize, s, e).state)
  {
    hide CountersOk, Conserved, ResultOk, Entered, LoopTop, Added, Move;
    match e
    case Add(checks, woken) => AddKeeps(s, checks, woken);
    case Spurious(who) => SpuriousKeeps(s, who);
    case _ =>
      EnteredKeeps(s, e);
      LoopTopKeeps(batchSize, Entered(s, e), e.who);
  }

  // ---------------------------------------------------------------------------------------------
  // What a thread does in the lock
  // ---------------------------------------------------------------------------------------------

  /** No thread other than this one moves. */
  ghost predicate OthersStay(s: State, t: State, who: Who)
  {
    && |t.workers| == |s.workers| && (who.Worker? ==> t.master == s.master)
    && forall i :: 0 <= i < |s.workers| && who != Worker(i) ==> t.workers[i] == s.workers[i]
  }

  /** With checks in the queue, a thread takes some from its end, last first: as many as its share of the queue, at least
      one, and no more than the batch size allows. It runs them only if none has failed so far. */
  lemma TakesBatch(batchSize: nat, s: State, who: Who)
    requires Books(s, 1) && Exists(s, who) && At(s, who).Outside? && s.queue != []
    ensures 0 < s.nTotal + s.nIdle + 1 && BatchCount(batchSize, s) <= |s.queue|
    ensures var o := LoopTop(batchSize, s, who);
      && o.returned == None && Exists(o.state, who) && OthersStay(s, o.state, who)
      && At(o.state, who).Running? && At(o.state, who).ok == s.allOk
      && var batch, threads := At(o.state, who).batch, s.nTotal + s.nIdle + 1;
         && 1 <= |batch| <= |s.queue| && o.state.queue == s.queue[..|s.queue| - |batch|]
         && (forall i :: 0 <= i < |batch| ==> batch[i] == s.queue[|s.queue| - 1 - i])
         && (|batch| == 1 || (|batch| <= batchSize && |batch| * threads <= |s.queue|))
         && (|batch| >= batchSize || (|batch| + 1) * threads > |s.queue|)
  {
    hide Sum, CountersOk, Conserved, ResultOk, Taken;
    LoopTopCounters(batchSize, s, who);
    Share(|s.queue|, s.nTotal + s.nIdle + 1);
    TakenAt(s.queue, BatchCount(batchSize, s));
  }

  lemma Share(n: nat, d: nat)
    requires d > 0
    ensures n / d * d <= n < (n / d + 1) * d
  {}

  lemma TakenAt(queue: seq<Check>, n: nat)
    requires n <= |queue|
    ensures |Taken(queue, n)| == n && forall i :: 0 <= i < n ==> Taken(queue, n)[i] == queue[|queue| - 1 - i]
  {}

  /** With an empty queue, the master returns if nothing is outstanding; any other thread, and the master otherwise,
      waits. */
  lemma WaitsOrReturns(batchSize: nat, s: State, who: Who)
    requires Exists(s, who) && s.queue == []
    ensures var o := LoopTop(batchSize, s, who);
      && Exists(o.state, who) && OthersStay(s, o.state, who) && o.state.queue == []
      && if who.Master? && s.nTodo == 0 then o.returned == Some(s.allOk) && o.state.master.Outside?
         else o.returned == None && At(o.state, who).Waiting? && o.state.nIdle == s.nIdle + 1
  {}

  /** Two checks or more wake every worker that waits; a single one wakes one of them, if any waits; none wakes nobody. */
  lemma AddWakes(s: State, checks: seq<Check>, woken: Option<nat>)
    requires Enabled(s, Add(checks, woken))
    ensures var t := Added(s, checks, woken);
      && t.queue == s.queue + checks && t.master == s.master && |t.workers| == |s.workers|
      && (|checks| >= 2 ==> forall i :: 0 <= i < |s.workers| ==>
            t.workers[i] == if s.workers[i].Waiting? then Woken else s.workers[i])
      && (|checks| == 1 && (exists w <- s.workers :: w.Waiting?) ==>
            exists i :: 0 <= i < |s.workers| && s.workers[i].Waiting? && t.workers == s.workers[i := Woken])
      && (|checks| == 0 || (forall w <- s.workers :: !w.Waiting?) ==> t.workers == s.workers)
  {
    if forall w <- s.workers :: !w.Waiting? {
      forall i | 0 <= i < |s.workers| ensures !s.workers[i].Waiting? { assert s.workers[i] in s.workers; }
    }
  }

  /** A worker that completes its batch wakes a waiting master if and only if nothing is left to do. */
  lemma WakesMasterIff(batchSize: nat, s: State, k: nat)
    requires Inv(s) && k < |s.workers| && s.workers[k].Running?
    ensures Step(batchSize, s, Finish(Worker(k))).state.master ==
      if s.master.Waiting? && s.nTodo == |s.workers[k].batch| then Woken else s.master
  {}

  // ---------------------------------------------------------------------------------------------
  // Runs
  // ---------------------------------------------------------------------------------------------

  ghost predicate Allowed(batchSize: nat, s: State, events: seq<Event>)
    requires Inv(s)
    decreases |events|
  {
    events == [] || (Enabled(s, events[0]) &&
                     (StepKeeps(batchSize, s, events[0]); Allowed(batchSize, Step(batchSize, s, events[0]).state, events[1..])))
  }

  /** The state after a run, which is consistent whatever the interleaving. */
  ghost function After(batchSize: nat, s: State, events: seq<Event>): (t: State)
    requires Inv(s) && Allowed(batchSize, s, events)
    ensures Inv(t)
    decreases |events|
  {
    if events == [] then s
    else
      StepKeeps(batchSize, s, events[0]);
      After(batchSize, Step(batchSize, s, events[0]).state, events[1..])
  }

  /** The checks that a run adds after its last return from Wait. */
  ghost function AddedSince(batchSize: nat, s: State, events: seq<Event>, before: multiset<Check>): multiset<Check>
    requires Inv(s) && Allowed(batchSize, s, events)
    decreases |events|
  {
    if events == [] then before
    else
      var e, o := events[0], Step(batchSize, s, events[0]);
      StepKeeps(batchSize, s, e);
      AddedSince(batchSize, o.state, events[1..],
                 if e.Add? then before + multiset(e.checks) else if o.returned.Some? then multiset{} else before)
  }

  lemma IdlersInv(workers: nat)
    ensures Inv(Idlers(workers))
  {
    var s := Idlers(workers);
    NoSum(workers, Held);
    NoSum(workers, Idle);
    NoSum(workers, Inside);
    forall c ensures Outstanding(s, c) == 0 { NoSum(workers, Count(c)); }
  }

  lemma {:induction false} NoSum(n: nat, f: Place -> nat)
    requires f(Outside) == 0
    ensures Sum(seq(n, _ => Outside), f) == 0
  {
    if n > 0 {
      NoSum(n - 1, f);
      assert seq(n, _ => Outside)[..n - 1] == seq(n - 1, _ => Outside);
    }
  }

  /** Nothing queued and every thread outside: where each run starts. */
  function Initial(workers: nat): (s: State)
    ensures Inv(s)
  {
    IdlersInv(workers);
    Idlers(workers)
  }

  lemma StepAdded(batchSize: nat, s: State, e: Event)
    requires Inv(s) && Enabled(s, e)
    ensures var o := Step(batchSize, s, e);
            o.state.added == if e.Add? then s.added + multiset(e.checks) else if o.returned.Some? then multiset{} else s.added
  {
    hide CountersOk, Conserved, ResultOk, MasterOk, BatchCount, AllTrue, Taken;
  }

  lemma {:induction false} AddedIsHistory(batchSize: nat, s: State, events: seq<Event>)
    requires Inv(s) && Allowed(batchSize, s, events)
    ensures After(batchSize, s, events).added == AddedSince(batchSize, s, events, s.added)
    decreases |events|
  {
    if events != [] {
      StepKeeps(batchSize, s, events[0]);
      StepAdded(batchSize, s, events[0]);
      AddedIsHistory(batchSize, Step(batchSize, s, events[0]).state, events[1..]);
    }
  }

  lemma StepReturns(batchSize: nat, s: State, e: Event)
    requires Inv(s) && Enabled(s, e) && Step(batchSize, s, e).returned.Some?
    ensures var o := Step(batchSize, s, e);
            && o.returned.value == AllTrue(s.added)
            && o.state.queue == [] && o.state.nTodo == 0 && o.state.master.Outside?
            && forall w <- o.state.workers :: !w.Running?
  {
    EnteredKeeps(s, e);
    ReturnIsRight(batchSize, Entered(s, e));
  }

  /** In every run of one master and any number of workers, Wait returns with nothing outstanding,
      and with true exactly when every check added since the previous Wait is true. */
  lemma WaitIsRight(batchSize: nat, workers: nat, events: seq<Event>, e: Event)
    requires Allowed(batchSize, Initial(workers), events)
    requires var s := After(batchSize, Initial(workers), events);
             Enabled(s, e) && Step(batchSize, s, e).returned.Some?
    ensures var o := Step(batchSize, After(batchSize, Initial(workers), events), e);
            && o.returned.value == AllTrue(AddedSince(batchSize, Initial(workers), events, multiset{}))
            && o.state.queue == [] && o.state.nTodo == 0 && o.state.master.Outside?
            && forall w <- o.state.workers :: !w.Running?
  {
    hide Inv, Allowed, After, AddedSince, Step, Enabled, AllTrue;
    AddedIsHistory(batchSize, Initial(workers), events);
    StepReturns(batchSize, After(batchSize, Initial(workers), events), e);
  }

  // ---------------------------------------------------------------------------------------------
  // Progress
  // ---------------------------------------------------------------------------------------------

  lemma {:induction false} SomeoneHolds(ws: seq<Place>) returns (i: nat)
    requires Sum(ws, Held) > 0
    ensures i < |ws| && ws[i].Running?
  {
    var k := |ws| - 1;
    if ws[k].Running? { i := k; } else { i := SomeoneHolds(ws[..k]); }
  }

  /** No wake-up is lost: while the master is blocked with no notification pending, the queue is empty
      and some worker still holds a batch; and the worker that completes the last check wakes it. */
  lemma NoLostWakeUp(batchSize: nat, s: State) returns (i: nat)
    requires Inv(s) && s.master.Waiting?
    ensures s.queue == [] && i < |s.workers| && s.workers[i].Running?
    ensures forall k | 0 <= k < |s.workers| && s.workers[k].Running? && s.nTodo == |s.workers[k].batch| ::
              Step(batchSize, s, Finish(Worker(k))).state.master.Woken?
  {
    i := SomeoneHolds(s.workers);
  }

  predicate IsLoopEvent(e: Event) { e.Start? || e.Finish? || e.Wake? }

  /** As long as the master is in Wait, some thread can take a step without a spurious wake-up. */
  lemma NeverStuck(batchSize: nat, s: State) returns (e: Event)
    requires Inv(s) && !s.master.Outside?
    ensures Enabled(s, e) && IsLoopEvent(e)
  {
    match s.master
    case Running(_, _) => e := Finish(Master);
    case Woken => e := Wake(Master);
    case Waiting =>
      var i := NoLostWakeUp(batchSize, s);
      e := Finish(Worker(i));
  }

  function Restless(p: Place): nat { if p.Outside? || p.Woken? then 1 else 0 }

  /** The threads that are yet to start or to act on a wake-up. */
  function Unsettled(s: State): nat { Sum(s.workers, Restless) + Restless(s.master) }

  lemma NonEmptyBatch(s: State, who: Who)
    requires ResultOk(s) && Exists(s, who)
    ensures At(s, who).Running? ==> At(s, who).batch != []
  {
    assert BatchOk(At(s, who), s.allOk);
  }

  lemma NoDebt(s: State)
    requires Inv(s)
    ensures s.nTodo >= 0
  {}

  /** Every step of the loop, spurious wake-ups aside, brings the end of Wait nearer. */
  lemma StepSettles(batchSize: nat, s: State, e: Event)
    requires Inv(s) && !s.master.Outside? && Enabled(s, e) && IsLoopEvent(e)
    requires Step(batchSize, s, e).returned.None?
    ensures var t := Step(batchSize, s, e).state;
            || 0 <= t.nTodo < s.nTodo
            || (t.nTodo == s.nTodo && |t.queue| < |s.queue|)
            || (t.nTodo == s.nTodo && |t.queue| == |s.queue| && Unsettled(t) < Unsettled(s))
    ensures !Step(batchSize, s, e).state.master.Outside?
  {
    hide CountersOk, Conserved, ResultOk, MasterOk, AllTrue, Taken, Sum, BatchCount;
    EnteredKeeps(s, e);
    var u := Entered(s, e);
    LoopTopKeeps(batchSize, u, e.who);
    NonEmptyBatch(s, e.who);
    NoDebt(Step(batchSize, s, e).state);
    if !e.Finish? && s.queue == [] {
      MoveSum(s, e.who, Waiting, Restless);
      var t, w := Step(batchSize, s, e).state, Move(s, e.who, Waiting);
      assert t.workers == w.workers && t.master == w.master;
    }
  }

  function SpuriousIn(past: seq<Event>): nat
  {
    if past == [] then 0 else SpuriousIn(past[..|past| - 1]) + if past[|past| - 1].Spurious? then 1 else 0
  }

  /** A scheduler, which may look at everything that has happened. While the master waits it lets some
      thread take a step; it wakes threads without a reason at most `spurious` times. */
  ghost predicate Schedules(pick: (seq<Event>, State) -> Event, spurious: nat)
  {
    forall past, s :: Inv(s) && !s.master.Outside? ==>
      var e := pick(past, s); Enabled(s, e) && (IsLoopEvent(e) || (e.Spurious? && SpuriousIn(past) < spurious))
  }

  /** Every schedule with finitely many spurious wake-ups ends Wait, and all of them with the same answer. */
  ghost function WaitResult(batchSize: nat, s: State, past: seq<Event>, pick: (seq<Event>, State) -> Event,
                            spurious: nat): (r: bool)
    requires Inv(s) && !s.master.Outside? && Schedules(pick, spurious) && SpuriousIn(past) <= spurious
    ensures r == AllTrue(s.added)
    decreases spurious - SpuriousIn(past), s.nTodo, |s.queue|, Unsettled(s)
  {
    var e := pick(past, s);
    var o := Step(batchSize, s, e);
    assert (past + [e])[..|past|] == past;
    StepKeeps(batchSize, s, e);
    StepAdded(batchSize, s, e);
    if o.returned.Some? then
      StepReturns(batchSize, s, e);
      o.returned.value
    else if e.Spurious? then
      WaitResult(batchSize, o.state, past + [e], pick, spurious)
    else
      StepSettles(batchSize, s, e);
      WaitResult(batchSize, o.state, past + [e], pick, spurious)
  }
}
