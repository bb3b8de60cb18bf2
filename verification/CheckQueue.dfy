/** The parallel check queue as a state machine over the steps its mutex makes atomic. One master adds checks and
    waits; any number of workers run the same loop. Sleeping threads may be woken for no reason at any time. */
module CheckQueue {
  import opened Common

  type Tid = nat

  type Check = nat

  const MASTER: Tid := 0

  /** nBatchSize, and the value each check evaluates to. */
  datatype Config = Config(nBatchSize: nat, eval: Check -> bool)

  /** Where a thread is in CCheckQueue::Loop. AtLock: about to lock the mutex, having run `batch` with result
      `fOk` (no batch the first time). Asleep: in the wait of its condition variable. Running: outside the lock,
      holding a batch. */
  datatype Local =
    | Outside
    | AtLock(batch: seq<Check>, fOk: bool)
    | Asleep(notified: bool)
    | Running(batch: seq<Check>, fOk: bool)

  /** The shared fields, the threads, and as history the checks added in this round and those accounted for.
      fQuit is never set by the program and is left out. */
  datatype State = State(
    queue: seq<Check>,
    nTodo: int,
    fAllOk: bool,
    nIdle: int,
    nTotal: int,
    threads: map<Tid, Local>,
    added: multiset<Check>,
    done: multiset<Check>
  )

  datatype Event =
    | Add(checks: seq<Check>, woken: set<Tid>)
    | Call(t: Tid)
    | Lock(t: Tid)
    | Wake(t: Tid)
    | Execute(t: Tid)

  function Held(l: Local): seq<Check> {
    match l
    case AtLock(batch, _) => batch
    case Running(batch, _) => batch
    case _ => []
  }

  predicate IsAsleep(l: Local) {
    l.Asleep?
  }

  predicate Inside(l: Local) {
    l.Asleep? || l.Running? || (l.AtLock? && l.batch != [])
  }

  predicate All(c: Config, s: seq<Check>) {
    forall x | x in s :: c.eval(x)
  }

  // ----- the steps

  function BatchSize(c: Config, s: State): (n: nat)
    requires s.queue != [] && s.nTotal >= 0 && s.nIdle >= 0
    ensures 1 <= n <= |s.queue|
  {
    Max(1, Min(c.nBatchSize, |s.queue| / (s.nTotal + s.nIdle + 1)))
  }

  function Reversed(s: seq<Check>): seq<Check> {
    if s == [] then [] else [s[|s| - 1]] + Reversed(s[..|s| - 1])
  }

  /** The loop that moves the last `nNow` jobs of the queue to the local batch. */
  method TakeBatch(queue: seq<Check>, nNow: nat) returns (vChecks: seq<Check>, rest: seq<Check>)
    requires nNow <= |queue|
    ensures rest == queue[..|queue| - nNow] && vChecks == Reversed(queue[|queue| - nNow..])
  {
    vChecks, rest := [], queue;
    var i := 0;
    while i < nNow
      invariant 0 <= i <= nNow
      invariant rest == queue[..|queue| - i] && vChecks == Reversed(queue[|queue| - i..])
    {
      var k := |queue| - i;
      ReversedSnoc(queue[k - 1], queue[k..]);
      assert queue[k - 1..] == [queue[k - 1]] + queue[k..];
      vChecks := vChecks + [rest[|rest| - 1]];
      rest := rest[..|rest| - 1];
      i := i + 1;
    }
  }

  lemma {:induction false} ReversedSnoc(x: Check, s: seq<Check>)
    ensures Reversed([x] + s) == Reversed(s) + [x]
  {
    if s == [] {
      assert [x] + s == [x];
    } else {
      var n := |s| - 1;
      assert ([x] + s)[..|[x] + s| - 1] == [x] + s[..n];
      ReversedSnoc(x, s[..n]);
    }
  }

  /** The loop that runs a batch: once a check has failed the rest are not evaluated. */
  method RunBatch(c: Config, vChecks: seq<Check>, fOkIn: bool) returns (fOk: bool)
    ensures fOk == (fOkIn && All(c, vChecks))
  {
    fOk := fOkIn;
    var i := 0;
    while i < |vChecks|
      invariant 0 <= i <= |vChecks|
      invariant fOk == (fOkIn && All(c, vChecks[..i]))
    {
      assert vChecks[..i + 1] == vChecks[..i] + [vChecks[i]];
      if fOk {
        fOk := c.eval(vChecks[i]);
      }
      i := i + 1;
    }
    assert vChecks[..i] == vChecks;
  }

  /** The clean-up of the previous run, done under the lock. */
  function CleanUp(s: State, t: Tid): State
    requires t in s.threads && s.threads[t].AtLock?
  {
    var l := s.threads[t];
    if l.batch != [] then
      var todo := s.nTodo - |l.batch|;
      var notify := todo == 0 && t != MASTER && MASTER in s.threads && s.threads[MASTER].Asleep?;
      s.(fAllOk := s.fAllOk && l.fOk, nTodo := todo,
         threads := if notify then s.threads[MASTER := Asleep(true)] else s.threads,
         done := s.done + multiset(l.batch))
    else s.(nTotal := s.nTotal + 1)
  }

  predicate Returns(s: State, t: Tid) {
    s.queue == [] && t == MASTER && s.nTodo == 0
  }

  /** The rest of the locked section: return, sleep, or take a batch from the back of the queue. A master that
      returns resets the status; the history starts a new round. */
  function Dispatch(c: Config, s: State, t: Tid): State
    requires t in s.threads && s.nTotal >= 0 && s.nIdle >= 0
  {
    if s.queue == [] then
      if Returns(s, t)
      then s.(nTotal := s.nTotal - 1, fAllOk := true, threads := s.threads[t := Outside],
              added := multiset{}, done := multiset{})
      else s.(nIdle := s.nIdle + 1, threads := s.threads[t := Asleep(false)])
    else
      var n := |s.queue| - BatchSize(c, s);
      s.(queue := s.queue[..n], threads := s.threads[t := Running(Reversed(s.queue[n..]), s.fAllOk)])
  }

  predicate Enabled(s: State, e: Event) {
    match e
    case Add(_, woken) => MASTER in s.threads && s.threads[MASTER].Outside? && MASTER !in woken
    case Call(t) => t in s.threads && s.threads[t].Outside?
    case Lock(t) => t in s.threads && s.threads[t].AtLock?
    case Wake(t) => t in s.threads && s.threads[t].Asleep?
    case Execute(t) => t in s.threads && s.threads[t].Running?
  }

  /** Wake up the chosen sleeping workers. */
  function Notified(threads: map<Tid, Local>, woken: set<Tid>): map<Tid, Local> {
    map t | t in threads :: if t in woken && threads[t].Asleep? then Asleep(true) else threads[t]
  }

  /** The state in which the locked section of `t` dispatches. */
  function Ready(s: State, t: Tid): State
    requires t in s.threads && (s.threads[t].AtLock? || s.threads[t].Asleep?)
  {
    if s.threads[t].AtLock? then CleanUp(s, t) else s.(nIdle := s.nIdle - 1)
  }

  ghost predicate Next(c: Config, s: State, e: Event, s': State) {
    Enabled(s, e) &&
    match e
    case Add(checks, woken) =>
      s' == s.(queue := s.queue + checks, nTodo := s.nTodo + |checks|, added := s.added + multiset(checks),
               threads := Notified(s.threads, woken))
    case Call(t) => s' == s.(threads := s.threads[t := AtLock([], true)])
    case Lock(t) =>
      var r := Ready(s, t);
      t in r.threads && r.nTotal >= 0 && r.nIdle >= 0 && s' == Dispatch(c, r, t)
    case Wake(t) =>
      var r := Ready(s, t);
      t in r.threads && r.nTotal >= 0 && r.nIdle >= 0 && s' == Dispatch(c, r, t)
    case Execute(t) =>
      var l := s.threads[t];
      s' == s.(threads := s.threads[t := AtLock(l.batch, l.fOk && All(c, l.batch))])
  }

  /** What Wait returns when the master's locked section returns: fAllOk after its clean-up. */
  predicate WaitReturns(s: State, e: Event) {
    && (e.Lock? || e.Wake?) && e.t == MASTER && Enabled(s, e)
    && Returns(Ready(s, MASTER), MASTER)
  }

  function WaitResult(s: State): bool
    requires MASTER in s.threads && (s.threads[MASTER].AtLock? || s.threads[MASTER].Asleep?)
  {
    Ready(s, MASTER).fAllOk
  }

  ghost predicate Init(s: State, workers: set<Tid>) {
    && MASTER !in workers
    && s == State([], 0, true, 0, 0, map t | t in workers + {MASTER} :: Outside, multiset{}, multiset{})
  }

  // ----- the invariant

  /** The checks held by threads. */
  ghost function InFlight(threads: map<Tid, Local>): multiset<Check> {
    if threads == map[] then multiset{}
    else
      var t :| t in threads;
      multiset(Held(threads[t])) + InFlight(threads - {t})
  }

  ghost function Which(threads: map<Tid, Local>, p: Local -> bool): set<Tid> {
    set t | t in threads && p(threads[t])
  }

  ghost function Count(threads: map<Tid, Local>, p: Local -> bool): nat {
    |Which(threads, p)|
  }

  ghost predicate Conserved(s: State) {
    && s.added == multiset(s.queue) + InFlight(s.threads) + s.done
    && s.nTodo == |s.queue| + |InFlight(s.threads)|
  }

  ghost predicate Truthful(c: Config, s: State) {
    && (s.fAllOk ==> forall x | x in s.done :: c.eval(x))
    && (!s.fAllOk ==> exists x :: x in s.done && !c.eval(x))
    && forall t | t in s.threads :: LocalOk(c, s.fAllOk, s.threads[t])
  }

  /** A batch marked bad was taken after a failure was recorded, or holds a failing check. */
  ghost predicate LocalOk(c: Config, fAllOk: bool, l: Local) {
    match l
    case Running(batch, fOk) => batch != [] && (!fOk ==> !fAllOk)
    case AtLock(batch, fOk) => if fOk then All(c, batch) else batch != [] && (!fAllOk || !All(c, batch))
    case _ => true
  }

  ghost predicate Counted(s: State) {
    && s.nIdle == Count(s.threads, IsAsleep)
    && s.nTotal == Count(s.threads, Inside)
  }

  /** A master that sleeps without having been notified has been overtaken by nothing: the queue is empty
      and checks are still out. */
  ghost predicate NoLostWakeup(s: State) {
    && MASTER in s.threads
    && (s.threads[MASTER] == Asleep(false) ==> s.queue == [] && s.nTodo > 0)
  }

  ghost predicate Inv(c: Config, s: State) {
    Conserved(s) && Truthful(c, s) && Counted(s) && NoLostWakeup(s)
  }

  // ----- counting threads and the checks they hold

  lemma {:induction false} InFlightPick(threads: map<Tid, Local>, t: Tid)
    requires t in threads
    ensures InFlight(threads) == multiset(Held(threads[t])) + InFlight(threads - {t})
    decreases threads.Keys
  {
    var u :| u in threads && InFlight(threads) == multiset(Held(threads[u])) + InFlight(threads - {u});
    if u != t {
      assert (threads - {u}).Keys == threads.Keys - {u} && (threads - {t}).Keys == threads.Keys - {t};
      InFlightPick(threads - {u}, t);
      InFlightPick(threads - {t}, u);
      assert threads - {u} - {t} == threads - {t} - {u};
    }
  }

  /** A thread's new state replaces what it held. */
  lemma InFlightUpdate(threads: map<Tid, Local>, t: Tid, l: Local)
    requires t in threads
    ensures InFlight(threads) == multiset(Held(threads[t])) + InFlight(threads - {t})
    ensures InFlight(threads[t := l]) == multiset(Held(l)) + InFlight(threads - {t})
  {
    InFlightPick(threads, t);
    InFlightPick(threads[t := l], t);
    assert threads[t := l] - {t} == threads - {t};
  }

  lemma {:induction false} InFlightSame(a: map<Tid, Local>, b: map<Tid, Local>)
    requires a.Keys == b.Keys && forall t | t in a :: Held(a[t]) == Held(b[t])
    ensures InFlight(a) == InFlight(b)
    decreases a.Keys
  {
    if a == map[] {
      assert b.Keys == {};
    } else {
      var t :| t in a;
      assert t in b.Keys;
      InFlightPick(a, t);
      InFlightPick(b, t);
      assert (a - {t}).Keys == a.Keys - {t} && (b - {t}).Keys == b.Keys - {t};
      InFlightSame(a - {t}, b - {t});
    }
  }

  lemma HeldWithin(threads: map<Tid, Local>, t: Tid)
    requires t in threads
    ensures multiset(Held(threads[t])) <= InFlight(threads) && |Held(threads[t])| <= |InFlight(threads)|
  {
    InFlightPick(threads, t);
  }

  lemma CountSame(a: map<Tid, Local>, b: map<Tid, Local>, p: Local -> bool)
    requires a.Keys == b.Keys && forall t | t in a :: p(a[t]) == p(b[t])
    ensures Count(a, p) == Count(b, p)
  {
    forall t ensures t in a && p(a[t]) <==> t in b && p(b[t]) {
      assert t in a <==> t in a.Keys;
      assert t in b <==> t in b.Keys;
    }
    assert Which(a, p) == Which(b, p);
  }

  lemma {:induction false} ReversedSame(s: seq<Check>)
    ensures multiset(Reversed(s)) == multiset(s) && |Reversed(s)| == |s|
  {
    if s != [] {
      ReversedSame(s[..|s| - 1]);
      assert s == s[..|s| - 1] + [s[|s| - 1]];
    }
  }

  // ----- every step keeps the invariant

  // The parts of the invariant inside a locked section, where the running thread `t` holds nothing and is
  // counted as inside.

  ghost predicate MidFlow(s: State, t: Tid) {
    && s.added == multiset(s.queue) + InFlight(s.threads - {t}) + s.done
    && s.nTodo == |s.queue| + |InFlight(s.threads - {t})|
  }

  ghost predicate MidTruth(c: Config, s: State, t: Tid) {
    && (s.fAllOk ==> forall x | x in s.done :: c.eval(x))
    && (!s.fAllOk ==> exists x :: x in s.done && !c.eval(x))
    && (forall u | u in s.threads && u != t :: LocalOk(c, s.fAllOk, s.threads[u]))
  }

  ghost predicate MidCount(s: State, t: Tid) {
    && s.nIdle == |Which(s.threads, IsAsleep) - {t}|
    && s.nTotal == |Which(s.threads, Inside) - {t}| + 1
  }

  ghost predicate MidWake(s: State, t: Tid) {
    && t in s.threads && MASTER in s.threads
    && (t != MASTER && s.threads[MASTER] == Asleep(false) ==> s.queue == [] && s.nTodo > 0)
  }

  ghost predicate Mid(c: Config, s: State, t: Tid) {
    MidFlow(s, t) && MidTruth(c, s, t) && MidCount(s, t) && MidWake(s, t)
  }

  /** The clean-up changes no thread but for notifying a sleeping master. */
  lemma CleanUpThreads(s: State, t: Tid)
    requires t in s.threads && s.threads[t].AtLock?
    ensures var a, b := s.threads, CleanUp(s, t).threads;
            && InFlight(b - {t}) == InFlight(a - {t})
            && Which(b, IsAsleep) == Which(a, IsAsleep) && Which(b, Inside) == Which(a, Inside)
  {
    var b := CleanUp(s, t).threads;
    if b != s.threads {
      var a := s.threads;
      assert b == a[MASTER := Asleep(true)];
      assert (a - {t}).Keys == (b - {t}).Keys;
      InFlightSame(a - {t}, b - {t});
    }
  }

  lemma CleanUpFlow(s: State, t: Tid)
    requires Conserved(s) && t in s.threads && s.threads[t].AtLock?
    ensures MidFlow(CleanUp(s, t), t)
  {
    InFlightPick(s.threads, t);
    CleanUpThreads(s, t);
    hide InFlight;
    if s.threads[t].batch != [] {
      FlowDone(s.added, multiset(s.queue), multiset(s.threads[t].batch), InFlight(s.threads - {t}), s.done);
    }
  }

  lemma FlowDone(added: multiset<Check>, queue: multiset<Check>, batch: multiset<Check>, others: multiset<Check>, done: multiset<Check>)
    requires added == queue + (batch + others) + done
    ensures added == queue + others + (done + batch)
  {}

  lemma CleanUpTruth(c: Config, s: State, t: Tid)
    requires Truthful(c, s) && t in s.threads && s.threads[t].AtLock?
    ensures MidTruth(c, CleanUp(s, t), t)
  {
    var s', l := CleanUp(s, t), s.threads[t];
    assert LocalOk(c, s.fAllOk, l);
    if l.batch != [] {
      forall x ensures x in s'.done <==> x in s.done || x in l.batch {
        assert x in multiset(l.batch) <==> x in l.batch;
      }
      if s'.fAllOk {
      } else if s.fAllOk {
        var x :| x in l.batch && !c.eval(x);
        assert x in s'.done;
      } else {
        var x :| x in s.done && !c.eval(x);
        assert x in s'.done;
      }
      forall u | u in s'.threads && u != t ensures LocalOk(c, s'.fAllOk, s'.threads[u]) {
        assert u in s.threads && LocalOk(c, s.fAllOk, s.threads[u]);
      }
    }
  }

  lemma SizeMinus(b: set<Tid>, t: Tid)
    ensures |b| == |b - {t}| + (if t in b then 1 else 0)
  {
    assert t in b ==> b == (b - {t}) + {t};
    assert t !in b ==> b == b - {t};
  }

  lemma CleanUpCount(s: State, t: Tid)
    requires Counted(s) && t in s.threads && s.threads[t].AtLock?
    ensures MidCount(CleanUp(s, t), t)
  {
    assert t !in Which(s.threads, IsAsleep) && (t in Which(s.threads, Inside) <==> s.threads[t].batch != []);
    hide Which;
    CleanUpThreads(s, t);
    SizeMinus(Which(s.threads, IsAsleep), t);
    SizeMinus(Which(s.threads, Inside), t);
  }

  lemma CleanUpWake(s: State, t: Tid)
    requires NoLostWakeup(s) && Conserved(s) && t in s.threads && s.threads[t].AtLock?
    ensures MidWake(CleanUp(s, t), t)
  {
    HeldWithin(s.threads, t);
  }

  lemma WakeFlow(s: State, t: Tid)
    requires Conserved(s) && t in s.threads && s.threads[t].Asleep?
    ensures MidFlow(s.(nIdle := s.nIdle - 1), t)
  {
    InFlightPick(s.threads, t);
  }

  lemma WakeCount(s: State, t: Tid)
    requires Counted(s) && t in s.threads && s.threads[t].Asleep?
    ensures MidCount(s.(nIdle := s.nIdle - 1), t)
  {
    SizeMinus(Which(s.threads, IsAsleep), t);
    SizeMinus(Which(s.threads, Inside), t);
  }

  lemma WakeMid(c: Config, s: State, t: Tid)
    requires Inv(c, s) && t in s.threads && s.threads[t].Asleep?
    ensures Mid(c, s.(nIdle := s.nIdle - 1), t)
  {
    hide Conserved, MidFlow, Counted, MidCount, LocalOk;
    WakeFlow(s, t);
    WakeCount(s, t);
  }

  lemma ReadyMid(c: Config, s: State, t: Tid)
    requires Inv(c, s) && t in s.threads && (s.threads[t].AtLock? || s.threads[t].Asleep?)
    ensures Mid(c, Ready(s, t), t)
  {
    if s.threads[t].AtLock? {
      CleanUpFlow(s, t);
      CleanUpTruth(c, s, t);
      CleanUpCount(s, t);
      CleanUpWake(s, t);
    } else {
      WakeMid(c, s, t);
    }
  }

  // Leaving the locked section.

  lemma LeaveFlow(s: State, t: Tid, l: Local)
    requires MidFlow(s, t) && t in s.threads && Held(l) == []
    ensures Conserved(s.(threads := s.threads[t := l]))
  {
    InFlightUpdate(s.threads, t, l);
  }

  lemma LeaveCount(s: State, t: Tid, l: Local, idle: int, total: int)
    requires MidCount(s, t) && t in s.threads
    requires idle == s.nIdle + (if IsAsleep(l) then 1 else 0) && total == s.nTotal - (if Inside(l) then 0 else 1)
    ensures Counted(s.(threads := s.threads[t := l], nIdle := idle, nTotal := total))
  {
    var m := s.threads[t := l];
    WhichUpdate(s.threads, t, l, IsAsleep);
    WhichUpdate(s.threads, t, l, Inside);
  }

  lemma WhichUpdate(threads: map<Tid, Local>, t: Tid, l: Local, p: Local -> bool)
    ensures |Which(threads[t := l], p)| == |Which(threads, p) - {t}| + (if p(l) then 1 else 0)
  {
    var m := threads[t := l];
    assert t in m && m[t] == l;
    assert Which(m, p) - {t} == Which(threads, p) - {t};
    if p(l) {
      assert Which(m, p) == (Which(m, p) - {t}) + {t};
    } else {
      assert Which(m, p) == Which(m, p) - {t};
    }
  }

  /** What a returning master found: nothing queued, nothing held, every added check accounted for once. */
  lemma ReturnDrained(c: Config, s: State)
    requires Mid(c, s, MASTER) && Returns(s, MASTER)
    ensures s.done == s.added && InFlight(s.threads - {MASTER}) == multiset{}
    ensures s.fAllOk <==> forall x | x in s.added :: c.eval(x)
  {
    assert |InFlight(s.threads - {MASTER})| == 0;
  }

  lemma DispatchReturn(c: Config, s: State)
    requires Mid(c, s, MASTER) && Returns(s, MASTER)
    ensures Inv(c, Dispatch(c, s, MASTER))
    ensures InFlight(Dispatch(c, s, MASTER).threads) == multiset{}
  {
    ReturnDrained(c, s);
    var s' := Dispatch(c, s, MASTER);
    InFlightUpdate(s.threads, MASTER, Outside);
    LeaveCount(s, MASTER, Outside, s.nIdle, s.nTotal - 1);
    forall u | u in s'.threads ensures LocalOk(c, s'.fAllOk, s'.threads[u]) {
      if u != MASTER {
        assert LocalOk(c, s.fAllOk, s.threads[u]);
        InFlightPick(s.threads - {MASTER}, u);
        assert Held(s.threads[u]) == [] by {
          assert |multiset(Held(s.threads[u]))| == 0;
        }
      }
    }
  }

  lemma DispatchSleep(c: Config, s: State, t: Tid)
    requires Mid(c, s, t) && s.queue == [] && !Returns(s, t)
    ensures Inv(c, Dispatch(c, s, t))
  {
    var s' := Dispatch(c, s, t);
    LeaveFlow(s, t, Asleep(false));
    LeaveCount(s, t, Asleep(false), s.nIdle + 1, s.nTotal);
    forall u | u in s'.threads ensures LocalOk(c, s'.fAllOk, s'.threads[u]) {
      assert u != t ==> LocalOk(c, s.fAllOk, s.threads[u]);
    }
  }

  lemma TakeFlow(s: State, t: Tid, n: nat, l: Local)
    requires MidFlow(s, t) && t in s.threads && n <= |s.queue| && Held(l) == Reversed(s.queue[n..])
    ensures Conserved(s.(queue := s.queue[..n], threads := s.threads[t := l]))
  {
    hide InFlight, Reversed;
    InFlightUpdate(s.threads, t, l);
    ReversedSame(s.queue[n..]);
    assert multiset(s.queue) == multiset(s.queue[..n]) + multiset(s.queue[n..]) by {
      assert s.queue == s.queue[..n] + s.queue[n..];
    }
    FlowTake(s.added, multiset(s.queue[..n]), multiset(s.queue[n..]), InFlight(s.threads - {t}), s.done);
  }

  lemma FlowTake(added: multiset<Check>, rest: multiset<Check>, batch: multiset<Check>, others: multiset<Check>, done: multiset<Check>)
    requires added == rest + batch + others + done
    ensures added == rest + (batch + others) + done
  {}

  lemma DispatchTake(c: Config, s: State, t: Tid)
    requires Mid(c, s, t) && s.queue != []
    ensures Inv(c, Dispatch(c, s, t))
  {
    var s' := Dispatch(c, s, t);
    var n := |s.queue| - BatchSize(c, s);
    var l := Running(Reversed(s.queue[n..]), s.fAllOk);
    ReversedSame(s.queue[n..]);
    TakeFlow(s, t, n, l);
    LeaveCount(s, t, l, s.nIdle, s.nTotal);
    forall u | u in s'.threads ensures LocalOk(c, s'.fAllOk, s'.threads[u]) {
      assert u != t ==> LocalOk(c, s.fAllOk, s.threads[u]);
    }
  }

  lemma DispatchInv(c: Config, s: State, t: Tid)
    requires Mid(c, s, t)
    ensures Inv(c, Dispatch(c, s, t))
  {
    hide Inv, MidFlow, MidTruth;
    if s.queue != [] {
      DispatchTake(c, s, t);
    } else if Returns(s, t) {
      DispatchReturn(c, s);
    } else {
      DispatchSleep(c, s, t);
    }
  }

  lemma AddInv(c: Config, s: State, checks: seq<Check>, woken: set<Tid>, s': State)
    requires Inv(c, s) && Next(c, s, Add(checks, woken), s')
    ensures Inv(c, s')
  {
    assert s'.threads.Keys == s.threads.Keys;
    InFlightSame(s.threads, s'.threads);
    CountSame(s.threads, s'.threads, IsAsleep);
    CountSame(s.threads, s'.threads, Inside);
    FlowAdd(s.added, multiset(s.queue), multiset(checks), InFlight(s.threads), s.done);
    assert multiset(s'.queue) == multiset(s.queue) + multiset(checks);
    forall u | u in s'.threads ensures LocalOk(c, s'.fAllOk, s'.threads[u]) {
      assert LocalOk(c, s.fAllOk, s.threads[u]);
    }
  }

  lemma FlowAdd(added: multiset<Check>, queue: multiset<Check>, more: multiset<Check>, held: multiset<Check>, done: multiset<Check>)
    requires added == queue + held + done
    ensures added + more == (queue + more) + held + done
  {}

  /** A thread's step outside the lock that changes neither what it holds nor whether it is counted. */
  lemma LocalStepInv(c: Config, s: State, t: Tid, l: Local)
    requires Inv(c, s) && t in s.threads && Held(l) == Held(s.threads[t])
    requires !l.Asleep? && !s.threads[t].Asleep? && Inside(l) == Inside(s.threads[t])
    requires LocalOk(c, s.fAllOk, l)
    ensures Inv(c, s.(threads := s.threads[t := l]))
  {
    var m := s.threads[t := l];
    assert m.Keys == s.threads.Keys;
    InFlightSame(s.threads, m);
    CountSame(s.threads, m, IsAsleep);
    CountSame(s.threads, m, Inside);
    forall u | u in m ensures LocalOk(c, s.fAllOk, m[u]) {
      assert u != t ==> LocalOk(c, s.fAllOk, s.threads[u]);
    }
  }

  /** Every step of every thread keeps the invariant. */
  lemma NextInv(c: Config, s: State, e: Event, s': State)
    requires Inv(c, s) && Next(c, s, e, s')
    ensures Inv(c, s')
  {
    match e
    case Add(checks, woken) => AddInv(c, s, checks, woken, s');
    case Call(t) => LocalStepInv(c, s, t, AtLock([], true));
    case Execute(t) =>
      var l := s.threads[t];
      assert LocalOk(c, s.fAllOk, l);
      LocalStepInv(c, s, t, AtLock(l.batch, l.fOk && All(c, l.batch)));
    case Lock(t) =>
      hide Inv, Mid, Dispatch;
      ReadyMid(c, s, t);
      DispatchInv(c, Ready(s, t), t);
    case Wake(t) =>
      hide Inv, Mid, Dispatch;
      ReadyMid(c, s, t);
      DispatchInv(c, Ready(s, t), t);
  }

  // ----- what holds in every run

  ghost predicate IsRun(c: Config, workers: set<Tid>, states: seq<State>, events: seq<Event>) {
    && |states| == |events| + 1 && Init(states[0], workers)
    && forall i | 0 <= i < |events| :: Next(c, states[i], events[i], states[i + 1])
  }

  lemma {:induction false} RunInv(c: Config, workers: set<Tid>, states: seq<State>, events: seq<Event>, n: nat)
    requires IsRun(c, workers, states, events) && n < |states|
    ensures Inv(c, states[n])
  {
    if n == 0 {
      InitInv(c, states[0], workers);
    } else {
      RunInv(c, workers, states, events, n - 1);
      NextInv(c, states[n - 1], events[n - 1], states[n]);
    }
  }

  lemma InitInv(c: Config, s: State, workers: set<Tid>)
    requires Init(s, workers)
    ensures Inv(c, s)
  {
    AllOutside(s.threads);
    assert Which(s.threads, IsAsleep) == {} && Which(s.threads, Inside) == {};
  }

  lemma {:induction false} AllOutside(threads: map<Tid, Local>)
    requires forall t | t in threads :: threads[t].Outside?
    ensures InFlight(threads) == multiset{}
    decreases threads.Keys
  {
    if threads != map[] {
      var t :| t in threads;
      InFlightPick(threads, t);
      assert (threads - {t}).Keys == threads.Keys - {t};
      AllOutside(threads - {t});
    }
  }

  /** In every run, nTodo counts exactly the queued and held checks, and no added check is lost or duplicated. */
  lemma NothingLost(c: Config, workers: set<Tid>, states: seq<State>, events: seq<Event>, n: nat)
    requires IsRun(c, workers, states, events) && n < |states|
    ensures var s := states[n];
            && s.nTodo == |s.queue| + |InFlight(s.threads)|
            && s.added == multiset(s.queue) + InFlight(s.threads) + s.done
  {
    RunInv(c, workers, states, events, n);
  }

  /** In every run, when the master's Wait returns, every check added in the round has been accounted for exactly
      once, the result is true iff all of them evaluate to true, and the next round starts from a clean queue. */
  lemma WaitCorrect(c: Config, workers: set<Tid>, states: seq<State>, events: seq<Event>, n: nat)
    requires IsRun(c, workers, states, events) && n < |events|
    requires WaitReturns(states[n], events[n])
    ensures WaitResult(states[n]) <==> forall x | x in states[n].added :: c.eval(x)
    ensures Ready(states[n], MASTER).done == states[n].added
    ensures var s' := states[n + 1];
            && s'.queue == [] && s'.nTodo == 0 && s'.fAllOk && InFlight(s'.threads) == multiset{}
            && s'.added == multiset{} && s'.threads[MASTER] == Outside
  {
    RunInv(c, workers, states, events, n);
    var s := states[n];
    assert Next(c, s, events[n], states[n + 1]);
    ReadyMid(c, s, MASTER);
    var r := Ready(s, MASTER);
    assert r.added == s.added;
    ReturnDrained(c, r);
    DispatchReturn(c, r);
  }

  /** The master's Wait returns in this step. */
  predicate MasterLeaves(s: State, s': State) {
    MASTER in s.threads && MASTER in s'.threads && !s.threads[MASTER].Outside? && s'.threads[MASTER].Outside?
  }

  /** The checks of the Add calls since Wait last returned. */
  ghost function Submitted(states: seq<State>, events: seq<Event>, n: nat): multiset<Check>
    requires n <= |events| && |states| == |events| + 1
  {
    if n == 0 || MasterLeaves(states[n - 1], states[n]) then multiset{}
    else
      match events[n - 1]
      case Add(checks, _) => Submitted(states, events, n - 1) + multiset(checks)
      case _ => Submitted(states, events, n - 1)
  }

  lemma StepSubmits(c: Config, s: State, e: Event, s': State)
    requires Next(c, s, e, s') && MASTER in s.threads
    ensures MASTER in s'.threads
    ensures s'.added == if MasterLeaves(s, s') then multiset{} else s.added + (if e.Add? then multiset(e.checks) else multiset{})
    ensures MasterLeaves(s, s') <==> WaitReturns(s, e)
  {
    hide Ready, Dispatch, Returns;
    match e
    case Add(_, _) =>
    case Call(_) =>
    case Execute(_) =>
    case Lock(t) => LockedSubmits(c, s, t);
    case Wake(t) => LockedSubmits(c, s, t);
  }

  lemma LockedSubmits(c: Config, s: State, t: Tid)
    requires t in s.threads && (s.threads[t].AtLock? || s.threads[t].Asleep?) && MASTER in s.threads
    requires Ready(s, t).nTotal >= 0 && Ready(s, t).nIdle >= 0
    ensures t in Ready(s, t).threads
    ensures var r, s' := Ready(s, t), Dispatch(c, Ready(s, t), t);
            && s'.added == (if Returns(r, t) then multiset{} else s.added)
            && MASTER in s'.threads
            && (s'.threads[MASTER].Outside? <==> if t == MASTER then Returns(r, t) else s.threads[MASTER].Outside?)
            && (Returns(r, t) ==> t == MASTER)
  {
    hide BatchSize, Reversed;
  }

  lemma {:induction false} RunSubmits(c: Config, workers: set<Tid>, states: seq<State>, events: seq<Event>, n: nat)
    requires IsRun(c, workers, states, events) && n <= |events|
    ensures MASTER in states[n].threads && states[n].added == Submitted(states, events, n)
  {
    hide Next;
    if n > 0 {
      RunSubmits(c, workers, states, events, n - 1);
      StepSubmits(c, states[n - 1], events[n - 1], states[n]);
    }
  }

  /** In every run, Wait returns true iff every check handed to Add since it last returned evaluates to true; until it
      returns, each of them is queued, held by one thread or accounted for, once for each time it was added. */
  lemma WaitAnswers(c: Config, workers: set<Tid>, states: seq<State>, events: seq<Event>, n: nat)
    requires IsRun(c, workers, states, events) && n < |events|
    ensures MASTER in states[n].threads && MASTER in states[n + 1].threads
    ensures var s := states[n];
            Submitted(states, events, n) == multiset(s.queue) + InFlight(s.threads) + s.done
    ensures MasterLeaves(states[n], states[n + 1]) ==>
              && (states[n].threads[MASTER].AtLock? || states[n].threads[MASTER].Asleep?)
              && (WaitResult(states[n]) <==> forall x | x in Submitted(states, events, n) :: c.eval(x))
  {
    hide Next, Ready, InFlight;
    RunSubmits(c, workers, states, events, n);
    RunSubmits(c, workers, states, events, n + 1);
    NothingLost(c, workers, states, events, n);
    StepSubmits(c, states[n], events[n], states[n + 1]);
    if MasterLeaves(states[n], states[n + 1]) {
      WaitCorrect(c, workers, states, events, n);
    }
  }

  /** A batch is a single check, or the largest that is within nBatchSize and leaves every other thread, and every idle
      one twice, a batch of the same size. */
  lemma BatchSizeExact(c: Config, s: State)
    requires s.queue != [] && s.nTotal >= 0 && s.nIdle >= 0
    ensures var n, share := BatchSize(c, s), s.nTotal + s.nIdle + 1;
            && (n == 1 || (n <= c.nBatchSize && n * share <= |s.queue|))
            && (n >= c.nBatchSize || (n + 1) * share > |s.queue|)
  {
    var share := s.nTotal + s.nIdle + 1;
    var n, q := BatchSize(c, s), |s.queue| / share;
    Shares(|s.queue|, share, n);
    assert n == Max(1, Min(c.nBatchSize, q));
  }

  lemma Shares(x: nat, share: nat, n: nat)
    requires share >= 1
    ensures n <= x / share ==> n * share <= x
    ensures n >= x / share ==> (n + 1) * share > x
  {
    var q := x / share;
    assert x == q * share + x % share;
    if n <= q {
      Grows(n, q, share);
    }
    if n >= q {
      Grows(q + 1, n + 1, share);
      assert (q + 1) * share == q * share + share;
    }
  }

  lemma Grows(m: nat, n: nat, k: nat)
    requires m <= n
    ensures m * k <= n * k
  {}

  /** In every run, a master that sleeps without a pending notification has not been forgotten: some worker still
      holds a batch. */
  lemma SleepingMasterIsAwaited(c: Config, workers: set<Tid>, states: seq<State>, events: seq<Event>, n: nat)
    requires IsRun(c, workers, states, events) && n < |states|
    requires MASTER in states[n].threads && states[n].threads[MASTER] == Asleep(false)
    ensures exists t :: t in states[n].threads && t != MASTER && Held(states[n].threads[t]) != []
  {
    RunInv(c, workers, states, events, n);
    var s := states[n];
    assert |InFlight(s.threads)| > 0;
    SomeoneHolds(s.threads);
  }

  lemma {:induction false} SomeoneHolds(threads: map<Tid, Local>)
    requires InFlight(threads) != multiset{}
    ensures exists t :: t in threads && Held(threads[t]) != []
    decreases threads.Keys
  {
    var t :| t in threads && InFlight(threads) == multiset(Held(threads[t])) + InFlight(threads - {t});
    if Held(threads[t]) == [] {
      assert (threads - {t}).Keys == threads.Keys - {t};
      SomeoneHolds(threads - {t});
      var u :| u in threads - {t} && Held((threads - {t})[u]) != [];
      assert u in threads && Held(threads[u]) != [];
    }
  }

  /** The steps a scheduler will eventually grant: all but waking a sleeper that nobody notified. */
  predicate Due(s: State, e: Event) {
    Enabled(s, e) && (e.Lock? || e.Execute? || (e.Wake? && s.threads[e.t] == Asleep(true)))
  }

  /** In every run, while the master is waiting some step is due and can be taken: the queue never deadlocks. */
  lemma NeverStuck(c: Config, workers: set<Tid>, states: seq<State>, events: seq<Event>, n: nat)
    requires IsRun(c, workers, states, events) && n < |states|
    requires MASTER in states[n].threads && !states[n].threads[MASTER].Outside?
    ensures exists e, s' :: Due(states[n], e) && Next(c, states[n], e, s')
  {
    var s := states[n];
    RunInv(c, workers, states, events, n);
    var t := MASTER;
    if s.threads[MASTER] == Asleep(false) {
      SleepingMasterIsAwaited(c, workers, states, events, n);
      t :| t in s.threads && t != MASTER && Held(s.threads[t]) != [];
    }
    if s.threads[t].Running? {
      var l := s.threads[t];
      assert Due(s, Execute(t)) && Next(c, s, Execute(t), s.(threads := s.threads[t := AtLock(l.batch, l.fOk && All(c, l.batch))]));
    } else {
      var e := if s.threads[t].AtLock? then Lock(t) else Wake(t);
      ReadyMid(c, s, t);
      assert Due(s, e) && Next(c, s, e, Dispatch(c, Ready(s, t), t));
    }
  }

  // ----- Wait returns

  /** How far a thread is from having nothing more to do: a worker not yet started, a batch to run, the lock to take,
      a notification to answer. */
  function Weight(t: Tid, l: Local): nat {
    match l
    case Outside => if t == MASTER then 0 else 3
    case Running(_, _) => 3
    case AtLock(_, _) => 2
    case Asleep(notified) => if notified then 1 else 0
  }

  ghost function Load(threads: map<Tid, Local>): nat {
    if threads == map[] then 0
    else
      var t :| t in threads;
      Weight(t, threads[t]) + Load(threads - {t})
  }

  lemma {:induction false} LoadPick(threads: map<Tid, Local>, t: Tid)
    requires t in threads
    ensures Load(threads) == Weight(t, threads[t]) + Load(threads - {t})
    decreases threads.Keys
  {
    hide Weight;
    var u :| u in threads && Load(threads) == Weight(u, threads[u]) + Load(threads - {u});
    if u != t {
      assert (threads - {u}).Keys == threads.Keys - {u} && (threads - {t}).Keys == threads.Keys - {t};
      LoadPick(threads - {u}, t);
      LoadPick(threads - {t}, u);
      assert threads - {u} - {t} == threads - {t} - {u};
    }
  }

  lemma LoadUpdate(threads: map<Tid, Local>, t: Tid, l: Local)
    requires t in threads
    ensures Load(threads[t := l]) + Weight(t, threads[t]) == Load(threads) + Weight(t, l)
  {
    hide Weight, Load;
    LoadPick(threads, t);
    LoadPick(threads[t := l], t);
    assert threads[t := l] - {t} == threads - {t};
  }

  lemma {:induction false} LoadBound(threads: map<Tid, Local>)
    ensures Load(threads) <= 3 * |threads|
    decreases threads.Keys
  {
    if threads != map[] {
      var t :| t in threads;
      LoadPick(threads, t);
      assert (threads - {t}).Keys == threads.Keys - {t};
      LoadBound(threads - {t});
      assert |(threads - {t}).Keys| == |threads.Keys| - 1;
    }
  }

  ghost function Work(s: State): nat {
    3 * |s.queue| + Load(s.threads)
  }

  /** A sleeper that nobody notified wakes up. */
  predicate Spurious(s: State, e: Event) {
    e.Wake? && e.t in s.threads && s.threads[e.t] == Asleep(false)
  }

  predicate Waiting(s: State) {
    MASTER in s.threads && !s.threads[MASTER].Outside?
  }

  /** The work left when the locked section of a thread dispatches, the thread itself not counted. */
  lemma ReadyWork(s: State, t: Tid)
    requires t in s.threads && (s.threads[t].AtLock? || s.threads[t].Asleep?)
    ensures var r := Ready(s, t);
            && t in r.threads && r.queue == s.queue && r.threads.Keys == s.threads.Keys
            && Load(r.threads) <= Load(s.threads) + (if s.threads[t].AtLock? then 1 else 0)
            && (s.queue != [] && r.nTodo >= |r.queue| ==> Load(r.threads) == Load(s.threads))
            && Weight(t, r.threads[t]) == Weight(t, s.threads[t])
  {
    hide Load;
    if MASTER in s.threads {
      LoadUpdate(s.threads, MASTER, Asleep(true));
    }
  }

  lemma DispatchWork(c: Config, s: State, t: Tid)
    requires t in s.threads && s.nTotal >= 0 && s.nIdle >= 0
    ensures var s' := Dispatch(c, s, t);
            if s.queue == [] then s'.queue == [] && Load(s'.threads) + Weight(t, s.threads[t]) == Load(s.threads)
            else |s'.queue| < |s.queue| && Load(s'.threads) + Weight(t, s.threads[t]) == Load(s.threads) + 3
  {
    hide Load;
    var s' := Dispatch(c, s, t);
    LoadUpdate(s.threads, t, s'.threads[t]);
  }

  /** While the master waits, every step of every thread but a spurious wake-up leaves less work, and a spurious
      wake-up not more. */
  lemma StepWorks(c: Config, s: State, e: Event, s': State)
    requires Inv(c, s) && Next(c, s, e, s') && Waiting(s)
    ensures Work(s') + (if Spurious(s, e) then 0 else 1) <= Work(s)
  {
    hide Load, Inv, Ready, Dispatch;
    match e
    case Add(_, _) =>
    case Call(t) => LoadUpdate(s.threads, t, AtLock([], true));
    case Execute(t) => LoadUpdate(s.threads, t, s'.threads[t]);
    case Lock(t) => LockedWorks(c, s, t);
    case Wake(t) => LockedWorks(c, s, t);
  }

  lemma LockedWorks(c: Config, s: State, t: Tid)
    requires Inv(c, s) && t in s.threads && (s.threads[t].AtLock? || s.threads[t].Asleep?)
    ensures var r := Ready(s, t);
            && t in r.threads && r.nTotal >= 0 && r.nIdle >= 0
            && Work(Dispatch(c, r, t)) + (if s.threads[t] == Asleep(false) then 0 else 1) <= Work(s)
  {
    hide Load, Inv, Ready, Dispatch;
    var r := Ready(s, t);
    ReadyMid(c, s, t);
    ReadyWork(s, t);
    DispatchWork(c, r, t);
  }

  /** The steps from the m-th up to the n-th that are not spurious wake-ups. */
  function Progress(states: seq<State>, events: seq<Event>, m: nat, n: nat): nat
    requires m <= n <= |events| <= |states|
  {
    if n == m then 0 else Progress(states, events, m, n - 1) + (if Spurious(states[n - 1], events[n - 1]) then 0 else 1)
  }

  /** In every run, once the master waits there are only so many steps before Wait returns: three for every check still
      queued and three for every thread, spurious wake-ups not counted. */
  lemma {:induction false} WaitEnds(c: Config, workers: set<Tid>, states: seq<State>, events: seq<Event>, m: nat, n: nat)
    requires IsRun(c, workers, states, events) && m <= n <= |events|
    requires forall i | m <= i < n :: Waiting(states[i])
    ensures Progress(states, events, m, n) + Work(states[n]) <= Work(states[m])
    ensures Progress(states, events, m, n) <= 3 * |states[m].queue| + 3 * |states[m].threads|
  {
    hide Inv, Next, Load;
    LoadBound(states[m].threads);
    if n > m {
      WaitEnds(c, workers, states, events, m, n - 1);
      RunInv(c, workers, states, events, n - 1);
      StepWorks(c, states[n - 1], events[n - 1], states[n]);
    }
  }
}
