/** The task queue shared by threads, one atomic step at a time: any number of threads, each
    of which may add and get, one mutex and one condition variable. */
module QueueThreads {
  import opened Wrappers

  /** Where a thread stands in the code. */
  datatype Phase<T> =
    | Idle
    | Prepared(task: T)   // adding: the task is built, the mutex not yet locked
    | Adding(task: T)     // adding: locked
    | Linked              // adding: task linked in, not yet broadcast
    | Broadcasted         // adding: not yet unlocked
    | Entering            // getting: about to lock
    | Checking            // getting: locked, about to test the length
    | Waiting             // getting: in the wait, asleep
    | Woken               // getting: in the wait, about to lock again
    | Taking              // getting: found the queue not empty
    | Taken(task: T)      // getting: not yet unlocked

  datatype State<T> = State(
    queue: seq<T>,
    owner: Option<nat>,
    at: map<nat, Phase<T>>,
    added: seq<T>,            // history of both operations
    taken: seq<(nat, T)>)

  datatype Step<T> =
    | Prepare(thread: nat, task: T)
    | LockToAdd(thread: nat)
    | Link(thread: nat)
    | Broadcast(thread: nat)
    | UnlockAdded(thread: nat)
    | Enter(thread: nat)
    | LockToGet(thread: nat)
    | Check(thread: nat)
    | WakeUp(thread: nat)      // without a signal
    | Take(thread: nat)
    | UnlockTaken(thread: nat)

  predicate Enabled<T>(s: State<T>, step: Step<T>) {
    && step.thread in s.at
    && (var p := s.at[step.thread];
        match step
        case Prepare(_, _) => p.Idle?
        case LockToAdd(_) => p.Prepared? && s.owner.None?
        case Link(_) => p.Adding?
        case Broadcast(_) => p.Linked?
        case UnlockAdded(_) => p.Broadcasted?
        case Enter(_) => p.Idle?
        case LockToGet(_) => (p.Entering? || p.Woken?) && s.owner.None?
        case Check(_) => p.Checking?
        case WakeUp(_) => p.Waiting?
        case Take(_) => p.Taking? && s.queue != []
        case UnlockTaken(_) => p.Taken?)
  }

  function Moved<T>(s: State<T>, t: nat, p: Phase<T>): State<T> {
    s.(at := s.at[t := p])
  }

  /** Every thread asleep in the wait is woken. */
  function Wake<T>(at: map<nat, Phase<T>>): map<nat, Phase<T>> {
    map t | t in at :: if at[t].Waiting? then Woken else at[t]
  }

  function Do<T>(s: State<T>, step: Step<T>): State<T>
    requires Enabled(s, step)
  {
    var t := step.thread;
    match step
    case Prepare(_, task) => Moved(s, t, Prepared(task))
    case LockToAdd(_) => Moved(s, t, Adding(s.at[t].task)).(owner := Some(t))
    case Link(_) =>
      Moved(s, t, Linked).(queue := s.queue + [s.at[t].task], added := s.added + [s.at[t].task])
    case Broadcast(_) => s.(at := Wake(s.at)[t := Broadcasted])
    case UnlockAdded(_) => Moved(s, t, Idle).(owner := None)
    case Enter(_) => Moved(s, t, Entering)
    case LockToGet(_) => Moved(s, t, Checking).(owner := Some(t))
    case Check(_) => if s.queue == [] then Moved(s, t, Waiting).(owner := None) else Moved(s, t, Taking)
    case WakeUp(_) => Moved(s, t, Woken)
    case Take(_) =>
      Moved(s, t, Taken(s.queue[0])).(queue := s.queue[1..], taken := s.taken + [(t, s.queue[0])])
    case UnlockTaken(_) => Moved(s, t, Idle).(owner := None)
  }

  predicate Legal<T>(s: State<T>, steps: seq<Step<T>>)
    decreases |steps|
  {
    steps == [] || (Enabled(s, steps[0]) && Legal(Do(s, steps[0]), steps[1..]))
  }

  function After<T>(s: State<T>, steps: seq<Step<T>>): State<T>
    requires Legal(s, steps)
    decreases |steps|
  {
    if steps == [] then s else After(Do(s, steps[0]), steps[1..])
  }

  /** Nothing added, every thread idle. */
  predicate Initial<T>(s: State<T>) {
    && s.queue == [] && s.owner.None? && s.added == [] && s.taken == []
    && forall t :: t in s.at ==> s.at[t].Idle?
  }

  // ---- the invariant ----

  /** The phases between lock and unlock; the wait releases the mutex. */
  predicate InCriticalRegion<T>(p: Phase<T>) {
    p.Adding? || p.Linked? || p.Broadcasted? || p.Checking? || p.Taking? || p.Taken?
  }

  function Tasks<T>(taken: seq<(nat, T)>): (r: seq<T>)
    ensures |r| == |taken|
  {
    seq(|taken|, i requires 0 <= i < |taken| => taken[i].1)
  }

  ghost predicate MutualExclusion<T>(s: State<T>) {
    forall t :: t in s.at ==> (InCriticalRegion(s.at[t]) <==> s.owner == Some(t))
  }

  ghost predicate Fifo<T>(s: State<T>) {
    Tasks(s.taken) + s.queue == s.added
  }

  /** A sleeping thread has nothing to take, or its wake-up call is already on its way. */
  ghost predicate NoLostWakeup<T>(s: State<T>) {
    && (forall t :: t in s.at && s.at[t].Waiting? ==>
          s.queue == [] || (s.owner.Some? && s.owner.value in s.at && s.at[s.owner.value].Linked?))
    && (forall t :: t in s.at && s.at[t].Taking? ==> s.queue != [])
  }

  ghost predicate Inv<T>(s: State<T>) {
    && (s.owner.Some? ==> s.owner.value in s.at)
    && MutualExclusion(s) && Fifo(s) && NoLostWakeup(s)
  }

  lemma TakeKeepsInv<T>(s: State<T>, t: nat)
    requires Inv(s) && Enabled(s, Take(t))
    ensures Inv(Do(s, Take(t)))
  {
    var r := Do(s, Take(t));
    assert Tasks(r.taken) == Tasks(s.taken) + [s.queue[0]];
    assert s.queue == [s.queue[0]] + r.queue;
  }

  lemma LinkKeepsInv<T>(s: State<T>, t: nat)
    requires Inv(s) && Enabled(s, Link(t))
    ensures Inv(Do(s, Link(t)))
  {
    hide Tasks;
    assert Tasks(s.taken) + (s.queue + [s.at[t].task]) == (Tasks(s.taken) + s.queue) + [s.at[t].task];
  }

  lemma BroadcastKeepsInv<T>(s: State<T>, t: nat)
    requires Inv(s) && Enabled(s, Broadcast(t))
    ensures Inv(Do(s, Broadcast(t))) && Do(s, Broadcast(t)).at.Keys == s.at.Keys
  {
    hide Tasks;
  }

  /** The steps that leave the queue and the history alone. */
  lemma OtherStepKeepsInv<T>(s: State<T>, step: Step<T>)
    requires Inv(s) && Enabled(s, step) && !step.Take? && !step.Link? && !step.Broadcast?
    ensures Inv(Do(s, step))
  {
    hide Tasks;
  }

  lemma StepKeepsInv<T>(s: State<T>, step: Step<T>)
    requires Inv(s) && Enabled(s, step)
    ensures Inv(Do(s, step)) && Do(s, step).at.Keys == s.at.Keys
  {
    hide Inv;
    match step
    case Take(t) => TakeKeepsInv(s, t);
    case Link(t) => LinkKeepsInv(s, t);
    case Broadcast(t) => BroadcastKeepsInv(s, t);
    case _ => OtherStepKeepsInv(s, step);
  }

  lemma {:induction false} RunsKeepInv<T>(s: State<T>, steps: seq<Step<T>>)
    requires Inv(s) && Legal(s, steps)
    ensures Inv(After(s, steps)) && After(s, steps).at.Keys == s.at.Keys
    decreases |steps|
  {
    if steps != [] {
      StepKeepsInv(s, steps[0]);
      RunsKeepInv(Do(s, steps[0]), steps[1..]);
    }
  }

  // ---- what every run keeps ----

  /** Whatever the interleaving, the tasks taken so far are the tasks added first, in order
      and each once, and the rest are still queued. */
  lemma TakenInOrderOnce<T>(s: State<T>, steps: seq<Step<T>>)
    requires Initial(s) && Legal(s, steps)
    ensures var r := After(s, steps);
      && |r.taken| <= |r.added| && r.queue == r.added[|r.taken|..]
      && forall k :: 0 <= k < |r.taken| ==> r.taken[k].1 == r.added[k]
  {
    RunsKeepInv(s, steps);
    var r := After(s, steps);
    assert r.added[..|r.taken|] == Tasks(r.taken);
    forall k | 0 <= k < |r.taken| ensures r.taken[k].1 == r.added[k] {
      assert r.added[k] == Tasks(r.taken)[k];
    }
  }

  lemma AtMostOneInside<T>(s: State<T>, steps: seq<Step<T>>, t: nat, u: nat)
    requires Initial(s) && Legal(s, steps) && t in s.at && u in s.at
    ensures t in After(s, steps).at && u in After(s, steps).at
    ensures InCriticalRegion(After(s, steps).at[t]) && InCriticalRegion(After(s, steps).at[u]) ==> t == u
  {
    RunsKeepInv(s, steps);
  }

  /** There is never a task queued and a free mutex while a thread sleeps. */
  lemma NobodySleepsOverATask<T>(s: State<T>, steps: seq<Step<T>>, t: nat)
    requires Initial(s) && Legal(s, steps) && t in s.at
    ensures var r := After(s, steps);
      r.queue != [] && r.owner.None? ==> t in r.at && !r.at[t].Waiting?
  {
    RunsKeepInv(s, steps);
  }

  /** The step the code of a thread in the middle of an operation makes next. */
  function NextStep<T>(t: nat, p: Phase<T>): Step<T>
    requires !p.Idle? && !p.Waiting?
  {
    match p
    case Prepared(_) => LockToAdd(t)
    case Adding(_) => Link(t)
    case Linked => Broadcast(t)
    case Broadcasted => UnlockAdded(t)
    case Entering => LockToGet(t)
    case Checking => Check(t)
    case Woken => LockToGet(t)
    case Taking => Take(t)
    case Taken(_) => UnlockTaken(t)
  }

  /** Every thread is idle or asleep on an empty queue. */
  predicate AtRest<T>(s: State<T>) {
    forall t :: t in s.at ==> s.at[t].Idle? || (s.at[t].Waiting? && s.queue == [])
  }

  predicate GoesOn<T>(s: State<T>, t: nat) {
    t in s.at && !s.at[t].Idle? && !s.at[t].Waiting?
    && Own(NextStep(t, s.at[t])) && Enabled(s, NextStep(t, s.at[t]))
  }

  lemma SomeThreadGoesOn<T>(s: State<T>)
    requires Inv(s)
    ensures AtRest(s) || exists t :: GoesOn(s, t)
  {
    if s.owner.Some? {
      assert GoesOn(s, s.owner.value);
    } else if t :| t in s.at && !s.at[t].Idle? && !s.at[t].Waiting? {
      assert GoesOn(s, t);
    }
  }

  /** No deadlock: the system is only ever at rest, without relying on a wake-up out of the
      blue, when every thread is idle or asleep on an empty queue. */
  lemma AtRestOnlyWhenDone<T>(s: State<T>, steps: seq<Step<T>>)
    requires Initial(s) && Legal(s, steps)
    ensures AtRest(After(s, steps)) || exists t :: GoesOn(After(s, steps), t)
  {
    RunsKeepInv(s, steps);
    SomeThreadGoesOn(After(s, steps));
  }

  // ---- going on ends ----

  /** A step of an operation already under way, and not a wake-up out of the blue. */
  predicate Own<T>(step: Step<T>) {
    !step.Prepare? && !step.Enter? && !step.WakeUp?
  }

  predicate AllOwn<T>(steps: seq<Step<T>>) {
    forall i :: 0 <= i < |steps| ==> Own(steps[i])
  }

  /** How many steps a thread still accounts for: its own, and for the one whose broadcast is
      to come, those of all the threads it may wake. */
  function Weight<T>(p: Phase<T>, threads: nat): nat {
    match p
    case Idle => 0
    case Prepared(_) => 4 * threads + 4
    case Adding(_) => 4 * threads + 3
    case Linked => 4 * threads + 2
    case Broadcasted => 1
    case Entering => 4
    case Woken => 4
    case Checking => 3
    case Taking => 2
    case Taken(_) => 1
    case Waiting => 0
  }

  /** The weights of the threads numbered below k. */
  function Total<T>(at: map<nat, Phase<T>>, k: nat, threads: nat): nat {
    if k == 0 then 0
    else Total(at, k - 1, threads) + if k - 1 in at then Weight(at[k - 1], threads) else 0
  }

  lemma {:induction false} TotalMoved<T>(at: map<nat, Phase<T>>, t: nat, p: Phase<T>, k: nat, threads: nat)
    requires t in at
    ensures Total(at[t := p], k, threads) + (if t < k then Weight(at[t], threads) else 0)
         == Total(at, k, threads) + (if t < k then Weight(p, threads) else 0)
  {
    if k > 0 {
      TotalMoved(at, t, p, k - 1, threads);
    }
  }

  lemma {:induction false} TotalWoken<T>(at: map<nat, Phase<T>>, k: nat, threads: nat)
    ensures Total(Wake(at), k, threads) <= Total(at, k, threads) + 4 * k
  {
    if k > 0 {
      TotalWoken(at, k - 1, threads);
    }
  }

  /** All threads are numbered below. */
  predicate Below<T>(at: map<nat, Phase<T>>, bound: nat) {
    forall t :: t in at ==> t < bound
  }

  function Remaining<T>(s: State<T>, bound: nat): nat {
    Total(s.at, bound, bound)
  }

  /** Each such step uses up some of what remains, a broadcast included. */
  lemma OwnStepDescends<T>(s: State<T>, step: Step<T>, bound: nat)
    requires Enabled(s, step) && Own(step) && Below(s.at, bound)
    ensures Remaining(Do(s, step), bound) < Remaining(s, bound) && Below(Do(s, step).at, bound)
  {
    var r, t := Do(s, step), step.thread;
    if step.Broadcast? {
      TotalWoken(s.at, bound, bound);
      TotalMoved(Wake(s.at), t, Broadcasted, bound, bound);
    } else {
      TotalMoved(s.at, t, r.at[t], bound, bound);
      assert r.at == s.at[t := r.at[t]];
    }
  }

  /** Operations under way end: however the threads go on, in a number of steps bounded by where
      they stand. */
  lemma {:induction false} GoingOnEnds<T>(s: State<T>, steps: seq<Step<T>>, bound: nat)
    requires Legal(s, steps) && AllOwn(steps) && Below(s.at, bound)
    ensures |steps| + Remaining(After(s, steps), bound) <= Remaining(s, bound)
    decreases |steps|
  {
    if steps != [] {
      assert Own(steps[0]) && AllOwn(steps[1..]);
      OwnStepDescends(s, steps[0], bound);
      GoingOnEnds(Do(s, steps[0]), steps[1..], bound);
    }
  }

  lemma {:induction false} ThreadsAreBounded<T>(at: map<nat, Phase<T>>) returns (bound: nat)
    ensures Below(at, bound)
    decreases |at|
  {
    if at == map[] {
      bound := 0;
    } else {
      var t :| t in at;
      var rest := at - {t};
      assert rest.Keys == at.Keys - {t};
      bound := ThreadsAreBounded(rest);
      assert forall u :: u in at ==> u == t || u in rest;
      bound := if bound > t then bound else t + 1;
    }
  }

  /** And where no thread can go on, all are idle or asleep on an empty queue: if any is still
      getting, every task added has been taken. */
  lemma EndsAtRest<T>(s: State<T>, steps: seq<Step<T>>)
    requires Initial(s) && Legal(s, steps)
    requires forall step: Step<T> :: Own(step) ==> !Enabled(After(s, steps), step)
    ensures AtRest(After(s, steps))
    ensures (exists t :: t in After(s, steps).at && !After(s, steps).at[t].Idle?) ==>
      Tasks(After(s, steps).taken) == After(s, steps).added
  {
    RunsKeepInv(s, steps);
    var r := After(s, steps);
    SomeThreadGoesOn(r);
    if r.queue == [] {
      assert Tasks(r.taken) + [] == Tasks(r.taken);
    }
  }

  /** From every reachable state the operations under way can be brought to their end. */
  lemma {:induction false} ComesToRest<T>(s: State<T>, bound: nat) returns (steps: seq<Step<T>>)
    requires Inv(s) && Below(s.at, bound)
    ensures Legal(s, steps) && AllOwn(steps) && AtRest(After(s, steps))
    decreases Remaining(s, bound)
  {
    SomeThreadGoesOn(s);
    if AtRest(s) {
      steps := [];
    } else {
      var t :| GoesOn(s, t);
      var step := NextStep(t, s.at[t]);
      StepKeepsInv(s, step);
      OwnStepDescends(s, step, bound);
      var rest := ComesToRest(Do(s, step), bound);
      StepFirst(s, step, rest);
      steps := [step] + rest;
    }
  }

  lemma StepFirst<T>(s: State<T>, step: Step<T>, rest: seq<Step<T>>)
    requires Enabled(s, step) && Legal(Do(s, step), rest)
    ensures Legal(s, [step] + rest) && After(s, [step] + rest) == After(Do(s, step), rest)
  {}

  /** A thread that wakes up, or enters, to find no task is asleep again with all else as
      before. */
  lemma SleepsAgain<T>(s: State<T>, t: nat)
    requires Inv(s) && t in s.at && s.owner.None? && (s.at[t].Woken? || s.at[t].Entering?)
    requires s.queue == []
    ensures var steps: seq<Step<T>> := [LockToGet(t)] + ([Check(t)] + []);
      Legal(s, steps) && After(s, steps) == Moved(s, t, Waiting)
  {
    var a := Do(s, LockToGet(t));
    var b := Do(a, Check(t));
    StepFirst(a, Check(t), []);
    StepFirst(s, LockToGet(t), [Check(t)] + []);
    assert b.at == s.at[t := Waiting];
  }

  /** One that finds a task takes the oldest, and nothing else about the queue changes. */
  lemma GetsTheOldest<T>(s: State<T>, t: nat)
    requires Inv(s) && t in s.at && s.owner.None? && (s.at[t].Woken? || s.at[t].Entering?)
    requires s.queue != []
    ensures var steps: seq<Step<T>> := [LockToGet(t)] + ([Check(t)] + ([Take(t)] + ([UnlockTaken(t)] + [])));
      && Legal(s, steps)
      && After(s, steps) == Moved(s, t, Idle).(queue := s.queue[1..], taken := s.taken + [(t, s.queue[0])])
  {
    var a := Do(s, LockToGet(t));
    var b := Do(a, Check(t));
    var c := Do(b, Take(t));
    var d := Do(c, UnlockTaken(t));
    StepFirst(c, UnlockTaken(t), []);
    StepFirst(b, Take(t), [UnlockTaken(t)] + []);
    StepFirst(a, Check(t), [Take(t)] + ([UnlockTaken(t)] + []));
    StepFirst(s, LockToGet(t), [Check(t)] + ([Take(t)] + ([UnlockTaken(t)] + [])));
    assert d.at == s.at[t := Idle];
  }
}
