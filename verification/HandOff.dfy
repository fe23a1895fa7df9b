/** Work handed to the thread pool and completions handed back, as interleaved atomic steps
    (src/util/thread_pool.cpp; post_completion, on_completion_readable and start_bgsave in src/net/server.cpp). */
module HandOff {

  /** Background work; saving a snapshot is the work that BGSAVE submits. */
  datatype Task = Work(id: nat) | Save(id: nat)

  /** Functions queued for the loop thread; SaveDone is the one that clears the BGSAVE flag. */
  datatype Completion = Other(id: nat) | SaveDone(id: nat)

  /** Awake: about to lock and test the wait condition. Asleep: blocked on the condition variable. A Save is posted
      once its worker has queued the completion. */
  datatype Worker = Awake | Asleep | Busy(task: Task, posted: bool) | Exited

  /** The loop thread's progress through on_completion_readable. */
  datatype Loop = Idle | Drained | Running(due: seq<Completion>)

  datatype State = State(
    queue: seq<Task>, stop: bool,
    notifies: nat,              // notify_one calls still to come after a push
    notifyAll: bool,            // the destructor's notify_all is still to come
    workers: seq<Worker>,
    completions: seq<Completion>,
    counter: nat,               // the eventfd
    writes: nat,                // eventfd writes still to come after a push
    loop: Loop, bgsave: bool,
    submitted: seq<Task>, taken: seq<Task>,
    posted: seq<Completion>, ran: seq<Completion>)

  datatype Step =
    | Submit(id: nat)
    | StartSave(id: nat)
    | SubmitFrom(w: nat, id: nat)
    | NotifyOne(w: nat)
    | NotifyNobody
    | Wake(w: nat)
    | Stop
    | NotifyEveryone
    | Check(w: nat)
    | Post(w: nat, id: nat)
    | PostFromLoop(id: nat)
    | Signal
    | Finish(w: nat)
    | Drain
    | Swap
    | RunOne
    | DoneRunning

  function Due(l: Loop): seq<Completion> { if l.Running? then l.due else [] }

  predicate IsAwake(w: Worker) { w.Awake? }
  predicate IsAsleep(w: Worker) { w.Asleep? }
  predicate IsSave(t: Task) { t.Save? }
  predicate IsDone(c: Completion) { c.SaveDone? }
  predicate HoldsSave(w: Worker) { w.Busy? && w.task.Save? && !w.posted }

  ghost function Count<T>(s: seq<T>, p: T -> bool): nat
  {
    if s == [] then 0 else Count(s[..|s| - 1], p) + if p(s[|s| - 1]) then 1 else 0
  }

  ghost function Awoken(ws: seq<Worker>): (r: seq<Worker>)
    ensures |r| == |ws| && forall i :: 0 <= i < |ws| ==> r[i] == if ws[i].Asleep? then Awake else ws[i]
  {
    seq(|ws|, i requires 0 <= i < |ws| => if ws[i].Asleep? then Awake else ws[i])
  }

  /** When each atomic step can be taken. The loop thread submits only before the destructor; running tasks may
      always submit and post. A Save ends by posting its completion. */
  ghost predicate Enabled(s: State, a: Step)
  {
    match a
    case Submit(_) => !s.stop
    case StartSave(_) => !s.stop && !s.bgsave
    case SubmitFrom(w, _) => w < |s.workers| && s.workers[w].Busy?
    case NotifyOne(w) => s.notifies > 0 && w < |s.workers| && s.workers[w].Asleep?
    case NotifyNobody => s.notifies > 0 && forall w :: 0 <= w < |s.workers| ==> !s.workers[w].Asleep?
    case Wake(w) => w < |s.workers| && s.workers[w].Asleep?
    case Stop => !s.stop && s.loop.Idle?
    case NotifyEveryone => s.notifyAll
    case Check(w) => w < |s.workers| && s.workers[w].Awake?
    case Post(w, _) => w < |s.workers| && s.workers[w].Busy? && (s.workers[w].task.Save? ==> !s.workers[w].posted)
    case PostFromLoop(_) => s.loop.Running?
    case Signal => s.writes > 0
    case Finish(w) => w < |s.workers| && s.workers[w].Busy? && (s.workers[w].task.Save? ==> s.workers[w].posted)
    case Drain => !s.stop && s.loop.Idle? && s.counter > 0
    case Swap => s.loop.Drained?
    case RunOne => s.loop.Running? && s.loop.due != []
    case DoneRunning => s.loop.Running? && s.loop.due == []
  }

  ghost function Push(s: State, t: Task): State
  {
    s.(queue := s.queue + [t], submitted := s.submitted + [t], notifies := s.notifies + 1)
  }

  ghost function PushCompletion(s: State, c: Completion): State
  {
    s.(completions := s.completions + [c], posted := s.posted + [c], writes := s.writes + 1)
  }

  ghost function Next(s: State, a: Step): State
    requires Enabled(s, a)
  {
    match a
    case Submit(id) => Push(s, Work(id))
    case StartSave(id) => Push(s, Save(id)).(bgsave := true)
    case SubmitFrom(_, id) => Push(s, Work(id))
    case NotifyOne(w) => s.(notifies := s.notifies - 1, workers := s.workers[w := Awake])
    case NotifyNobody => s.(notifies := s.notifies - 1)
    case Wake(w) => s.(workers := s.workers[w := Awake])
    case Stop => s.(stop := true, notifyAll := true)
    case NotifyEveryone => s.(notifyAll := false, workers := Awoken(s.workers))
    case Check(w) =>
      if s.queue != [] then
        s.(queue := s.queue[1..], taken := s.taken + [s.queue[0]], workers := s.workers[w := Busy(s.queue[0], false)])
      else if s.stop then s.(workers := s.workers[w := Exited])
      else s.(workers := s.workers[w := Asleep])
    case Post(w, id) =>
      var t := s.workers[w].task;
      PushCompletion(s, if t.Save? then SaveDone(t.id) else Other(id)).(workers := s.workers[w := Busy(t, true)])
    case PostFromLoop(id) => PushCompletion(s, Other(id))
    case Signal => s.(writes := s.writes - 1, counter := s.counter + 1)
    case Finish(w) => s.(workers := s.workers[w := Awake])
    case Drain => s.(counter := 0, loop := Drained)
    case Swap => s.(completions := [], loop := Running(s.completions))
    case RunOne =>
      var c := s.loop.due[0];
      s.(loop := Running(s.loop.due[1..]), ran := s.ran + [c], bgsave := s.bgsave && !c.SaveDone?)
    case DoneRunning => s.(loop := Idle)
  }

  ghost predicate Init(s: State)
  {
    && s.queue == [] && !s.stop && s.notifies == 0 && !s.notifyAll
    && |s.workers| > 0 && (forall i :: 0 <= i < |s.workers| ==> s.workers[i].Awake?)
    && s.completions == [] && s.counter == 0 && s.writes == 0 && s.loop.Idle? && !s.bgsave
    && s.submitted == [] && s.taken == [] && s.posted == [] && s.ran == []
  }

  // Invariants.

  /** Nothing is lost, duplicated or reordered on either side. */
  ghost predicate InOrder(s: State)
  {
    s.submitted == s.taken + s.queue && s.posted == s.ran + Due(s.loop) + s.completions
  }

  /** While some worker sleeps, the awake workers and the coming notifications cover the queue. */
  ghost predicate NoTaskStranded(s: State)
  {
    && (Count(s.workers, IsAsleep) > 0 ==> |s.queue| <= Count(s.workers, IsAwake) + s.notifies)
    && (s.stop && Count(s.workers, IsAsleep) > 0 ==> s.notifyAll)
  }

  ghost predicate AllExited(s: State)
  {
    forall i :: 0 <= i < |s.workers| ==> s.workers[i].Exited?
  }

  /** Workers leave only after the stop, and the last one leaves an empty queue. */
  ghost predicate DrainedAtExit(s: State)
  {
    && |s.workers| > 0
    && (forall i :: 0 <= i < |s.workers| && s.workers[i].Exited? ==> s.stop)
    && (AllExited(s) ==> s.queue == [])
  }

  /** A queued completion always has a readable eventfd, a coming write, or a loop about to take it. */
  ghost predicate WakeupPending(s: State)
  {
    s.completions != [] ==> s.counter > 0 || s.writes > 0 || s.loop.Drained?
  }

  /** BGSAVEs that are queued, running, or waiting for their completion to run. */
  ghost function Saving(s: State): nat
  {
    Count(s.queue, IsSave) + Count(s.workers, HoldsSave) + Count(s.completions, IsDone) + Count(Due(s.loop), IsDone)
  }

  ghost predicate FlagExact(s: State)
  {
    Saving(s) == if s.bgsave then 1 else 0
  }

  ghost predicate Inv(s: State)
  {
    InOrder(s) && NoTaskStranded(s) && DrainedAtExit(s) && WakeupPending(s) && FlagExact(s)
  }

  // Counting.

  lemma CountSnoc<T>(s: seq<T>, x: T, p: T -> bool)
    ensures Count(s + [x], p) == Count(s, p) + if p(x) then 1 else 0
  {
    assert (s + [x])[..|s|] == s;
  }

  lemma {:induction false} CountConcat<T>(s: seq<T>, t: seq<T>, p: T -> bool)
    ensures Count(s + t, p) == Count(s, p) + Count(t, p)
    decreases |t|
  {
    if t == [] {
      assert s + t == s;
    } else {
      var n := |t| - 1;
      CountConcat(s, t[..n], p);
      assert s + t == (s + t[..n]) + [t[n]];
      CountSnoc(s + t[..n], t[n], p);
    }
  }

  lemma CountFirst<T>(s: seq<T>, p: T -> bool)
    requires s != []
    ensures Count(s, p) == (if p(s[0]) then 1 else 0) + Count(s[1..], p)
  {
    CountConcat([s[0]], s[1..], p);
    assert s == [s[0]] + s[1..];
    CountSnoc([], s[0], p);
    assert [] + [s[0]] == [s[0]];
  }

  lemma {:induction false} CountUpdate<T>(s: seq<T>, i: nat, x: T, p: T -> bool)
    requires i < |s|
    ensures Count(s[i := x], p) + (if p(s[i]) then 1 else 0) == Count(s, p) + if p(x) then 1 else 0
    decreases |s|
  {
    var n := |s| - 1;
    if i < n {
      CountUpdate(s[..n], i, x, p);
      assert s[i := x][..n] == s[..n][i := x];
    } else {
      assert s[i := x][..n] == s[..n];
    }
  }

  lemma {:induction false} CountPositive<T>(s: seq<T>, i: nat, p: T -> bool)
    requires i < |s| && p(s[i])
    ensures Count(s, p) > 0
    decreases |s|
  {
    if i < |s| - 1 {
      CountPositive(s[..|s| - 1], i, p);
    }
  }

  lemma {:induction false} CountZero<T>(s: seq<T>, p: T -> bool)
    requires forall i :: 0 <= i < |s| ==> !p(s[i])
    ensures Count(s, p) == 0
    decreases |s|
  {
    if s != [] {
      CountZero(s[..|s| - 1], p);
    }
  }

  lemma {:induction false} CountSame<T>(s: seq<T>, t: seq<T>, p: T -> bool)
    requires |s| == |t| && forall i :: 0 <= i < |s| ==> p(s[i]) == p(t[i])
    ensures Count(s, p) == Count(t, p)
    decreases |s|
  {
    if s != [] {
      var n := |s| - 1;
      assert forall i :: 0 <= i < n ==> p(s[..n][i]) == p(t[..n][i]);
      CountSame(s[..n], t[..n], p);
    }
  }

  // Every step keeps every invariant.

  lemma InitInv(s: State)
    requires Init(s)
    ensures Inv(s)
  {
    CountZero(s.workers, IsAsleep);
    CountZero(s.workers, HoldsSave);
  }

  lemma KeepsOrder(s: State, a: Step)
    requires Inv(s) && Enabled(s, a)
    ensures InOrder(Next(s, a))
  {
    hide NoTaskStranded, DrainedAtExit, WakeupPending, FlagExact;
    if a.Check? && s.queue != [] {
      assert s.taken + s.queue == s.taken + [s.queue[0]] + s.queue[1..];
    } else if a.RunOne? {
      var d := s.loop.due;
      assert s.ran + d + s.completions == s.ran + [d[0]] + d[1..] + s.completions;
    } else if a.Swap? {
      assert s.ran + [] + s.completions == s.ran + s.completions + [];
    }
  }

  /** The counts that one worker's change of state moves. */
  lemma WorkerCounts(ws: seq<Worker>, w: nat, x: Worker)
    requires w < |ws|
    ensures Count(ws[w := x], IsAsleep) + (if ws[w].Asleep? then 1 else 0) == Count(ws, IsAsleep) + if x.Asleep? then 1 else 0
    ensures Count(ws[w := x], IsAwake) + (if ws[w].Awake? then 1 else 0) == Count(ws, IsAwake) + if x.Awake? then 1 else 0
    ensures Count(ws[w := x], HoldsSave) + (if HoldsSave(ws[w]) then 1 else 0) == Count(ws, HoldsSave) + if HoldsSave(x) then 1 else 0
  {
    CountUpdate(ws, w, x, IsAsleep);
    CountUpdate(ws, w, x, IsAwake);
    CountUpdate(ws, w, x, HoldsSave);
  }

  lemma KeepsAwake(s: State, a: Step)
    requires Inv(s) && Enabled(s, a)
    ensures NoTaskStranded(Next(s, a))
  {
    hide InOrder, DrainedAtExit, WakeupPending, FlagExact, Count;
    match a
    case NotifyOne(w) => WorkerCounts(s.workers, w, Awake);
    case NotifyNobody => CountZero(s.workers, IsAsleep);
    case Wake(w) => WorkerCounts(s.workers, w, Awake);
    case NotifyEveryone => CountZero(Awoken(s.workers), IsAsleep);
    case Check(w) =>
      WorkerCounts(s.workers, w, Next(s, a).workers[w]);
    case Post(w, _) => WorkerCounts(s.workers, w, Busy(s.workers[w].task, true));
    case Finish(w) => WorkerCounts(s.workers, w, Awake);
    case _ =>
  }

  lemma KeepsDrained(s: State, a: Step)
    requires Inv(s) && Enabled(s, a)
    ensures DrainedAtExit(Next(s, a))
  {
    hide InOrder, NoTaskStranded, WakeupPending, FlagExact, Count;
    var n := Next(s, a);
    assert |n.workers| == |s.workers|;
    match a
    case SubmitFrom(w, _) => assert n.workers[w].Busy?;
    case NotifyOne(w) => assert n.workers[w].Awake?;
    case Wake(w) => assert n.workers[w].Awake?;
    case Post(w, _) => assert n.workers[w].Busy?;
    case Finish(w) => assert n.workers[w].Awake?;
    case Submit(_) => assert !n.workers[0].Exited?;
    case StartSave(_) => assert !n.workers[0].Exited?;
    case Check(w) => assert s.queue != [] ==> n.workers[w].Busy?;
    case NotifyEveryone =>
      assert forall i :: 0 <= i < |s.workers| ==> (n.workers[i].Exited? <==> s.workers[i].Exited?);
    case _ =>
  }

  lemma KeepsWakeup(s: State, a: Step)
    requires Inv(s) && Enabled(s, a)
    ensures WakeupPending(Next(s, a))
  {
    hide InOrder, NoTaskStranded, DrainedAtExit, FlagExact, Count;
  }

  lemma KeepsFlag(s: State, a: Step)
    requires Inv(s) && Enabled(s, a)
    ensures FlagExact(Next(s, a))
  {
    hide InOrder, NoTaskStranded, DrainedAtExit, WakeupPending, Count;
    match a
    case Submit(id) => CountSnoc(s.queue, Work(id), IsSave);
    case StartSave(id) => CountSnoc(s.queue, Save(id), IsSave);
    case SubmitFrom(_, id) => CountSnoc(s.queue, Work(id), IsSave);
    case NotifyOne(w) => WorkerCounts(s.workers, w, Awake);
    case Wake(w) => WorkerCounts(s.workers, w, Awake);
    case NotifyEveryone => CountSame(s.workers, Awoken(s.workers), HoldsSave);
    case Check(w) =>
      WorkerCounts(s.workers, w, Next(s, a).workers[w]);
      if s.queue != [] {
        CountFirst(s.queue, IsSave);
      }
    case Post(w, id) =>
      var t := s.workers[w].task;
      WorkerCounts(s.workers, w, Busy(t, true));
      CountSnoc(s.completions, if t.Save? then SaveDone(t.id) else Other(id), IsDone);
    case PostFromLoop(id) => CountSnoc(s.completions, Other(id), IsDone);
    case Finish(w) => WorkerCounts(s.workers, w, Awake);
    case Swap => CountZero<Completion>([], IsDone);
    case RunOne => CountFirst(s.loop.due, IsDone);
    case _ =>
  }

  lemma StepInv(s: State, a: Step)
    requires Inv(s) && Enabled(s, a)
    ensures Inv(Next(s, a))
  {
    KeepsOrder(s, a);
    KeepsAwake(s, a);
    KeepsDrained(s, a);
    KeepsWakeup(s, a);
    KeepsFlag(s, a);
  }

  /** A run: enabled steps one after the other, in any interleaving. */
  ghost predicate Run(states: seq<State>, steps: seq<Step>)
  {
    && |states| == |steps| + 1 && Init(states[0])
    && forall i :: 0 <= i < |steps| ==> Enabled(states[i], steps[i]) && states[i + 1] == Next(states[i], steps[i])
  }

  /** Every state of every run satisfies every invariant. */
  lemma {:induction false} EveryRun(states: seq<State>, steps: seq<Step>, i: nat)
    requires Run(states, steps) && i < |states|
    ensures Inv(states[i])
  {
    hide Inv, Next, Enabled;
    if i == 0 {
      InitInv(states[0]);
    } else {
      EveryRun(states, steps, i - 1);
      assert states[(i - 1) + 1] == Next(states[i - 1], steps[i - 1]);
      StepInv(states[i - 1], steps[i - 1]);
    }
  }

  // What the invariants mean for the program.

  /** Once the last worker is gone, every submitted task has been taken and none is still running. */
  lemma NothingDropped(s: State)
    requires Inv(s) && AllExited(s)
    ensures s.taken == s.submitted && s.stop && Count(s.workers, HoldsSave) == 0
  {
    assert s.workers[0].Exited?;
    assert s.taken + [] == s.taken;
    CountZero(s.workers, HoldsSave);
  }

  /** A task never waits while every worker that has not left sleeps and no notification is coming. */
  lemma NoLostNotify(s: State, w: nat)
    requires Inv(s) && s.queue != [] && w < |s.workers| && s.workers[w].Asleep?
    ensures s.notifies > 0 || exists v :: 0 <= v < |s.workers| && s.workers[v].Awake?
  {
    CountPositive(s.workers, w, IsAsleep);
    if forall v :: 0 <= v < |s.workers| ==> !s.workers[v].Awake? {
      CountZero(s.workers, IsAwake);
    }
  }

  /** The destructor's join cannot hang: until all workers have left, a worker or the notification can move. */
  lemma ShutdownProgress(s: State)
    requires Inv(s) && s.stop && !AllExited(s)
    ensures exists a: Step :: (a.Check? || a.Post? || a.Finish? || a.NotifyEveryone?) && Enabled(s, a)
  {
    var w :| 0 <= w < |s.workers| && !s.workers[w].Exited?;
    match s.workers[w]
    case Awake => assert Enabled(s, Check(w));
    case Busy(t, posted) =>
      if t.Save? && !posted {
        assert Enabled(s, Post(w, 0));
      } else {
        assert Enabled(s, Finish(w));
      }
    case Asleep =>
      CountPositive(s.workers, w, IsAsleep);
      assert Enabled(s, NotifyEveryone);
  }

  /** No completion is forgotten: while one is queued or due, the loop can move, or a write that wakes it is coming. */
  lemma CompletionProgress(s: State)
    requires Inv(s) && !s.stop && (s.completions != [] || Due(s.loop) != [])
    ensures exists a: Step :: (a.Drain? || a.Swap? || a.RunOne? || a.DoneRunning? || a.Signal?) && Enabled(s, a)
  {
    match s.loop
    case Idle => assert Enabled(s, if s.counter > 0 then Drain else Signal);
    case Drained => assert Enabled(s, Swap);
    case Running(due) => assert Enabled(s, if due != [] then RunOne else DoneRunning);
  }

  /** The flag is set exactly while a BGSAVE is queued, being written, or waiting for its completion; never for two. */
  lemma FlagMeaning(s: State)
    requires Inv(s)
    ensures s.bgsave <==> Saving(s) > 0
    ensures Saving(s) <= 1
  {
  }
}
