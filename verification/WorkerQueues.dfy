/** Handing jobs to worker threads: the acceptor's local queue, the shared queue, its mutex and
    its semaphore (src/service.cpp), and the mail relay's single queue (src/mta.cpp), as a
    machine whose steps interleave freely. */
module WorkerQueues {
  import opened Text

  type Job = nat

  type WorkerId = nat

  /** Where a worker stands in its loop, and its job pointer. In src/service.cpp the pointer is
      reset for each round; in src/mta.cpp it keeps its old value. */
  datatype Pc = Waiting | Passed | Locked | Popped | Running

  datatype Worker = Worker(pc: Pc, arg: Option<Job>)

  /** Where the acceptor stands; `job` is the session it is about to queue, none in the idle drain. */
  datatype Acceptor =
    | Idle
    | Draining(job: Option<Job>)                // holds the mutex
    | Moving(job: Option<Job>, moved: Job)      // popped from the local queue, not yet pushed
    | OwesPost(job: Option<Job>)                // pushed, not yet posted
    | Pushed                                    // the new session is pushed; still holds the mutex
    | LastPost                                  // unlocked, not yet posted

  datatype Holder = Nobody | ByAcceptor | ByWorker(w: WorkerId)

  datatype State = State(
    sem: nat, mutex: Holder, shared: seq<Job>, local: seq<Job>,
    acceptor: Acceptor, workers: map<WorkerId, Worker>,
    accepted: seq<Job>, popped: seq<Job>)       // history: accepted, and popped by workers, in order

  datatype Step =
    | Accept(job: Job) | IdleDrain | TakeLocal | PushLocal | PostLocal
    | EndDrain | PushNew | Unlock | PostNew
    | Start(w: WorkerId) | Pass(w: WorkerId) | Lock(w: WorkerId) | Pop(w: WorkerId)
    | Release(w: WorkerId) | Finish(w: WorkerId)

  const INIT := State(0, Nobody, [], [], Idle, map[], [], [])

  predicate IsAt(s: State, w: WorkerId, pc: Pc) {
    w in s.workers && s.workers[w].pc == pc
  }

  predicate Enabled(s: State, step: Step) {
    match step
    case Accept(_) => s.acceptor.Idle?
    case IdleDrain => s.acceptor.Idle? && s.local != [] && s.mutex.Nobody?
    case TakeLocal => s.acceptor.Draining? && s.local != []
    case PushLocal => s.acceptor.Moving?
    case PostLocal => s.acceptor.OwesPost?
    case EndDrain => s.acceptor == Draining(None) && s.local == []
    case PushNew => s.acceptor.Draining? && s.acceptor.job.Some? && s.local == []
    case Unlock => s.acceptor.Pushed?
    case PostNew => s.acceptor.LastPost?
    case Start(w) => w !in s.workers
    case Pass(w) => IsAt(s, w, Waiting) && s.sem > 0
    case Lock(w) => IsAt(s, w, Passed) && s.mutex.Nobody?
    case Pop(w) => IsAt(s, w, Locked)
    case Release(w) => IsAt(s, w, Popped)
    case Finish(w) => IsAt(s, w, Running)
  }

  function Goto(s: State, w: WorkerId, pc: Pc): State
    requires w in s.workers
  {
    s.(workers := s.workers[w := s.workers[w].(pc := pc)])
  }

  /** `resets` tells the two programs apart: whether a worker clears its pointer before it looks
      into the queue. The idle drain ends without releasing the mutex. */
  function Do(s: State, step: Step, resets: bool): State
    requires Enabled(s, step)
  {
    match step
    case Accept(j) =>
      if s.mutex.Nobody? then s.(mutex := ByAcceptor, acceptor := Draining(Some(j)), accepted := s.accepted + [j])
      else s.(local := s.local + [j], accepted := s.accepted + [j])
    case IdleDrain => s.(mutex := ByAcceptor, acceptor := Draining(None))
    case TakeLocal => s.(acceptor := Moving(s.acceptor.job, s.local[0]), local := s.local[1..])
    case PushLocal => s.(shared := s.shared + [s.acceptor.moved], acceptor := OwesPost(s.acceptor.job))
    case PostLocal => s.(sem := s.sem + 1, acceptor := Draining(s.acceptor.job))
    case EndDrain => s.(acceptor := Idle)
    case PushNew => s.(shared := s.shared + [s.acceptor.job.value], acceptor := Pushed)
    case Unlock => s.(mutex := Nobody, acceptor := LastPost)
    case PostNew => s.(sem := s.sem + 1, acceptor := Idle)
    case Start(w) => s.(workers := s.workers[w := Worker(Waiting, None)])
    case Pass(w) => Goto(s, w, Passed).(sem := s.sem - 1)
    case Lock(w) => Goto(s, w, Locked).(mutex := ByWorker(w))
    case Pop(w) =>
      if s.shared != [] then
        s.(workers := s.workers[w := Worker(Popped, Some(s.shared[0]))],
           shared := s.shared[1..], popped := s.popped + [s.shared[0]])
      else
        s.(workers := s.workers[w := Worker(Popped, if resets then None else s.workers[w].arg)])
    case Release(w) => Goto(s, w, Running).(mutex := Nobody)
    case Finish(w) => Goto(s, w, Waiting)
  }

  // ---- what holds in every interleaving ----

  /** Workers past the wait that have not looked into the queue yet. */
  function Owed(s: State): set<WorkerId> {
    set w | w in s.workers && s.workers[w].pc in {Passed, Locked}
  }

  function PostsOwed(s: State): nat {
    if s.acceptor.OwesPost? || s.acceptor.Pushed? || s.acceptor.LastPost? then 1 else 0
  }

  /** Jobs the acceptor has in hand, in accepting order around the local queue. */
  function InHand(s: State): seq<Job> {
    (if s.acceptor.Moving? then [s.acceptor.moved] else []) + s.local +
    (match s.acceptor
     case Draining(Some(j)) => [j]
     case Moving(Some(j), _) => [j]
     case OwesPost(Some(j)) => [j]
     case _ => [])
  }

  /** Semaphore, waiting permits and posts still owed account for exactly the queued jobs. */
  predicate Balanced(s: State) {
    s.sem + |Owed(s)| + PostsOwed(s) == |s.shared|
  }

  /** Nothing is lost, duplicated or overtaken. */
  predicate InOrder(s: State) {
    s.accepted == s.popped + s.shared + InHand(s)
  }

  /** The mutex is where the program counters say it is, except that an idle drain leaves it
      with the acceptor for good. */
  predicate MutexKept(s: State) {
    && (forall w | w in s.workers :: s.workers[w].pc in {Locked, Popped} <==> s.mutex == ByWorker(w))
    && (s.acceptor.Draining? || s.acceptor.Moving? || s.acceptor.OwesPost? || s.acceptor.Pushed? ==>
          s.mutex == ByAcceptor)
    && (s.acceptor.LastPost? ==> s.mutex != ByAcceptor)
    && (s.mutex.ByWorker? ==> s.mutex.w in s.workers)
  }

  /** A worker that has looked into the queue holds a job that was accepted and popped. */
  predicate AlwaysAJob(s: State) {
    forall w | w in s.workers && s.workers[w].pc in {Popped, Running} ::
      s.workers[w].arg.Some? && s.workers[w].arg.value in s.popped
  }

  predicate Inv(s: State) {
    Balanced(s) && InOrder(s) && MutexKept(s) && AlwaysAJob(s)
  }

  lemma InitInv()
    ensures Inv(INIT)
  {
    assert Owed(INIT) == {};
  }

  /** Having passed the wait, a worker finds the queue non-empty. */
  lemma WaitMeansJob(s: State, w: WorkerId)
    requires Inv(s) && w in s.workers && s.workers[w].pc in {Passed, Locked}
    ensures s.shared != []
  {
    assert w in Owed(s);
  }

  predicate ByTheAcceptor(step: Step) {
    step.Accept? || step.IdleDrain? || step.TakeLocal? || step.PushLocal? || step.PostLocal? ||
    step.EndDrain? || step.PushNew? || step.Unlock? || step.PostNew?
  }

  lemma AcceptorBalanced(s: State, step: Step, resets: bool)
    requires Balanced(s) && Enabled(s, step) && ByTheAcceptor(step)
    ensures Balanced(Do(s, step, resets))
  {
    assert Owed(Do(s, step, resets)) == Owed(s);
  }

  lemma WorkerBalanced(s: State, step: Step, resets: bool)
    requires Inv(s) && Enabled(s, step) && !ByTheAcceptor(step)
    ensures Balanced(Do(s, step, resets))
  {
    hide InOrder, AlwaysAJob, MutexKept;
    var t, w := Do(s, step, resets), step.w;
    if step.Pop? {
      WaitMeansJob(s, w);
      assert Owed(t) == Owed(s) - {w} && w in Owed(s);
    } else if step.Pass? {
      assert Owed(t) == Owed(s) + {w} && w !in Owed(s);
    } else {
      assert Owed(t) == Owed(s);
    }
  }

  lemma AcceptorInOrder(s: State, step: Step, resets: bool)
    requires InOrder(s) && Enabled(s, step) && ByTheAcceptor(step)
    ensures InOrder(Do(s, step, resets))
  {
    var t := Do(s, step, resets);
    if step.TakeLocal? {
      assert s.local == [s.local[0]] + s.local[1..];
      assert InHand(t) == InHand(s);
    } else if step.Accept? {
      assert InHand(t) == InHand(s) + [step.job];
    } else if step.PushLocal? {
      assert InHand(s) == [s.acceptor.moved] + InHand(t);
    } else if step.PushNew? {
      assert InHand(s) == [s.acceptor.job.value] + InHand(t);
    } else {
      assert InHand(t) == InHand(s);
    }
  }

  lemma WorkerInOrder(s: State, step: Step, resets: bool)
    requires InOrder(s) && Enabled(s, step) && !ByTheAcceptor(step)
    ensures InOrder(Do(s, step, resets))
  {
    var t := Do(s, step, resets);
    assert InHand(t) == InHand(s);
    assert t.popped + t.shared == s.popped + s.shared;
  }

  lemma StepInv(s: State, step: Step, resets: bool)
    requires Inv(s) && Enabled(s, step)
    ensures Inv(Do(s, step, resets))
  {
    hide Balanced, InOrder;
    if ByTheAcceptor(step) {
      AcceptorBalanced(s, step, resets);
      AcceptorInOrder(s, step, resets);
    } else {
      WorkerBalanced(s, step, resets);
      WorkerInOrder(s, step, resets);
      if step.Pop? {
        WaitMeansJob(s, step.w);
      }
    }
  }

  // ---- whole runs ----

  /** The state after a run, if each of its steps was possible. */
  function Run(s: State, steps: seq<Step>, resets: bool): Option<State>
    decreases |steps|
  {
    if steps == [] then Some(s)
    else if Enabled(s, steps[0]) then Run(Do(s, steps[0], resets), steps[1..], resets)
    else None
  }

  lemma {:induction false} RunInv(s: State, steps: seq<Step>, resets: bool)
    requires Inv(s) && Run(s, steps, resets).Some?
    ensures Inv(Run(s, steps, resets).value)
    decreases |steps|
  {
    if steps != [] {
      StepInv(s, steps[0], resets);
      RunInv(Do(s, steps[0], resets), steps[1..], resets);
    }
  }

  /** Every reachable state of either program: the balance, the order, and no worker without
      a job of its own. */
  lemma Reachable(steps: seq<Step>, resets: bool)
    requires Run(INIT, steps, resets).Some?
    ensures Inv(Run(INIT, steps, resets).value)
  {
    InitInv();
    RunInv(INIT, steps, resets);
  }

  /** Because the queue is never found empty, the relay's stale pointer is never used: with or
      without the reset every run ends in the same state. */
  lemma {:induction false} ResetMakesNoDifference(s: State, steps: seq<Step>)
    requires Inv(s)
    ensures Run(s, steps, true) == Run(s, steps, false)
    decreases |steps|
  {
    if steps != [] && Enabled(s, steps[0]) {
      if steps[0].Pop? {
        WaitMeansJob(s, steps[0].w);
      }
      StepInv(s, steps[0], true);
      ResetMakesNoDifference(Do(s, steps[0], true), steps[1..]);
    }
  }

  /** When all accepted jobs are different, no two pops return the same one. */
  lemma NoJobTwice(steps: seq<Step>, resets: bool)
    requires Run(INIT, steps, resets).Some?
    requires var a := Run(INIT, steps, resets).value.accepted;
             forall i, j | 0 <= i < j < |a| :: a[i] != a[j]
    ensures var p := Run(INIT, steps, resets).value.popped;
            forall i, j | 0 <= i < j < |p| :: p[i] != p[j]
  {
    Reachable(steps, resets);
    var s := Run(INIT, steps, resets).value;
    assert forall i | 0 <= i < |s.popped| :: s.popped[i] == s.accepted[i];
  }

  // ---- the idle drain keeps the mutex ----

  predicate Stuck(s: State) {
    s.acceptor.Idle? && s.mutex == ByAcceptor
  }

  lemma DrainGetsStuck(s: State, resets: bool)
    requires Inv(s) && Enabled(s, EndDrain)
    ensures Stuck(Do(s, EndDrain, resets))
  {
  }

  /** After an idle drain, whatever happens next, no worker ever pops a job again and every new
      session stays in the local queue. */
  lemma {:induction false} StuckForEver(s: State, steps: seq<Step>, resets: bool)
    requires Inv(s) && Stuck(s) && Run(s, steps, resets).Some?
    ensures var t := Run(s, steps, resets).value;
            && Stuck(t) && t.popped == s.popped && t.shared == s.shared
            && |t.local| - |s.local| == |t.accepted| - |s.accepted|
    decreases |steps|
  {
    if steps != [] {
      StepInv(s, steps[0], resets);
      StuckForEver(Do(s, steps[0], resets), steps[1..], resets);
    }
  }

  lemma StepStuck(s: State, step: Step, resets: bool)
    requires Inv(s) && Enabled(s, step)
    ensures Stuck(Do(s, step, resets)) <==> Stuck(s) || step == EndDrain
  {
    hide Balanced, InOrder, AlwaysAJob;
  }

  /** Nothing but the end of an idle drain gets the acceptor stuck, and it always does. */
  lemma {:induction false} OnlyTheDrainSticks(s: State, steps: seq<Step>, resets: bool)
    requires Inv(s) && Run(s, steps, resets).Some?
    ensures Stuck(Run(s, steps, resets).value) <==> Stuck(s) || EndDrain in steps
    decreases |steps|
  {
    if steps != [] {
      assert steps == [steps[0]] + steps[1..];
      StepInv(s, steps[0], resets);
      StepStuck(s, steps[0], resets);
      hide Inv, Do, Stuck, Enabled;
      OnlyTheDrainSticks(Do(s, steps[0], resets), steps[1..], resets);
    }
  }

  /** A run that gets there: a session arrives while a worker holds the mutex, waits in the local
      queue, and the acceptor drains it when idle. */
  const FIRST_SESSION: seq<Step> := [Start(0), Accept(1), PushNew, Unlock, PostNew]
  const WORKER_LOCKS: seq<Step> := [Pass(0), Lock(0)]
  const SECOND_SESSION: seq<Step> := [Accept(2), Pop(0), Release(0)]
  const DRAIN: seq<Step> := [IdleDrain, TakeLocal, PushLocal, PostLocal, EndDrain]

  lemma {:induction false} RunAppend(s: State, xs: seq<Step>, ys: seq<Step>, resets: bool)
    requires Run(s, xs, resets).Some?
    ensures Run(s, xs + ys, resets) == Run(Run(s, xs, resets).value, ys, resets)
    decreases |xs|
  {
    if xs == [] {
      assert xs + ys == ys;
    } else {
      assert (xs + ys)[1..] == xs[1..] + ys;
      RunAppend(Do(s, xs[0], resets), xs[1..], ys, resets);
    }
  }

  lemma Advance(s: State, steps: seq<Step>, t: State, resets: bool)
    requires steps != [] && Enabled(s, steps[0]) && t == Do(s, steps[0], resets)
    ensures Run(s, steps, resets) == Run(t, steps[1..], resets)
  {
  }

  lemma RunNothing(s: State, steps: seq<Step>, resets: bool)
    requires steps == []
    ensures Run(s, steps, resets) == Some(s)
  {
  }

  const QUEUED := State(1, Nobody, [1], [], Idle, map[0 := Worker(Waiting, None)], [1], [])
  const LOCKED := QUEUED.(sem := 0, mutex := ByWorker(0), workers := map[0 := Worker(Locked, None)])
  const SERVING := State(0, Nobody, [], [2], Idle, map[0 := Worker(Running, Some(1))], [1, 2], [1])
  const DRAINED := SERVING.(sem := 1, mutex := ByAcceptor, shared := [2], local := [])

  lemma FirstSession(resets: bool)
    ensures Run(INIT, FIRST_SESSION, resets) == Some(QUEUED)
  {
    hide Run;
    var s1 := INIT.(workers := map[0 := Worker(Waiting, None)]);
    Advance(INIT, FIRST_SESSION, s1, resets);
    var s2 := s1.(mutex := ByAcceptor, acceptor := Draining(Some(1)), accepted := [1]);
    assert FIRST_SESSION[1..][0] == FIRST_SESSION[1] && FIRST_SESSION[1..][1..] == FIRST_SESSION[2..];
    Advance(s1, FIRST_SESSION[1..], s2, resets);
    var s3 := s2.(shared := [1], acceptor := Pushed);
    assert FIRST_SESSION[2..][0] == FIRST_SESSION[2] && FIRST_SESSION[2..][1..] == FIRST_SESSION[3..];
    Advance(s2, FIRST_SESSION[2..], s3, resets);
    var s4 := s3.(mutex := Nobody, acceptor := LastPost);
    assert FIRST_SESSION[3..][0] == FIRST_SESSION[3] && FIRST_SESSION[3..][1..] == FIRST_SESSION[4..];
    Advance(s3, FIRST_SESSION[3..], s4, resets);
    var s5 := s4.(sem := 1, acceptor := Idle);
    assert FIRST_SESSION[4..][0] == FIRST_SESSION[4] && FIRST_SESSION[4..][1..] == FIRST_SESSION[5..];
    Advance(s4, FIRST_SESSION[4..], s5, resets);
    RunNothing(s5, FIRST_SESSION[5..], resets);
  }

  lemma WorkerLocks(resets: bool)
    ensures Run(QUEUED, WORKER_LOCKS, resets) == Some(LOCKED)
  {
    hide Run;
    var s1 := QUEUED.(sem := 0, workers := map[0 := Worker(Passed, None)]);
    Advance(QUEUED, WORKER_LOCKS, s1, resets);
    var s2 := s1.(mutex := ByWorker(0), workers := map[0 := Worker(Locked, None)]);
    assert WORKER_LOCKS[1..][0] == WORKER_LOCKS[1] && WORKER_LOCKS[1..][1..] == WORKER_LOCKS[2..];
    Advance(s1, WORKER_LOCKS[1..], s2, resets);
    RunNothing(s2, WORKER_LOCKS[2..], resets);
  }

  lemma SecondSession(resets: bool)
    ensures Run(LOCKED, SECOND_SESSION, resets) == Some(SERVING)
  {
    hide Run;
    var s1 := LOCKED.(local := [2], accepted := [1, 2]);
    Advance(LOCKED, SECOND_SESSION, s1, resets);
    var s2 := s1.(shared := [], popped := [1], workers := map[0 := Worker(Popped, Some(1))]);
    assert SECOND_SESSION[1..][0] == SECOND_SESSION[1] && SECOND_SESSION[1..][1..] == SECOND_SESSION[2..];
    Advance(s1, SECOND_SESSION[1..], s2, resets);
    var s3 := s2.(mutex := Nobody, workers := map[0 := Worker(Running, Some(1))]);
    assert SECOND_SESSION[2..][0] == SECOND_SESSION[2] && SECOND_SESSION[2..][1..] == SECOND_SESSION[3..];
    Advance(s2, SECOND_SESSION[2..], s3, resets);
    RunNothing(s3, SECOND_SESSION[3..], resets);
  }

  lemma Drain(resets: bool)
    ensures Run(SERVING, DRAIN, resets) == Some(DRAINED)
  {
    hide Run;
    var s1 := SERVING.(mutex := ByAcceptor, acceptor := Draining(None));
    Advance(SERVING, DRAIN, s1, resets);
    var s2 := s1.(local := [], acceptor := Moving(None, 2));
    assert DRAIN[1..][0] == DRAIN[1] && DRAIN[1..][1..] == DRAIN[2..];
    Advance(s1, DRAIN[1..], s2, resets);
    var s3 := s2.(shared := [2], acceptor := OwesPost(None));
    assert DRAIN[2..][0] == DRAIN[2] && DRAIN[2..][1..] == DRAIN[3..];
    Advance(s2, DRAIN[2..], s3, resets);
    var s4 := s3.(sem := 1, acceptor := Draining(None));
    assert DRAIN[3..][0] == DRAIN[3] && DRAIN[3..][1..] == DRAIN[4..];
    Advance(s3, DRAIN[3..], s4, resets);
    var s5 := s4.(acceptor := Idle);
    assert DRAIN[4..][0] == DRAIN[4] && DRAIN[4..][1..] == DRAIN[5..];
    Advance(s4, DRAIN[4..], s5, resets);
    RunNothing(s5, DRAIN[5..], resets);
  }

  lemma DrainIsReachable(resets: bool)
    ensures Run(INIT, FIRST_SESSION + WORKER_LOCKS + SECOND_SESSION + DRAIN, resets) == Some(DRAINED)
    ensures Stuck(DRAINED) && DRAINED.accepted == [1, 2] && DRAINED.popped == [1]
  {
    hide Run;
    FirstSession(resets);
    WorkerLocks(resets);
    SecondSession(resets);
    Drain(resets);
    RunAppend(INIT, FIRST_SESSION, WORKER_LOCKS, resets);
    RunAppend(INIT, FIRST_SESSION + WORKER_LOCKS, SECOND_SESSION, resets);
    RunAppend(INIT, FIRST_SESSION + WORKER_LOCKS + SECOND_SESSION, DRAIN, resets);
  }
}
