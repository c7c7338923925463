/**
 * The data mover as a step protocol: submitters put tasks on a shared queue, worker threads take
 * them off and run them, `WaitAll` waits for an empty queue with nothing in flight, and `Stop`
 * lowers the running flag.  One step is one critical section or one access to an atomic; steps of
 * different threads interleave freely.  A task is known by the number of its submission.
 */
module DataMovers {

  /** Where a worker thread stands: about to test the flag, waiting for the queue, running a task, or gone. */
  datatype Worker = Checking | Waiting | Running(task: nat) | Exited

  /** `taken` and `finished` record the history of dequeues and completions. */
  datatype Mover = Mover(submitted: nat, queue: seq<nat>, running: bool, active: int, workers: seq<Worker>,
                         taken: seq<nat>, finished: seq<nat>)

  datatype Step = Submit | Check(w: nat) | Take(w: nat) | Finish(w: nat) | Stop

  function Start(threads: nat): Mover
  {
    Mover(0, [], true, 0, seq(threads, _ => Checking), [], [])
  }

  predicate Enabled(m: Mover, s: Step)
  {
    match s
    case Submit => true
    case Check(w) => w < |m.workers| && m.workers[w] == Checking
    case Take(w) => w < |m.workers| && m.workers[w] == Waiting && (m.queue != [] || !m.running)
    case Finish(w) => w < |m.workers| && m.workers[w].Running?
    case Stop => true
  }

  function Next(m: Mover, s: Step): Mover
    requires Enabled(m, s)
  {
    match s
    case Submit => m.(submitted := m.submitted + 1, queue := m.queue + [m.submitted])
    case Check(w) => m.(workers := m.workers[w := if m.running then Waiting else Exited])
    case Take(w) =>
      if !m.running && m.queue == [] then m.(workers := m.workers[w := Exited])
      else m.(queue := m.queue[1..], active := m.active + 1, taken := m.taken + [m.queue[0]],
              workers := m.workers[w := Running(m.queue[0])])
    case Finish(w) =>
      m.(active := m.active - 1, finished := m.finished + [m.workers[w].task], workers := m.workers[w := Checking])
    case Stop => m.(running := false)
  }

  /** The condition a `WaitAll` waits for. */
  predicate Drained(m: Mover)
  {
    m.queue == [] && m.active == 0
  }

  // ---------- What every step keeps ----------

  function InFlight(workers: seq<Worker>): multiset<nat>
  {
    if workers == [] then multiset{}
    else InFlight(workers[1..]) + Load(workers[0])
  }

  function Load(w: Worker): multiset<nat>
  {
    if w.Running? then multiset{w.task} else multiset{}
  }

  function Upto(n: nat): (r: seq<nat>)
    ensures |r| == n && forall i | 0 <= i < n :: r[i] == i
  {
    seq(n, i => i)
  }

  /** Tasks leave the queue in submission order, and every task is queued, in flight or finished, once. */
  ghost predicate Inv(m: Mover)
  {
    && m.taken + m.queue == Upto(m.submitted)
    && multiset(m.taken) == InFlight(m.workers) + multiset(m.finished)
    && m.active == |InFlight(m.workers)|
  }

  lemma {:induction false} NoneInFlight(n: nat)
    ensures InFlight(seq(n, _ => Checking)) == multiset{}
    decreases n
  {
    if n > 0 {
      var idle: seq<Worker> := seq(n, _ => Checking);
      assert idle[1..] == seq(n - 1, _ => Checking);
      NoneInFlight(n - 1);
    }
  }

  lemma StartKeeps(threads: nat)
    ensures Inv(Start(threads))
  {
    NoneInFlight(threads);
  }

  lemma Regroup(a: multiset<nat>, b: multiset<nat>, c: multiset<nat>)
    ensures a + b + c == a + c + b
  {
  }

  /** What is in flight changes by what the one worker carries. */
  lemma {:induction false} InFlightUpdate(workers: seq<Worker>, w: nat, to: Worker)
    requires w < |workers|
    ensures InFlight(workers[w := to]) + Load(workers[w]) == InFlight(workers) + Load(to)
    decreases w
  {
    hide Load;
    var first, rest := Load(workers[0]), workers[1..];
    if w == 0 {
      assert workers[0 := to][1..] == rest;
      Regroup(InFlight(rest), Load(to), first);
    } else {
      assert workers[w := to][1..] == rest[w - 1 := to];
      InFlightUpdate(rest, w - 1, to);
      Regroup(InFlight(rest[w - 1 := to]), first, Load(workers[w]));
      Regroup(InFlight(rest), first, Load(to));
    }
  }

  lemma InFlightIdle(workers: seq<Worker>, w: nat, to: Worker)
    requires w < |workers| && !workers[w].Running? && !to.Running?
    ensures InFlight(workers[w := to]) == InFlight(workers)
  {
    InFlightUpdate(workers, w, to);
    assert InFlight(workers[w := to]) + multiset{} == InFlight(workers[w := to]);
    assert InFlight(workers) + multiset{} == InFlight(workers);
  }

  lemma SubmitKeeps(m: Mover)
    requires Inv(m)
    ensures Inv(Next(m, Submit))
  {
    assert m.taken + (m.queue + [m.submitted]) == Upto(m.submitted) + [m.submitted];
    assert Upto(m.submitted) + [m.submitted] == Upto(m.submitted + 1);
  }

  lemma OneMore(taken: multiset<nat>, before: multiset<nat>, after: multiset<nat>, done: multiset<nat>, t: nat)
    requires taken == before + done && after + multiset{} == before + multiset{t}
    ensures taken + multiset{t} == after + done && |after| == |before| + 1
  {
    assert after == before + multiset{t};
    Regroup(before, done, multiset{t});
  }

  lemma FromQueue(taken: seq<nat>, queue: seq<nat>)
    requires queue != []
    ensures (taken + [queue[0]]) + queue[1..] == taken + queue
    ensures multiset(taken + [queue[0]]) == multiset(taken) + multiset{queue[0]}
  {
    assert queue == [queue[0]] + queue[1..];
  }

  lemma TakeKeeps(m: Mover, w: nat)
    requires Inv(m) && Enabled(m, Take(w)) && m.queue != []
    ensures Inv(Next(m, Take(w)))
  {
    hide InFlight, Upto;
    var t := m.queue[0];
    InFlightUpdate(m.workers, w, Running(t));
    FromQueue(m.taken, m.queue);
    OneMore(multiset(m.taken), InFlight(m.workers), InFlight(m.workers[w := Running(t)]), multiset(m.finished), t);
  }

  lemma FinishKeeps(m: Mover, w: nat)
    requires Inv(m) && Enabled(m, Finish(w))
    ensures Inv(Next(m, Finish(w)))
  {
    var t := m.workers[w].task;
    InFlightUpdate(m.workers, w, Checking);
    assert multiset(m.finished + [t]) == multiset(m.finished) + multiset{t};
    assert InFlight(m.workers) == InFlight(m.workers[w := Checking]) + multiset{t};
  }

  lemma StepKeeps(m: Mover, s: Step)
    requires Inv(m) && Enabled(m, s)
    ensures Inv(Next(m, s))
  {
    match s
    case Submit => SubmitKeeps(m);
    case Check(w) => InFlightIdle(m.workers, w, if m.running then Waiting else Exited);
    case Take(w) =>
      if m.queue != [] { TakeKeeps(m, w); } else { InFlightIdle(m.workers, w, Exited); }
    case Finish(w) => FinishKeeps(m, w);
    case Stop =>
  }

  // ---------- Whole runs ----------

  ghost predicate IsRun(m: Mover, run: seq<Step>)
    decreases |run|
  {
    run == [] || (Enabled(m, run[0]) && IsRun(Next(m, run[0]), run[1..]))
  }

  ghost function After(m: Mover, run: seq<Step>): Mover
    requires IsRun(m, run)
    decreases |run|
  {
    if run == [] then m else After(Next(m, run[0]), run[1..])
  }

  /** In every state of every interleaving. */
  lemma {:induction false} RunKeeps(m: Mover, run: seq<Step>)
    requires Inv(m) && IsRun(m, run)
    ensures Inv(After(m, run))
    decreases |run|
  {
    if run != [] {
      StepKeeps(m, run[0]);
      RunKeeps(Next(m, run[0]), run[1..]);
    }
  }

  /** Every submitted task is in exactly one place, once; the counter counts those in flight; dequeues are in order. */
  lemma TasksAreConserved(threads: nat, run: seq<Step>)
    requires IsRun(Start(threads), run)
    ensures var m := After(Start(threads), run);
            && multiset(m.queue) + InFlight(m.workers) + multiset(m.finished) == multiset(Upto(m.submitted))
            && (forall t: nat :: multiset(Upto(m.submitted))[t] == if t < m.submitted then 1 else 0)
            && m.taken == Upto(|m.taken|) && m.active == |InFlight(m.workers)|
  {
    var m := After(Start(threads), run);
    StartKeeps(threads);
    RunKeeps(Start(threads), run);
    assert multiset(m.taken + m.queue) == multiset(m.taken) + multiset(m.queue);
    forall t: nat ensures multiset(Upto(m.submitted))[t] == if t < m.submitted then 1 else 0 {
      OnceEach(m.submitted, t);
    }
    assert m.taken == (m.taken + m.queue)[..|m.taken|];
  }

  lemma {:induction false} OnceEach(n: nat, t: nat)
    ensures multiset(Upto(n))[t] == if t < n then 1 else 0
    decreases n
  {
    if n > 0 {
      assert Upto(n) == Upto(n - 1) + [n - 1];
      OnceEach(n - 1, t);
    }
  }

  /** When `WaitAll` gets through, every task submitted so far has finished, exactly once. */
  lemma WaitAllMeansDone(m: Mover)
    requires Inv(m) && Drained(m)
    ensures forall t: nat :: multiset(m.finished)[t] == if t < m.submitted then 1 else 0
  {
    assert InFlight(m.workers) == multiset{};
    assert m.taken + [] == m.taken;
    forall t: nat ensures multiset(m.finished)[t] == if t < m.submitted then 1 else 0 {
      OnceEach(m.submitted, t);
    }
  }

  // ---------- While running ----------

  /** A queued task can be taken by a thread that is about to test the flag: two steps, and it is in flight. */
  lemma QueuedIsTaken(m: Mover, w: nat)
    requires m.running && m.queue != [] && w < |m.workers| && m.workers[w] == Checking
    ensures IsRun(m, [Check(w), Take(w)])
    ensures var n := After(m, [Check(w), Take(w)]);
            && n.workers == m.workers[w := Running(m.queue[0])] && m.queue == [m.queue[0]] + n.queue
            && n.active == m.active + 1 && n.finished == m.finished && n.submitted == m.submitted
  {
    var run, a := [Check(w), Take(w)], Next(m, Check(w));
    assert Enabled(a, Take(w)) && IsRun(Next(a, Take(w)), []);
    assert run[1..] == [Take(w)] && [Take(w)][1..] == [];
    assert IsRun(a, [Take(w)]);
    assert After(m, run) == After(a, run[1..]);
    assert After(a, [Take(w)]) == Next(a, Take(w));
  }

  /** While the flag is up no thread leaves. */
  ghost predicate Staffed(m: Mover)
  {
    m.running ==> forall w | 0 <= w < |m.workers| :: m.workers[w] != Exited
  }

  lemma {:induction false} StaysStaffed(m: Mover, run: seq<Step>)
    requires Staffed(m) && IsRun(m, run)
    ensures Staffed(After(m, run)) && |After(m, run).workers| == |m.workers|
    decreases |run|
  {
    if run != [] { StaysStaffed(Next(m, run[0]), run[1..]); }
  }

  /** How many steps the threads are from having nothing left to do, at most. */
  function Distance(workers: seq<Worker>): nat
  {
    if workers == [] then 0 else Distance(workers[1..]) + Steps(workers[0])
  }

  function Steps(w: Worker): nat { match w case Running(_) => 3 case Checking => 2 case Waiting => 1 case Exited => 0 }

  lemma {:induction false} DistanceUpdate(workers: seq<Worker>, w: nat, to: Worker)
    requires w < |workers|
    ensures Distance(workers[w := to]) + Steps(workers[w]) == Distance(workers) + Steps(to)
    decreases w
  {
    if w == 0 {
      assert workers[0 := to][1..] == workers[1..];
    } else {
      assert workers[w := to][1..] == workers[1..][w - 1 := to];
      DistanceUpdate(workers[1..], w - 1, to);
    }
  }

  lemma {:induction false} SomeoneRuns(workers: seq<Worker>) returns (w: nat)
    requires InFlight(workers) != multiset{}
    ensures w < |workers| && workers[w].Running?
  {
    if workers[0].Running? {
      w := 0;
    } else {
      var v := SomeoneRuns(workers[1..]);
      w := v + 1;
    }
  }

  ghost predicate Able(m: Mover) { Inv(m) && Staffed(m) && m.running && |m.workers| > 0 }

  function Measure(m: Mover): nat { 4 * |m.queue| + Distance(m.workers) }

  /** As long as something is left to do, some thread can get closer to the end. */
  lemma WorkGoesOn(m: Mover) returns (s: Step)
    requires Able(m) && !Drained(m)
    ensures Enabled(m, s) && s != Submit && s != Stop
    ensures var n := Next(m, s);
            Able(n) && n.submitted == m.submitted && Measure(n) < Measure(m)
  {
    hide Inv, InFlight, Distance;
    if InFlight(m.workers) != multiset{} {
      var w := SomeoneRuns(m.workers);
      s := Finish(w);
      DistanceUpdate(m.workers, w, Checking);
    } else {
      IdleIsNotRunning(m.workers, 0);
      SomethingQueued(m);
      s := if m.workers[0] == Checking then Check(0) else Take(0);
      DistanceUpdate(m.workers, 0, if m.workers[0] == Checking then Waiting else Running(m.queue[0]));
    }
    StepKeeps(m, s);
  }

  lemma SomethingQueued(m: Mover)
    requires Inv(m) && !Drained(m) && InFlight(m.workers) == multiset{}
    ensures m.queue != []
  {
  }

  lemma {:induction false} IdleIsNotRunning(workers: seq<Worker>, w: nat)
    requires InFlight(workers) == multiset{} && w < |workers|
    ensures !workers[w].Running?
  {
    if w == 0 {
      assert Load(workers[0]) <= InFlight(workers);
    } else {
      assert InFlight(workers[1..]) <= InFlight(workers);
      IdleIsNotRunning(workers[1..], w - 1);
    }
  }

  /** From any state of a running mover that has a thread, steps of the threads alone can finish everything submitted so far. */
  lemma {:induction false} CanDrain(m: Mover) returns (run: seq<Step>)
    requires Able(m)
    ensures IsRun(m, run) && (forall i | 0 <= i < |run| :: run[i] != Submit && run[i] != Stop)
    ensures var n := After(m, run);
            Inv(n) && Drained(n) && n.submitted == m.submitted
    decreases Measure(m)
  {
    hide Next, Enabled, Inv, Staffed, Measure, Drained;
    if Drained(m) {
      run := [];
    } else {
      var s := WorkGoesOn(m);
      var rest := CanDrain(Next(m, s));
      run := [s] + rest;
      assert run[1..] == rest;
    }
  }

  /** So however it got there, a mover that is still running and has a thread can finish every task submitted so far, once each. */
  lemma RunningCanFinish(threads: nat, run: seq<Step>) returns (more: seq<Step>)
    requires threads > 0 && IsRun(Start(threads), run) && After(Start(threads), run).running
    ensures var m := After(Start(threads), run);
            && IsRun(m, more) && (forall i | 0 <= i < |more| :: more[i] != Submit && more[i] != Stop)
            && Drained(After(m, more))
            && forall t: nat :: multiset(After(m, more).finished)[t] == if t < m.submitted then 1 else 0
  {
    hide Inv, Staffed, Next, Enabled;
    var m := After(Start(threads), run);
    StartKeeps(threads);
    StartStaffed(threads);
    RunKeeps(Start(threads), run);
    StaysStaffed(Start(threads), run);
    more := CanDrain(m);
    WaitAllMeansDone(After(m, more));
  }

  lemma StartStaffed(threads: nat)
    ensures Staffed(Start(threads)) && |Start(threads).workers| == threads
  {
  }

  // ---------- After Stop ----------

  /** How many tasks one worker takes in a run. */
  ghost function Taken(m: Mover, run: seq<Step>, w: nat): nat
    requires IsRun(m, run)
    decreases |run|
  {
    if run == [] then 0
    else (if run[0] == Take(w) && m.queue != [] then 1 else 0) + Taken(Next(m, run[0]), run[1..], w)
  }

  /** Once stopped, a worker that is already waiting takes at most one more task, and no other takes any. */
  lemma {:induction false} StopEndsWork(m: Mover, run: seq<Step>, w: nat)
    requires !m.running && IsRun(m, run) && w < |m.workers|
    ensures Taken(m, run, w) <= if m.workers[w] == Waiting then 1 else 0
    ensures !After(m, run).running
    decreases |run|
  {
    if run != [] {
      StopEndsWork(Next(m, run[0]), run[1..], w);
    }
  }

  /** A thread that waits when the flag goes down still gets one task off a queue that is not empty, and leaves when it is. */
  lemma LastTake(m: Mover, w: nat)
    requires !m.running && w < |m.workers| && m.workers[w] == Waiting
    ensures Enabled(m, Take(w))
    ensures var n := Next(m, Take(w));
            if m.queue == [] then n == m.(workers := m.workers[w := Exited])
            else n.workers[w] == Running(m.queue[0]) && m.queue == [m.queue[0]] + n.queue
  {
  }

  ghost function Stopped(m: Mover): bool
  {
    forall w | 0 <= w < |m.workers| :: m.workers[w] == Exited
  }

  lemma StoppedStep(m: Mover, s: Step)
    requires Stopped(m) && Enabled(m, s)
    ensures var n := Next(m, s); Stopped(n) && n.finished == m.finished && m.queue <= n.queue
  {
  }

  /** When all threads are gone, what is still queued stays queued and unfinished for good. */
  lemma {:induction false} StopLeavesQueue(m: Mover, run: seq<Step>)
    requires Stopped(m) && IsRun(m, run)
    ensures After(m, run).finished == m.finished && m.queue <= After(m, run).queue
    decreases |run|
  {
    hide Next, Enabled, Stopped;
    if run != [] {
      StoppedStep(m, run[0]);
      StopLeavesQueue(Next(m, run[0]), run[1..]);
    }
  }

  /** So after `Stop` a `WaitAll` gets through if and only if nothing was left in the queue. */
  lemma DrainedAfterStop(m: Mover)
    requires Inv(m) && Stopped(m)
    ensures Drained(m) <==> m.queue == []
    ensures Drained(m) <==> |m.finished| == m.submitted
  {
    NoneRunning(m.workers);
    assert |multiset(m.taken)| == |multiset(m.finished)|;
    assert |m.taken + m.queue| == m.submitted;
  }

  lemma {:induction false} NoneRunning(workers: seq<Worker>)
    requires forall w | 0 <= w < |workers| :: workers[w] == Exited
    ensures InFlight(workers) == multiset{}
    decreases |workers|
  {
    if workers != [] { NoneRunning(workers[1..]); }
  }
}
