/** examples/event_loop.rs: a cooperative scheduler driving a FIFO queue of tasks
    whose only effect is a timer.

    In the source a timer is a background thread that sleeps and then
    increments the task's shared `AtomicU8` flag. Here that thread is the
    environment action `TimerFired`, interleaved with the scheduler's loop
    iterations (`Tick`). Durations are carried but no elapsed time is modelled. */
module EventLoop {
  import opened Base
  import opened Coroutine
  import opened Macros

  /** The lifecycle states, declared in the source's order. Their numeric
      encoding (see `StateFrom`) follows a different order. */
  datatype State = Begin | Finished | Waiting | End

  /** `State::from(u8)`: 0 is Begin, 1 Waiting, 2 Finished, 3 End; any other
      value is unreachable in the source, hence the precondition. */
  function StateFrom(v: uint8): (s: State)
    requires v <= 3
    ensures s == Begin <==> v == 0
    ensures s == Waiting <==> v == 1
    ensures s == Finished <==> v == 2
    ensures s == End <==> v == 3
  {
    match v
    case 0 => Begin
    case 1 => Waiting
    case 2 => Finished
    case 3 => End
  }

  /** `Timeout`: how long to wait, in milliseconds. */
  datatype Timeout = Timeout(delay: nat)

  /** The only effect: wait for a timeout. */
  datatype Effect = Timer(timeout: Timeout)

  /** `Effect::from(Timeout)`: the timer effect for a timeout. */
  function EffectFromTimeout(t: Timeout): (e: Effect)
    ensures e.timeout == t
  {
    Timer(t)
  }

  /** `AtomicU8::fetch_add(1)`: wraps around at 256. */
  function WrappingInc(v: uint8): (r: uint8)
    ensures v < 255 ==> r == v + 1
    ensures v == 255 ==> r == 0
  {
    (v + 1) % 0x100
  }

  /** A task: its lifecycle flag and its coroutine, which takes `()` (the
      `I::from(())` of the source) and returns `()`. */
  datatype Task = Task(flag: uint8, cont: Handle<(), Effect, ()>)

  /** `Task::new`: a task starts with flag 0, i.e. `Begin`. */
  function NewTask(cont: Handle<(), Effect, ()>): (t: Task)
    ensures t.cont == cont
    ensures t.flag == 0 && StateFrom(t.flag) == Begin
  {
    Task(0, cont)
  }

  /** The scheduler: its FIFO queue of tasks. */
  datatype Scheduler = Scheduler(queue: seq<Task>)

  /** `Handler::new`: an empty queue. */
  function NewScheduler(): (s: Scheduler)
    ensures |s.queue| == 0
  {
    Scheduler([])
  }

  /** What a task's coroutine reported at its latest resume. */
  function LastReport(h: Handle<(), Effect, ()>): Report<Effect, ()>
    requires |h.fed| > 0
  {
    h.comp(h.fed[0])(h.fed[1..])
  }

  /** The flag tells the truth about the coroutine: a `Begin` task in the queue
      was never resumed, a `Waiting` or `Finished` one is paused at a timer, an
      `End` one has completed. */
  ghost predicate Tracks(t: Task)
  {
    && t.flag <= 3
    && (t.flag == 0 ==> |t.cont.fed| == 0)
    && (t.flag == 1 || t.flag == 2 ==> |t.cont.fed| > 0 && LastReport(t.cont).Suspended?)
    && (t.flag == 3 ==> |t.cont.fed| > 0 && LastReport(t.cont).Completed?)
  }

  ghost predicate Valid(s: Scheduler)
  {
    forall i :: 0 <= i < |s.queue| ==> Tracks(s.queue[i])
  }

  /** `Handler::handle_task`: resume the task once with `()`. On completion set
      the flag to 3 and push the task back. On a timer, if the flag reads
      `Begin`, increment it (the timer thread is spawned here; its firing is
      `TimerFired`) and push the task back; otherwise push it back unchanged. */
  function HandleTask(s: Scheduler, task: Task): (s': Scheduler)
    requires task.flag <= 3
    ensures |s'.queue| == |s.queue| + 1 && s'.queue[..|s.queue|] == s.queue
    ensures var last := s'.queue[|s.queue|];
      && last.cont == Resume(task.cont, ()).1
      && (Resume(task.cont, ()).0.Completed? ==> last.flag == 3)
      && (Resume(task.cont, ()).0.Suspended? && task.flag == 0 ==> last.flag == 1)
      && (Resume(task.cont, ()).0.Suspended? && task.flag != 0 ==> last.flag == task.flag)
  {
    var resumed: (Report<Effect, ()>, Handle<(), Effect, ()>) := Resume(task.cont, ());
    match resumed.0
    case Completed(_) => Scheduler(s.queue + [Task(3, resumed.1)])
    case Suspended(Timer(_)) =>
      match StateFrom(task.flag)
      case Begin => Scheduler(s.queue + [Task(WrappingInc(task.flag), resumed.1)])
      case _ => Scheduler(s.queue + [Task(task.flag, resumed.1)])
  }

  /** The result of one pass of `handle`'s loop: it returned, or it goes on. */
  datatype Iteration = Returned(s: Scheduler) | Continue(s: Scheduler)

  /** One pass of `handle`'s `while` loop. An empty queue ends the loop. The
      front task is popped and its flag decoded: `Begin` is driven by
      `handle_task`; `Finished` is driven as a new task (flag 0) over the same
      coroutine; `Waiting` is pushed back without being resumed; `End` returns
      from `handle` at once, whatever else is queued. */
  function LoopStep(s: Scheduler): (r: Iteration)
    requires Valid(s)
    ensures |s.queue| == 0 ==> r == Returned(s)
    ensures |s.queue| > 0 && s.queue[0].flag == 3 ==> r == Returned(Scheduler(s.queue[1..]))
    ensures |s.queue| > 0 && s.queue[0].flag == 1 ==> r == Continue(Scheduler(s.queue[1..] + [s.queue[0]]))
    ensures |s.queue| > 0 && (s.queue[0].flag == 0 || s.queue[0].flag == 2) ==>
      var resumed := Resume(s.queue[0].cont, ());
      r == Continue(Scheduler(s.queue[1..] + [Task(if resumed.0.Completed? then 3 else 1, resumed.1)]))
    ensures r.Continue? ==> |r.s.queue| == |s.queue| && Valid(r.s)
  {
    if |s.queue| == 0 then Returned(s)
    else
      var task := s.queue[0];
      var rest := Scheduler(s.queue[1..]);
      assert Tracks(task);
      match StateFrom(task.flag)
      case Begin => Continue(HandleTask(rest, task))
      case Finished => Continue(HandleTask(rest, NewTask(task.cont)))
      case Waiting => Continue(Scheduler(rest.queue + [task]))
      case End => Returned(rest)
  }

  /** The loop ends only on an empty queue or on a task whose coroutine has
      completed. */
  lemma LoopEndsOnlyOnCompletion(s: Scheduler)
    requires Valid(s)
    requires LoopStep(s).Returned?
    ensures |s.queue| == 0 || (s.queue[0].flag == 3 && LastReport(s.queue[0].cont).Completed?)
  {
    if |s.queue| > 0 {
      assert Tracks(s.queue[0]);
    }
  }

  /** The background timer thread of task `i` wakes up: its flag goes from
      `Waiting` to `Finished`. A timer exists only for a `Waiting` task, so at
      any other position nothing happens. */
  function TimerFires(s: Scheduler, i: nat): (s': Scheduler)
    ensures |s'.queue| == |s.queue|
    ensures forall j :: 0 <= j < |s.queue| && j != i ==> s'.queue[j] == s.queue[j]
    ensures i < |s.queue| && s.queue[i].flag == 1 ==>
      s'.queue[i].cont == s.queue[i].cont && s'.queue[i].flag == 2 && StateFrom(s'.queue[i].flag) == Finished
    ensures !(i < |s.queue| && s.queue[i].flag == 1) ==> s' == s
  {
    if i < |s.queue| && s.queue[i].flag == 1 then
      Scheduler(s.queue[i := s.queue[i].(flag := WrappingInc(s.queue[i].flag))])
    else s
  }

  lemma TimerFiresValid(s: Scheduler, i: nat)
    requires Valid(s)
    ensures Valid(TimerFires(s, i))
  {
    if i < |s.queue| {
      assert Tracks(s.queue[i]);
    }
  }

  /** What happens next: the scheduler runs one loop pass, or a timer fires. */
  datatype Action = Tick | TimerFired(index: nat)

  /** Runs `handle`'s loop interleaved with timer firings, in the order given,
      until the loop returns or the actions run out. The queue keeps its length
      while the loop goes on and loses the returning task when it ends. */
  function RunLoop(s: Scheduler, actions: seq<Action>): (r: Iteration)
    requires Valid(s)
    ensures Valid(r.s)
    ensures r.Continue? ==> |r.s.queue| == |s.queue|
    ensures r.Returned? ==> |r.s.queue| == if |s.queue| == 0 then 0 else |s.queue| - 1
    decreases |actions|
  {
    if |actions| == 0 then Continue(s)
    else
      match actions[0]
      case Tick =>
        (match LoopStep(s)
         case Returned(s') => Returned(s')
         case Continue(s') => RunLoop(s', actions[1..]))
      case TimerFired(i) =>
        TimerFiresValid(s, i);
        RunLoop(TimerFires(s, i), actions[1..])
  }

  /** `handle(pre, continuation)`: enqueue the continuation as a new task and run
      the loop. `pre` is ignored, as in the source. */
  function HandleComp(s: Scheduler, pre: (), c: Comp<(), Effect, ()>, actions: seq<Action>): (r: Iteration)
    requires Valid(s)
    ensures Valid(Scheduler(s.queue + [NewTask(Fresh(c))]))
    ensures r == RunLoop(Scheduler(s.queue + [NewTask(Fresh(c))]), actions)
    ensures r.Continue? ==> |r.s.queue| == |s.queue| + 1
    ensures r.Returned? ==> |r.s.queue| == |s.queue|
  {
    var s0 := Scheduler(s.queue + [NewTask(Fresh(c))]);
    assert Tracks(NewTask(Fresh(c)));
    RunLoop(s0, actions)
  }

  /** Driven from a fresh handler, the queue only ever holds the one task, and
      that task keeps the coroutine it was enqueued with, so when the loop
      returns nothing is left behind. */
  lemma {:induction false} SingleTaskReturnsEmpty(s: Scheduler, actions: seq<Action>)
    requires Valid(s) && |s.queue| == 1
    ensures RunLoop(s, actions).Returned? ==> |RunLoop(s, actions).s.queue| == 0
    ensures RunLoop(s, actions).Continue? ==>
      |RunLoop(s, actions).s.queue| == 1 && RunLoop(s, actions).s.queue[0].cont.comp == s.queue[0].cont.comp
    decreases |actions|
  {
    if |actions| > 0 {
      match actions[0]
      case Tick =>
        var step := LoopStep(s);
        if step.Continue? {
          SingleTaskReturnsEmpty(step.s, actions[1..]);
        }
      case TimerFired(i) =>
        TimerFiresValid(s, i);
        SingleTaskReturnsEmpty(TimerFires(s, i), actions[1..]);
    }
  }

  /** A `Waiting` task alone in the queue (the shape `handle` builds from
      `Handler::new`, see `HandleComp`) with no timer firing is never resumed:
      the loop spins on it for ever. */
  lemma {:induction false} WaitingSpins(t: Task, n: nat)
    requires Tracks(t) && t.flag == 1
    ensures RunLoop(Scheduler([t]), seq(n, _ => Tick)) == Continue(Scheduler([t]))
    decreases n
  {
    var s := Scheduler([t]);
    assert Valid(s);
    if n > 0 {
      assert seq(n, _ => Tick)[1..] == seq(n - 1, _ => Tick);
      assert LoopStep(s) == Continue(s);
      WaitingSpins(t, n - 1);
    }
  }

  // ---------------------------------------------------------------------------
  // The example's session: five 1-second timeouts, then one of 5 seconds
  // ---------------------------------------------------------------------------

  /** `n` unit inputs. */
  function Units(n: nat): (u: seq<()>)
    ensures |u| == n
  {
    seq(n, _ => ())
  }

  /** `go!(Timeout::of(d) => Effect)` / `go!(Timeout::of(d))` as a statement
      of `main`'s body, followed by the rest `k` of the body. */
  function Sleep(ms: nat, k: Body<(), Effect, ()>): Body<(), Effect, ()>
  {
    Then(Suspend(EffectFromTimeout, Timeout(ms)), (_: ()) => k)
  }

  /** A sleep suspends once with its timer and then hands the later inputs to
      the rest of the body. */
  lemma SleepReports(ms: nat, k: Body<(), Effect, ()>, ys: seq<()>)
    ensures |ys| == 0 ==> Sleep(ms, k)(ys) == Suspended(Timer(Timeout(ms)))
    ensures |ys| > 0 ==> Sleep(ms, k)(ys) == k(ys[1..])
  {
    SuspendTrace(EffectFromTimeout, Timeout(ms), ys);
  }

  /** `for _ in 0..n { go!(Timeout::of(1 s) => Effect); }` followed by `k`. */
  function SleepSeconds(n: nat, k: Body<(), Effect, ()>): Body<(), Effect, ()>
  {
    if n == 0 then k else Sleep(1000, SleepSeconds(n - 1, k))
  }

  /** The loop of `n` one-second sleeps suspends at each of its first `n`
      reports with a 1-second timer and then hands the rest of the inputs on. */
  lemma {:induction false} SleepSecondsReports(n: nat, k: Body<(), Effect, ()>, ys: seq<()>)
    ensures |ys| < n ==> SleepSeconds(n, k)(ys) == Suspended(Timer(Timeout(1000)))
    ensures |ys| >= n ==> SleepSeconds(n, k)(ys) == k(ys[n..])
  {
    if n > 0 {
      SleepReports(1000, SleepSeconds(n - 1, k), ys);
      if |ys| > 0 {
        SleepSecondsReports(n - 1, k, ys[1..]);
        if |ys| >= n {
          assert ys[1..][n - 1..] == ys[n..];
        }
      }
    }
  }

  /** The coroutine of `main`: five 1-second timeouts, then a 5-second one, then
      it returns `()`. */
  function Sleeper(): Comp<(), Effect, ()>
  {
    _ => SleepSeconds(5, Sleep(5000, Return(())))
  }

  /** Resumed after `k` later inputs, `main`'s coroutine reports a 1-second
      timer for `k < 5`, the 5-second timer at `k = 5`, and completion after. */
  lemma SleeperReports(ys: seq<()>)
    ensures |ys| < 5 ==> Sleeper()(())(ys) == Suspended(Timer(Timeout(1000)))
    ensures |ys| == 5 ==> Sleeper()(())(ys) == Suspended(Timer(Timeout(5000)))
    ensures |ys| > 5 ==> Sleeper()(())(ys) == Completed(())
  {
    var k := Sleep(5000, Return(()));
    SleepSecondsReports(5, k, ys);
    if |ys| >= 5 {
      SleepReports(5000, Return(()), ys[5..]);
    }
  }

  /** The actions after the first loop pass: `k` rounds of "the timer fires,
      then the loop resumes the task", then one more pass. */
  function TimerRounds(k: nat): seq<Action>
  {
    if k == 0 then [Tick] else [TimerFired(0), Tick] + TimerRounds(k - 1)
  }

  /** The scheduler holding only the sleeper after `k` resumes. */
  function SleeperAfter(k: nat): Scheduler
    requires 1 <= k
  {
    Scheduler([Task(if k == 7 then 3 else 1, Handle(Sleeper(), Units(k)))])
  }

  lemma SleeperAfterValid(k: nat)
    requires 1 <= k <= 7
    ensures Valid(SleeperAfter(k))
  {
    var t := SleeperAfter(k).queue[0];
    assert t.cont.fed[1..] == Units(k - 1);
    SleeperReports(Units(k - 1));
    assert Tracks(t);
  }

  lemma {:induction false} SleeperRounds(k: nat)
    requires 1 <= k <= 6
    ensures Valid(SleeperAfter(k))
    ensures RunLoop(SleeperAfter(k), TimerRounds(7 - k)) == Returned(Scheduler([]))
    decreases 7 - k
  {
    SleeperAfterValid(k);
    SleeperAfterValid(k + 1);
    var s := SleeperAfter(k);
    var acts := TimerRounds(7 - k);
    assert acts[0] == TimerFired(0);
    assert acts[1..][0] == Tick;
    assert acts[1..][1..] == TimerRounds(6 - k);
    var fired := TimerFires(s, 0);
    TimerFiresValid(s, 0);
    SleeperReports(Units(k));
    assert Resume(fired.queue[0].cont, ()).1 == Handle(Sleeper(), Units(k + 1));
    assert Units(k)[1..] + [()] == Units(k);
    assert LoopStep(fired) == Continue(SleeperAfter(k + 1));
    assert RunLoop(s, acts) == RunLoop(fired, acts[1..]);
    assert RunLoop(fired, acts[1..]) == RunLoop(SleeperAfter(k + 1), acts[1..][1..]);
    if k < 6 {
      SleeperRounds(k + 1);
    } else {
      assert TimerRounds(6 - k) == [Tick];
      assert LoopStep(SleeperAfter(7)) == Returned(Scheduler([]));
    }
  }

  /** The example's session: from a fresh handler, one loop pass starts the
      sleeper, then six rounds of "timer fires, loop resumes" run it to
      completion, and the next pass returns from `handle` with an empty queue. */
  lemma SleeperSession()
    ensures HandleComp(NewScheduler(), (), Sleeper(), [Tick] + TimerRounds(6)) == Returned(Scheduler([]))
  {
    var s0 := Scheduler([NewTask(Fresh(Sleeper()))]);
    assert s0 == Scheduler(NewScheduler().queue + [NewTask(Fresh(Sleeper()))]);
    assert Tracks(NewTask(Fresh(Sleeper())));
    assert Valid(s0);
    var acts := [Tick] + TimerRounds(6);
    assert acts[1..] == TimerRounds(6);
    assert Units(1) == [()];
    var r := Resume(Fresh(Sleeper()), ());
    SleeperReports([]);
    assert r.0.Suspended?;
    assert r.1 == Handle(Sleeper(), Units(1));
    SleeperAfterValid(1);
    assert LoopStep(s0) == Continue(SleeperAfter(1));
    SleeperRounds(1);
  }
}
